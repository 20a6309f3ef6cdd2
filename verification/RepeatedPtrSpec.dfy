/**
 RepeatedPtrFieldBase (repeated_field.h) as a state machine: a sequence of live objects, a pool of
 cleared ones kept for reuse, and the heap. Proved over every run: no object is lost, shared,
 deleted twice or used after deletion, and the live objects behave as a plain sequence.
 */
module RepeatedPtrSpec {
  import opened Bytes
  import opened Growth
  import opened Store

  datatype Field = Field(live: seq<Ptr>, pool: seq<Ptr>, total: nat)

  /** merge is TypeHandler::Merge: what an object holds after merging a value into it. */
  datatype State<!V> = State(f: Field, h: Heap<V>, merge: (V, V) -> V)

  /** Merging into an empty object copies the value. */
  ghost predicate MergesOntoEmpty<V(!new)>(merge: (V, V) -> V, empty: V) {
    forall v: V :: merge(empty, v) == v
  }

  function Values<V>(s: State<V>): (v: seq<V>)
    ensures |v| == |s.f.live|
  {
    seq(|s.f.live|, i requires 0 <= i < |s.f.live| => Read(s.h, s.f.live[i]))
  }

  /** All objects in the slots [0, allocated_size_) */
  function Owned<V>(s: State<V>): seq<Ptr> { s.f.live + s.f.pool }

  ghost predicate Inv<V(!new)>(s: State<V>) {
    && |s.f.live| + |s.f.pool| <= s.f.total && MergesOntoEmpty(s.merge, s.h.empty)
    && Conserved(Owned(s), s.h)
    && forall i | 0 <= i < |s.f.pool| :: s.h.Live(s.f.pool[i]) && s.h.contents[s.f.pool[i]] == s.h.empty
  }

  // ---- The operations ----------------------------------------------------------------------

  function Add<V>(s: State<V>): State<V> {
    var Field(live, pool, total) := s.f;
    if pool != [] then s.(f := Field(live + [pool[0]], pool[1..], total))
    else s.(f := Field(live + [s.h.next], [], if |live| == total then Grown(total, total + 1) else total), h := s.h.New())
  }

  function RemoveLast<V>(s: State<V>): State<V>
    requires s.f.live != [] && s.h.Live(s.f.live[|s.f.live| - 1])
  {
    var Field(live, pool, total) := s.f;
    var n := |live| - 1;
    s.(f := Field(live[..n], [live[n]] + pool, total), h := s.h.Assign(live[n], s.h.empty))
  }

  function ClearAll<V>(h: Heap<V>, ps: seq<Ptr>): Heap<V>
    decreases ps
  {
    if ps == [] then h
    else ClearAll(if h.Live(ps[0]) then h.Assign(ps[0], h.empty) else h, ps[1..])
  }

  function Clear<V>(s: State<V>): State<V> {
    s.(f := Field([], s.f.live + s.f.pool, s.f.total), h := ClearAll(s.h, s.f.live))
  }

  function AddAllocated<V>(s: State<V>, p: Ptr): State<V> {
    var Field(live, pool, total) := s.f;
    var h := s.h.Take(p);
    if |live| == total then s.(f := Field(live + [p], pool, Grown(total, total + 1)), h := h)
    else if pool == [] then s.(f := Field(live + [p], [], total), h := h)
    else if |live| + |pool| == total then s.(f := Field(live + [p], pool[1..], total), h := h.Delete(pool[0]))
    else s.(f := Field(live + [p], pool[1..] + [pool[0]], total), h := h)
  }

  /** The last pooled object moves into the slot that was freed. */
  function ReleaseLast<V>(s: State<V>): State<V>
    requires s.f.live != []
  {
    var Field(live, pool, total) := s.f;
    var n, k := |live| - 1, |pool| - 1;
    s.(f := Field(live[..n], if pool == [] then [] else [pool[k]] + pool[..k], total), h := s.h.Give(live[n]))
  }

  function AddCleared<V>(s: State<V>, p: Ptr): State<V> {
    var Field(live, pool, total) := s.f;
    s.(f := Field(live, pool + [p], if |live| + |pool| == total then Grown(total, total + 1) else total), h := s.h.Take(p))
  }

  function ReleaseCleared<V>(s: State<V>): State<V>
    requires s.f.pool != []
  {
    var Field(live, pool, total) := s.f;
    var k := |pool| - 1;
    s.(f := Field(live, pool[..k], total), h := s.h.Give(pool[k]))
  }

  function Cut<T>(s: seq<T>, start: nat, num: nat): seq<T>
    requires start + num <= |s|
  {
    s[..start] + s[start + num..]
  }

  function GiveAll<V>(h: Heap<V>, ps: seq<Ptr>): Heap<V>
    decreases ps
  {
    if ps == [] then h else GiveAll(h.Give(ps[0]), ps[1..])
  }

  function DeleteAll<V>(h: Heap<V>, ps: seq<Ptr>): Heap<V>
    decreases ps
  {
    if ps == [] then h else DeleteAll(h.Delete(ps[0]), ps[1..])
  }

  function ExtractSubrange<V>(s: State<V>, start: nat, num: nat): State<V>
    requires start + num <= |s.f.live|
  {
    s.(f := s.f.(live := Cut(s.f.live, start, num)), h := GiveAll(s.h, s.f.live[start..start + num]))
  }

  function DeleteSubrange<V>(s: State<V>, start: nat, num: nat): State<V>
    requires start + num <= |s.f.live|
  {
    s.(f := s.f.(live := Cut(s.f.live, start, num)), h := DeleteAll(s.h, s.f.live[start..start + num]))
  }

  function Reserve<V>(s: State<V>, size: nat): State<V> { s.(f := s.f.(total := Grown(s.f.total, size))) }

  /** A value written through the pointer that Mutable or Add returned */
  function Write<V>(s: State<V>, i: nat, value: V): State<V>
    requires i < |s.f.live|
  {
    if s.h.Live(s.f.live[i]) then s.(h := s.h.Assign(s.f.live[i], value)) else s
  }

  function SwapElements<V>(s: State<V>, i: nat, j: nat): State<V>
    requires i < |s.f.live| && j < |s.f.live|
  {
    s.(f := s.f.(live := s.f.live[i := s.f.live[j]][j := s.f.live[i]]))
  }

  /** A value merged into an element */
  function MergeInto<V>(s: State<V>, i: nat, value: V): State<V>
    requires i < |s.f.live|
  {
    Write(s, i, s.merge(Read(s.h, s.f.live[i]), value))
  }

  /** Add and then Merge for each value of the other field */
  function Append<V>(s: State<V>, values: seq<V>): State<V>
    decreases values
  {
    if values == [] then s
    else
      var s' := Add(s);
      Append(MergeInto(s', |s'.f.live| - 1, values[0]), values[1..])
  }

  function MergeFrom<V>(s: State<V>, values: seq<V>): State<V> {
    Append(Reserve(s, |s.f.live| + |values|), values)
  }

  function CopyFrom<V>(s: State<V>, values: seq<V>): State<V> { MergeFrom(Clear(s), values) }

  function Destroy<V>(s: State<V>): State<V> { s.(f := Field([], [], 0), h := DeleteAll(s.h, Owned(s))) }

  datatype Op<V> =
    | OpAdd
    | OpRemoveLast
    | OpClear
    | OpAddAllocated(p: Ptr)
    | OpReleaseLast
    | OpAddCleared(p: Ptr)
    | OpReleaseCleared
    | OpExtractSubrange(start: nat, num: nat)
    | OpDeleteSubrange(start: nat, num: nat)
    | OpReserve(size: nat)
    | OpWrite(i: nat, value: V)
    | OpSwapElements(i: nat, j: nat)
    | OpMergeFrom(values: seq<V>)
    | OpCopyFrom(values: seq<V>)
    | CallerNew(value: V)
    | CallerDelete(p: Ptr)
    | CallerWrite(p: Ptr, value: V)

  /** What each operation's comment or debug check demands of its caller */
  ghost predicate Enabled<V>(s: State<V>, op: Op<V>) {
    match op
    case OpRemoveLast => s.f.live != [] && s.h.Live(s.f.live[|s.f.live| - 1])
    case OpReleaseLast => s.f.live != []
    case OpAddAllocated(p) => p in s.h.callerOwned
    case OpAddCleared(p) => p in s.h.callerOwned && Read(s.h, p) == s.h.empty
    case OpReleaseCleared => s.f.pool != []
    case OpExtractSubrange(start, num) => start + num <= |s.f.live|
    case OpDeleteSubrange(start, num) => start + num <= |s.f.live|
    case OpWrite(i, _) => i < |s.f.live|
    case OpSwapElements(i, j) => i < |s.f.live| && j < |s.f.live|
    case CallerDelete(p) => p in s.h.callerOwned
    case CallerWrite(p, _) => p in s.h.callerOwned && s.h.Live(p)
    case _ => true
  }

  ghost function Step<V>(s: State<V>, op: Op<V>): State<V>
    requires Enabled(s, op)
  {
    match op
    case OpAdd => Add(s)
    case OpRemoveLast => RemoveLast(s)
    case OpClear => Clear(s)
    case OpAddAllocated(p) => AddAllocated(s, p)
    case OpReleaseLast => ReleaseLast(s)
    case OpAddCleared(p) => AddCleared(s, p)
    case OpReleaseCleared => ReleaseCleared(s)
    case OpExtractSubrange(start, num) => ExtractSubrange(s, start, num)
    case OpDeleteSubrange(start, num) => DeleteSubrange(s, start, num)
    case OpReserve(size) => Reserve(s, size)
    case OpWrite(i, value) => Write(s, i, value)
    case OpSwapElements(i, j) => SwapElements(s, i, j)
    case OpMergeFrom(values) => MergeFrom(s, values)
    case OpCopyFrom(values) => CopyFrom(s, values)
    case CallerNew(value) => s.(h := s.h.NewWith(value).Give(s.h.next))
    case CallerDelete(p) => s.(h := s.h.Take(p).Delete(p))
    case CallerWrite(p, value) => s.(h := s.h.Assign(p, value))
  }

  /** The same operation on a plain sequence of values */
  function OnSequence<V>(v: seq<V>, op: Op<V>, empty: V, given: V): seq<V> {
    var n := |v|;
    match op
    case OpAdd => v + [empty]
    case OpRemoveLast => if n == 0 then v else v[..n - 1]
    case OpReleaseLast => if n == 0 then v else v[..n - 1]
    case OpClear => []
    case OpAddAllocated(_) => v + [given]
    case OpExtractSubrange(start, num) => if start + num <= n then Cut(v, start, num) else v
    case OpDeleteSubrange(start, num) => if start + num <= n then Cut(v, start, num) else v
    case OpWrite(i, value) => if i < n then v[i := value] else v
    case OpSwapElements(i, j) => if i < n && j < n then v[i := v[j]][j := v[i]] else v
    case OpMergeFrom(values) => v + values
    case OpCopyFrom(values) => values
    case _ => v
  }

  /** The value of the object that the operation hands over, if any */
  function Given<V>(s: State<V>, op: Op<V>): V {
    match op
    case OpAddAllocated(p) => Read(s.h, p)
    case _ => s.h.empty
  }
}
