/** How much Reserve grows a buffer, and what growing costs over a whole life (repeated_field.h). */
module Growth {

  const MIN_ALLOCATION := 4

  /** The capacity after Reserve(size) */
  function Grown(total: nat, size: nat): nat {
    if total >= size then total
    else
      var doubled := if total * 2 > size then total * 2 else size;
      if doubled > MIN_ALLOCATION then doubled else MIN_ALLOCATION
  }

  /** Elements held, capacity, and elements copied by all calls of Reserve so far */
  datatype Cost = Cost(size: nat, total: nat, moved: nat)

  const START := Cost(0, 0, 0)

  function ReserveCost(c: Cost, size: nat): Cost {
    c.(total := Grown(c.total, size), moved := c.moved + if c.total >= size then 0 else c.size)
  }

  function AddCost(c: Cost): Cost {
    var c' := if c.size == c.total then ReserveCost(c, c.total + 1) else c;
    c'.(size := c.size + 1)
  }

  function AddsCost(n: nat): Cost {
    if n == 0 then START else AddCost(AddsCost(n - 1))
  }

  /** n calls of Add on an empty field move fewer than 2n elements, and the capacity stays within max(4, 2n). */
  lemma {:induction false} AddIsAmortised(n: nat)
    ensures var c := AddsCost(n);
            && c.size == n <= c.total
            && (n > 0 ==> c.moved < 2 * n)
            && c.total <= (if 2 * n > 4 then 2 * n else 4)
  {
    AddsInvariant(n);
  }

  /** Beyond the first four slots every slot was paid for by one moved element. */
  lemma {:induction false} AddsInvariant(n: nat)
    ensures var c := AddsCost(n);
            && c.size == n <= c.total
            && (n > 0 ==> c.total == c.moved + 4)
            && (n <= 4 ==> c.total <= 4)
            && (n > 4 ==> c.total < 2 * n)
  {
    if n > 0 { AddsInvariant(n - 1); }
  }
}

/** RepeatedField (repeated_field.h): a growable array of primitive values. */
module RepeatedFields {
  import opened Growth

  class RepeatedField<T(0)> {
    var elements: array<T>  // total_size_ is elements.Length
    var currentSize: nat
    ghost var moved: nat

    /** Whatever was done so far, all calls of Reserve together moved at most as many elements as there are slots. */
    ghost predicate Valid()
      reads this
    {
      currentSize <= elements.Length && moved <= elements.Length
    }

    ghost function Contents(): seq<T>
      requires Valid()
      reads this, elements
    {
      elements[..currentSize]
    }

    ghost function Spent(): Cost
      reads this
    {
      Cost(currentSize, elements.Length, moved)
    }

    constructor ()
      ensures Valid() && Contents() == [] && Spent() == START && fresh(elements)
    {
      elements := new T[0];
      currentSize, moved := 0, 0;
    }

    method Reserve(newSize: nat)
      requires Valid()
      modifies this`elements, this`moved
      ensures Valid() && Contents() == old(Contents())
      ensures Spent() == ReserveCost(old(Spent()), newSize)
      ensures elements == old(elements) || fresh(elements)
    {
      if elements.Length >= newSize { return; }
      var oldElements := elements;
      elements := new T[Grown(oldElements.Length, newSize)];
      CopyArray(elements, 0, oldElements, currentSize);
      moved := moved + currentSize;
    }

    /** Stores the first size elements of from in to, from position at on. */
    static method CopyArray(to: array<T>, at: nat, from: array<T>, size: nat)
      requires size <= from.Length && at + size <= to.Length
      requires to == from ==> size <= at
      modifies to
      ensures to[..at] == old(to[..at])
      ensures to[at..at + size] == old(from[..size])
    {
      for i := 0 to size
        invariant forall k | 0 <= k < at :: to[k] == old(to[k])
        invariant forall k | 0 <= k < i :: to[at + k] == old(from[k])
        modifies to
      {
        to[at + i] := from[i];
      }
    }

    method Add(value: T)
      requires Valid()
      modifies this, elements
      ensures Valid() && Contents() == old(Contents()) + [value]
      ensures Spent() == AddCost(old(Spent()))
      ensures elements == old(elements) || fresh(elements)
    {
      if currentSize == elements.Length {
        Reserve(elements.Length + 1);
      }
      AddAlreadyReserved(value);
    }

    method AddAlreadyReserved(value: T)
      requires Valid() && currentSize < elements.Length
      modifies this`currentSize, elements
      ensures Valid() && Contents() == old(Contents()) + [value]
      ensures Spent() == old(Spent()).(size := old(currentSize) + 1)
    {
      elements[currentSize] := value;
      currentSize := currentSize + 1;
    }

    method Set(index: nat, value: T)
      requires Valid() && index < currentSize
      modifies elements
      ensures Valid() && Contents() == old(Contents())[index := value]
    {
      elements[index] := value;
    }

    method RemoveLast()
      requires Valid() && currentSize > 0
      modifies this`currentSize
      ensures Valid() && Contents() == old(Contents())[..old(currentSize) - 1]
    {
      currentSize := currentSize - 1;
    }

    method Truncate(newSize: nat)
      requires Valid() && newSize <= currentSize
      modifies this`currentSize
      ensures Valid() && Contents() == old(Contents())[..newSize]
    {
      currentSize := newSize;
    }

    method Clear()
      requires Valid()
      modifies this`currentSize
      ensures Valid() && Contents() == []
    {
      currentSize := 0;
    }

    /** Copies the range out, slides the rest down over it and truncates. */
    method ExtractSubrange(start: nat, num: nat) returns (extracted: seq<T>)
      requires Valid() && start + num <= currentSize
      modifies this`currentSize, elements
      ensures Valid()
      ensures extracted == old(Contents())[start..start + num]
      ensures Contents() == old(Contents())[..start] + old(Contents())[start + num..]
    {
      extracted := [];
      for i := 0 to num
        invariant extracted == elements[start..start + i]
      {
        extracted := extracted + [elements[i + start]];
      }
      assert extracted == Contents()[start..start + num];
      if num > 0 {
        SlideDown(start, num);
        ghost var was := old(Contents());
        assert elements[..currentSize - num] == elements[..start] + elements[start..currentSize - num];
        assert was[..start] == old(elements[..start]);
        assert was[start + num..] == old(elements[start + num..currentSize]);
        Truncate(currentSize - num);
      }
    }

    method SlideDown(start: nat, num: nat)
      requires Valid() && start + num <= currentSize && num > 0
      modifies elements
      ensures elements[..start] == old(elements[..start])
      ensures elements[start..currentSize - num] == old(elements[start + num..currentSize])
    {
      ghost var was := elements[..];
      for i := start + num to currentSize
        invariant forall k | 0 <= k < start :: elements[k] == was[k]
        invariant forall k | start <= k < i - num :: elements[k] == was[k + num]
        invariant forall k | i - num <= k < elements.Length :: elements[k] == was[k]
        modifies elements
      {
        assert elements[i] == was[i - num + num];
        elements[i - num] := elements[i];
      }
    }

    method Append(from: array<T>, size: nat)
      requires Valid() && size <= from.Length && currentSize + size <= elements.Length
      requires from == elements ==> size <= currentSize
      modifies this`currentSize, elements
      ensures Valid() && Contents() == old(Contents()) + old(from[..size])
    {
      CopyArray(elements, currentSize, from, size);
      currentSize := currentSize + size;
    }

    /** The other field may be this one: Reserve comes first, and the copy reads the buffer as it then is. */
    method MergeFrom(other: RepeatedField<T>)
      requires Valid() && other.Valid() && (other.elements == elements ==> other == this)
      modifies this, elements
      ensures Valid() && Contents() == old(Contents()) + old(other.Contents())
      ensures elements == old(elements) || fresh(elements)
    {
      if other.currentSize != 0 {
        Reserve(currentSize + other.currentSize);
        Append(other.elements, other.currentSize);
      }
    }

    /** Copying a field onto itself empties it; operator= guards against that. */
    method CopyFrom(other: RepeatedField<T>)
      requires Valid() && other.Valid() && (other.elements == elements ==> other == this)
      modifies this, elements
      ensures Valid() && Contents() == if other == this then [] else old(other.Contents())
    {
      Clear();
      MergeFrom(other);
    }
  }
}
