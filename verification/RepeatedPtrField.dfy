/** RepeatedPtrFieldBase over a pointer array, each method proved against its step in RepeatedPtrSpec. */
module RepeatedPtrFields {
  import opened Bytes
  import opened Growth
  import opened Store
  import Spec = RepeatedPtrSpec
  import opened RepeatedPtrRuns
  import opened RepeatedPtrSharing

  class RepeatedPtrField<V(!new)> {
    const memory: Memory<V>
    const merge: (V, V) -> V     // TypeHandler::Merge
    var elements: array<Ptr>
    var currentSize: nat
    var allocatedSize: nat  // total_size_ is elements.Length

    ghost predicate Shape()
      reads this
    {
      currentSize <= allocatedSize <= elements.Length
    }

    ghost function View(): Spec.State<V>
      requires Shape()
      reads this, elements, memory
    {
      Spec.State(Spec.Field(elements[..currentSize], elements[currentSize..allocatedSize], elements.Length), memory.h, merge)
    }

    ghost predicate Valid()
      reads this, elements, memory
    {
      Shape() && Sound(View())
    }

    constructor (memory: Memory<V>, merge: (V, V) -> V)
      ensures this.memory == memory && this.merge == merge && fresh(elements)
      ensures Shape() && View() == Spec.State(Spec.Field([], [], 0), memory.h, merge)
    {
      this.memory, this.merge := memory, merge;
      elements := new Ptr[0];
      currentSize, allocatedSize := 0, 0;
    }

    method Reserve(newSize: nat)
      requires Shape()
      modifies this`elements
      ensures Shape() && View() == Spec.Reserve(old(View()), newSize) && elements.Length >= newSize
      ensures elements == old(elements) || fresh(elements)
    {
      if elements.Length >= newSize { return; }
      var oldElements := elements;
      elements := new Ptr[Grown(oldElements.Length, newSize)];
      for i := 0 to allocatedSize
        invariant elements[..i] == oldElements[..i]
        modifies elements
      {
        elements[i] := oldElements[i];
      }
      assert elements[..currentSize] == elements[..allocatedSize][..currentSize];
      assert elements[currentSize..allocatedSize] == elements[..allocatedSize][currentSize..];
      assert oldElements[currentSize..allocatedSize] == oldElements[..allocatedSize][currentSize..];
    }

    method Add() returns (p: Ptr)
      requires Shape()
      modifies this, elements, memory
      ensures Shape() && View() == Spec.Add(old(View()))
      ensures View().f.live == old(View().f.live) + [p]
      ensures elements == old(elements) || fresh(elements)
    {
      if currentSize < allocatedSize {
        p := elements[currentSize];
        currentSize := currentSize + 1;
        return;
      }
      if allocatedSize == elements.Length {
        Reserve(elements.Length + 1);
      }
      allocatedSize := allocatedSize + 1;
      p := memory.New();
      elements[currentSize] := p;
      currentSize := currentSize + 1;
    }

    method RemoveLast()
      requires Valid() && currentSize > 0
      modifies this`currentSize, memory
      ensures Valid()
      ensures var s := old(View()); Spec.Enabled(s, Spec.OpRemoveLast) && View() == Spec.RemoveLast(s)
    {
      hide Sound;
      SoundSlots(View());
      StepKeepsSound(View(), Spec.OpRemoveLast);
      currentSize := currentSize - 1;
      assert elements[..currentSize + 1][..currentSize] == elements[..currentSize];
      memory.Assign(elements[currentSize], memory.h.empty);
      assert View() == Spec.RemoveLast(old(View()));
    }

    method Clear()
      requires Valid()
      modifies this`currentSize, memory
      ensures Valid() && View() == Spec.Clear(old(View()))
    {
      hide Sound;
      ghost var live := elements[..currentSize];
      SoundSlots(View());
      StepKeepsSound(View(), Spec.OpClear);
      for i := 0 to currentSize
        invariant Spec.ClearAll(old(memory.h), live) == Spec.ClearAll(memory.h, live[i..])
        invariant forall j | 0 <= j < |live| :: memory.h.Live(live[j])
        modifies memory
      {
        assert live[i..][1..] == live[i + 1..];
        memory.Assign(elements[i], memory.h.empty);
      }
      currentSize := 0;
      assert elements[0..allocatedSize] == live + old(elements[currentSize..allocatedSize]);
    }

    method AddAllocated(value: Ptr)
      requires Valid() && value in memory.h.callerOwned
      modifies this, elements, memory
      ensures Valid() && View() == Spec.AddAllocated(old(View()), value)
      ensures elements == old(elements) || fresh(elements)
    {
      hide Sound, Spec.AddAllocated;
      SoundSlots(View());
      StepKeepsSound(View(), Spec.OpAddAllocated(value));
      assert allocatedSize > currentSize ==> View().f.pool[0] == elements[currentSize];
      Place(value);
    }

    /** The pointers' part of AddAllocated */
    method Place(value: Ptr)
      requires Shape() && (currentSize < allocatedSize ==> memory.h.Live(elements[currentSize]))
      modifies this, elements, memory
      ensures Shape() && View() == Spec.AddAllocated(old(View()), value)
      ensures elements == old(elements) || fresh(elements)
    {
      hide Growth.Grown;
      ghost var live, pool := elements[..currentSize], elements[currentSize..allocatedSize];
      assert pool != [] ==> pool[0] == elements[currentSize];
      ghost var rest := if pool == [] then [] else pool[1..];
      memory.h := memory.h.Take(value);
      if currentSize == elements.Length {
        Reserve(elements.Length + 1);
        allocatedSize := allocatedSize + 1;
        assert pool == [];
      } else if allocatedSize == elements.Length {
        memory.Delete(elements[currentSize]);
      } else if currentSize < allocatedSize {
        elements[allocatedSize] := elements[currentSize];
        allocatedSize := allocatedSize + 1;
        rest := rest + [pool[0]];
      } else {
        allocatedSize := allocatedSize + 1;
      }
      assert elements[..currentSize] == live;
      assert elements[currentSize + 1..allocatedSize] == rest;
      elements[currentSize] := value;
      currentSize := currentSize + 1;
      assert elements[currentSize..allocatedSize] == rest;
      assert elements[..currentSize] == live + [value];
    }

    method ReleaseLast() returns (result: Ptr)
      requires Shape() && currentSize > 0
      modifies this`currentSize, this`allocatedSize, elements, memory
      ensures Shape() && View() == Spec.ReleaseLast(old(View()))
      ensures result == old(View().f.live[currentSize - 1])
    {
      ghost var s, was := View(), elements[..];
      currentSize := currentSize - 1;
      result := elements[currentSize];
      allocatedSize := allocatedSize - 1;
      if currentSize < allocatedSize {
        elements[currentSize] := elements[allocatedSize];
      }
      memory.h := memory.h.Give(result);
      assert elements[..] == was[currentSize := elements[currentSize]];
      assert elements[..currentSize] == s.f.live[..currentSize];
      if currentSize < allocatedSize {
        assert elements[currentSize..allocatedSize] == [was[allocatedSize]] + was[currentSize + 1..allocatedSize];
        assert was[currentSize + 1..allocatedSize] == s.f.pool[..|s.f.pool| - 1];
      }
    }

    method AddCleared(value: Ptr)
      requires Shape() && value in memory.h.callerOwned
      modifies this, elements, memory
      ensures Shape() && View() == Spec.AddCleared(old(View()), value)
      ensures elements == old(elements) || fresh(elements)
    {
      ghost var s := View();
      if allocatedSize == elements.Length {
        Reserve(elements.Length + 1);
      }
      elements[allocatedSize] := value;
      allocatedSize := allocatedSize + 1;
      memory.h := memory.h.Take(value);
      assert elements[..currentSize] == s.f.live;
      assert elements[currentSize..allocatedSize] == s.f.pool + [value];
    }

    method ReleaseCleared() returns (result: Ptr)
      requires Shape() && allocatedSize > currentSize
      modifies this`allocatedSize, memory
      ensures Shape() && View() == Spec.ReleaseCleared(old(View()))
      ensures result == old(View().f.pool[allocatedSize - currentSize - 1])
    {
      allocatedSize := allocatedSize - 1;
      result := elements[allocatedSize];
      memory.h := memory.h.Give(result);
    }

    /** Moves everything behind the gap, pooled objects included. */
    method CloseGap(start: nat, num: nat)
      requires Shape() && start + num <= currentSize
      modifies this`currentSize, this`allocatedSize, elements
      ensures Shape()
      ensures elements[..currentSize] == Spec.Cut(old(elements[..currentSize]), start, num)
      ensures elements[currentSize..allocatedSize] == old(elements[currentSize..allocatedSize])
    {
      SlideDown(start, num);
      GapClosed(old(elements[..]), elements[..], start, num, currentSize, allocatedSize);
      currentSize, allocatedSize := currentSize - num, allocatedSize - num;
    }

    method SlideDown(start: nat, num: nat)
      requires Shape() && start + num <= allocatedSize
      modifies elements
      ensures elements[..start] == old(elements[..start])
      ensures elements[start..allocatedSize - num] == old(elements[start + num..allocatedSize])
    {
      ghost var was := elements[..];
      for i := start + num to allocatedSize
        invariant forall k | 0 <= k < start :: elements[k] == was[k]
        invariant forall k | start <= k < i - num :: elements[k] == was[k + num]
        invariant forall k | i - num <= k < elements.Length :: elements[k] == was[k]
        modifies elements
      {
        assert elements[i] == was[i - num + num];
        elements[i - num] := elements[i];
      }
    }

    static lemma GapClosed(was: seq<Ptr>, now: seq<Ptr>, start: nat, num: nat, currentSize: nat, allocatedSize: nat)
      requires start + num <= currentSize <= allocatedSize <= |was| == |now|
      requires now[..start] == was[..start]
      requires now[start..allocatedSize - num] == was[start + num..allocatedSize]
      ensures now[..currentSize - num] == Spec.Cut(was[..currentSize], start, num)
      ensures now[currentSize - num..allocatedSize - num] == was[currentSize..allocatedSize]
    {
      SplitAt(now, start, currentSize - num, allocatedSize - num);
      SplitAt(was, start + num, currentSize, allocatedSize);
      SplitAt(was[..currentSize], start, currentSize, currentSize);
    }

    static lemma SplitAt(s: seq<Ptr>, a: nat, b: nat, c: nat)
      requires a <= b <= c <= |s|
      ensures s[..b] == s[..a] + s[a..c][..b - a]
      ensures s[a..b] == s[a..c][..b - a]
      ensures s[b..c] == s[a..c][b - a..]
    {
    }

    method ExtractSubrange(start: nat, num: nat) returns (extracted: seq<Ptr>)
      requires Shape() && start + num <= currentSize
      modifies this`currentSize, this`allocatedSize, elements, memory
      ensures Shape() && View() == Spec.ExtractSubrange(old(View()), start, num)
      ensures extracted == old(View().f.live[start..start + num])
    {
      extracted := [];
      ghost var out := elements[start..start + num];
      assert out == View().f.live[start..start + num];
      if num > 0 {
        for i := 0 to num
          invariant extracted == out[..i]
        {
          assert out[i] == elements[i + start];
          extracted := extracted + [elements[i + start]];
        }
        assert out[..num] == out;
        CloseGap(start, num);
        memory.h := Spec.GiveAll(memory.h, extracted);
      }
      assert num == 0 ==> Spec.Cut(old(View()).f.live, start, num) == old(View()).f.live;
    }

    /** Deletes the objects in num slots from start on, leaving the slots as they are. */
    method DeleteSlots(start: nat, num: nat)
      requires start + num <= elements.Length
      requires forall i | start <= i < start + num :: memory.h.Live(elements[i])
      requires forall i, j | start <= i < start + num && start <= j < start + num && i != j :: elements[i] != elements[j]
      modifies memory
      ensures memory.h == Spec.DeleteAll(old(memory.h), elements[start..start + num])
    {
      ghost var out := elements[start..start + num];
      for i := 0 to num
        invariant Spec.DeleteAll(old(memory.h), out) == Spec.DeleteAll(memory.h, out[i..])
        invariant forall j | start + i <= j < start + num :: memory.h.Live(elements[j])
        modifies memory
      {
        assert out[i..][1..] == out[i + 1..];
        memory.Delete(elements[start + i]);
      }
    }

    method DeleteSubrange(start: nat, num: nat)
      requires Valid() && start + num <= currentSize
      modifies this`currentSize, this`allocatedSize, elements, memory
      ensures Valid() && View() == Spec.DeleteSubrange(old(View()), start, num)
    {
      hide Sound;
      SoundSlots(View());
      StepKeepsSound(View(), Spec.OpDeleteSubrange(start, num));
      assert forall i | 0 <= i < currentSize :: View().f.live[i] == elements[i];
      assert elements[..currentSize][start..start + num] == elements[start..start + num];
      DeleteSlots(start, num);
      CloseGap(start, num);
    }

    method SwapElements(i: nat, j: nat)
      requires Shape() && i < currentSize && j < currentSize
      modifies elements
      ensures Shape() && View() == Spec.SwapElements(old(View()), i, j)
    {
      elements[i], elements[j] := elements[j], elements[i];
    }

    /** Merges the other field's values into objects of this field's own; the other field stays as it is. */
    method MergeFrom(other: RepeatedPtrField<V>)
      requires Valid() && other.Valid() && other != this && other.memory == memory && other.elements != elements
      requires Apart(View(), other.View())
      modifies this, elements, memory
      ensures Valid() && other.Valid() && Apart(View(), other.View())
      ensures Spec.Values(View()) == old(Spec.Values(View())) + old(Spec.Values(other.View()))
      ensures Spec.Values(other.View()) == old(Spec.Values(other.View()))
      ensures View() == Spec.MergeFrom(old(View()), old(Spec.Values(other.View())))
      ensures elements == old(elements) || fresh(elements)
    {
      hide Sound, Spec.Append, Spec.Values, Elsewhere, Spec.Owned, LeavesAlone;
      ghost var s, o := View(), other.View();
      ghost var values: seq<V> := Spec.Values(o);
      StepKeepsSound(s, Spec.OpMergeFrom(values));
      StepKeepsSound(s, Spec.OpReserve(currentSize + other.currentSize));
      ApartIsElsewhere(s, o);
      Reserve(currentSize + other.currentSize);
      AppendFrom(other, values);
      OtherFieldStays(s, View(), o);
    }

    method AppendFrom(other: RepeatedPtrField<V>, ghost values: seq<V>)
      requires Valid() && other != this && other.memory == memory && other.elements != elements && other.Shape()
      requires forall p | p in Spec.Owned(other.View()) :: p in Elsewhere(View())
      requires values == Spec.Values(other.View())
      modifies this, elements, memory
      ensures Shape() && View() == Spec.Append(old(View()), values)
      ensures elements == old(elements) || fresh(elements)
    {
      hide Sound, Spec.Append, Spec.Add, Spec.MergeInto, Read, Beyond;
      ghost var s := View();
      ghost var theirs := other.elements[..other.currentSize];
      assert forall j | 0 <= j < |theirs| :: theirs[j] in Spec.Owned(other.View());
      assert values[0..] == values;
      for i := 0 to other.currentSize
        invariant Valid() && Elsewhere(View()) == Elsewhere(s)
        invariant elements == old(elements) || fresh(elements)
        invariant Spec.Append(s, values) == Spec.Append(View(), values[i..])
        invariant forall j | 0 <= j < |theirs| :: theirs[j] in Elsewhere(s) && Read(memory.h, theirs[j]) == values[j]
      {
        AppendStep(View(), values, i);
        MergeOne(Read(memory.h, other.elements[i]));
      }
      AppendNothing(View(), values[other.currentSize..]);
    }

    /** One round of MergeFrom: Merge(value, Add()) */
    method MergeOne(value: V)
      requires Valid()
      modifies this, elements, memory
      ensures Valid() && View() == Spec.MergeInto(Spec.Add(old(View())), |old(View()).f.live|, value)
      ensures Elsewhere(View()) == old(Elsewhere(View())) && LeavesAlone(old(View()), View(), old(Elsewhere(View())))
      ensures elements == old(elements) || fresh(elements)
    {
      hide Sound, Beyond, LeavesAlone;
      AppendOneKeepsSound(View(), value);
      StepKeepsSound(View(), Spec.OpAdd);
      var p := Add();
      SoundSlots(View());
      assert View().f.live[currentSize - 1] == p;
      memory.Assign(p, merge(Read(memory.h, p), value));
    }

    /** Afterwards the values are those of the other field, in objects of this field's own; the other field stays as it is. */
    method CopyFrom(other: RepeatedPtrField<V>)
      requires Valid() && other.Valid() && other != this && other.memory == memory && other.elements != elements
      requires Apart(View(), other.View())
      modifies this, elements, memory
      ensures Valid() && other.Valid() && Apart(View(), other.View())
      ensures Spec.Values(View()) == Spec.Values(other.View()) == old(Spec.Values(other.View()))
      ensures View() == Spec.CopyFrom(old(View()), old(Spec.Values(other.View())))
      ensures elements == old(elements) || fresh(elements)
    {
      hide Sound, Spec.Clear, Spec.MergeFrom, Spec.Values, Spec.Owned, Beyond;
      ghost var s, o := View(), other.View();
      StepKeepsSound(s, Spec.OpClear);
      StepKeepsSound(s, Spec.OpCopyFrom(Spec.Values(o)));
      Clear();
      OtherFieldStays(s, View(), o);
      MergeFrom(other);
    }

    /** ~RepeatedPtrField */
    method Destroy()
      requires Valid()
      modifies this, memory
      ensures Shape() && View() == Spec.Destroy(old(View()))
    {
      hide Sound;
      SoundSlots(View());
      assert elements[0..0 + allocatedSize] == Spec.Owned(View());
      assert forall i | 0 <= i < allocatedSize :: Spec.Owned(View())[i] == elements[i];
      DeleteSlots(0, allocatedSize);
      elements := new Ptr[0];
      currentSize, allocatedSize := 0, 0;
    }
  }
}
