/**
 * A fixed-capacity vector over a caller-supplied array (buffer_vector<T>).
 *
 * The vector never allocates: its capacity is the length of the array it is
 * given, and the live elements are the prefix data[..count].  Insert and
 * Remove shift elements in place, exactly as the C++ index loops do.
 */
module Container {

  /** Result of the bounds-checked accessor: the element, or the out_of_range exception. */
  datatype Checked<T> = Value(value: T) | OutOfRange

  /** `s` with `x` placed at position `i`; what `insert` does to the element sequence. */
  function InsertAt<T>(s: seq<T>, i: nat, x: T): (r: seq<T>)
    requires i <= |s|
    ensures |r| == |s| + 1
    ensures r[i] == x
    ensures forall k :: 0 <= k < i ==> r[k] == s[k]
    ensures forall k :: i < k < |r| ==> r[k] == s[k - 1]
  {
    s[..i] + [x] + s[i..]
  }

  /** `s` without its element at position `i`; what `remove` does to the element sequence. */
  function RemoveAt<T>(s: seq<T>, i: nat): (r: seq<T>)
    requires i < |s|
    ensures |r| == |s| - 1
    ensures forall k :: 0 <= k < i ==> r[k] == s[k]
    ensures forall k :: i <= k < |r| ==> r[k] == s[k + 1]
  {
    s[..i] + s[i + 1..]
  }

  /** Inserting adds exactly one occurrence of `x` to the contents. */
  lemma InsertAtAddsElement<T>(s: seq<T>, i: nat, x: T)
    requires i <= |s|
    ensures multiset(InsertAt(s, i, x)) == multiset(s) + multiset{x}
  {
    assert s == s[..i] + s[i..];
    assert InsertAt(s, i, x) == s[..i] + [x] + s[i..];
  }

  /** Removing drops exactly one occurrence of s[i] from the contents. */
  lemma RemoveAtDropsElement<T>(s: seq<T>, i: nat)
    requires i < |s|
    ensures multiset(RemoveAt(s, i)) == multiset(s) - multiset{s[i]}
  {
    assert s == s[..i] + [s[i]] + s[i + 1..];
    assert RemoveAt(s, i) == s[..i] + s[i + 1..];
  }

  /** Removing element i and inserting it again at i gives back the original contents. */
  lemma RemoveThenInsertRestores<T>(s: seq<T>, i: nat)
    requires i < |s|
    ensures InsertAt(RemoveAt(s, i), i, s[i]) == s
  {
    var r := InsertAt(RemoveAt(s, i), i, s[i]);
    forall k | 0 <= k < |s|
      ensures r[k] == s[k]
    {
      if k > i {
        assert r[k] == RemoveAt(s, i)[k - 1];
      }
    }
  }

  /** Inserting at i and then removing position i gives back the original contents. */
  lemma InsertThenRemoveRestores<T>(s: seq<T>, i: nat, x: T)
    requires i <= |s|
    ensures RemoveAt(InsertAt(s, i, x), i) == s
  {
    var r := RemoveAt(InsertAt(s, i, x), i);
    forall k | 0 <= k < |s|
      ensures r[k] == s[k]
    {
      if k >= i {
        assert r[k] == InsertAt(s, i, x)[k + 1];
      }
    }
  }

  class BufferVector<T> {
    /** The caller-owned backing array; its length is the capacity. */
    const data: array<T>
    /** Number of live elements, which occupy data[..count]. */
    var count: nat

    ghost predicate Valid()
      reads this
    {
      count <= data.Length
    }

    /** The abstract contents: the live elements in index order. */
    ghost function Elements(): seq<T>
      reads this, data
      requires Valid()
    {
      data[..count]
    }

    constructor (buffer: array<T>)
      ensures Valid()
      ensures data == buffer
      ensures Elements() == []
      ensures Capacity() == buffer.Length
    {
      data := buffer;
      count := 0;
    }

    function Capacity(): nat
    {
      data.Length
    }

    function Size(): (n: nat)
      reads this, data
      requires Valid()
      ensures n == |Elements()| <= Capacity()
    {
      count
    }

    function IsFull(): (b: bool)
      reads this, data
      requires Valid()
      ensures b <==> |Elements()| == Capacity()
    {
      count == data.Length
    }

    function IsEmpty(): (b: bool)
      reads this, data
      requires Valid()
      ensures b <==> Elements() == []
    {
      count == 0
    }

    /** The bounds-checked accessor `at`. */
    function At(index: nat): (r: Checked<T>)
      reads this, data
      requires Valid()
      ensures r.OutOfRange? <==> index >= |Elements()|
      ensures r.Value? ==> r.value == Elements()[index]
    {
      if index >= count then OutOfRange else Value(data[index])
    }

    /** The unchecked `operator[]`; an index past the live elements is undefined behaviour. */
    function Get(index: nat): (x: T)
      reads this, data
      requires Valid() && index < |Elements()|
      ensures x == Elements()[index]
    {
      data[index]
    }

    /** `front`; undefined on an empty vector. */
    function Front(): (x: T)
      reads this, data
      requires Valid() && Elements() != []
      ensures x == Elements()[0]
    {
      data[0]
    }

    /** `back`; undefined on an empty vector. */
    function Back(): (x: T)
      reads this, data
      requires Valid() && Elements() != []
      ensures x == Elements()[|Elements()| - 1]
    {
      data[count - 1]
    }

    method PushBack(item: T) returns (ok: bool)
      requires Valid()
      modifies this, data
      ensures Valid()
      ensures ok <==> old(|Elements()|) < Capacity()
      ensures Elements() == if ok then old(Elements()) + [item] else old(Elements())
    {
      if IsFull() {
        return false;
      }
      data[count] := item;
      count := count + 1;
      return true;
    }

    method PopBack()
      requires Valid()
      modifies this
      ensures Valid()
      ensures Elements() == if old(Elements()) == [] then [] else old(Elements())[..old(|Elements()|) - 1]
    {
      if count != 0 {
        count := count - 1;
      }
    }

    /** Shifts data[index..count] one slot right and stores `item` at `index`. */
    method Insert(item: T, index: nat) returns (ok: bool)
      requires Valid() && index <= |Elements()|
      modifies this, data
      ensures Valid()
      ensures ok <==> old(|Elements()|) < Capacity()
      ensures Elements() == if ok then InsertAt(old(Elements()), index, item) else old(Elements())
    {
      if IsFull() {
        return false;
      }
      if index == count {
        ok := PushBack(item);
        return;
      }
      ghost var before := data[..];
      var i := count;
      while i > index
        invariant index <= i <= count == old(count)
        invariant forall k :: 0 <= k <= i ==> data[k] == before[k]
        invariant forall k :: i < k <= count ==> data[k] == before[k - 1]
      {
        data[i] := data[i - 1];
        i := i - 1;
      }
      data[index] := item;
      count := count + 1;
      ok := true;
      assert Elements() == InsertAt(before[..count - 1], index, item);
    }

    /**
     * Shifts data[index + 1..count] one slot left.  The slot just past the new
     * end still holds a copy of the old last element.
     */
    method Remove(index: nat) returns (ok: bool)
      requires Valid()
      modifies this, data
      ensures Valid()
      ensures ok <==> index < old(|Elements()|)
      ensures Elements() == if ok then RemoveAt(old(Elements()), index) else old(Elements())
      ensures ok ==> count < data.Length && data[count] == old(Elements())[count]
    {
      if index >= count {
        return false;
      }
      ghost var before := data[..];
      var i := index;
      while i < count - 1
        invariant index <= i < count == old(count)
        invariant forall k :: 0 <= k < index ==> data[k] == before[k]
        invariant forall k :: index <= k < i ==> data[k] == before[k + 1]
        invariant forall k :: i <= k < data.Length ==> data[k] == before[k]
      {
        data[i] := data[i + 1];
        i := i + 1;
      }
      count := count - 1;
      ok := true;
      assert Elements() == RemoveAt(before[..count + 1], index);
    }

    /** Position of `begin()`: the first slot. */
    function Begin(): nat
    {
      0
    }

    /** Position of `end()`: one past the last live element. */
    function End(): (p: nat)
      reads this, data
      requires Valid()
      ensures p == Begin() + |Elements()|
    {
      count
    }

    /** Walks a forward iterator from Begin() to End(), collecting what it dereferences. */
    method Traverse() returns (visited: seq<T>)
      requires Valid()
      ensures visited == Elements()
    {
      visited := [];
      var it := Begin();
      while it != End()
        invariant it <= count
        invariant visited == data[..it]
        decreases count - it
      {
        visited := visited + [data[it]];
        it := it + 1;
      }
    }
  }
}
