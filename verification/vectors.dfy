/**
 * The growable vector: a buffer `data` that is reallocated to exactly
 * `length` cells on every push and on every pop from a non-empty vector,
 * so the buffer always holds the elements and nothing else.
 */
module Vectors {
  import Buffers

  /** The sequence after `pop_back`: the last element removed, or unchanged when empty. */
  function Popped<T>(s: seq<T>): (r: seq<T>)
    ensures |s| == 0 ==> r == s
    ensures |s| > 0 ==> |r| == |s| - 1 && r + [s[|s| - 1]] == s
  {
    if |s| == 0 then s else s[..|s| - 1]
  }

  /** Popping right after pushing gives back the sequence pushed onto. */
  lemma PopUndoesPush<T>(s: seq<T>, x: T)
    ensures Popped(s + [x]) == s
  {
    assert (s + [x])[..|s|] == s;
  }

  class Vector<T(0)> {
    var data: array<T>
    var length: nat
    ghost var Repr: set<object>

    /** The buffer holds exactly `length` cells. */
    ghost predicate Valid()
      reads this, Repr
    {
      Repr == {this, data} && data.Length == length
    }

    /** The elements, first to last. */
    ghost function Elements(): seq<T>
      reads this, data
    {
      data[..]
    }

    /** `vector()`: no elements. */
    constructor ()
      ensures Valid() && fresh(Repr)
      ensures Elements() == []
    {
      data := new T[0];
      length := 0;
      Repr := {this, data};
    }

    /** `vector(il)`: `push_back` of each element of the list, in order. */
    constructor FromList(il: seq<T>)
      ensures Valid() && fresh(Repr)
      ensures Elements() == il
    {
      data := new T[0];
      length := 0;
      new;
      Repr := {this, data};
      for i := 0 to |il|
        invariant Valid() && fresh(Repr)
        invariant Elements() == il[..i]
      {
        PushBack(il[i]);
        assert il[..i + 1] == il[..i] + [il[i]];
      }
      assert il[..|il|] == il;
    }

    /** `push_back`: one more cell, holding `value`, after the others. */
    method PushBack(value: T)
      requires Valid()
      modifies Repr
      ensures Valid() && fresh(Repr - old(Repr))
      ensures Elements() == old(Elements()) + [value]
    {
      length := length + 1;
      data := Buffers.Realloc(data, length);
      data[length - 1] := value;
      Repr := {this, data};
    }

    /** `pop_back`: the last element is dropped; nothing happens when empty. */
    method PopBack()
      requires Valid()
      modifies Repr
      ensures Valid() && fresh(Repr - old(Repr))
      ensures Elements() == Popped(old(Elements()))
    {
      var isEmpty := IsEmpty();
      if isEmpty {
        return;
      }
      length := length - 1;
      data := Buffers.Realloc(data, length);
      Repr := {this, data};
    }

    /** `length`: the number of elements. */
    method Length() returns (n: nat)
      requires Valid()
      ensures n == |Elements()|
    {
      n := length;
    }

    /** `empty`: whether there are no elements. */
    method IsEmpty() returns (b: bool)
      requires Valid()
      ensures b <==> Elements() == []
    {
      b := length == 0;
    }

    /** `clear`: `pop_back` until empty. */
    method Clear()
      requires Valid()
      modifies Repr
      ensures Valid() && fresh(Repr - old(Repr))
      ensures Elements() == []
    {
      var isEmpty := IsEmpty();
      while !isEmpty
        invariant Valid() && fresh(Repr - old(Repr))
        invariant isEmpty <==> Elements() == []
        decreases |Elements()|
      {
        PopBack();
        isEmpty := IsEmpty();
      }
    }

    /** `operator[]` read: the element at `pos`, which must be in range (the access is unchecked). */
    method At(pos: nat) returns (x: T)
      requires Valid() && pos < |Elements()|
      ensures x == Elements()[pos]
    {
      x := data[pos];
    }

    /** Writing through the reference `operator[]` returns: only the element at `pos` changes. */
    method Put(pos: nat, x: T)
      requires Valid() && pos < |Elements()|
      modifies data
      ensures Valid()
      ensures Elements() == old(Elements())[pos := x]
    {
      data[pos] := x;
    }
  }
}
