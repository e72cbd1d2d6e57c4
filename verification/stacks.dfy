/**
 * The stack adapter: a vector whose last element is the top.  Every
 * operation forwards to the vector; `top` reads the last element.
 */
module Stacks {
  import opened Vectors

  /** The contents after pushing each of `xs`, first to last, onto `s`. */
  function PushAll<T>(s: seq<T>, xs: seq<T>): seq<T>
    decreases |xs|
  {
    if |xs| == 0 then s else PushAll(s + [xs[0]], xs[1..])
  }

  /** The contents after `n` pops, each a no-op once the stack is empty. */
  function PopTimes<T>(s: seq<T>, n: nat): seq<T> {
    if n == 0 then s else PopTimes(Popped(s), n - 1)
  }

  /** Pushing a list appends it, so the last pushed element is on top. */
  lemma {:induction false} PushAllAppends<T>(s: seq<T>, xs: seq<T>)
    ensures PushAll(s, xs) == s + xs
    decreases |xs|
  {
    if |xs| > 0 {
      PushAllAppends(s + [xs[0]], xs[1..]);
      assert s + [xs[0]] + xs[1..] == s + xs;
    }
  }

  /** `n` pops remove the last `n` elements, or all of them when there are fewer. */
  lemma {:induction false} PopTimesDrops<T>(s: seq<T>, n: nat)
    ensures n <= |s| ==> PopTimes(s, n) == s[..|s| - n]
    ensures n > |s| ==> PopTimes(s, n) == []
  {
    if n > 0 {
      PopTimesDrops(Popped(s), n - 1);
      if |s| > 0 {
        assert Popped(s) == s[..|s| - 1];
        if n <= |s| {
          assert s[..|s| - 1][..|s| - 1 - (n - 1)] == s[..|s| - n];
        }
      }
    }
  }

  /**
   * Last in, first out: after pushing `xs`, the `i`-th pop exposes the
   * elements in reverse order of pushing, and `|xs|` pops restore the stack.
   */
  lemma LastInFirstOut<T>(s: seq<T>, xs: seq<T>, i: nat)
    requires i < |xs|
    ensures var t := PopTimes(PushAll(s, xs), i);
      |t| == |s| + |xs| - i && t[|t| - 1] == xs[|xs| - 1 - i]
    ensures PopTimes(PushAll(s, xs), |xs|) == s
  {
    PushAllAppends(s, xs);
    var all := s + xs;
    PopTimesDrops(all, i);
    var t := all[..|all| - i];
    assert PopTimes(PushAll(s, xs), i) == t;
    assert t[|t| - 1] == all[|s| + (|xs| - 1 - i)] == xs[|xs| - 1 - i];
    PopTimesDrops(all, |xs|);
    assert all[..|all| - |xs|] == s;
  }

  class Stack<T(0)> {
    var vec: Vector<T>
    ghost var Repr: set<object>

    ghost predicate Valid()
      reads this, Repr
    {
      this in Repr && vec in Repr && vec.Repr <= Repr && this !in vec.Repr && vec.Valid()
    }

    /** The elements, bottom to top. */
    ghost function Elements(): seq<T>
      reads this, Repr
      requires Valid()
    {
      vec.Elements()
    }

    /** `stack()`: empty. */
    constructor ()
      ensures Valid() && fresh(Repr)
      ensures Elements() == []
    {
      vec := new Vector();
      new;
      Repr := {this} + vec.Repr;
    }

    /** `stack(il)`: the list pushed in order, so its last element is on top. */
    constructor FromList(il: seq<T>)
      ensures Valid() && fresh(Repr)
      ensures Elements() == il
    {
      vec := new Vector.FromList(il);
      new;
      Repr := {this} + vec.Repr;
    }

    /** `push`: `value` becomes the new top. */
    method Push(value: T)
      requires Valid()
      modifies Repr
      ensures Valid() && fresh(Repr - old(Repr))
      ensures Elements() == old(Elements()) + [value]
    {
      vec.PushBack(value);
      Repr := Repr + vec.Repr;
    }

    /** `pop`: the top is removed; nothing happens when empty. */
    method Pop()
      requires Valid()
      modifies Repr
      ensures Valid() && fresh(Repr - old(Repr))
      ensures Elements() == Popped(old(Elements()))
    {
      vec.PopBack();
      Repr := Repr + vec.Repr;
    }

    /** `top`: the most recently pushed element still present. */
    method Top() returns (x: T)
      requires Valid() && |Elements()| > 0
      ensures x == Elements()[|Elements()| - 1]
    {
      var n := vec.Length();
      x := vec.At(n - 1);
    }

    /** `length`: the number of elements. */
    method Length() returns (n: nat)
      requires Valid()
      ensures n == |Elements()|
    {
      n := vec.Length();
    }

    /** `empty`: whether there are no elements. */
    method IsEmpty() returns (b: bool)
      requires Valid()
      ensures b <==> Elements() == []
    {
      b := vec.IsEmpty();
    }

    /** `clear`: every element is removed. */
    method Clear()
      requires Valid()
      modifies Repr
      ensures Valid() && fresh(Repr - old(Repr))
      ensures Elements() == []
    {
      vec.Clear();
      Repr := Repr + vec.Repr;
    }
  }
}
