/**
 * The open-addressing hash set: two parallel buffers of one capacity
 * holding, per slot, a hash marker (0 = empty) and an element.  It follows
 * the same probe discipline as the hash map, with the element as the hashed
 * item.  Unlike the map, assigning a list of elements does not clear the set
 * first: the elements are inserted on top of what is already there.
 */
module Sets {
  import opened Fnv
  import opened Probing
  import Buffers

  /** A bound on the capacity, used only to show that growth terminates. */
  const Limit: nat := 0x4_0000_0000_0000_0000

  /** The number of distinct `size_t` values. */
  const SizeSpace: nat := 0x1_0000_0000_0000_0000

  /** The elements held in occupied slots. */
  ghost function ElementsOf(hs: seq<SizeT>, vs: seq<Bytes>): set<Bytes>
    requires |hs| == |vs|
  {
    set j | 0 <= j < |hs| && hs[j] != 0 :: vs[j]
  }

  /**
   * The intended effect of inserting `x`: an element hashing like `x` is
   * replaced by it, and an element whose hash is 0 is not recorded.
   */
  ghost function Add(es: set<Bytes>, x: Bytes): set<Bytes> {
    (set e | e in es && Hash(e) != Hash(x)) + (if Hash(x) != 0 then {x} else {})
  }

  /** Inserting the elements one after another, in order. */
  ghost function AddAll(es: set<Bytes>, xs: seq<Bytes>): set<Bytes>
    decreases |xs|
  {
    if |xs| == 0 then es else Add(AddAll(es, xs[..|xs| - 1]), xs[|xs| - 1])
  }

  /** The non-zero hashes of the elements of `xs`. */
  ghost function Hashes(xs: seq<Bytes>): set<SizeT> {
    set a | 0 <= a < |xs| && Hash(xs[a]) != 0 :: Hash(xs[a])
  }

  /** Elements whose hashes are non-zero and pairwise different. */
  ghost predicate DistinctHashes(xs: seq<Bytes>) {
    && (forall a | 0 <= a < |xs| :: Hash(xs[a]) != 0)
    && (forall a, b | 0 <= a < b < |xs| :: Hash(xs[a]) != Hash(xs[b]))
  }

  // ---------------------------------------------------------------------
  // Facts about the stored elements

  /** In a consistent table the markers are exactly the hashes of the stored elements. */
  lemma MarkersAreHashes(hs: seq<SizeT>, vs: seq<Bytes>, h: SizeT)
    requires |hs| == |vs| && Consistent(hs, vs) && h != 0
    ensures h in MarkerSet(hs) <==> exists e | e in ElementsOf(hs, vs) :: Hash(e) == h
  {
    if h in MarkerSet(hs) {
      var j :| 0 <= j < |hs| && hs[j] != 0 && hs[j] == h;
      assert vs[j] in ElementsOf(hs, vs);
    }
    if exists e | e in ElementsOf(hs, vs) :: Hash(e) == h {
      var e :| e in ElementsOf(hs, vs) && Hash(e) == h;
      var j :| 0 <= j < |hs| && hs[j] != 0 && e == vs[j];
      assert hs[j] == h;
    }
  }

  /** Emptying a slot only drops elements. */
  lemma ElementsClear(hs: seq<SizeT>, vs: seq<Bytes>, i: nat)
    requires |hs| == |vs| && i < |hs| && hs[i] != 0
    ensures ElementsOf(hs[i := 0], vs) + {vs[i]} == ElementsOf(hs, vs)
  {
    var hs' := hs[i := 0];
    forall e | e in ElementsOf(hs, vs) && e != vs[i] ensures e in ElementsOf(hs', vs) {
      var j :| 0 <= j < |hs| && hs[j] != 0 && e == vs[j];
      assert hs'[j] != 0;
    }
    assert vs[i] in ElementsOf(hs, vs);
  }

  /**
   * Writing `x` where the probe for `x` stops adds at most `x`, and in a
   * well-formed table it is an `Add`.
   */
  lemma ElementsWrite(hs: seq<SizeT>, vs: seq<Bytes>, x: Bytes)
    requires |hs| == |vs| && Consistent(hs, vs)
    requires FindSlot(hs, Hash(x)) < |hs|
    ensures var r := FindSlot(hs, Hash(x));
      ElementsOf(hs[r := Hash(x)], vs[r := x]) <= ElementsOf(hs, vs) + {x}
    ensures var r := FindSlot(hs, Hash(x));
      WellFormed(hs) ==> ElementsOf(hs[r := Hash(x)], vs[r := x]) == Add(ElementsOf(hs, vs), x)
  {
    var h, r := Hash(x), FindSlot(hs, Hash(x));
    var hs', vs' := hs[r := h], vs[r := x];
    var es, es' := ElementsOf(hs, vs), ElementsOf(hs', vs');
    forall e | e in es' && e != x ensures e in es {
      var j :| 0 <= j < |hs'| && hs'[j] != 0 && e == vs'[j];
      assert j != r;
    }
    if WellFormed(hs) {
      if h != 0 {
        FoundIffPresent(hs, h);
      }
      if hs[r] != 0 {
        DistinctElsewhere(hs, r);
      }
      forall e | e in es' ensures e in Add(es, x) {
        var j :| 0 <= j < |hs'| && hs'[j] != 0 && e == vs'[j];
        if j != r {
          assert hs[j] == Hash(vs[j]) && hs[j] in MarkerSet(hs);
        }
      }
      forall e | e in Add(es, x) ensures e in es' {
        if e != x || h == 0 {
          var j :| 0 <= j < |hs| && hs[j] != 0 && e == vs[j];
          assert hs[j] == Hash(vs[j]);
          assert j != r;
          assert hs'[j] != 0;
        } else {
          assert hs'[r] != 0;
        }
      }
    }
  }

  /** In a well-formed table, erasing removes exactly the elements hashing like `h`. */
  lemma ElementsErase(hs: seq<SizeT>, vs: seq<Bytes>, h: SizeT)
    requires |hs| == |vs| && Consistent(hs, vs) && WellFormed(hs)
    ensures var r := FindSlot(hs, h);
      ElementsOf(if r < |hs| then hs[r := 0] else hs, vs)
        == set e | e in ElementsOf(hs, vs) && Hash(e) != h
  {
    var r := FindSlot(hs, h);
    var hs' := if r < |hs| then hs[r := 0] else hs;
    var es := ElementsOf(hs, vs);
    if h != 0 {
      FoundIffPresent(hs, h);
    }
    forall e | e in ElementsOf(hs', vs) ensures e in es && Hash(e) != h {
      var j :| 0 <= j < |hs'| && hs'[j] != 0 && e == vs[j];
      assert hs[j] == hs'[j] == Hash(vs[j]);
      assert hs[j] in MarkerSet(hs);
    }
    forall e | e in es && Hash(e) != h ensures e in ElementsOf(hs', vs) {
      var j :| 0 <= j < |hs| && hs[j] != 0 && e == vs[j];
      assert hs[j] == Hash(vs[j]);
      assert hs'[j] != 0;
    }
  }

  /** Moving an element to an empty slot keeps the elements. */
  lemma ElementsMove(hs: seq<SizeT>, vs: seq<Bytes>, i: nat, r: nat)
    requires |hs| == |vs| && i < |hs| && r < |hs| && hs[i] != 0
    requires hs[i := 0][r] == 0
    ensures ElementsOf(hs[i := 0][r := hs[i]], vs[r := vs[i]]) == ElementsOf(hs, vs)
  {
    var hs', vs' := hs[i := 0][r := hs[i]], vs[r := vs[i]];
    forall e | e in ElementsOf(hs', vs') ensures e in ElementsOf(hs, vs) {
      var j :| 0 <= j < |hs'| && hs'[j] != 0 && e == vs'[j];
      if j == r {
        assert e == vs[i];
      } else {
        assert hs[j] != 0;
      }
    }
    forall e | e in ElementsOf(hs, vs) ensures e in ElementsOf(hs', vs') {
      var j :| 0 <= j < |hs| && hs[j] != 0 && e == vs[j];
      if j == i {
        assert hs'[r] != 0 && e == vs'[r];
      } else {
        assert j != r;
        assert hs'[j] != 0;
      }
    }
  }

  /** Appending empty slots keeps the elements. */
  lemma ElementsZeroTail(hs: seq<SizeT>, vs: seq<Bytes>, n: nat)
    requires |hs| == |vs| && n <= |hs|
    requires forall t | n <= t < |hs| :: hs[t] == 0
    ensures ElementsOf(hs, vs) == ElementsOf(hs[..n], vs[..n])
  {
    forall e | e in ElementsOf(hs, vs) ensures e in ElementsOf(hs[..n], vs[..n]) {
      var j :| 0 <= j < |hs| && hs[j] != 0 && e == vs[j];
      assert hs[..n][j] != 0 && vs[..n][j] == vs[j];
    }
  }

  /**
   * What growing the table keeps, from `(hs0, vs0)` to `(hs, vs)`: the same
   * markers, no more occupied slots, no new elements, every marker still at
   * or after its start slot and, from a well-formed table, well-formedness
   * and the very same elements.
   */
  ghost predicate Keeps(hs0: seq<SizeT>, vs0: seq<Bytes>, hs: seq<SizeT>, vs: seq<Bytes>)
    requires |hs0| == |vs0| && |hs| == |vs|
  {
    && MarkerSet(hs) == MarkerSet(hs0)
    && Count(hs) <= Count(hs0)
    && ElementsOf(hs, vs) <= ElementsOf(hs0, vs0)
    && (AfterStart(hs0) ==> AfterStart(hs))
    && (WellFormed(hs0) ==> WellFormed(hs) && ElementsOf(hs, vs) == ElementsOf(hs0, vs0))
  }

  lemma KeepsTrans(hs0: seq<SizeT>, vs0: seq<Bytes>, hs1: seq<SizeT>, vs1: seq<Bytes>,
                   hs2: seq<SizeT>, vs2: seq<Bytes>)
    requires |hs0| == |vs0| && |hs1| == |vs1| && |hs2| == |vs2|
    requires Keeps(hs0, vs0, hs1, vs1) && Keeps(hs1, vs1, hs2, vs2)
    ensures Keeps(hs0, vs0, hs2, vs2)
  {
  }

  /**
   * Writing `x` where its probe stops, in a table grown from `(hs0, vs0)`:
   * the probe still stops there, the markers gain the hash of `x`, at most
   * one slot becomes occupied, at most `x` is added and, from a well-formed
   * table, the write is an `Add` that keeps the table well-formed.
   */
  lemma WriteAfterGrowth(hs0: seq<SizeT>, vs0: seq<Bytes>, hs: seq<SizeT>, vs: seq<Bytes>, x: Bytes)
    requires |hs0| == |vs0| && |hs| == |vs|
    requires Consistent(hs, vs) && FindSlot(hs, Hash(x)) < |hs|
    requires Keeps(hs0, vs0, hs, vs)
    ensures var r := FindSlot(hs, Hash(x));
      var hs', vs' := hs[r := Hash(x)], vs[r := x];
      && Consistent(hs', vs')
      && FindSlot(hs', Hash(x)) == r
      && MarkerSet(hs') == MarkerSet(hs0) + (if Hash(x) != 0 then {Hash(x)} else {})
      && Count(hs') <= Count(hs0) + 1
      && (hs == hs0 && Found(hs0, Hash(x)) ==> Count(hs') == Count(hs0))
      && ElementsOf(hs', vs') <= ElementsOf(hs0, vs0) + {x}
      && (AfterStart(hs0) ==> AfterStart(hs'))
      && (WellFormed(hs0) ==> WellFormed(hs') && ElementsOf(hs', vs') == Add(ElementsOf(hs0, vs0), x))
  {
    var h, r := Hash(x), FindSlot(hs, Hash(x));
    FindSlotAfterWrite(hs, h, h);
    MarkerSetWrite(hs, r, h);
    CountUpdate(hs, r, h);
    ElementsWrite(hs, vs, x);
    if WellFormed(hs) {
      WriteKeepsWellFormed(hs, h);
    }
    if AfterStart(hs0) {
      AfterStartWrite(hs, h);
    }
  }

  /**
   * Buffers grown from `(hs0, vs0)` by empty slots at the end hold the same
   * markers and elements, and a doubling starts the rehashing invariant.
   */
  lemma GrownTable(hs0: seq<SizeT>, vs0: seq<Bytes>, hs: seq<SizeT>, vs: seq<Bytes>)
    requires |hs0| == |vs0| && |hs| == |vs| && |hs0| <= |hs|
    requires hs[..|hs0|] == hs0 && vs[..|hs0|] == vs0
    requires forall t | |hs0| <= t < |hs| :: hs[t] == 0
    requires Consistent(hs0, vs0)
    ensures Consistent(hs, vs)
    ensures MarkerSet(hs) == MarkerSet(hs0) && Count(hs) == Count(hs0)
    ensures ElementsOf(hs, vs) == ElementsOf(hs0, vs0)
    ensures WellFormed(hs0) && |hs0| > 0 && |hs| == 2 * |hs0| ==> Rehashing(hs0, hs, 0)
  {
    var n := |hs0|;
    forall j | 0 <= j < |hs| && hs[j] != 0 ensures hs[j] == Hash(vs[j]) {
      assert j < n && hs0[j] == hs[j] && vs0[j] == vs[j];
    }
    CountZeroTail(hs, n);
    ElementsZeroTail(hs, vs, n);
    if WellFormed(hs0) && n > 0 && |hs| == 2 * n {
      RehashingStart(hs0, hs);
    }
  }

  // ---------------------------------------------------------------------
  // Facts about inserting a sequence of elements

  lemma HashesSnoc(xs: seq<Bytes>, x: Bytes)
    ensures Hashes(xs + [x]) == Hashes(xs) + (if Hash(x) != 0 then {Hash(x)} else {})
  {
    var ys := xs + [x];
    forall m | m in Hashes(xs) ensures m in Hashes(ys) {
      var a :| 0 <= a < |xs| && Hash(xs[a]) != 0 && m == Hash(xs[a]);
      assert ys[a] == xs[a];
    }
    if Hash(x) != 0 {
      assert ys[|xs|] == x;
    }
    forall m | m in Hashes(ys) && m != Hash(x) ensures m in Hashes(xs) {
      var a :| 0 <= a < |ys| && Hash(ys[a]) != 0 && m == Hash(ys[a]);
      assert a < |xs| && ys[a] == xs[a];
    }
  }

  /** Elements with distinct non-zero hashes yield as many markers as there are elements. */
  lemma {:induction false} HashesCount(xs: seq<Bytes>)
    requires DistinctHashes(xs)
    ensures |Hashes(xs)| == |xs|
    decreases |xs|
  {
    if |xs| > 0 {
      var n := |xs| - 1;
      var init := xs[..n];
      assert init + [xs[n]] == xs;
      assert DistinctHashes(init) by {
        forall a, b | 0 <= a < b < |init| ensures Hash(init[a]) != Hash(init[b]) {
          assert init[a] == xs[a] && init[b] == xs[b];
        }
      }
      HashesCount(init);
      HashesSnoc(init, xs[n]);
      forall a | 0 <= a < n ensures Hash(init[a]) != Hash(xs[n]) {
        assert init[a] == xs[a];
      }
      assert Hash(xs[n]) !in Hashes(init);
    }
  }

  /** Inserting an element whose hash is new and non-zero adds exactly that element. */
  lemma AddFresh(es: set<Bytes>, x: Bytes)
    requires Hash(x) != 0
    requires forall e | e in es :: Hash(e) != Hash(x)
    ensures Add(es, x) == es + {x}
  {
  }

  /** With distinct hashes, no element before position `n` hashes like the one at `n`. */
  lemma EarlierElementsDiffer(xs: seq<Bytes>, n: nat)
    requires DistinctHashes(xs) && n < |xs|
    ensures forall e | e in xs[..n] :: Hash(e) != Hash(xs[n])
  {
    forall e | e in xs[..n] ensures Hash(e) != Hash(xs[n]) {
      var a :| 0 <= a < n && xs[..n][a] == e;
      assert xs[a] == e;
    }
  }

  /**
   * Elements with distinct non-zero hashes whose hashes differ from those
   * already present are all kept: inserting them adds exactly them.
   */
  lemma {:induction false} AddAllDistinct(es: set<Bytes>, xs: seq<Bytes>)
    requires DistinctHashes(xs)
    requires forall e, a | e in es && 0 <= a < |xs| :: Hash(e) != Hash(xs[a])
    ensures forall e | e in AddAll(es, xs) :: e in es || e in xs
    ensures forall e | e in es || e in xs :: e in AddAll(es, xs)
    decreases |xs|
  {
    if |xs| > 0 {
      var n := |xs| - 1;
      var init, last := xs[..n], xs[n];
      assert xs == init + [last];
      assert DistinctHashes(init) by {
        forall a, b | 0 <= a < b < |init| ensures Hash(init[a]) != Hash(init[b]) {
          assert init[a] == xs[a] && init[b] == xs[b];
        }
      }
      forall e, a | e in es && 0 <= a < |init| ensures Hash(e) != Hash(init[a]) {
        assert init[a] == xs[a];
      }
      AddAllDistinct(es, init);
      EarlierElementsDiffer(xs, n);
      var prev := AddAll(es, init);
      forall e | e in prev ensures Hash(e) != Hash(last) {
        if e !in es {
          assert e in init;
        }
      }
      AddFresh(prev, last);
    }
  }

  /** How the abstract state advances by one element of `operator=`. */
  lemma AssignStep(es: set<Bytes>, xs: seq<Bytes>, i: nat)
    requires i < |xs|
    ensures AddAll(es, xs[..i + 1]) == Add(AddAll(es, xs[..i]), xs[i])
    ensures Hashes(xs[..i + 1]) == Hashes(xs[..i]) + (if Hash(xs[i]) != 0 then {Hash(xs[i])} else {})
  {
    assert xs[..i + 1] == xs[..i] + [xs[i]];
    assert xs[..i + 1][..i] == xs[..i];
    HashesSnoc(xs[..i], xs[i]);
  }

  /**
   * In a well-formed table whose markers include the hashes of `xs`, every
   * element of `xs` with a non-zero hash is found.
   */
  lemma FindsAll(hs: seq<SizeT>, xs: seq<Bytes>)
    requires WellFormed(hs) && Hashes(xs) <= MarkerSet(hs)
    ensures forall a | 0 <= a < |xs| && Hash(xs[a]) != 0 :: Found(hs, Hash(xs[a]))
  {
    forall a | 0 <= a < |xs| && Hash(xs[a]) != 0 ensures Found(hs, Hash(xs[a])) {
      assert Hash(xs[a]) in Hashes(xs);
      FoundIffPresent(hs, Hash(xs[a]));
    }
  }

  /**
   * A table filled from an empty one with elements of distinct non-zero
   * hashes holds exactly those elements, one slot each.
   */
  lemma FilledFromEmpty(hs0: seq<SizeT>, vs0: seq<Bytes>, hs: seq<SizeT>, vs: seq<Bytes>, xs: seq<Bytes>)
    requires |hs0| == |vs0| && |hs| == |vs| && Count(hs0) == 0
    requires WellFormed(hs) && MarkerSet(hs) == MarkerSet(hs0) + Hashes(xs)
    requires ElementsOf(hs, vs) == AddAll(ElementsOf(hs0, vs0), xs)
    requires DistinctHashes(xs)
    ensures Count(hs) == |xs|
    ensures forall e | e in ElementsOf(hs, vs) :: e in xs
    ensures forall e | e in xs :: e in ElementsOf(hs, vs)
  {
    EmptyIffNoMarkers(hs0);
    assert ElementsOf(hs0, vs0) == {} by {
      forall j | 0 <= j < |hs0| ensures hs0[j] == 0 {
        var x := hs0[j];
        assert x == 0 || x in MarkerSet(hs0);
      }
    }
    CountIsMarkers(hs);
    HashesCount(xs);
    AddAllDistinct({}, xs);
  }

  /** `cppds::set`: the buffers `_M_hdata`, `_M_vdata` and the count `_M_capacity`. */
  class Set {
    var hdata: array<SizeT>
    var vdata: array<Bytes>
    var capacity: nat
    ghost var Repr: set<object>

    /** Two separate buffers of `capacity` slots, markers agreeing with elements. */
    ghost predicate Valid()
      reads this, Repr
    {
      && Repr == {this, hdata, vdata}
      && (hdata as object) != (vdata as object)
      && hdata.Length == capacity && vdata.Length == capacity
      && capacity <= Limit
      && Consistent(hdata[..], vdata[..])
    }

    /** The elements the set holds. */
    ghost function Elements(): set<Bytes>
      reads this, Repr
      requires Valid()
    {
      ElementsOf(hdata[..], vdata[..])
    }

    /** A default-constructed set owns no buffers. */
    constructor ()
      ensures Valid() && fresh(Repr)
      ensures capacity == 0 && Elements() == {} && AfterStart(hdata[..])
    {
      hdata := new SizeT[0];
      vdata := new Bytes[0];
      capacity := 0;
      Repr := {this, hdata, vdata};
    }

    /** The forward probe every operation starts with. */
    method Find(h: SizeT) returns (idx: nat)
      requires Valid()
      ensures idx == FindSlot(hdata[..], h)
    {
      idx := if capacity > 0 then h % capacity else 0;
      while idx < capacity && hdata[idx] != 0 && hdata[idx] != h
        invariant Start(h, capacity) <= idx <= capacity
        invariant Probe(hdata[..], h, idx) == FindSlot(hdata[..], h)
        decreases capacity - idx
      {
        idx := idx + 1;
      }
    }

    /**
     * The retry loop of `insert`: while the probe for `h` runs off the end,
     * grow and probe again.
     */
    method MakeRoom(h: SizeT) returns (idx: nat)
      requires Valid() && Count(hdata[..]) < SizeSpace
      modifies Repr
      decreases Limit - capacity, 1
      ensures Valid() && fresh(Repr - old(Repr))
      ensures idx == FindSlot(hdata[..], h) && idx < capacity
      ensures capacity >= old(capacity)
      ensures capacity == old(capacity) <==> old(FindSlot(hdata[..], h)) < old(capacity)
      ensures capacity == old(capacity) ==>
        && hdata == old(hdata) && vdata == old(vdata)
        && hdata[..] == old(hdata[..]) && vdata[..] == old(vdata[..])
      ensures Keeps(old(hdata[..]), old(vdata[..]), hdata[..], vdata[..])
    {
      idx := Find(h);
      if idx < capacity {
        return;
      }
      ghost var hs0, vs0 := hdata[..], vdata[..];
      while idx >= capacity
        invariant Valid() && fresh(Repr - old(Repr))
        invariant capacity >= old(capacity)
        invariant idx == FindSlot(hdata[..], h)
        invariant idx < capacity ==> capacity > old(capacity)
        invariant Keeps(hs0, vs0, hdata[..], vdata[..])
        decreases Limit - capacity
      {
        ghost var hs1, vs1 := hdata[..], vdata[..];
        Grow(h);
        KeepsTrans(hs0, vs0, hs1, vs1, hdata[..], vdata[..]);
        idx := Find(h);
      }
    }

    /**
     * One round of the retry loop, once the probe for `h` has run off the
     * end: reserve one slot when the set is empty, else twice the capacity.
     */
    method Grow(h: SizeT)
      requires Valid() && FindSlot(hdata[..], h) == capacity && Count(hdata[..]) < SizeSpace
      modifies Repr
      decreases Limit - (if capacity == 0 then 1 else 2 * capacity), 6
      ensures Valid() && fresh(Repr - old(Repr))
      ensures capacity > old(capacity)
      ensures capacity >= if old(capacity) == 0 then 1 else 2 * old(capacity)
      ensures old(AfterStart(hdata[..])) ==>
        capacity == if old(capacity) == 0 then 1 else 2 * old(capacity)
      ensures Keeps(old(hdata[..]), old(vdata[..]), hdata[..], vdata[..])
    {
      if capacity > 0 {
        RunOffBound(hdata[..], h);
      }
      var empty := Empty();
      if empty {
        Reserve(1);
      } else {
        Reserve(2 * capacity);
      }
    }

    /** `insert`: probe, grow while the probe runs off the end, then write the slot. */
    method Insert(x: Bytes)
      requires Valid() && Count(hdata[..]) < SizeSpace
      modifies Repr
      decreases Limit - capacity, 2
      ensures Valid() && fresh(Repr - old(Repr))
      ensures capacity >= old(capacity)
      ensures FindSlot(hdata[..], Hash(x)) < capacity
      ensures var r := FindSlot(hdata[..], Hash(x));
        hdata[r] == Hash(x) && vdata[r] == x
      ensures MarkerSet(hdata[..]) == old(MarkerSet(hdata[..])) + (if Hash(x) != 0 then {Hash(x)} else {})
      ensures Found(hdata[..], Hash(x))
      ensures Count(hdata[..]) <= old(Count(hdata[..])) + 1
      ensures old(Found(hdata[..], Hash(x))) ==> Count(hdata[..]) == old(Count(hdata[..]))
      ensures Elements() <= old(Elements()) + {x}
      ensures var r := old(FindSlot(hdata[..], Hash(x)));
        r < old(capacity) ==>
          && capacity == old(capacity)
          && hdata == old(hdata) && vdata == old(vdata)
          && hdata[..] == old(hdata[..])[r := Hash(x)]
          && vdata[..] == old(vdata[..])[r := x]
      ensures old(FindSlot(hdata[..], Hash(x))) == old(capacity) ==> capacity > old(capacity)
      ensures old(AfterStart(hdata[..])) ==> AfterStart(hdata[..])
      ensures old(WellFormed(hdata[..])) ==>
        WellFormed(hdata[..]) && Elements() == Add(old(Elements()), x)
    {
      ghost var hs0, vs0 := hdata[..], vdata[..];
      var h := Fnv1Hash(x);
      var idx := MakeRoom(h);
      ghost var hs, vs := hdata[..], vdata[..];
      WriteAfterGrowth(hs0, vs0, hs, vs, x);
      Store(idx, h, x);
    }

    /** The two stores that end `insert`: element, then marker. */
    method Store(idx: nat, h: SizeT, x: Bytes)
      requires Valid() && idx < capacity
      modifies hdata, vdata
      ensures hdata[..] == old(hdata[..])[idx := h]
      ensures vdata[..] == old(vdata[..])[idx := x]
    {
      vdata[idx] := x;
      hdata[idx] := h;
    }

    /** `reserve`: grow the buffers to `newCap` slots and re-insert every old element. */
    method Reserve(newCap: nat)
      requires Valid() && newCap <= Limit && Count(hdata[..]) <= SizeSpace
      modifies Repr
      decreases Limit - newCap, 5
      ensures Valid() && fresh(Repr - old(Repr))
      ensures newCap < old(capacity) ==>
        && capacity == old(capacity)
        && hdata == old(hdata) && vdata == old(vdata)
        && hdata[..] == old(hdata[..]) && vdata[..] == old(vdata[..])
      ensures capacity >= old(capacity)
      ensures newCap >= old(capacity) ==> capacity >= newCap
      ensures MarkerSet(hdata[..]) == old(MarkerSet(hdata[..]))
      ensures Count(hdata[..]) <= old(Count(hdata[..]))
      ensures Elements() <= old(Elements())
      ensures old(AfterStart(hdata[..])) && (old(capacity) == 0 || newCap == 2 * old(capacity)) ==>
        capacity == newCap && AfterStart(hdata[..])
      ensures old(WellFormed(hdata[..])) && (old(capacity) == 0 || newCap == 2 * old(capacity)) ==>
        && capacity == newCap
        && WellFormed(hdata[..])
        && Elements() == old(Elements())
        && Count(hdata[..]) == old(Count(hdata[..]))
    {
      if newCap < capacity {
        return;
      }
      var oldCap := capacity;
      ghost var hs0 := hdata[..];
      ghost var doubling := WellFormed(hs0) && oldCap > 0 && newCap == 2 * oldCap;
      ghost var spreading := AfterStart(hs0) && oldCap > 0 && newCap == 2 * oldCap;
      Regrow(newCap);
      if spreading {
        SpreadingStart(hs0, hdata[..]);
      }
      ReinsertAll(oldCap, hs0, doubling, spreading);
      if doubling {
        RehashingDone(hs0, hdata[..]);
      }
      if spreading {
        SpreadingDone(hs0, hdata[..]);
      }
    }

    /**
     * The buffer part of `reserve`: reallocate both buffers to `newCap`
     * slots and zero the markers of the slots added at the end.
     */
    method Regrow(newCap: nat)
      requires Valid() && capacity <= newCap <= Limit
      modifies this
      ensures Valid() && fresh(Repr - {this})
      ensures capacity == newCap
      ensures hdata[..old(capacity)] == old(hdata[..])
      ensures vdata[..old(capacity)] == old(vdata[..])
      ensures forall t | old(capacity) <= t < capacity :: hdata[t] == 0
      ensures MarkerSet(hdata[..]) == old(MarkerSet(hdata[..]))
      ensures Count(hdata[..]) == old(Count(hdata[..]))
      ensures Elements() == old(Elements())
      ensures old(WellFormed(hdata[..])) && old(capacity) > 0 && newCap == 2 * old(capacity) ==>
        Rehashing(old(hdata[..]), hdata[..], 0)
    {
      var oldCap := capacity;
      ghost var hs0, vs0 := hdata[..], vdata[..];
      capacity := newCap;
      vdata := Buffers.Realloc(vdata, newCap);
      hdata := Buffers.Realloc(hdata, newCap);
      forall t | oldCap <= t < newCap {
        hdata[t] := 0;
      }
      Repr := {this, hdata, vdata};
      assert hdata[..][..oldCap] == hs0;
      assert vdata[..][..oldCap] == vs0;
      GrownTable(hs0, vs0, hdata[..], vdata[..]);
    }

    /**
     * The re-insertion loop of `reserve`: every old slot below `oldCap` goes
     * through `ReinsertSlot`, in index order.
     */
    method ReinsertAll(oldCap: nat, ghost hs0: seq<SizeT>, ghost doubling: bool, ghost spreading: bool)
      requires Valid() && oldCap <= capacity && Count(hdata[..]) <= SizeSpace
      requires doubling ==>
        && WellFormed(hs0) && oldCap == |hs0|
        && capacity == 2 * |hs0|
        && Rehashing(hs0, hdata[..], 0)
      requires spreading ==>
        && AfterStart(hs0) && oldCap == |hs0|
        && capacity == 2 * |hs0|
        && Spreading(hs0, hdata[..], 0)
      modifies Repr
      decreases Limit - capacity, 4
      ensures Valid() && fresh(Repr - old(Repr))
      ensures capacity >= old(capacity)
      ensures MarkerSet(hdata[..]) == old(MarkerSet(hdata[..]))
      ensures Count(hdata[..]) <= old(Count(hdata[..]))
      ensures Elements() <= old(Elements())
      ensures oldCap == 0 ==> capacity == old(capacity) && hdata[..] == old(hdata[..])
      ensures doubling ==>
        && capacity == old(capacity)
        && Rehashing(hs0, hdata[..], |hs0|)
        && Elements() == old(Elements())
        && Count(hdata[..]) == old(Count(hdata[..]))
      ensures spreading ==> capacity == old(capacity) && Spreading(hs0, hdata[..], |hs0|)
    {
      var i := 0;
      while i < oldCap
        invariant i <= oldCap <= capacity
        invariant Valid() && fresh(Repr - old(Repr))
        invariant capacity >= old(capacity)
        invariant MarkerSet(hdata[..]) == old(MarkerSet(hdata[..]))
        invariant Count(hdata[..]) <= old(Count(hdata[..]))
        invariant Elements() <= old(Elements())
        invariant i == 0 ==> capacity == old(capacity) && hdata[..] == old(hdata[..])
        invariant doubling ==>
          && capacity == old(capacity)
          && Rehashing(hs0, hdata[..], i)
          && Elements() == old(Elements())
          && Count(hdata[..]) == old(Count(hdata[..]))
        invariant spreading ==> capacity == old(capacity) && Spreading(hs0, hdata[..], i)
      {
        ReinsertSlot(i, hs0, doubling, spreading);
        i := i + 1;
      }
    }

    /**
     * One round of the re-insertion loop of `reserve`: an occupied slot is
     * emptied and its element is inserted again.  While the table doubles
     * from the well-formed `hs0`, the element lands in a slot that is
     * already available, so the rehashing invariant advances by one slot.
     * Doubling any table whose markers sit at or after their start slot
     * likewise never grows it again.
     */
    method ReinsertSlot(i: nat, ghost hs0: seq<SizeT>, ghost doubling: bool, ghost spreading: bool)
      requires Valid() && i < capacity && Count(hdata[..]) <= SizeSpace
      requires doubling ==>
        && WellFormed(hs0) && i < |hs0|
        && capacity == 2 * |hs0|
        && Rehashing(hs0, hdata[..], i)
      requires spreading ==>
        && AfterStart(hs0) && i < |hs0|
        && capacity == 2 * |hs0|
        && Spreading(hs0, hdata[..], i)
      modifies Repr
      decreases Limit - capacity, 3
      ensures Valid() && fresh(Repr - old(Repr))
      ensures capacity >= old(capacity)
      ensures MarkerSet(hdata[..]) == old(MarkerSet(hdata[..]))
      ensures Count(hdata[..]) <= old(Count(hdata[..]))
      ensures Elements() <= old(Elements())
      ensures doubling ==>
        && capacity == old(capacity)
        && Rehashing(hs0, hdata[..], i + 1)
        && Elements() == old(Elements())
        && Count(hdata[..]) == old(Count(hdata[..]))
      ensures spreading ==> capacity == old(capacity) && Spreading(hs0, hdata[..], i + 1)
    {
      ghost var hs, vs := hdata[..], vdata[..];
      if hdata[i] != 0 {
        var x := vdata[i];
        if doubling {
          RehashingStep(hs0, hs, i);
        }
        if spreading {
          SpreadingStep(hs0, hs, i);
        }
        MarkerSetClear(hs, i);
        CountUpdate(hs, i, 0);
        ElementsClear(hs, vs, i);
        hdata[i] := 0;
        assert hdata[..] == hs[i := 0];
        Insert(x);
        if doubling {
          var r := FindSlot(hs[i := 0], hs[i]);
          ElementsMove(hs, vs, i, r);
          CountUpdate(hs[i := 0], r, hs[i]);
        }
      } else {
        if doubling {
          RehashingSkip(hs0, hs, i);
        }
        if spreading {
          SpreadingSkip(hs0, hs, i);
        }
      }
    }

    /** `erase`: empty the slot the probe stops at, leaving no tombstone. */
    method Erase(x: Bytes)
      requires Valid()
      modifies hdata
      ensures Valid()
      ensures var r := old(FindSlot(hdata[..], Hash(x)));
        hdata[..] == if r < capacity then old(hdata[..])[r := 0] else old(hdata[..])
      ensures Hash(x) != 0 ==> !Found(hdata[..], Hash(x))
      ensures Count(hdata[..])
           == old(Count(hdata[..])) - (if old(Found(hdata[..], Hash(x))) && Hash(x) != 0 then 1 else 0)
      ensures old(AfterStart(hdata[..])) ==> AfterStart(hdata[..])
      ensures old(WellFormed(hdata[..])) ==>
        Elements() == set e | e in old(Elements()) && Hash(e) != Hash(x)
    {
      var h := Fnv1Hash(x);
      var idx := Find(h);
      ghost var hs := hdata[..];
      if WellFormed(hs) {
        ElementsErase(hs, vdata[..], h);
      }
      if idx < capacity {
        hdata[idx] := 0;
        assert hdata[..] == hs[idx := 0];
        CountUpdate(hs, idx, 0);
        if AfterStart(hs) {
          AfterStartClear(hs, idx);
        }
        if h != 0 {
          ClearHides(hs, h);
        }
      }
    }

    /** `contains`: the probe stops inside the table on a slot holding the element's hash. */
    method Contains(x: Bytes) returns (b: bool)
      requires Valid()
      ensures b == Found(hdata[..], Hash(x))
      ensures WellFormed(hdata[..]) && Hash(x) != 0 ==>
        (b <==> exists e | e in Elements() :: Hash(e) == Hash(x))
    {
      var h := Fnv1Hash(x);
      var idx := Find(h);
      b := idx < capacity && hdata[idx] == h;
      if WellFormed(hdata[..]) && h != 0 {
        FoundIffPresent(hdata[..], h);
        MarkersAreHashes(hdata[..], vdata[..], h);
      }
    }

    /** `clear`: release the buffers and return to capacity 0. */
    method Clear()
      requires Valid()
      modifies this
      ensures Valid() && fresh(Repr - {this})
      ensures capacity == 0 && Count(hdata[..]) == 0 && WellFormed(hdata[..]) && Elements() == {}
      ensures AfterStart(hdata[..])
    {
      hdata := new SizeT[0];
      vdata := new Bytes[0];
      capacity := 0;
      Repr := {this, hdata, vdata};
    }

    /** `size`: the number of occupied slots. */
    method Size() returns (n: nat)
      requires Valid()
      ensures n == Count(hdata[..])
      ensures n <= capacity
      ensures Distinct(hdata[..]) ==> n == |MarkerSet(hdata[..])|
    {
      n := 0;
      for i := 0 to capacity
        invariant n == Count(hdata[..i])
      {
        assert hdata[..i + 1][..i] == hdata[..i];
        if hdata[i] != 0 {
          n := n + 1;
        }
      }
      assert hdata[..capacity] == hdata[..];
      CountAtMost(hdata[..]);
      if Distinct(hdata[..]) {
        CountIsMarkers(hdata[..]);
      }
    }

    /** `empty`: no slot is occupied. */
    method Empty() returns (b: bool)
      requires Valid()
      ensures b <==> Count(hdata[..]) == 0
      ensures b <==> MarkerSet(hdata[..]) == {}
    {
      var n := Size();
      b := n == 0;
      EmptyIffNoMarkers(hdata[..]);
    }

    /** `capacity`: the number of slots. */
    method Capacity() returns (c: nat)
      requires Valid()
      ensures c == capacity == hdata.Length
    {
      c := capacity;
    }

    /**
     * One round of the `operator=` loop: `xs[i]` is inserted, so what the
     * loop knows about the first `i` elements now holds for the first `i + 1`.
     */
    method AssignOne(xs: seq<Bytes>, i: nat, ghost es0: set<Bytes>, ghost ms0: set<SizeT>, ghost n0: nat,
                     ghost wf0: bool, ghost as0: bool)
      requires Valid() && i < |xs| && n0 + |xs| <= SizeSpace
      requires MarkerSet(hdata[..]) == ms0 + Hashes(xs[..i])
      requires Count(hdata[..]) <= n0 + i
      requires wf0 ==> WellFormed(hdata[..]) && Elements() == AddAll(es0, xs[..i])
      requires as0 ==> AfterStart(hdata[..])
      modifies Repr
      ensures Valid() && fresh(Repr - old(Repr))
      ensures MarkerSet(hdata[..]) == ms0 + Hashes(xs[..i + 1])
      ensures Count(hdata[..]) <= n0 + i + 1
      ensures wf0 ==> WellFormed(hdata[..]) && Elements() == AddAll(es0, xs[..i + 1])
      ensures as0 ==> AfterStart(hdata[..])
    {
      AssignStep(es0, xs, i);
      Insert(xs[i]);
    }

    /**
     * `operator=`: insert the elements in order on top of the current
     * contents (the set is not cleared first).
     */
    method Assign(xs: seq<Bytes>)
      requires Valid() && Count(hdata[..]) + |xs| <= SizeSpace
      modifies Repr
      ensures Valid() && fresh(Repr - old(Repr))
      ensures MarkerSet(hdata[..]) == old(MarkerSet(hdata[..])) + Hashes(xs)
      ensures Count(hdata[..]) <= old(Count(hdata[..])) + |xs|
      ensures old(AfterStart(hdata[..])) ==> AfterStart(hdata[..])
      ensures old(WellFormed(hdata[..])) ==>
        && WellFormed(hdata[..])
        && Elements() == AddAll(old(Elements()), xs)
        && (forall a | 0 <= a < |xs| && Hash(xs[a]) != 0 :: Found(hdata[..], Hash(xs[a])))
      ensures old(WellFormed(hdata[..]) && Count(hdata[..]) == 0) && DistinctHashes(xs) ==>
        && Count(hdata[..]) == |xs|
        && (forall e | e in Elements() :: e in xs)
        && (forall e | e in xs :: e in Elements())
    {
      ghost var hs0, vs0 := hdata[..], vdata[..];
      ghost var es0, ms0, n0 := Elements(), MarkerSet(hdata[..]), Count(hdata[..]);
      ghost var wf0 := WellFormed(hdata[..]);
      ghost var as0 := AfterStart(hdata[..]);
      assert xs[..0] == [];
      for i := 0 to |xs|
        invariant Valid() && fresh(Repr - old(Repr))
        invariant MarkerSet(hdata[..]) == ms0 + Hashes(xs[..i])
        invariant Count(hdata[..]) <= n0 + i
        invariant wf0 ==> WellFormed(hdata[..]) && Elements() == AddAll(es0, xs[..i])
        invariant as0 ==> AfterStart(hdata[..])
      {
        AssignOne(xs, i, es0, ms0, n0, wf0, as0);
      }
      assert xs[..|xs|] == xs;
      if wf0 {
        FindsAll(hdata[..], xs);
        if n0 == 0 && DistinctHashes(xs) {
          FilledFromEmpty(hs0, vs0, hdata[..], vdata[..], xs);
        }
      }
    }
  }
}
