/**
 * The probe discipline shared by the hash map and the hash set, stated on
 * the sequence of hash markers alone.  A marker 0 means "empty slot".
 * A probe for marker `h` starts at `h % capacity` (0 when the capacity is 0)
 * and walks forward, without wrapping, until it falls off the end or meets a
 * slot that is empty or holds `h`.
 */
module Probing {
  import opened Fnv

  /** The first slot probed for marker `h` in a table of `cap` slots. */
  function Start(h: SizeT, cap: nat): (s: nat)
    ensures cap == 0 ==> s == 0
    ensures cap > 0 ==> s < cap && s <= h
  {
    if cap == 0 then 0 else h % cap
  }

  /** The slot where a forward probe for `h` from slot `i` stops (`|hs|` when it runs off the end). */
  function Probe(hs: seq<SizeT>, h: SizeT, i: nat): (r: nat)
    requires i <= |hs|
    ensures i <= r <= |hs|
    ensures r < |hs| ==> hs[r] == 0 || hs[r] == h
    ensures forall t | i <= t < r :: hs[t] != 0 && hs[t] != h
    decreases |hs| - i
  {
    if i == |hs| || hs[i] == 0 || hs[i] == h then i else Probe(hs, h, i + 1)
  }

  /** The slot every operation settles on for marker `h`. */
  function FindSlot(hs: seq<SizeT>, h: SizeT): (r: nat)
    ensures r <= |hs|
  {
    Probe(hs, h, Start(h, |hs|))
  }

  /** What `contains` answers: the probe stops inside the table on a slot holding `h`. */
  predicate Found(hs: seq<SizeT>, h: SizeT) {
    FindSlot(hs, h) < |hs| && hs[FindSlot(hs, h)] == h
  }

  /** The number of non-empty slots, which is what `size` reports. */
  function Count(hs: seq<SizeT>): nat {
    if |hs| == 0 then 0
    else Count(hs[..|hs| - 1]) + (if hs[|hs| - 1] != 0 then 1 else 0)
  }

  /** The markers present in the table. */
  ghost function MarkerSet(hs: seq<SizeT>): set<SizeT> {
    set j | 0 <= j < |hs| && hs[j] != 0 :: hs[j]
  }

  /** Every occupied slot's marker is the hash of the item (key or value) hashed for it. */
  ghost predicate Consistent(hs: seq<SizeT>, ks: seq<Bytes>)
    requires |hs| == |ks|
  {
    forall j | 0 <= j < |hs| && hs[j] != 0 :: hs[j] == Hash(ks[j])
  }

  /** No non-zero marker is stored twice. */
  ghost predicate Distinct(hs: seq<SizeT>) {
    forall i, j | 0 <= i < j < |hs| && hs[i] != 0 :: hs[i] != hs[j]
  }

  /** Slot `j` lies at or after its start slot, and every slot in between is occupied. */
  ghost predicate Settled(hs: seq<SizeT>, j: nat)
    requires j < |hs|
  {
    var s := Start(hs[j], |hs|);
    s <= j && forall t | s <= t < j :: hs[t] != 0
  }

  /**
   * The table invariant that insertion keeps and erasure can break: markers
   * are distinct and every probe chain is unbroken.
   */
  ghost predicate WellFormed(hs: seq<SizeT>) {
    && Distinct(hs)
    && forall j | 0 <= j < |hs| && hs[j] != 0 :: Settled(hs, j)
  }

  // ---------------------------------------------------------------------
  // Probing facts

  /** Writing `h` or 0 where the probe for `h` stops leaves that stop where it was. */
  lemma FindSlotAfterWrite(hs: seq<SizeT>, h: SizeT, x: SizeT)
    requires FindSlot(hs, h) < |hs|
    requires x == 0 || x == h
    ensures FindSlot(hs[FindSlot(hs, h) := x], h) == FindSlot(hs, h)
  {
    var r := FindSlot(hs, h);
    var hs' := hs[r := x];
    var s := Start(h, |hs|);
    assert Start(h, |hs'|) == s;
    var r' := Probe(hs', h, s);
    assert r' <= r by {
      assert hs'[r] == 0 || hs'[r] == h;
    }
    assert forall t | s <= t < r :: hs'[t] == hs[t];
  }

  /** In a well-formed table a non-zero marker is found exactly when it is stored. */
  lemma FoundIffPresent(hs: seq<SizeT>, h: SizeT)
    requires WellFormed(hs) && h != 0
    ensures Found(hs, h) <==> h in MarkerSet(hs)
  {
    if h in MarkerSet(hs) {
      var j :| 0 <= j < |hs| && hs[j] != 0 && hs[j] == h;
      assert Settled(hs, j);
      var r := FindSlot(hs, h);
      assert r <= j;
      assert forall t | Start(h, |hs|) <= t < j :: hs[t] != 0 && hs[t] != hs[j];
    }
  }

  /** A probe that runs off the end crossed only occupied slots. */
  lemma RunOffBound(hs: seq<SizeT>, h: SizeT)
    requires |hs| > 0 && FindSlot(hs, h) == |hs|
    ensures Count(hs) >= |hs| - Start(h, |hs|)
  {
    CountAtLeast(hs, Start(h, |hs|));
  }

  // ---------------------------------------------------------------------
  // Counting

  lemma {:induction false} CountAtLeast(hs: seq<SizeT>, s: nat)
    requires s <= |hs|
    requires forall t | s <= t < |hs| :: hs[t] != 0
    ensures Count(hs) >= |hs| - s
    decreases |hs|
  {
    if |hs| > s {
      CountAtLeast(hs[..|hs| - 1], s);
    }
  }

  /** Replacing one marker changes the count by what the slot's occupancy changes by. */
  lemma {:induction false} CountUpdate(hs: seq<SizeT>, j: nat, x: SizeT)
    requires j < |hs|
    ensures Count(hs[j := x])
         == Count(hs) - (if hs[j] != 0 then 1 else 0) + (if x != 0 then 1 else 0)
    decreases |hs|
  {
    var n := |hs| - 1;
    if j < n {
      assert hs[j := x][..n] == hs[..n][j := x];
      CountUpdate(hs[..n], j, x);
    } else {
      assert hs[j := x][..n] == hs[..n];
    }
  }

  /** The count is bounded by the number of slots. */
  lemma {:induction false} CountAtMost(hs: seq<SizeT>)
    ensures Count(hs) <= |hs|
    decreases |hs|
  {
    if |hs| > 0 {
      CountAtMost(hs[..|hs| - 1]);
    }
  }

  /** Empty slots past slot `n` add nothing to the count or the markers. */
  lemma {:induction false} CountZeroTail(hs: seq<SizeT>, n: nat)
    requires n <= |hs|
    requires forall t | n <= t < |hs| :: hs[t] == 0
    ensures Count(hs) == Count(hs[..n])
    ensures MarkerSet(hs) == MarkerSet(hs[..n])
    decreases |hs|
  {
    if |hs| > n {
      var m := |hs| - 1;
      assert hs[..m][..n] == hs[..n];
      CountZeroTail(hs[..m], n);
    } else {
      assert hs[..n] == hs;
    }
    forall x | x in MarkerSet(hs) ensures x in MarkerSet(hs[..n]) {
      var j :| 0 <= j < |hs| && hs[j] != 0 && hs[j] == x;
      assert hs[..n][j] == x;
    }
  }

  /** An occupied slot makes the count positive. */
  lemma {:induction false} CountPositive(hs: seq<SizeT>, t: nat)
    requires t < |hs| && hs[t] != 0
    ensures Count(hs) >= 1
    decreases |hs|
  {
    var n := |hs| - 1;
    if t < n {
      assert hs[..n][t] == hs[t];
      CountPositive(hs[..n], t);
    }
  }

  /** The count is 0 exactly when no marker is present. */
  lemma EmptyIffNoMarkers(hs: seq<SizeT>)
    ensures Count(hs) == 0 <==> MarkerSet(hs) == {}
  {
    if forall t | 0 <= t < |hs| :: hs[t] == 0 {
      CountAllEmpty(hs);
    } else {
      var t :| 0 <= t < |hs| && hs[t] != 0;
      CountPositive(hs, t);
      assert hs[t] in MarkerSet(hs);
    }
  }

  /** The markers of a table are those of all but its last slot, plus the last one's. */
  lemma MarkerSetSnoc(hs: seq<SizeT>)
    requires |hs| > 0
    ensures var n := |hs| - 1;
      MarkerSet(hs) == MarkerSet(hs[..n]) + (if hs[n] != 0 then {hs[n]} else {})
  {
    var n := |hs| - 1;
    var pre := hs[..n];
    forall m | m in MarkerSet(hs) ensures m in MarkerSet(pre) || (hs[n] != 0 && m == hs[n]) {
      var t :| 0 <= t < |hs| && hs[t] != 0 && hs[t] == m;
      if t < n {
        assert pre[t] == m;
      }
    }
    forall m | m in MarkerSet(pre) ensures m in MarkerSet(hs) {
      var t :| 0 <= t < n && pre[t] != 0 && pre[t] == m;
      assert hs[t] == m;
    }
  }

  /** With distinct markers the count is the number of markers present. */
  lemma {:induction false} CountIsMarkers(hs: seq<SizeT>)
    requires Distinct(hs)
    ensures Count(hs) == |MarkerSet(hs)|
    decreases |hs|
  {
    if |hs| > 0 {
      var n := |hs| - 1;
      var pre := hs[..n];
      assert Distinct(pre) by {
        forall i, j | 0 <= i < j < n && pre[i] != 0 ensures pre[i] != pre[j] {
          assert pre[i] == hs[i] && pre[j] == hs[j];
        }
      }
      CountIsMarkers(pre);
      MarkerSetSnoc(hs);
      if hs[n] != 0 {
        forall t | 0 <= t < n && pre[t] != 0 ensures pre[t] != hs[n] {
          assert pre[t] == hs[t];
        }
        assert hs[n] !in MarkerSet(pre);
      }
    }
  }

  /** The count of a table that has no occupied slot is 0. */
  lemma {:induction false} CountAllEmpty(hs: seq<SizeT>)
    requires forall t | 0 <= t < |hs| :: hs[t] == 0
    ensures Count(hs) == 0 && MarkerSet(hs) == {}
    decreases |hs|
  {
    if |hs| > 0 {
      CountAllEmpty(hs[..|hs| - 1]);
    }
  }

  /** Storing `x` in a slot that was empty or already held `x` adds `x` to the markers. */
  lemma MarkerSetWrite(hs: seq<SizeT>, j: nat, x: SizeT)
    requires j < |hs| && (hs[j] == 0 || hs[j] == x)
    ensures MarkerSet(hs[j := x]) == MarkerSet(hs) + (if x != 0 then {x} else {})
  {
    var hs' := hs[j := x];
    forall m | m in MarkerSet(hs) ensures m in MarkerSet(hs') {
      var t :| 0 <= t < |hs| && hs[t] != 0 && hs[t] == m;
      if t == j {
        assert hs'[t] == m;
      } else {
        assert hs'[t] == m;
      }
    }
    if x != 0 {
      assert hs'[j] == x;
    }
  }

  /** Zeroing slot `j` removes at most its marker `hs[j]` from the marker set, and nothing else. */
  lemma MarkerSetClear(hs: seq<SizeT>, j: nat)
    requires j < |hs|
    ensures MarkerSet(hs[j := 0]) <= MarkerSet(hs)
    ensures MarkerSet(hs[j := 0]) + (if hs[j] != 0 then {hs[j]} else {}) == MarkerSet(hs)
  {
    var hs' := hs[j := 0];
    forall m | m in MarkerSet(hs') ensures m in MarkerSet(hs) {
      var t :| 0 <= t < |hs'| && hs'[t] != 0 && hs'[t] == m;
      assert hs[t] == m;
    }
    forall m | m in MarkerSet(hs) && m != hs[j] ensures m in MarkerSet(hs') {
      var t :| 0 <= t < |hs| && hs[t] != 0 && hs[t] == m;
      assert hs'[t] == m;
    }
  }

  // ---------------------------------------------------------------------
  // Insertion keeps a table well-formed

  /** Writing `h` where its probe stops keeps a well-formed table well-formed. */
  lemma WriteKeepsWellFormed(hs: seq<SizeT>, h: SizeT)
    requires WellFormed(hs)
    requires FindSlot(hs, h) < |hs|
    ensures WellFormed(hs[FindSlot(hs, h) := h])
  {
    var r := FindSlot(hs, h);
    var hs' := hs[r := h];
    if hs[r] == h || h == 0 {
      assert hs' == hs;
    } else {
      forall j | 0 <= j < |hs| && j != r && hs[j] != 0
        ensures hs[j] != h
      {
        assert Settled(hs, j);
        assert j > r ==> hs[j] != h;
      }
      forall j | 0 <= j < |hs'| && hs'[j] != 0
        ensures Settled(hs', j)
      {
        if j != r {
          assert Settled(hs, j);
        }
      }
    }
  }

  // ---------------------------------------------------------------------
  // Growth by doubling

  /** `c * k` is at least `c` for positive `k` and at most `-c` for negative `k`. */
  lemma MulBounds(c: int, k: int)
    requires c > 0
    ensures k >= 1 ==> c * k >= c
    ensures k <= -1 ==> c * k <= -c
  {
  }

  /** Division with remainder is unique. */
  lemma ModUnique(h: int, c: int, a: int, b: int)
    requires c > 0 && 0 <= b < c && h == c * a + b
    ensures h % c == b
  {
    var q, r := h / c, h % c;
    assert h == c * q + r;
    assert c * (a - q) == r - b;
    MulBounds(c, a - q);
  }

  /** A marker's start slot after doubling is its old start, or that plus the old capacity. */
  lemma StartAfterDoubling(h: SizeT, c: nat)
    requires c > 0
    ensures Start(h, 2 * c) == Start(h, c) || Start(h, 2 * c) == Start(h, c) + c
  {
    var q, r := h / (2 * c), h % (2 * c);
    assert h == (2 * c) * q + r;
    if r < c {
      assert h == c * (2 * q) + r;
      ModUnique(h, c, 2 * q, r);
    } else {
      assert h == c * (2 * q + 1) + (r - c);
      ModUnique(h, c, 2 * q + 1, r - c);
    }
  }

  /**
   * The state of the markers part way through re-insertion after doubling
   * `hs0` (capacity c) to 2c: slots [i, c) are not yet processed, the new
   * slots [c + i, 2c) are still empty, markers are distinct, and every marker
   * already re-inserted sits on an unbroken chain, in the old half when it
   * starts there and in the new half otherwise.
   */
  ghost predicate Rehashing(hs0: seq<SizeT>, hs: seq<SizeT>, i: nat) {
    var c := |hs0|;
    && |hs| == 2 * c
    && i <= c
    && (forall t | i <= t < c :: hs[t] == hs0[t])
    && (forall t | c + i <= t < 2 * c :: hs[t] == 0)
    && Distinct(hs)
    && (forall j | 0 <= j < i && hs[j] != 0 :: Settled(hs, j))
    && (forall j | c <= j < c + i && hs[j] != 0 :: Settled(hs, j) && c <= Start(hs[j], 2 * c))
  }

  /** Right after the buffers double, nothing is processed yet. */
  lemma RehashingStart(hs0: seq<SizeT>, hs: seq<SizeT>)
    requires WellFormed(hs0)
    requires |hs| == 2 * |hs0|
    requires hs[..|hs0|] == hs0
    requires forall t | |hs0| <= t < |hs| :: hs[t] == 0
    ensures Rehashing(hs0, hs, 0)
  {
    var c := |hs0|;
    forall t | 0 <= t < c ensures hs[t] == hs0[t] {
      assert hs[..c][t] == hs[t];
    }
  }

  /** An empty old slot needs no work. */
  lemma RehashingSkip(hs0: seq<SizeT>, hs: seq<SizeT>, i: nat)
    requires Rehashing(hs0, hs, i) && i < |hs0| && hs[i] == 0
    ensures Rehashing(hs0, hs, i + 1)
  {
  }

  /** With distinct markers, a stored marker appears in no other slot. */
  lemma DistinctElsewhere(hs: seq<SizeT>, i: nat)
    requires Distinct(hs) && i < |hs| && hs[i] != 0
    ensures forall t | 0 <= t < |hs| && t != i :: hs[t] != hs[i]
  {
    forall t | 0 <= t < |hs| && t != i ensures hs[t] != hs[i] {
      if t < i && hs[t] != 0 {
        assert hs[t] != hs[i];
      }
    }
  }

  /** Moving the marker of slot i to an empty slot r keeps markers distinct. */
  lemma MoveKeepsDistinct(hs: seq<SizeT>, i: nat, r: nat)
    requires Distinct(hs) && i < |hs| && r < |hs| && hs[i] != 0
    requires hs[i := 0][r] == 0
    ensures Distinct(hs[i := 0][r := hs[i]])
  {
    var hs' := hs[i := 0][r := hs[i]];
    DistinctElsewhere(hs, i);
    forall a, b | 0 <= a < b < |hs'| && hs'[a] != 0 ensures hs'[a] != hs'[b] {
      if a == r {
      } else if b == r {
        assert a != i && hs'[a] == hs[a];
      } else {
        assert hs'[a] == hs[a];
      }
    }
  }

  /**
   * Where the marker of old slot i lands when it is re-inserted after its slot
   * is emptied: inside the table, on an empty slot, at or before i when it
   * starts in the old half, and in the new half no later than c + i otherwise.
   */
  lemma RehashLanding(hs0: seq<SizeT>, hs: seq<SizeT>, i: nat)
    requires WellFormed(hs0)
    requires Rehashing(hs0, hs, i) && i < |hs0| && hs[i] != 0
    ensures var cl := hs[i := 0]; var r := FindSlot(cl, hs[i]);
      && r < |cl| && cl[r] == 0
      && (r <= i || (|hs0| <= r <= |hs0| + i && |hs0| <= Start(hs[i], |hs|)))
      && Settled(cl[r := hs[i]], r)
  {
    var c := |hs0|;
    var h := hs[i];
    var cl := hs[i := 0];
    assert hs0[i] == h;
    assert Settled(hs0, i);
    StartAfterDoubling(h, c);
    assert forall t | 0 <= t < |cl| && t != i :: cl[t] == hs[t];
    DistinctElsewhere(hs, i);
    var r := FindSlot(cl, h);
    if Start(h, 2 * c) == Start(h, c) {
      assert cl[i] == 0;
    } else {
      assert cl[c + i] == 0;
    }
  }

  /**
   * A settled slot j stays settled when a slot i outside its chain is
   * emptied and an empty slot r is filled with a non-zero marker.
   */
  lemma SettledAfterMove(hs: seq<SizeT>, i: nat, r: nat, h: SizeT, j: nat)
    requires i < |hs| && r < |hs| && j < |hs| && j != r && j != i && h != 0
    requires Settled(hs, j)
    requires i < Start(hs[j], |hs|) || j < i
    ensures Settled(hs[i := 0][r := h], j)
  {
    var hs' := hs[i := 0][r := h];
    assert hs'[j] == hs[j];
    forall t | Start(hs[j], |hs|) <= t < j ensures hs'[t] != 0 {
      if t != r {
        assert hs'[t] == hs[t];
      }
    }
  }

  /**
   * Re-inserting the marker of old slot i after emptying it stops inside the
   * table on an empty slot (so no further growth happens), and the state
   * moves on to i + 1.
   */
  lemma RehashingStep(hs0: seq<SizeT>, hs: seq<SizeT>, i: nat)
    requires WellFormed(hs0)
    requires Rehashing(hs0, hs, i) && i < |hs0| && hs[i] != 0
    ensures FindSlot(hs[i := 0], hs[i]) < |hs|
    ensures hs[i := 0][FindSlot(hs[i := 0], hs[i])] == 0
    ensures Rehashing(hs0, hs[i := 0][FindSlot(hs[i := 0], hs[i]) := hs[i]], i + 1)
  {
    var c := |hs0|;
    var h := hs[i];
    var cl := hs[i := 0];
    RehashLanding(hs0, hs, i);
    var r := FindSlot(cl, h);
    var hs' := cl[r := h];
    MoveKeepsDistinct(hs, i, r);
    assert forall t | 0 <= t < |hs'| && t != i && t != r :: hs'[t] == hs[t];
    forall j | 0 <= j < i + 1 && hs'[j] != 0 ensures Settled(hs', j) {
      if j != r {
        assert j < i && hs'[j] == hs[j];
        SettledAfterMove(hs, i, r, h, j);
      }
    }
    forall j | c <= j < c + i + 1 && hs'[j] != 0
      ensures Settled(hs', j) && c <= Start(hs'[j], 2 * c)
    {
      if j != r {
        assert j < c + i && hs'[j] == hs[j];
        SettledAfterMove(hs, i, r, h, j);
      }
    }
  }

  /** Once every old slot is processed the doubled table is well-formed. */
  lemma RehashingDone(hs0: seq<SizeT>, hs: seq<SizeT>)
    requires Rehashing(hs0, hs, |hs0|)
    ensures WellFormed(hs)
  {
    var c := |hs0|;
    forall j | 0 <= j < |hs| && hs[j] != 0 ensures Settled(hs, j) {
      if j >= c {
        assert c <= j < c + c;
      }
    }
  }

  // ---------------------------------------------------------------------
  // Markers never sit before their start slot

  /**
   * Every occupied slot lies at or after its marker's start slot.  Insertion,
   * erasure and `reserve` keep this for every table, well-formed or not.
   */
  ghost predicate AfterStart(hs: seq<SizeT>) {
    forall j | 0 <= j < |hs| && hs[j] != 0 :: Start(hs[j], |hs|) <= j
  }

  /** A well-formed table has every marker at or after its start slot. */
  lemma WellFormedAfterStart(hs: seq<SizeT>)
    requires WellFormed(hs)
    ensures AfterStart(hs)
  {
    forall j | 0 <= j < |hs| && hs[j] != 0 ensures Start(hs[j], |hs|) <= j {
      assert Settled(hs, j);
    }
  }

  /** Writing a marker where its probe stops keeps every marker at or after its start. */
  lemma AfterStartWrite(hs: seq<SizeT>, h: SizeT)
    requires AfterStart(hs) && FindSlot(hs, h) < |hs|
    ensures AfterStart(hs[FindSlot(hs, h) := h])
  {
    var r := FindSlot(hs, h);
    var hs' := hs[r := h];
    forall j | 0 <= j < |hs'| && hs'[j] != 0 ensures Start(hs'[j], |hs'|) <= j {
      if j != r {
        assert hs'[j] == hs[j];
      }
    }
  }

  /** Emptying a slot keeps every marker at or after its start. */
  lemma AfterStartClear(hs: seq<SizeT>, j: nat)
    requires AfterStart(hs) && j < |hs|
    ensures AfterStart(hs[j := 0])
  {
    var hs' := hs[j := 0];
    forall t | 0 <= t < |hs'| && hs'[t] != 0 ensures Start(hs'[t], |hs'|) <= t {
      assert hs'[t] == hs[t];
    }
  }

  /**
   * The state of the markers part way through re-insertion after doubling
   * `hs0` (capacity c) to 2c, for any table whose markers sit at or after
   * their start: slots [i, c) are not yet processed, the new slots
   * [c + i, 2c) are still empty, and every marker already re-inserted sits at
   * or after its new start, in the new half when it starts there.
   */
  ghost predicate Spreading(hs0: seq<SizeT>, hs: seq<SizeT>, i: nat) {
    var c := |hs0|;
    && |hs| == 2 * c
    && i <= c
    && (forall t | i <= t < c :: hs[t] == hs0[t])
    && (forall t | c + i <= t < 2 * c :: hs[t] == 0)
    && (forall j | 0 <= j < i && hs[j] != 0 :: Start(hs[j], 2 * c) <= j)
    && (forall j | c <= j < c + i && hs[j] != 0 :: c <= Start(hs[j], 2 * c) <= j)
  }

  /** Right after the buffers double, nothing is processed yet. */
  lemma SpreadingStart(hs0: seq<SizeT>, hs: seq<SizeT>)
    requires |hs| == 2 * |hs0|
    requires hs[..|hs0|] == hs0
    requires forall t | |hs0| <= t < |hs| :: hs[t] == 0
    ensures Spreading(hs0, hs, 0)
  {
    var c := |hs0|;
    forall t | 0 <= t < c ensures hs[t] == hs0[t] {
      assert hs[..c][t] == hs[t];
    }
  }

  /** An empty old slot needs no work. */
  lemma SpreadingSkip(hs0: seq<SizeT>, hs: seq<SizeT>, i: nat)
    requires Spreading(hs0, hs, i) && i < |hs0| && hs[i] == 0
    ensures Spreading(hs0, hs, i + 1)
  {
  }

  /**
   * Re-inserting the marker of old slot i after emptying it stops inside the
   * table on an empty slot or on the same marker, so no further growth
   * happens, and the state moves on to i + 1.
   */
  lemma SpreadingStep(hs0: seq<SizeT>, hs: seq<SizeT>, i: nat)
    requires AfterStart(hs0)
    requires Spreading(hs0, hs, i) && i < |hs0|
    ensures FindSlot(hs[i := 0], hs[i]) < |hs|
    ensures Spreading(hs0, hs[i := 0][FindSlot(hs[i := 0], hs[i]) := hs[i]], i + 1)
  {
    var c := |hs0|;
    var h := hs[i];
    var cl := hs[i := 0];
    assert hs0[i] == h;
    StartAfterDoubling(h, c);
    var r := FindSlot(cl, h);
    if h != 0 {
      assert Start(h, c) <= i;
    }
    if Start(h, 2 * c) == Start(h, c) {
      assert cl[i] == 0;
      assert r <= i;
    } else {
      assert cl[c + i] == 0;
      assert c <= r <= c + i;
    }
    var hs' := cl[r := h];
    assert forall t | 0 <= t < |hs'| && t != i && t != r :: hs'[t] == hs[t];
  }

  /** Once every old slot is processed, every marker sits at or after its start. */
  lemma SpreadingDone(hs0: seq<SizeT>, hs: seq<SizeT>)
    requires Spreading(hs0, hs, |hs0|)
    ensures AfterStart(hs)
  {
    var c := |hs0|;
    forall j | 0 <= j < |hs| && hs[j] != 0 ensures Start(hs[j], |hs|) <= j {
      if j >= c {
        assert c <= j < c + c;
      }
    }
  }

  /**
   * One doubling need not make room: in [2, 3] the probe for 7 runs off the
   * end; doubling to four slots and re-inserting slot 0 and then slot 1 the
   * way `reserve` does gives [0, 0, 2, 3], where the probe for 7 runs off the
   * end again, so `insert` grows a second time.
   */
  lemma GrowthCanRepeat()
    ensures WellFormed([2, 3]) && FindSlot([2, 3], 7) == 2
    ensures var hs1: seq<SizeT> := [2, 3, 0, 0];
      var hs2 := hs1[0 := 0][FindSlot(hs1[0 := 0], 2) := 2];
      var hs3 := hs2[1 := 0][FindSlot(hs2[1 := 0], 3) := 3];
      hs3 == [0, 0, 2, 3] && WellFormed(hs3) && FindSlot(hs3, 7) == 4
  {
    var hs: seq<SizeT> := [2, 3];
    assert Settled(hs, 0) && Settled(hs, 1);
    var hs1: seq<SizeT> := [2, 3, 0, 0];
    assert FindSlot(hs1[0 := 0], 2) == 2;
    var hs2 := hs1[0 := 0][2 := 2];
    assert FindSlot(hs2[1 := 0], 3) == 3;
    var hs3 := hs2[1 := 0][3 := 3];
    assert hs3 == [0, 0, 2, 3];
    assert Settled(hs3, 2) && Settled(hs3, 3);
    assert FindSlot(hs3, 7) == 4;
  }

  // ---------------------------------------------------------------------
  // Erasure without tombstones

  /** Emptying the slot where the probe for `h` stops makes `h` not found. */
  lemma ClearHides(hs: seq<SizeT>, h: SizeT)
    requires FindSlot(hs, h) < |hs| && h != 0
    ensures !Found(hs[FindSlot(hs, h) := 0], h)
  {
    FindSlotAfterWrite(hs, h, 0);
  }

  /**
   * Erasure can cut another key's probe chain: inserting 4 and then 8 into
   * an empty table gives the well-formed table [4, 8] of capacity 2, where
   * marker 8 probed past slot 0; erasing 4 empties slot 0, after which 8 is
   * still stored but no longer found.
   */
  lemma EraseCanHideAnotherKey()
    ensures WellFormed([4, 8])
    ensures Found([4, 8], 8) && FindSlot([4, 8], 4) == 0
    ensures 8 in MarkerSet([4, 8][0 := 0])
    ensures !Found([4, 8][0 := 0], 8)
  {
    var hs: seq<SizeT> := [4, 8];
    assert Settled(hs, 0) && Settled(hs, 1);
    assert FindSlot(hs, 8) == 1;
    var hs' := hs[0 := 0];
    assert hs'[1] == 8;
    assert FindSlot(hs', 8) == 0;
  }

  /**
   * Inserting a key again after erasure has hidden it stores a second copy:
   * in [0, 8] (the table [4, 8] after erasing 4) marker 8 is stored but the
   * probe for 8 stops at the empty slot 0, so the write gives [8, 8], which
   * counts two slots for one marker.
   */
  lemma InsertAfterEraseDuplicates()
    ensures 8 in MarkerSet([0, 8]) && !Found([0, 8], 8)
    ensures FindSlot([0, 8], 8) == 0
    ensures [0, 8][0 := 8] == [8, 8]
    ensures !Distinct([8, 8]) && Count([8, 8]) == 2 && MarkerSet([8, 8]) == {8}
  {
    var hs: seq<SizeT> := [0, 8];
    assert hs[1] == 8;
    var dup: seq<SizeT> := [8, 8];
    assert dup[0] == dup[1];
    assert dup[..1] == [8];
    assert MarkerSet(dup) == {8} by {
      forall m | m in MarkerSet(dup) ensures m == 8 {
        var j :| 0 <= j < |dup| && dup[j] != 0 && dup[j] == m;
      }
      assert dup[0] in MarkerSet(dup);
    }
  }
}
