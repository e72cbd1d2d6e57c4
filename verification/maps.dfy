/**
 * The open-addressing hash map: three parallel buffers of one capacity
 * holding, per slot, a hash marker (0 = empty), a key and a value.  Keys are
 * taken as the bytes of their object representation, which is what the map
 * hashes.  The table grows by doubling when a probe runs off its end, and
 * re-inserts every old entry into the grown buffers.
 */
module Maps {
  import opened Fnv
  import opened Probing
  import Buffers

  /** A bound on the capacity, used only to show that growth terminates. */
  const Limit: nat := 0x4_0000_0000_0000_0000

  /** The number of distinct `size_t` values. */
  const SizeSpace: nat := 0x1_0000_0000_0000_0000

  /** The key-value pairs held in occupied slots. */
  ghost function EntriesOf<V>(hs: seq<SizeT>, ks: seq<Bytes>, vs: seq<V>): set<(Bytes, V)>
    requires |hs| == |ks| == |vs|
  {
    set j | 0 <= j < |hs| && hs[j] != 0 :: (ks[j], vs[j])
  }

  /**
   * The intended effect of inserting `(k, v)`: an entry whose key hashes
   * like `k` is replaced, and a key whose hash is 0 is not recorded.
   */
  ghost function Upsert<V>(es: set<(Bytes, V)>, k: Bytes, v: V): set<(Bytes, V)> {
    (set e | e in es && Hash(e.0) != Hash(k)) + (if Hash(k) != 0 then {(k, v)} else {})
  }

  /** Inserting the pairs one after another, in order. */
  ghost function UpsertAll<V>(es: set<(Bytes, V)>, pairs: seq<(Bytes, V)>): set<(Bytes, V)>
    decreases |pairs|
  {
    if |pairs| == 0 then es
    else
      var last := pairs[|pairs| - 1];
      Upsert(UpsertAll(es, pairs[..|pairs| - 1]), last.0, last.1)
  }

  /** The non-zero hashes of the keys among `pairs`. */
  ghost function KeyHashes<V>(pairs: seq<(Bytes, V)>): set<SizeT> {
    set a | 0 <= a < |pairs| && Hash(pairs[a].0) != 0 :: Hash(pairs[a].0)
  }

  /** Keys whose hashes are non-zero and pairwise different. */
  ghost predicate DistinctKeyHashes<V>(pairs: seq<(Bytes, V)>) {
    && (forall a | 0 <= a < |pairs| :: Hash(pairs[a].0) != 0)
    && (forall a, b | 0 <= a < b < |pairs| :: Hash(pairs[a].0) != Hash(pairs[b].0))
  }

  // ---------------------------------------------------------------------
  // Facts about the stored entries

  /** In a consistent table the markers are exactly the hashes of the stored keys. */
  lemma MarkersAreKeyHashes<V>(hs: seq<SizeT>, ks: seq<Bytes>, vs: seq<V>, h: SizeT)
    requires |hs| == |ks| == |vs| && Consistent(hs, ks) && h != 0
    ensures h in MarkerSet(hs) <==> exists e | e in EntriesOf(hs, ks, vs) :: Hash(e.0) == h
  {
    if h in MarkerSet(hs) {
      var j :| 0 <= j < |hs| && hs[j] != 0 && hs[j] == h;
      assert (ks[j], vs[j]) in EntriesOf(hs, ks, vs);
    }
    if exists e | e in EntriesOf(hs, ks, vs) :: Hash(e.0) == h {
      var e :| e in EntriesOf(hs, ks, vs) && Hash(e.0) == h;
      var j :| 0 <= j < |hs| && hs[j] != 0 && e == (ks[j], vs[j]);
      assert hs[j] == h;
    }
  }

  /** Emptying a slot only drops entries. */
  lemma EntriesClear<V>(hs: seq<SizeT>, ks: seq<Bytes>, vs: seq<V>, i: nat)
    requires |hs| == |ks| == |vs| && i < |hs| && hs[i] != 0
    ensures EntriesOf(hs[i := 0], ks, vs) + {(ks[i], vs[i])} == EntriesOf(hs, ks, vs)
  {
    var hs' := hs[i := 0];
    forall e | e in EntriesOf(hs, ks, vs) && e != (ks[i], vs[i])
      ensures e in EntriesOf(hs', ks, vs)
    {
      var j :| 0 <= j < |hs| && hs[j] != 0 && e == (ks[j], vs[j]);
      assert hs'[j] != 0;
    }
    assert (ks[i], vs[i]) in EntriesOf(hs, ks, vs);
  }

  /**
   * Writing `(k, v)` where the probe for `k` stops adds at most that pair,
   * and in a well-formed table it is an upsert.
   */
  lemma EntriesWrite<V>(hs: seq<SizeT>, ks: seq<Bytes>, vs: seq<V>, k: Bytes, v: V)
    requires |hs| == |ks| == |vs| && Consistent(hs, ks)
    requires FindSlot(hs, Hash(k)) < |hs|
    ensures var r := FindSlot(hs, Hash(k));
      EntriesOf(hs[r := Hash(k)], ks[r := k], vs[r := v]) <= EntriesOf(hs, ks, vs) + {(k, v)}
    ensures var r := FindSlot(hs, Hash(k));
      WellFormed(hs) ==>
        EntriesOf(hs[r := Hash(k)], ks[r := k], vs[r := v]) == Upsert(EntriesOf(hs, ks, vs), k, v)
  {
    var h, r := Hash(k), FindSlot(hs, Hash(k));
    var hs', ks', vs' := hs[r := h], ks[r := k], vs[r := v];
    var es, es' := EntriesOf(hs, ks, vs), EntriesOf(hs', ks', vs');
    forall e | e in es' && e != (k, v) ensures e in es {
      var j :| 0 <= j < |hs'| && hs'[j] != 0 && e == (ks'[j], vs'[j]);
      assert j != r;
    }
    if WellFormed(hs) {
      if h != 0 {
        FoundIffPresent(hs, h);
      }
      if hs[r] != 0 {
        DistinctElsewhere(hs, r);
      }
      forall e | e in es' ensures e in Upsert(es, k, v) {
        var j :| 0 <= j < |hs'| && hs'[j] != 0 && e == (ks'[j], vs'[j]);
        if j != r {
          assert hs[j] == Hash(ks[j]) && hs[j] in MarkerSet(hs);
        }
      }
      forall e | e in Upsert(es, k, v) ensures e in es' {
        if e != (k, v) || h == 0 {
          var j :| 0 <= j < |hs| && hs[j] != 0 && e == (ks[j], vs[j]);
          assert hs[j] == Hash(ks[j]);
          assert j != r;
          assert hs'[j] != 0;
        } else {
          assert hs'[r] != 0;
        }
      }
    }
  }

  /** In a well-formed table, erasing removes exactly the entries whose key hashes like `h`. */
  lemma EntriesErase<V>(hs: seq<SizeT>, ks: seq<Bytes>, vs: seq<V>, h: SizeT)
    requires |hs| == |ks| == |vs| && Consistent(hs, ks) && WellFormed(hs)
    ensures var r := FindSlot(hs, h);
      EntriesOf(if r < |hs| then hs[r := 0] else hs, ks, vs)
        == set e | e in EntriesOf(hs, ks, vs) && Hash(e.0) != h
  {
    var r := FindSlot(hs, h);
    var hs' := if r < |hs| then hs[r := 0] else hs;
    var es := EntriesOf(hs, ks, vs);
    if h != 0 {
      FoundIffPresent(hs, h);
    }
    forall e | e in EntriesOf(hs', ks, vs) ensures e in es && Hash(e.0) != h {
      var j :| 0 <= j < |hs'| && hs'[j] != 0 && e == (ks[j], vs[j]);
      assert hs[j] == hs'[j] == Hash(ks[j]);
      assert hs[j] in MarkerSet(hs);
    }
    forall e | e in es && Hash(e.0) != h ensures e in EntriesOf(hs', ks, vs) {
      var j :| 0 <= j < |hs| && hs[j] != 0 && e == (ks[j], vs[j]);
      assert hs[j] == Hash(ks[j]);
      assert hs'[j] != 0;
    }
  }

  /** Moving an entry to an empty slot keeps the entries. */
  lemma EntriesMove<V>(hs: seq<SizeT>, ks: seq<Bytes>, vs: seq<V>, i: nat, r: nat)
    requires |hs| == |ks| == |vs| && i < |hs| && r < |hs| && hs[i] != 0
    requires hs[i := 0][r] == 0
    ensures EntriesOf(hs[i := 0][r := hs[i]], ks[r := ks[i]], vs[r := vs[i]]) == EntriesOf(hs, ks, vs)
  {
    var hs', ks', vs' := hs[i := 0][r := hs[i]], ks[r := ks[i]], vs[r := vs[i]];
    forall e | e in EntriesOf(hs', ks', vs') ensures e in EntriesOf(hs, ks, vs) {
      var j :| 0 <= j < |hs'| && hs'[j] != 0 && e == (ks'[j], vs'[j]);
      if j == r {
        assert e == (ks[i], vs[i]);
      } else {
        assert hs[j] != 0;
      }
    }
    forall e | e in EntriesOf(hs, ks, vs) ensures e in EntriesOf(hs', ks', vs') {
      var j :| 0 <= j < |hs| && hs[j] != 0 && e == (ks[j], vs[j]);
      if j == i {
        assert hs'[r] != 0 && e == (ks'[r], vs'[r]);
      } else {
        assert j != r;
        assert hs'[j] != 0;
      }
    }
  }

  /** Appending empty slots keeps the entries. */
  lemma EntriesZeroTail<V>(hs: seq<SizeT>, ks: seq<Bytes>, vs: seq<V>, n: nat)
    requires |hs| == |ks| == |vs| && n <= |hs|
    requires forall t | n <= t < |hs| :: hs[t] == 0
    ensures EntriesOf(hs, ks, vs) == EntriesOf(hs[..n], ks[..n], vs[..n])
  {
    forall e | e in EntriesOf(hs, ks, vs) ensures e in EntriesOf(hs[..n], ks[..n], vs[..n]) {
      var j :| 0 <= j < |hs| && hs[j] != 0 && e == (ks[j], vs[j]);
      assert hs[..n][j] != 0 && ks[..n][j] == ks[j] && vs[..n][j] == vs[j];
    }
  }

  /**
   * What growing the table keeps, from `(hs0, ks0, vs0)` to `(hs, ks, vs)`:
   * the same markers, no more occupied slots, no new entries, every marker
   * still at or after its start slot and, from a well-formed table,
   * well-formedness and the very same entries.
   */
  ghost predicate Keeps<V>(hs0: seq<SizeT>, ks0: seq<Bytes>, vs0: seq<V>, hs: seq<SizeT>, ks: seq<Bytes>, vs: seq<V>)
    requires |hs0| == |ks0| == |vs0| && |hs| == |ks| == |vs|
  {
    && MarkerSet(hs) == MarkerSet(hs0)
    && Count(hs) <= Count(hs0)
    && EntriesOf(hs, ks, vs) <= EntriesOf(hs0, ks0, vs0)
    && (AfterStart(hs0) ==> AfterStart(hs))
    && (WellFormed(hs0) ==> WellFormed(hs) && EntriesOf(hs, ks, vs) == EntriesOf(hs0, ks0, vs0))
  }

  lemma KeepsTrans<V>(hs0: seq<SizeT>, ks0: seq<Bytes>, vs0: seq<V>,
                      hs1: seq<SizeT>, ks1: seq<Bytes>, vs1: seq<V>,
                      hs2: seq<SizeT>, ks2: seq<Bytes>, vs2: seq<V>)
    requires |hs0| == |ks0| == |vs0| && |hs1| == |ks1| == |vs1| && |hs2| == |ks2| == |vs2|
    requires Keeps(hs0, ks0, vs0, hs1, ks1, vs1) && Keeps(hs1, ks1, vs1, hs2, ks2, vs2)
    ensures Keeps(hs0, ks0, vs0, hs2, ks2, vs2)
  {
  }

  /**
   * Writing `(k, v)` where the probe for `k` stops: the probe still stops
   * there, the markers gain the key's hash, at most one slot becomes
   * occupied, at most that pair is added and, in a well-formed table, the
   * write is an upsert that keeps the table well-formed.
   */
  lemma WriteSlot<V>(hs: seq<SizeT>, ks: seq<Bytes>, vs: seq<V>, k: Bytes, v: V)
    requires |hs| == |ks| == |vs| && Consistent(hs, ks)
    requires FindSlot(hs, Hash(k)) < |hs|
    ensures var r := FindSlot(hs, Hash(k));
      var hs', ks', vs' := hs[r := Hash(k)], ks[r := k], vs[r := v];
      && Consistent(hs', ks')
      && FindSlot(hs', Hash(k)) == r
      && MarkerSet(hs') == MarkerSet(hs) + (if Hash(k) != 0 then {Hash(k)} else {})
      && Count(hs') <= Count(hs) + 1
      && EntriesOf(hs', ks', vs') <= EntriesOf(hs, ks, vs) + {(k, v)}
      && (WellFormed(hs) ==>
            WellFormed(hs') && EntriesOf(hs', ks', vs') == Upsert(EntriesOf(hs, ks, vs), k, v))
  {
    var h, r := Hash(k), FindSlot(hs, Hash(k));
    FindSlotAfterWrite(hs, h, h);
    MarkerSetWrite(hs, r, h);
    CountUpdate(hs, r, h);
    EntriesWrite(hs, ks, vs, k, v);
    if WellFormed(hs) {
      WriteKeepsWellFormed(hs, h);
    }
  }

  /** A write after growth: the effect of `insert` measured from the table before it grew. */
  lemma WriteAfterGrowth<V>(hs0: seq<SizeT>, ks0: seq<Bytes>, vs0: seq<V>,
                            hs: seq<SizeT>, ks: seq<Bytes>, vs: seq<V>, k: Bytes, v: V)
    requires |hs0| == |ks0| == |vs0| && |hs| == |ks| == |vs|
    requires Consistent(hs, ks) && FindSlot(hs, Hash(k)) < |hs|
    requires Keeps(hs0, ks0, vs0, hs, ks, vs)
    ensures var r := FindSlot(hs, Hash(k));
      var hs', ks', vs' := hs[r := Hash(k)], ks[r := k], vs[r := v];
      && Consistent(hs', ks')
      && FindSlot(hs', Hash(k)) == r
      && MarkerSet(hs') == MarkerSet(hs0) + (if Hash(k) != 0 then {Hash(k)} else {})
      && Count(hs') <= Count(hs0) + 1
      && (hs == hs0 && Found(hs0, Hash(k)) ==> Count(hs') == Count(hs0))
      && EntriesOf(hs', ks', vs') <= EntriesOf(hs0, ks0, vs0) + {(k, v)}
      && (AfterStart(hs0) ==> AfterStart(hs'))
      && (WellFormed(hs0) ==>
            WellFormed(hs') && EntriesOf(hs', ks', vs') == Upsert(EntriesOf(hs0, ks0, vs0), k, v))
  {
    WriteSlot(hs, ks, vs, k, v);
    CountUpdate(hs, FindSlot(hs, Hash(k)), Hash(k));
    if AfterStart(hs0) {
      AfterStartWrite(hs, Hash(k));
    }
  }

  /**
   * Buffers grown from `(hs0, ks0, vs0)` by empty slots at the end hold the
   * same markers and entries, and a doubling starts the rehashing invariant.
   */
  lemma GrownTable<V>(hs0: seq<SizeT>, ks0: seq<Bytes>, vs0: seq<V>, hs: seq<SizeT>, ks: seq<Bytes>, vs: seq<V>)
    requires |hs0| == |ks0| == |vs0| && |hs| == |ks| == |vs| && |hs0| <= |hs|
    requires hs[..|hs0|] == hs0 && ks[..|hs0|] == ks0 && vs[..|hs0|] == vs0
    requires forall t | |hs0| <= t < |hs| :: hs[t] == 0
    requires Consistent(hs0, ks0)
    ensures Consistent(hs, ks)
    ensures MarkerSet(hs) == MarkerSet(hs0) && Count(hs) == Count(hs0)
    ensures EntriesOf(hs, ks, vs) == EntriesOf(hs0, ks0, vs0)
    ensures WellFormed(hs0) && |hs0| > 0 && |hs| == 2 * |hs0| ==> Rehashing(hs0, hs, 0)
  {
    var n := |hs0|;
    forall j | 0 <= j < |hs| && hs[j] != 0 ensures hs[j] == Hash(ks[j]) {
      assert j < n && hs0[j] == hs[j] && ks0[j] == ks[j];
    }
    CountZeroTail(hs, n);
    EntriesZeroTail(hs, ks, vs, n);
    if WellFormed(hs0) && n > 0 && |hs| == 2 * n {
      RehashingStart(hs0, hs);
    }
  }

  // ---------------------------------------------------------------------
  // Facts about inserting a sequence of pairs

  lemma KeyHashesSnoc<V>(pairs: seq<(Bytes, V)>, k: Bytes, v: V)
    ensures KeyHashes(pairs + [(k, v)]) == KeyHashes(pairs) + (if Hash(k) != 0 then {Hash(k)} else {})
  {
    var ps := pairs + [(k, v)];
    forall x | x in KeyHashes(pairs) ensures x in KeyHashes(ps) {
      var a :| 0 <= a < |pairs| && Hash(pairs[a].0) != 0 && x == Hash(pairs[a].0);
      assert ps[a] == pairs[a];
    }
    if Hash(k) != 0 {
      assert ps[|pairs|] == (k, v);
    }
    forall x | x in KeyHashes(ps) && x != Hash(k) ensures x in KeyHashes(pairs) {
      var a :| 0 <= a < |ps| && Hash(ps[a].0) != 0 && x == Hash(ps[a].0);
      assert a < |pairs| && ps[a] == pairs[a];
    }
  }

  /** There are no more key hashes than pairs. */
  lemma {:induction false} KeyHashesBound<V>(pairs: seq<(Bytes, V)>)
    ensures |KeyHashes(pairs)| <= |pairs|
    decreases |pairs|
  {
    if |pairs| > 0 {
      var n := |pairs| - 1;
      assert pairs[..n] + [pairs[n]] == pairs;
      KeyHashesBound(pairs[..n]);
      KeyHashesSnoc(pairs[..n], pairs[n].0, pairs[n].1);
    } else {
      assert KeyHashes(pairs) == {};
    }
  }

  /** Keys with distinct non-zero hashes yield as many markers as there are pairs. */
  lemma {:induction false} KeyHashesCount<V>(pairs: seq<(Bytes, V)>)
    requires DistinctKeyHashes(pairs)
    ensures |KeyHashes(pairs)| == |pairs|
    decreases |pairs|
  {
    if |pairs| > 0 {
      var n := |pairs| - 1;
      var init := pairs[..n];
      assert init + [pairs[n]] == pairs;
      assert DistinctKeyHashes(init) by {
        forall a, b | 0 <= a < b < |init| ensures Hash(init[a].0) != Hash(init[b].0) {
          assert init[a] == pairs[a] && init[b] == pairs[b];
        }
      }
      KeyHashesCount(init);
      KeyHashesSnoc(init, pairs[n].0, pairs[n].1);
      forall a | 0 <= a < n ensures Hash(init[a].0) != Hash(pairs[n].0) {
        assert init[a] == pairs[a];
      }
      assert Hash(pairs[n].0) !in KeyHashes(init);
    }
  }

  /** Inserting a key whose hash is new and non-zero adds exactly that pair. */
  lemma UpsertFresh<V>(es: set<(Bytes, V)>, k: Bytes, v: V)
    requires Hash(k) != 0
    requires forall e | e in es :: Hash(e.0) != Hash(k)
    ensures Upsert(es, k, v) == es + {(k, v)}
  {
  }

  /** With distinct key hashes, no pair before position `n` shares the hash of the key at `n`. */
  lemma EarlierKeysDiffer<V>(pairs: seq<(Bytes, V)>, n: nat)
    requires DistinctKeyHashes(pairs) && n < |pairs|
    ensures forall e | e in pairs[..n] :: Hash(e.0) != Hash(pairs[n].0)
  {
    forall e | e in pairs[..n] ensures Hash(e.0) != Hash(pairs[n].0) {
      var a :| 0 <= a < n && pairs[..n][a] == e;
      assert pairs[a] == e;
    }
  }

  /** Keys with distinct non-zero hashes are all kept: inserting them yields exactly the pairs. */
  lemma {:induction false} UpsertAllDistinct<V>(pairs: seq<(Bytes, V)>)
    requires DistinctKeyHashes(pairs)
    ensures forall e | e in UpsertAll({}, pairs) :: e in pairs
    ensures forall e | e in pairs :: e in UpsertAll({}, pairs)
    decreases |pairs|
  {
    if |pairs| > 0 {
      var n := |pairs| - 1;
      var init, last := pairs[..n], pairs[n];
      assert pairs == init + [last];
      assert DistinctKeyHashes(init) by {
        forall a, b | 0 <= a < b < |init| ensures Hash(init[a].0) != Hash(init[b].0) {
          assert init[a] == pairs[a] && init[b] == pairs[b];
        }
      }
      UpsertAllDistinct(init);
      EarlierKeysDiffer(pairs, n);
      var prev := UpsertAll({}, init);
      forall e | e in prev ensures Hash(e.0) != Hash(last.0) {
        assert e in init;
      }
      UpsertFresh(prev, last.0, last.1);
    }
  }

  /** How the abstract state advances by one pair of `operator=`. */
  lemma AssignStep<V>(pairs: seq<(Bytes, V)>, i: nat)
    requires i < |pairs|
    ensures UpsertAll({}, pairs[..i + 1]) == Upsert(UpsertAll({}, pairs[..i]), pairs[i].0, pairs[i].1)
    ensures KeyHashes(pairs[..i + 1])
         == KeyHashes(pairs[..i]) + (if Hash(pairs[i].0) != 0 then {Hash(pairs[i].0)} else {})
    ensures |KeyHashes(pairs[..i])| <= i
  {
    assert pairs[..i + 1] == pairs[..i] + [pairs[i]];
    assert pairs[..i + 1][..i] == pairs[..i];
    KeyHashesSnoc(pairs[..i], pairs[i].0, pairs[i].1);
    KeyHashesBound(pairs[..i]);
  }

  /**
   * A well-formed table built from `pairs` finds every key with a non-zero
   * hash, and holds exactly the pairs when their key hashes are distinct
   * and non-zero.
   */
  lemma TableOfPairs<V>(hs: seq<SizeT>, ks: seq<Bytes>, vs: seq<V>, pairs: seq<(Bytes, V)>)
    requires |hs| == |ks| == |vs| && WellFormed(hs)
    requires EntriesOf(hs, ks, vs) == UpsertAll({}, pairs)
    requires MarkerSet(hs) == KeyHashes(pairs)
    ensures Count(hs) == |KeyHashes(pairs)|
    ensures forall a | 0 <= a < |pairs| && Hash(pairs[a].0) != 0 :: Found(hs, Hash(pairs[a].0))
    ensures DistinctKeyHashes(pairs) ==>
      && Count(hs) == |pairs|
      && (forall e | e in EntriesOf(hs, ks, vs) :: e in pairs)
      && (forall e | e in pairs :: e in EntriesOf(hs, ks, vs))
  {
    CountIsMarkers(hs);
    forall a | 0 <= a < |pairs| && Hash(pairs[a].0) != 0
      ensures Found(hs, Hash(pairs[a].0))
    {
      assert Hash(pairs[a].0) in KeyHashes(pairs);
      FoundIffPresent(hs, Hash(pairs[a].0));
    }
    if DistinctKeyHashes(pairs) {
      KeyHashesCount(pairs);
      UpsertAllDistinct(pairs);
    }
  }

  /** `cppds::map`: the buffers `_M_hdata`, `_M_kdata`, `_M_vdata` and the count `_M_capacity`. */
  class Map<V(0)> {
    var hdata: array<SizeT>
    var kdata: array<Bytes>
    var vdata: array<V>
    var capacity: nat
    ghost var Repr: set<object>

    /** Three separate buffers of `capacity` slots, markers agreeing with keys. */
    ghost predicate Valid()
      reads this, Repr
    {
      && Repr == {this, hdata, kdata, vdata}
      && (hdata as object) != (kdata as object)
      && (hdata as object) != (vdata as object)
      && (kdata as object) != (vdata as object)
      && hdata.Length == capacity && kdata.Length == capacity && vdata.Length == capacity
      && capacity <= Limit
      && Consistent(hdata[..], kdata[..])
    }

    /** The key-value pairs the table holds. */
    ghost function Entries(): set<(Bytes, V)>
      reads this, Repr
      requires Valid()
    {
      EntriesOf(hdata[..], kdata[..], vdata[..])
    }

    /** A default-constructed map owns no buffers. */
    constructor ()
      ensures Valid() && fresh(Repr)
      ensures capacity == 0 && Entries() == {} && AfterStart(hdata[..])
    {
      hdata := new SizeT[0];
      kdata := new Bytes[0];
      vdata := new V[0];
      capacity := 0;
      Repr := {this, hdata, kdata, vdata};
    }

    /** The forward probe every operation starts with. */
    method Find(h: SizeT) returns (idx: nat)
      requires Valid()
      ensures idx == FindSlot(hdata[..], h)
    {
      idx := if capacity > 0 then h % capacity else 0;
      while idx < capacity && hdata[idx] != 0 && hdata[idx] != h
        invariant Start(h, capacity) <= idx <= capacity
        invariant Probe(hdata[..], h, idx) == FindSlot(hdata[..], h)
        decreases capacity - idx
      {
        idx := idx + 1;
      }
    }

    /**
     * The retry loop of `insert`: while the probe for `h` runs off the end,
     * grow and probe again.
     */
    method MakeRoom(h: SizeT) returns (idx: nat)
      requires Valid() && Count(hdata[..]) < SizeSpace
      modifies Repr
      decreases Limit - capacity, 1
      ensures Valid() && fresh(Repr - old(Repr))
      ensures idx == FindSlot(hdata[..], h) && idx < capacity
      ensures capacity >= old(capacity)
      ensures capacity == old(capacity) <==> old(FindSlot(hdata[..], h)) < old(capacity)
      ensures capacity == old(capacity) ==>
        && hdata == old(hdata) && kdata == old(kdata) && vdata == old(vdata)
        && hdata[..] == old(hdata[..]) && kdata[..] == old(kdata[..]) && vdata[..] == old(vdata[..])
      ensures Keeps(old(hdata[..]), old(kdata[..]), old(vdata[..]), hdata[..], kdata[..], vdata[..])
    {
      idx := Find(h);
      if idx < capacity {
        return;
      }
      ghost var hs0, ks0, vs0 := hdata[..], kdata[..], vdata[..];
      while idx >= capacity
        invariant Valid() && fresh(Repr - old(Repr))
        invariant capacity >= old(capacity)
        invariant idx == FindSlot(hdata[..], h)
        invariant idx < capacity ==> capacity > old(capacity)
        invariant Keeps(hs0, ks0, vs0, hdata[..], kdata[..], vdata[..])
        decreases Limit - capacity
      {
        ghost var hs1, ks1, vs1 := hdata[..], kdata[..], vdata[..];
        Grow(h);
        KeepsTrans(hs0, ks0, vs0, hs1, ks1, vs1, hdata[..], kdata[..], vdata[..]);
        idx := Find(h);
      }
    }

    /**
     * One round of the retry loop, once the probe for `h` has run off the
     * end: reserve one slot when the table is empty, else twice the capacity.
     */
    method Grow(h: SizeT)
      requires Valid() && FindSlot(hdata[..], h) == capacity && Count(hdata[..]) < SizeSpace
      modifies Repr
      decreases Limit - (if capacity == 0 then 1 else 2 * capacity), 6
      ensures Valid() && fresh(Repr - old(Repr))
      ensures capacity > old(capacity)
      ensures capacity >= if old(capacity) == 0 then 1 else 2 * old(capacity)
      ensures old(AfterStart(hdata[..])) ==>
        capacity == if old(capacity) == 0 then 1 else 2 * old(capacity)
      ensures Keeps(old(hdata[..]), old(kdata[..]), old(vdata[..]), hdata[..], kdata[..], vdata[..])
    {
      if capacity > 0 {
        RunOffBound(hdata[..], h);
      }
      var empty := Empty();
      if empty {
        Reserve(1);
      } else {
        Reserve(2 * capacity);
      }
    }

    /** `insert`: probe, grow while the probe runs off the end, then write the slot. */
    method Insert(k: Bytes, v: V)
      requires Valid() && Count(hdata[..]) < SizeSpace
      modifies Repr
      decreases Limit - capacity, 2
      ensures Valid() && fresh(Repr - old(Repr))
      ensures capacity >= old(capacity)
      ensures FindSlot(hdata[..], Hash(k)) < capacity
      ensures var r := FindSlot(hdata[..], Hash(k));
        hdata[r] == Hash(k) && kdata[r] == k && vdata[r] == v
      ensures MarkerSet(hdata[..]) == old(MarkerSet(hdata[..])) + (if Hash(k) != 0 then {Hash(k)} else {})
      ensures Found(hdata[..], Hash(k))
      ensures Count(hdata[..]) <= old(Count(hdata[..])) + 1
      ensures old(Found(hdata[..], Hash(k))) ==> Count(hdata[..]) == old(Count(hdata[..]))
      ensures Entries() <= old(Entries()) + {(k, v)}
      ensures var r := old(FindSlot(hdata[..], Hash(k)));
        r < old(capacity) ==>
          && capacity == old(capacity)
          && hdata == old(hdata) && kdata == old(kdata) && vdata == old(vdata)
          && hdata[..] == old(hdata[..])[r := Hash(k)]
          && kdata[..] == old(kdata[..])[r := k]
          && vdata[..] == old(vdata[..])[r := v]
      ensures old(FindSlot(hdata[..], Hash(k))) == old(capacity) ==> capacity > old(capacity)
      ensures old(AfterStart(hdata[..])) ==> AfterStart(hdata[..])
      ensures old(WellFormed(hdata[..])) ==>
        WellFormed(hdata[..]) && Entries() == Upsert(old(Entries()), k, v)
    {
      ghost var hs0, ks0, vs0 := hdata[..], kdata[..], vdata[..];
      var h := Fnv1Hash(k);
      var idx := MakeRoom(h);
      ghost var hs, ks, vs := hdata[..], kdata[..], vdata[..];
      WriteAfterGrowth(hs0, ks0, vs0, hs, ks, vs, k, v);
      Store(idx, h, k, v);
    }

    /** The three stores that end `insert`: key, value, then marker. */
    method Store(idx: nat, h: SizeT, k: Bytes, v: V)
      requires Valid() && idx < capacity
      modifies hdata, kdata, vdata
      ensures hdata[..] == old(hdata[..])[idx := h]
      ensures kdata[..] == old(kdata[..])[idx := k]
      ensures vdata[..] == old(vdata[..])[idx := v]
    {
      kdata[idx] := k;
      vdata[idx] := v;
      hdata[idx] := h;
    }

    /** `reserve`: grow the buffers to `newCap` slots and re-insert every old entry. */
    method Reserve(newCap: nat)
      requires Valid() && newCap <= Limit && Count(hdata[..]) <= SizeSpace
      modifies Repr
      decreases Limit - newCap, 5
      ensures Valid() && fresh(Repr - old(Repr))
      ensures newCap < old(capacity) ==>
        && capacity == old(capacity)
        && hdata == old(hdata) && kdata == old(kdata) && vdata == old(vdata)
        && hdata[..] == old(hdata[..]) && kdata[..] == old(kdata[..]) && vdata[..] == old(vdata[..])
      ensures capacity >= old(capacity)
      ensures newCap >= old(capacity) ==> capacity >= newCap
      ensures MarkerSet(hdata[..]) == old(MarkerSet(hdata[..]))
      ensures Count(hdata[..]) <= old(Count(hdata[..]))
      ensures Entries() <= old(Entries())
      ensures old(AfterStart(hdata[..])) && (old(capacity) == 0 || newCap == 2 * old(capacity)) ==>
        capacity == newCap && AfterStart(hdata[..])
      ensures old(WellFormed(hdata[..])) && (old(capacity) == 0 || newCap == 2 * old(capacity)) ==>
        && capacity == newCap
        && WellFormed(hdata[..])
        && Entries() == old(Entries())
        && Count(hdata[..]) == old(Count(hdata[..]))
    {
      if newCap < capacity {
        return;
      }
      var oldCap := capacity;
      ghost var hs0 := hdata[..];
      ghost var doubling := WellFormed(hs0) && oldCap > 0 && newCap == 2 * oldCap;
      ghost var spreading := AfterStart(hs0) && oldCap > 0 && newCap == 2 * oldCap;
      Regrow(newCap);
      if spreading {
        SpreadingStart(hs0, hdata[..]);
      }
      ReinsertAll(oldCap, hs0, doubling, spreading);
      if doubling {
        RehashingDone(hs0, hdata[..]);
      }
      if spreading {
        SpreadingDone(hs0, hdata[..]);
      }
    }

    /**
     * The buffer part of `reserve`: reallocate the three buffers to `newCap`
     * slots and zero the markers of the slots added at the end.
     */
    method Regrow(newCap: nat)
      requires Valid() && capacity <= newCap <= Limit
      modifies this
      ensures Valid() && fresh(Repr - {this})
      ensures capacity == newCap
      ensures hdata[..old(capacity)] == old(hdata[..])
      ensures kdata[..old(capacity)] == old(kdata[..]) && vdata[..old(capacity)] == old(vdata[..])
      ensures forall t | old(capacity) <= t < capacity :: hdata[t] == 0
      ensures MarkerSet(hdata[..]) == old(MarkerSet(hdata[..]))
      ensures Count(hdata[..]) == old(Count(hdata[..]))
      ensures Entries() == old(Entries())
      ensures old(WellFormed(hdata[..])) && old(capacity) > 0 && newCap == 2 * old(capacity) ==>
        Rehashing(old(hdata[..]), hdata[..], 0)
    {
      var oldCap := capacity;
      ghost var hs0, ks0, vs0 := hdata[..], kdata[..], vdata[..];
      capacity := newCap;
      vdata := Buffers.Realloc(vdata, newCap);
      kdata := Buffers.Realloc(kdata, newCap);
      hdata := Buffers.Realloc(hdata, newCap);
      forall t | oldCap <= t < newCap {
        hdata[t] := 0;
      }
      Repr := {this, hdata, kdata, vdata};
      assert hdata[..][..oldCap] == hs0;
      assert kdata[..][..oldCap] == ks0;
      assert vdata[..][..oldCap] == vs0;
      GrownTable(hs0, ks0, vs0, hdata[..], kdata[..], vdata[..]);
    }

    /**
     * The re-insertion loop of `reserve`: every old slot below `oldCap` goes
     * through `ReinsertSlot`, in index order.
     */
    method ReinsertAll(oldCap: nat, ghost hs0: seq<SizeT>, ghost doubling: bool, ghost spreading: bool)
      requires Valid() && oldCap <= capacity && Count(hdata[..]) <= SizeSpace
      requires doubling ==>
        && WellFormed(hs0) && oldCap == |hs0|
        && capacity == 2 * |hs0|
        && Rehashing(hs0, hdata[..], 0)
      requires spreading ==>
        && AfterStart(hs0) && oldCap == |hs0|
        && capacity == 2 * |hs0|
        && Spreading(hs0, hdata[..], 0)
      modifies Repr
      decreases Limit - capacity, 4
      ensures Valid() && fresh(Repr - old(Repr))
      ensures capacity >= old(capacity)
      ensures MarkerSet(hdata[..]) == old(MarkerSet(hdata[..]))
      ensures Count(hdata[..]) <= old(Count(hdata[..]))
      ensures Entries() <= old(Entries())
      ensures oldCap == 0 ==> capacity == old(capacity) && hdata[..] == old(hdata[..])
      ensures doubling ==>
        && capacity == old(capacity)
        && Rehashing(hs0, hdata[..], |hs0|)
        && Entries() == old(Entries())
        && Count(hdata[..]) == old(Count(hdata[..]))
      ensures spreading ==> capacity == old(capacity) && Spreading(hs0, hdata[..], |hs0|)
    {
      var i := 0;
      while i < oldCap
        invariant i <= oldCap <= capacity
        invariant Valid() && fresh(Repr - old(Repr))
        invariant capacity >= old(capacity)
        invariant MarkerSet(hdata[..]) == old(MarkerSet(hdata[..]))
        invariant Count(hdata[..]) <= old(Count(hdata[..]))
        invariant Entries() <= old(Entries())
        invariant i == 0 ==> capacity == old(capacity) && hdata[..] == old(hdata[..])
        invariant doubling ==>
          && capacity == old(capacity)
          && Rehashing(hs0, hdata[..], i)
          && Entries() == old(Entries())
          && Count(hdata[..]) == old(Count(hdata[..]))
        invariant spreading ==> capacity == old(capacity) && Spreading(hs0, hdata[..], i)
      {
        ReinsertSlot(i, hs0, doubling, spreading);
        i := i + 1;
      }
    }

    /**
     * One round of the re-insertion loop of `reserve`: an occupied slot is
     * emptied and its key and value are inserted again.  While the table
     * doubles from the well-formed `hs0`, the entry lands in a slot that is
     * already available, so the rehashing invariant advances by one slot.
     * Doubling any table whose markers sit at or after their start slot
     * likewise never grows it again.
     */
    method ReinsertSlot(i: nat, ghost hs0: seq<SizeT>, ghost doubling: bool, ghost spreading: bool)
      requires Valid() && i < capacity && Count(hdata[..]) <= SizeSpace
      requires doubling ==>
        && WellFormed(hs0) && i < |hs0|
        && capacity == 2 * |hs0|
        && Rehashing(hs0, hdata[..], i)
      requires spreading ==>
        && AfterStart(hs0) && i < |hs0|
        && capacity == 2 * |hs0|
        && Spreading(hs0, hdata[..], i)
      modifies Repr
      decreases Limit - capacity, 3
      ensures Valid() && fresh(Repr - old(Repr))
      ensures capacity >= old(capacity)
      ensures MarkerSet(hdata[..]) == old(MarkerSet(hdata[..]))
      ensures Count(hdata[..]) <= old(Count(hdata[..]))
      ensures Entries() <= old(Entries())
      ensures doubling ==>
        && capacity == old(capacity)
        && Rehashing(hs0, hdata[..], i + 1)
        && Entries() == old(Entries())
        && Count(hdata[..]) == old(Count(hdata[..]))
      ensures spreading ==> capacity == old(capacity) && Spreading(hs0, hdata[..], i + 1)
    {
      ghost var hs, ks, vs := hdata[..], kdata[..], vdata[..];
      if hdata[i] != 0 {
        var key, val := kdata[i], vdata[i];
        if doubling {
          RehashingStep(hs0, hs, i);
        }
        if spreading {
          SpreadingStep(hs0, hs, i);
        }
        MarkerSetClear(hs, i);
        CountUpdate(hs, i, 0);
        EntriesClear(hs, ks, vs, i);
        hdata[i] := 0;
        assert hdata[..] == hs[i := 0];
        Insert(key, val);
        if doubling {
          var r := FindSlot(hs[i := 0], hs[i]);
          EntriesMove(hs, ks, vs, i, r);
          CountUpdate(hs[i := 0], r, hs[i]);
        }
      } else {
        if doubling {
          RehashingSkip(hs0, hs, i);
        }
        if spreading {
          SpreadingSkip(hs0, hs, i);
        }
      }
    }

    /** `erase`: empty the slot the probe stops at, leaving no tombstone. */
    method Erase(k: Bytes)
      requires Valid()
      modifies hdata
      ensures Valid()
      ensures var r := old(FindSlot(hdata[..], Hash(k)));
        hdata[..] == if r < capacity then old(hdata[..])[r := 0] else old(hdata[..])
      ensures Hash(k) != 0 ==> !Found(hdata[..], Hash(k))
      ensures Count(hdata[..])
           == old(Count(hdata[..])) - (if old(Found(hdata[..], Hash(k))) && Hash(k) != 0 then 1 else 0)
      ensures old(AfterStart(hdata[..])) ==> AfterStart(hdata[..])
      ensures old(WellFormed(hdata[..])) ==>
        Entries() == set e | e in old(Entries()) && Hash(e.0) != Hash(k)
    {
      var h := Fnv1Hash(k);
      var idx := Find(h);
      ghost var hs := hdata[..];
      if WellFormed(hs) {
        EntriesErase(hs, kdata[..], vdata[..], h);
      }
      if idx < capacity {
        hdata[idx] := 0;
        assert hdata[..] == hs[idx := 0];
        CountUpdate(hs, idx, 0);
        if AfterStart(hs) {
          AfterStartClear(hs, idx);
        }
        if h != 0 {
          ClearHides(hs, h);
        }
      }
    }

    /** `contains`: the probe stops inside the table on a slot holding the key's hash. */
    method Contains(k: Bytes) returns (b: bool)
      requires Valid()
      ensures b == Found(hdata[..], Hash(k))
      ensures WellFormed(hdata[..]) && Hash(k) != 0 ==>
        (b <==> exists e | e in Entries() :: Hash(e.0) == Hash(k))
    {
      var h := Fnv1Hash(k);
      var idx := Find(h);
      b := idx < capacity && hdata[idx] == h;
      if WellFormed(hdata[..]) && h != 0 {
        FoundIffPresent(hdata[..], h);
        MarkersAreKeyHashes(hdata[..], kdata[..], vdata[..], h);
      }
    }

    /** `clear`: release the buffers and return to capacity 0. */
    method Clear()
      requires Valid()
      modifies this
      ensures Valid() && fresh(Repr - {this})
      ensures capacity == 0 && Count(hdata[..]) == 0 && WellFormed(hdata[..]) && Entries() == {}
      ensures AfterStart(hdata[..])
    {
      hdata := new SizeT[0];
      kdata := new Bytes[0];
      vdata := new V[0];
      capacity := 0;
      Repr := {this, hdata, kdata, vdata};
    }

    /** `size`: the number of occupied slots. */
    method Size() returns (n: nat)
      requires Valid()
      ensures n == Count(hdata[..])
      ensures n <= capacity
      ensures Distinct(hdata[..]) ==> n == |MarkerSet(hdata[..])|
    {
      n := 0;
      for i := 0 to capacity
        invariant n == Count(hdata[..i])
      {
        assert hdata[..i + 1][..i] == hdata[..i];
        if hdata[i] != 0 {
          n := n + 1;
        }
      }
      assert hdata[..capacity] == hdata[..];
      CountAtMost(hdata[..]);
      if Distinct(hdata[..]) {
        CountIsMarkers(hdata[..]);
      }
    }

    /** `empty`: no slot is occupied. */
    method Empty() returns (b: bool)
      requires Valid()
      ensures b <==> Count(hdata[..]) == 0
      ensures b <==> MarkerSet(hdata[..]) == {}
    {
      var n := Size();
      b := n == 0;
      EmptyIffNoMarkers(hdata[..]);
    }

    /** `capacity`: the number of slots. */
    method Capacity() returns (c: nat)
      requires Valid()
      ensures c == capacity == hdata.Length
    {
      c := capacity;
    }

    /** `operator=`: clear, then insert the pairs in order. */
    method Assign(pairs: seq<(Bytes, V)>)
      requires Valid() && |pairs| <= SizeSpace
      modifies Repr
      ensures Valid() && fresh(Repr - old(Repr))
      ensures WellFormed(hdata[..]) && AfterStart(hdata[..])
      ensures Entries() == UpsertAll({}, pairs)
      ensures MarkerSet(hdata[..]) == KeyHashes(pairs)
      ensures Count(hdata[..]) == |KeyHashes(pairs)|
      ensures forall a | 0 <= a < |pairs| && Hash(pairs[a].0) != 0 :: Found(hdata[..], Hash(pairs[a].0))
      ensures DistinctKeyHashes(pairs) ==>
        && Count(hdata[..]) == |pairs|
        && (forall e | e in Entries() :: e in pairs)
        && (forall e | e in pairs :: e in Entries())
    {
      Clear();
      assert hdata[..] == [];
      for i := 0 to |pairs|
        invariant Valid() && fresh(Repr - old(Repr))
        invariant WellFormed(hdata[..])
        invariant Entries() == UpsertAll({}, pairs[..i])
        invariant MarkerSet(hdata[..]) == KeyHashes(pairs[..i])
      {
        AssignStep(pairs, i);
        CountIsMarkers(hdata[..]);
        Insert(pairs[i].0, pairs[i].1);
      }
      assert pairs[..|pairs|] == pairs;
      TableOfPairs(hdata[..], kdata[..], vdata[..], pairs);
      WellFormedAfterStart(hdata[..]);
    }
  }
}
