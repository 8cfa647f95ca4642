/** Keyed records as every layer of the store holds them: newest-per-key merging, tables sorted by
    key, and prefix scans of a sorted table. */
module Tables {
  import opened Bytes

  // A version of a key: its value, sequence number and whether it marks a deletion.
  datatype Version = Version(value: bytes, seqNo: nat, tombstone: bool)

  datatype Record = Record(key: bytes, version: Version)

  type Layer = map<bytes, Version>

  // ---------- Keeping the largest sequence number per key ----------

  // A record replaces the version merged so far only if its number is larger, so ties keep the
  // earlier one.
  function Merge1(m: Layer, r: Record): Layer {
    if r.key !in m || r.version.seqNo > m[r.key].seqNo then m[r.key := r.version] else m
  }

  function Merge(m: Layer, records: seq<Record>): Layer
    decreases |records|
  {
    if records == [] then m else Merge1(Merge(m, records[..|records| - 1]), records[|records| - 1])
  }

  lemma MergeSnoc(m: Layer, records: seq<Record>, r: Record)
    ensures Merge(m, records + [r]) == Merge1(Merge(m, records), r)
  {
  }

  // `i` is where the merged version of its key comes from: no record of the key has a larger
  // number, and no earlier one has the same.
  predicate Wins(records: seq<Record>, i: nat)
    requires i < |records|
  {
    forall j :: 0 <= j < |records| && records[j].key == records[i].key ==>
      && records[j].version.seqNo <= records[i].version.seqNo
      && (j < i ==> records[j].version.seqNo < records[i].version.seqNo)
  }

  /** Merging into nothing finds, for every key that occurs, its winning record, and no other key. */
  lemma {:induction false} MergeFindsWinner(records: seq<Record>, k: bytes) returns (i: int)
    ensures k in Merge(map[], records) <==> exists j :: 0 <= j < |records| && records[j].key == k
    ensures k in Merge(map[], records) ==>
      && 0 <= i < |records| && records[i].key == k && Wins(records, i)
      && Merge(map[], records)[k] == records[i].version
    decreases |records|
  {
    i := -1;
    if records != [] {
      var n := |records| - 1;
      var init, r := records[..n], records[n];
      i := MergeFindsWinner(init, k);
      var m := Merge(map[], init);
      assert forall j :: 0 <= j < n ==> records[j] == init[j];
      if r.key == k && (k !in m || r.version.seqNo > m[k].seqNo) {
        i := n;
      }
    }
  }

  // ---------- Tables sorted by key ----------

  type Table = seq<Record>

  ghost predicate Sorted(t: Table) {
    forall i, j :: 0 <= i < j < |t| ==> Less(t[i].key, t[j].key)
  }

  ghost function ToLayer(t: Table): Layer {
    Merge(map[], t)
  }

  // A sorted table holds one version per key: the layer it stands for.
  lemma SortedHolds(t: Table)
    requires Sorted(t)
    ensures forall i :: 0 <= i < |t| ==> t[i].key in ToLayer(t) && ToLayer(t)[t[i].key] == t[i].version
    ensures forall k :: k in ToLayer(t) ==> exists i :: 0 <= i < |t| && t[i].key == k
  {
    forall i | 0 <= i < |t| ensures t[i].key in ToLayer(t) && ToLayer(t)[t[i].key] == t[i].version {
      var j := MergeFindsWinner(t, t[i].key);
      if j < i { LessIrreflexive(t[i].key); }
      if i < j { LessIrreflexive(t[i].key); }
    }
    forall k | k in ToLayer(t) ensures exists i :: 0 <= i < |t| && t[i].key == k {
      var i := MergeFindsWinner(t, k);
    }
  }

  // So the layer has as many keys as the table has records.
  lemma {:induction false} KeysOfSorted(t: Table)
    requires Sorted(t)
    ensures |ToLayer(t)| == |t|
  {
    if t != [] {
      var n := |t| - 1;
      KeysOfSorted(t[..n]);
      SortedHolds(t[..n]);
      LessIrreflexive(t[n].key);
      assert t[n].key !in ToLayer(t[..n]);
      assert ToLayer(t).Keys == ToLayer(t[..n]).Keys + {t[n].key};
    }
  }

  // Puts a record in front of the first one that is not below it.
  function Insert(t: Table, r: Record): Table {
    if t == [] || !Less(t[0].key, r.key) then [r] + t else [t[0]] + Insert(t[1..], r)
  }

  lemma {:induction false} InsertSorts(t: Table, r: Record)
    requires Sorted(t) && forall i :: 0 <= i < |t| ==> t[i].key != r.key
    ensures Sorted(Insert(t, r))
    ensures forall x :: x in Insert(t, r) <==> x == r || x in t
    ensures |Insert(t, r)| == |t| + 1
  {
    if t != [] {
      if Less(t[0].key, r.key) {
        InsertSorts(t[1..], r);
        var u := Insert(t[1..], r);
        assert forall x :: x in t <==> x == t[0] || x in t[1..];
        forall i | 0 <= i < |u| ensures Less(t[0].key, u[i].key) {
          assert u[i] in u;
          if u[i] != r { assert u[i] in t[1..]; }
        }
      } else {
        LessTotal(t[0].key, r.key);
        forall i | 0 <= i < |t| ensures Less(r.key, t[i].key) {
          if i > 0 { LessTransitive(r.key, t[0].key, t[i].key); }
        }
      }
    }
  }

  lemma LayerOfPermutation(t: Table, m: Layer)
    requires Sorted(t)
    requires forall r :: r in t <==> r.key in m && m[r.key] == r.version
    ensures ToLayer(t) == m
  {
    SortedHolds(t);
    forall k ensures k in ToLayer(t) <==> k in m {
      if k in m { assert Record(k, m[k]) in t; }
      if k in ToLayer(t) {
        var i :| 0 <= i < |t| && t[i].key == k;
        assert t[i] in t;
      }
    }
    forall k | k in m ensures ToLayer(t)[k] == m[k] {
      var i :| 0 <= i < |t| && t[i] == Record(k, m[k]);
    }
  }

  /** The records of a layer in key order. */
  method SortLayer(m: Layer) returns (t: Table)
    ensures Sorted(t) && ToLayer(t) == m && |t| == |m|
  {
    t := [];
    var rest := m.Keys;
    while rest != {}
      invariant rest <= m.Keys && Sorted(t)
      invariant forall r :: r in t <==> r.key in m && r.key !in rest && m[r.key] == r.version
      invariant |t| + |rest| == |m|
    {
      var k :| k in rest;
      InsertSorts(t, Record(k, m[k]));
      t := Insert(t, Record(k, m[k]));
      rest := rest - {k};
    }
    LayerOfPermutation(t, m);
  }

  lemma SortExists(m: Layer) returns (t: Table)
    ensures Sorted(t) && ToLayer(t) == m
    decreases |m|
  {
    t := [];
    if m != map[] {
      var k :| k in m;
      var rest := m - {k};
      assert m.Keys == rest.Keys + {k};
      t := SortExists(rest);
      SortedHolds(t);
      var r := Record(k, m[k]);
      InsertSorts(t, r);
      forall x ensures x in Insert(t, r) <==> x.key in m && m[x.key] == x.version {
        if x.key in rest && rest[x.key] == x.version {
          var i :| 0 <= i < |t| && t[i].key == x.key;
          assert t[i] == x;
        }
      }
      t := Insert(t, r);
      LayerOfPermutation(t, m);
    }
  }

  // The records of a layer in key order.
  ghost function TableOf(m: Layer): (t: Table)
    ensures Sorted(t) && ToLayer(t) == m
  {
    assert exists t :: Sorted(t) && ToLayer(t) == m by {
      var t := SortExists(m);
    }
    var t :| Sorted(t) && ToLayer(t) == m;
    t
  }

  /** There is one sorted table for a layer. */
  lemma {:induction false} SortedIsUnique(t: Table, u: Table)
    requires Sorted(t) && Sorted(u) && ToLayer(t) == ToLayer(u)
    ensures t == u
  {
    SortedHolds(t);
    SortedHolds(u);
    SameRecords(t, u);
    SameRecords(u, t);
    SameOrder(t, u);
  }

  lemma SameRecords(t: Table, u: Table)
    requires Sorted(t) && Sorted(u) && ToLayer(t) == ToLayer(u)
    ensures forall r :: r in t ==> r in u
  {
    SortedHolds(t);
    SortedHolds(u);
    forall r | r in t ensures r in u {
      var i :| 0 <= i < |t| && t[i] == r;
      var j :| 0 <= j < |u| && u[j].key == r.key;
      assert u[j] == r;
    }
  }

  lemma {:induction false} SameOrder(t: Table, u: Table)
    requires Sorted(t) && Sorted(u) && (forall r :: r in t <==> r in u)
    ensures t == u
    decreases |t|
  {
    assert (t == [] || t[0] in t) && (u == [] || u[0] in u);
    if t != [] && u != [] {
      assert t[0] == u[0] by {
        assert u[0] in t && t[0] in u;
        var i :| 0 <= i < |t| && t[i] == u[0];
        var j :| 0 <= j < |u| && u[j] == t[0];
        if i > 0 && j > 0 { LessAsymmetric(t[0].key, t[i].key); }
        LessIrreflexive(t[0].key);
      }
      forall r ensures r in t[1..] <==> r in u[1..] {
        LessIrreflexive(t[0].key);
        assert r in t <==> r == t[0] || r in t[1..];
        assert r in u <==> r == u[0] || r in u[1..];
      }
      SameOrder(t[1..], u[1..]);
    }
  }

  // ---------- Prefix scans ----------

  function Matching(t: Table, prefix: bytes): Table {
    if t == [] then []
    else (if HasPrefix(t[0].key, prefix) then [t[0]] else []) + Matching(t[1..], prefix)
  }

  function Take<T>(s: seq<T>, n: nat): seq<T> {
    if n <= |s| then s[..n] else s
  }

  lemma {:induction false} NoneMatching(t: Table, prefix: bytes)
    requires forall i :: 0 <= i < |t| ==> !HasPrefix(t[i].key, prefix)
    ensures Matching(t, prefix) == []
  {
    if t != [] { NoneMatching(t[1..], prefix); }
  }

  // If the matches are the records from lo up to hi, the scan returns that slice.
  lemma {:induction false} MatchingSlice(t: Table, prefix: bytes, lo: nat, hi: nat)
    requires lo <= hi <= |t|
    requires forall i :: 0 <= i < |t| ==> (HasPrefix(t[i].key, prefix) <==> lo <= i < hi)
    ensures Matching(t, prefix) == t[lo..hi]
    decreases |t|
  {
    if hi == 0 {
      NoneMatching(t, prefix);
    } else if lo == 0 {
      MatchingSlice(t[1..], prefix, 0, hi - 1);
      assert t[0..hi] == [t[0]] + t[1..][0..hi - 1];
    } else {
      MatchingSlice(t[1..], prefix, lo - 1, hi - 1);
      assert t[lo..hi] == t[1..][lo - 1..hi - 1];
    }
  }

  // `lo` is the lower bound of the prefix and `hi` the first non-match from there.
  ghost predicate IsPrefixRange(t: Table, prefix: bytes, lo: nat, hi: nat) {
    && lo <= hi <= |t|
    && (forall i :: 0 <= i < lo ==> Less(t[i].key, prefix))
    && (lo < |t| ==> !Less(t[lo].key, prefix))
    && (forall i :: lo <= i < hi ==> HasPrefix(t[i].key, prefix))
    && (hi < |t| ==> !HasPrefix(t[hi].key, prefix))
  }

  lemma OutsideRange(t: Table, prefix: bytes, lo: nat, hi: nat, i: nat)
    requires Sorted(t) && IsPrefixRange(t, prefix, lo, hi) && i < |t| && (i < lo || hi <= i)
    ensures !HasPrefix(t[i].key, prefix)
  {
    if i < lo {
      if HasPrefix(t[i].key, prefix) { PrefixIsLeast(t[i].key, prefix); }
    } else if i > hi {
      if lo < hi && Less(t[hi].key, prefix) { LessTransitive(t[lo].key, t[hi].key, prefix); }
      PrefixIsContiguous(t[hi].key, t[i].key, prefix);
    }
  }

  /** On a sorted table, the records from the lower bound of a prefix up to the first non-match
      are all and only those with the prefix. */
  lemma PrefixRange(t: Table, prefix: bytes, lo: nat, hi: nat)
    requires Sorted(t) && IsPrefixRange(t, prefix, lo, hi)
    ensures Matching(t, prefix) == t[lo..hi]
  {
    forall i | 0 <= i < |t| && (i < lo || hi <= i) ensures !HasPrefix(t[i].key, prefix) {
      OutsideRange(t, prefix, lo, hi, i);
    }
    MatchingSlice(t, prefix, lo, hi);
  }
}
