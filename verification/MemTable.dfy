/** The in-memory table (src/memtable.cpp) and its byte accounting. */
module MemTable {
  import opened Bytes
  import opened Results
  import opened Tables

  // sizeof(MemValue): a string header, a sequence number and a padded flag.
  const MEM_VALUE_BYTES: nat := 48

  function Estimate(key: bytes, v: Version): nat {
    MEM_VALUE_BYTES + |key| + |v.value|
  }

  // The sum of the estimates of all entries.
  ghost function TotalBytes(m: Layer): nat
    decreases |m|
  {
    if m == map[] then 0
    else
      var k :| k in m;
      Estimate(k, m[k]) + TotalBytes(m - {k})
  }

  lemma {:induction false} TotalWithout(m: Layer, k: bytes)
    requires k in m
    ensures TotalBytes(m) == Estimate(k, m[k]) + TotalBytes(m - {k})
    decreases |m|
  {
    var j :| j in m && TotalBytes(m) == Estimate(j, m[j]) + TotalBytes(m - {j});
    if j != k {
      TotalWithout(m - {j}, k);
      TotalWithout(m - {k}, j);
      assert m - {j} - {k} == m - {k} - {j};
    }
  }

  // An entry counts with 48 bytes besides its key and value.
  lemma TotalUpdate(m: Layer, k: bytes, v: Version)
    ensures TotalBytes(m[k := v]) == TotalBytes(m) - (if k in m then Estimate(k, m[k]) else 0) + Estimate(k, v)
    ensures Estimate(k, v) == 48 + |k| + |v.value| && TotalBytes(map[]) == 0
  {
    TotalWithout(m[k := v], k);
    if k in m {
      TotalWithout(m, k);
      assert m[k := v] - {k} == m - {k};
    } else {
      assert m[k := v] - {k} == m;
    }
  }

  function Visible(m: Layer, includeTombstones: bool): Layer {
    map k | k in m && (includeTombstones || !m[k].tombstone) :: m[k]
  }

  class MemTable {
    const budget: nat
    var table: Layer
    var approxBytes: nat

    // The counter is the sum of the estimates of the current entries.
    ghost predicate Valid()
      reads this
    {
      approxBytes == TotalBytes(table)
    }

    constructor (budget: nat)
      ensures Valid() && table == map[] && this.budget == budget
    {
      this.budget, table, approxBytes := budget, map[], 0;
    }

    method Put(key: bytes, v: Version)
      requires Valid()
      modifies this
      ensures Valid() && table == old(table)[key := v]
    {
      TotalUpdate(table, key, v);
      if key in table {
        TotalWithout(table, key);
        approxBytes := approxBytes - Estimate(key, table[key]);
      }
      table := table[key := v];
      approxBytes := approxBytes + Estimate(key, v);
    }

    method Set(key: bytes, value: bytes, seqNo: nat) returns (r: Result<nat>)
      requires Valid()
      modifies this
      ensures Valid()
      ensures key == [] ==> r == Err(InvalidArgument) && table == old(table)
      ensures key != [] ==> r == Ok(seqNo) && table == old(table)[key := Version(value, seqNo, false)]
    {
      if key == [] {
        return Err(InvalidArgument);
      }
      Put(key, Version(value, seqNo, false));
      r := Ok(seqNo);
    }

    method Delete(key: bytes, seqNo: nat) returns (r: Result<nat>)
      requires Valid()
      modifies this
      ensures Valid()
      ensures key == [] ==> r == Err(InvalidArgument) && table == old(table)
      ensures key != [] ==> r == Ok(seqNo) && table == old(table)[key := Version([], seqNo, true)]
    {
      if key == [] {
        return Err(InvalidArgument);
      }
      Put(key, Version([], seqNo, true));
      r := Ok(seqNo);
    }

    method Get(key: bytes) returns (r: Result<Version>)
      ensures r == if key in table then Ok(table[key]) else Err(NotFound)
    {
      r := if key in table then Ok(table[key]) else Err(NotFound);
    }

    method SnapshotSorted(includeTombstones: bool) returns (out: Table)
      ensures Sorted(out) && ToLayer(out) == Visible(table, includeTombstones)
      ensures forall k :: k in ToLayer(out) <==> k in table && (includeTombstones || !table[k].tombstone)
      ensures forall k :: k in ToLayer(out) ==> ToLayer(out)[k] == table[k]
    {
      out := SortLayer(Visible(table, includeTombstones));
    }

    method DrainSorted(includeTombstones: bool) returns (out: Table)
      requires Valid()
      modifies this
      ensures Valid() && table == map[] && approxBytes == 0
      ensures Sorted(out) && ToLayer(out) == Visible(old(table), includeTombstones)
    {
      var visible := Visible(table, includeTombstones);
      table := map[];
      approxBytes := 0;
      out := SortLayer(visible);
    }

    // The flush trigger fires exactly when the entries' estimates reach the budget.
    method OverBudget() returns (over: bool)
      requires Valid()
      ensures over <==> TotalBytes(table) >= budget
    {
      over := approxBytes >= budget;
    }
  }
}
