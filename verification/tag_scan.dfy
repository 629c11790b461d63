/** The `scan_payload` walker the tag-hunting tools share: it reads records
    exactly as the reference reader does, stores each varint it keeps under
    its depth/field key (`local_found[f"d{depth}_t{field}"] = val`), merges in
    the dictionary of every non-empty blob scanned one level deeper
    (`update`), and ends the level on a truncated varint or an unknown wire
    type. The two copies differ only in which values they keep: the diff
    hunter drops values of 999999 and more, the tag finder keeps all. */
module TagScan {
  import opened Wrappers
  import opened Bytes
  import Wire
  import Assoc
  import opened TagKey

  /** Whether a value is stored: below the ceiling, or always when there is
      none. */
  predicate Keeps(v: nat, ceiling: Option<nat>) {
    ceiling.None? || v < ceiling.value
  }

  /** The assignments `local_found[key] = val` the walk performs from offset
      `i`, in order, with those of each non-empty blob in its place. */
  function Stores(p: seq<Byte>, i: nat, depth: nat, ceiling: Option<nat>): (r: seq<(Key, nat)>)
    ensures forall k :: 0 <= k < |r| ==> r[k].0.depth >= depth && Keeps(r[k].1, ceiling)
    decreases |p|, 0, |p| - i
  {
    match Wire.Step(p, i)
    case None => []
    case Some((item, n)) =>
      (if item.VarintItem? then (if Keeps(item.value, ceiling) then [(Key(depth, item.field), item.value)] else [])
       else if item.BlobItem? && item.len > 0 then Stores(item.body, 0, depth + 1, ceiling)
       else [])
      + Stores(p, n, depth, ceiling)
  }

  /** The loop of `scan_payload(payload, depth)` from offset `i` with the
      dictionary `found` built so far: a varint the ceiling keeps is
      assigned, a non-empty blob is scanned one level deeper and merged in
      with `update`, fixed-width values are skipped, and a truncated varint
      or an unknown wire type ends the level. */
  function ScanFrom(p: seq<Byte>, i: nat, depth: nat, ceiling: Option<nat>, found: map<Key, nat>): map<Key, nat>
    decreases |p|, 1, |p| - i
  {
    match Wire.Step(p, i)
    case None => found
    case Some((item, n)) =>
      if item.VarintItem? then
        ScanFrom(p, n, depth, ceiling, if Keeps(item.value, ceiling) then found[Key(depth, item.field) := item.value] else found)
      else if item.BlobItem? && item.len > 0 then
        ScanFrom(p, n, depth, ceiling, found + ScanPayload(item.body, depth + 1, ceiling))
      else ScanFrom(p, n, depth, ceiling, found)
  }

  /** `scan_payload(payload, depth)` */
  function ScanPayload(p: seq<Byte>, depth: nat, ceiling: Option<nat>): map<Key, nat>
    decreases |p|, 2, 0
  {
    ScanFrom(p, 0, depth, ceiling, map[])
  }

  /** The dictionary the loop returns is what the assignments leave behind:
      the keys assigned, each with the value of its last assignment. */
  lemma {:induction false} ScanIsAssignments(p: seq<Byte>, i: nat, depth: nat, ceiling: Option<nat>, found: map<Key, nat>)
    ensures ScanFrom(p, i, depth, ceiling, found) == found + Assoc.ToMap(Stores(p, i, depth, ceiling))
    decreases |p|, 1, |p| - i
  {
    var r := Wire.Step(p, i);
    if r.None? {
      assert found + map[] == found;
    } else {
      var (item, n) := r.value;
      if item.VarintItem? {
        var found' := if Keeps(item.value, ceiling) then found[Key(depth, item.field) := item.value] else found;
        UnfoldVarint(p, i, depth, ceiling, found, item.field, item.value, n);
        ScanIsAssignments(p, n, depth, ceiling, found');
        VarintCase(found, Key(depth, item.field), item.value, Stores(p, n, depth, ceiling), ceiling);
      } else if item.BlobItem? && item.len > 0 {
        ScanPayloadIsAssignments(item.body, depth + 1, ceiling);
        ScanIsAssignments(p, n, depth, ceiling, found + ScanPayload(item.body, depth + 1, ceiling));
        BlobCase(p, i, depth, ceiling, found, item, n);
      } else {
        ScanIsAssignments(p, n, depth, ceiling, found);
        UnfoldOther(p, i, depth, ceiling, found, item, n);
      }
    }
  }

  /** Assigning one varint and then performing the remaining assignments is
      performing all of them. */
  lemma VarintCase(found: map<Key, nat>, k: Key, v: nat, rest: seq<(Key, nat)>, ceiling: Option<nat>)
    ensures var here := if Keeps(v, ceiling) then [(k, v)] else [];
      (if Keeps(v, ceiling) then found[k := v] else found) + Assoc.ToMap(rest) == found + Assoc.ToMap(here + rest)
  {
    var here := if Keeps(v, ceiling) then [(k, v)] else [];
    if Keeps(v, ceiling) {
      MergeOne(found, k, v);
    } else {
      assert Assoc.ToMap(here) == map[];
      assert found == found + Assoc.ToMap(here);
    }
    Merge(found, here, rest);
  }

  lemma BlobCase(p: seq<Byte>, i: nat, depth: nat, ceiling: Option<nat>, found: map<Key, nat>, item: Wire.Item, n: nat)
    requires Wire.Step(p, i) == Some((item, n)) && item.BlobItem? && item.len > 0
    requires ScanPayload(item.body, depth + 1, ceiling) == Assoc.ToMap(Stores(item.body, 0, depth + 1, ceiling))
    requires var found' := found + ScanPayload(item.body, depth + 1, ceiling);
      ScanFrom(p, n, depth, ceiling, found') == found' + Assoc.ToMap(Stores(p, n, depth, ceiling))
    ensures ScanFrom(p, i, depth, ceiling, found) == found + Assoc.ToMap(Stores(p, i, depth, ceiling))
  {
    UnfoldBlob(p, i, depth, ceiling, found, item, n);
    Merge(found, Stores(item.body, 0, depth + 1, ceiling), Stores(p, n, depth, ceiling));
  }

  lemma MergeOne(found: map<Key, nat>, k: Key, v: nat)
    ensures found[k := v] == found + Assoc.ToMap([(k, v)])
  {
    Assoc.AssignOne(found, k, v);
  }

  /** Merging the results of two runs of assignments one after the other is
      merging the result of both. */
  lemma Merge(found: map<Key, nat>, a: seq<(Key, nat)>, b: seq<(Key, nat)>)
    ensures (found + Assoc.ToMap(a)) + Assoc.ToMap(b) == found + Assoc.ToMap(a + b)
  {
    Assoc.MergeRuns(found, a, b);
  }

  lemma UnfoldVarint(p: seq<Byte>, i: nat, depth: nat, ceiling: Option<nat>, found: map<Key, nat>, f: nat, v: nat, n: nat)
    requires Wire.Step(p, i) == Some((Wire.VarintItem(f, v), n))
    ensures ScanFrom(p, i, depth, ceiling, found) ==
      ScanFrom(p, n, depth, ceiling, if Keeps(v, ceiling) then found[Key(depth, f) := v] else found)
    ensures Stores(p, i, depth, ceiling) == (if Keeps(v, ceiling) then [(Key(depth, f), v)] else []) + Stores(p, n, depth, ceiling)
  {
  }

  lemma UnfoldBlob(p: seq<Byte>, i: nat, depth: nat, ceiling: Option<nat>, found: map<Key, nat>, item: Wire.Item, n: nat)
    requires Wire.Step(p, i) == Some((item, n)) && item.BlobItem? && item.len > 0
    ensures ScanFrom(p, i, depth, ceiling, found) == ScanFrom(p, n, depth, ceiling, found + ScanPayload(item.body, depth + 1, ceiling))
    ensures Stores(p, i, depth, ceiling) == Stores(item.body, 0, depth + 1, ceiling) + Stores(p, n, depth, ceiling)
  {
  }

  lemma UnfoldOther(p: seq<Byte>, i: nat, depth: nat, ceiling: Option<nat>, found: map<Key, nat>, item: Wire.Item, n: nat)
    requires Wire.Step(p, i) == Some((item, n)) && !item.VarintItem? && !(item.BlobItem? && item.len > 0)
    ensures ScanFrom(p, i, depth, ceiling, found) == ScanFrom(p, n, depth, ceiling, found)
    ensures Stores(p, i, depth, ceiling) == Stores(p, n, depth, ceiling)
  {
    assert [] + Stores(p, n, depth, ceiling) == Stores(p, n, depth, ceiling);
  }

  lemma {:induction false} ScanPayloadIsAssignments(p: seq<Byte>, depth: nat, ceiling: Option<nat>)
    ensures ScanPayload(p, depth, ceiling) == Assoc.ToMap(Stores(p, 0, depth, ceiling))
    decreases |p|, 2, 0
  {
    ScanIsAssignments(p, 0, depth, ceiling, map[]);
    Assoc.MergeIntoEmpty(Assoc.ToMap(Stores(p, 0, depth, ceiling)));
  }

  /** Every stored key lies at the scan's depth or below it, every stored
      value is one the ceiling keeps, every assignment leaves its key in the
      dictionary, and a key's value is the one of its last assignment in the
      walk, nested blobs included. */
  lemma ScanPayloadSpec(p: seq<Byte>, depth: nat, ceiling: Option<nat>)
    ensures var m := ScanPayload(p, depth, ceiling);
      forall x :: x in m ==> x.depth >= depth && Keeps(m[x], ceiling)
    ensures var m := ScanPayload(p, depth, ceiling); var s := Stores(p, 0, depth, ceiling);
      forall j :: 0 <= j < |s| ==> s[j].0 in m
    ensures var m := ScanPayload(p, depth, ceiling); var s := Stores(p, 0, depth, ceiling);
      forall j :: 0 <= j < |s| && (forall k :: j < k < |s| ==> s[k].0 != s[j].0) ==>
        m[s[j].0] == s[j].1
  {
    ScanPayloadIsAssignments(p, depth, ceiling);
    var m := ScanPayload(p, depth, ceiling);
    var s := Stores(p, 0, depth, ceiling);
    forall x | x in m ensures x.depth >= depth && Keeps(m[x], ceiling) {
      var j :| 0 <= j < |s| && s[j].0 == x;
      assert Keeps(s[j].1, ceiling);
      var last := LastOf(s, j);
      Assoc.LastWins(s, last);
    }
    forall j | 0 <= j < |s| && (forall k :: j < k < |s| ==> s[k].0 != s[j].0)
      ensures s[j].0 in m && m[s[j].0] == s[j].1
    {
      Assoc.LastWins(s, j);
    }
  }

  /** The last position at or after `j` holding the same key as position `j`. */
  lemma LastOf(s: seq<(Key, nat)>, j: nat) returns (last: nat)
    requires j < |s|
    ensures j <= last < |s| && s[last].0 == s[j].0
    ensures forall k :: last < k < |s| ==> s[k].0 != s[last].0
    decreases |s| - j
  {
    if exists k :: j < k < |s| && s[k].0 == s[j].0 {
      var k :| j < k < |s| && s[k].0 == s[j].0;
      last := LastOf(s, k);
    } else {
      last := j;
    }
  }

}
