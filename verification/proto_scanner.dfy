/** The universal scanner: it maps every field number of a buffer level to a
    display value (`Tag_{field}`), descending into a blob whenever the blob
    scans to at least one field. A repeated field keeps its last value.
    Records are read exactly as the reference reader reads them. */
module ProtoScanner {
  import opened Wrappers
  import opened Bytes
  import Text
  import Varint
  import Wire
  import WireLevel
  import Assoc

  /** A value of the result: an integer, a display string, or the fields of
      a nested message. */
  datatype Value = Int(n: nat) | Str(s: string) | Nested(fields: map<nat, Value>)

  /** Above this a varint is shown with its signed reading. */
  const IntLimit: nat := 2147483647

  /** `Tag_{field}`: distinct fields have distinct keys. */
  function TagName(field: nat): string {
    "Tag_" + Text.NatToString(field)
  }

  lemma TagNameInjective(a: nat, b: nat)
    requires TagName(a) == TagName(b)
    ensures a == b
  {
    assert Text.NatToString(a) == TagName(a)[4..] == TagName(b)[4..] == Text.NatToString(b);
    Text.NatToStringInjective(a, b);
  }

  /** The value of a varint field: the integer up to 2147483647, above it
      the text `'{val} (raw) / {val-4294967296} (signed)'`. */
  function VarintValue(v: nat): (r: Value)
    ensures r.Int? <==> v <= IntLimit
    ensures r.Int? ==> r.n == v
    ensures r.Str? ==> Text.StartsWith(r.s, Text.NatToString(v) + " (raw) / ")
  {
    if v > IntLimit then Str(Text.NatToString(v) + " (raw) / " + Text.IntToString(v - 0x1_0000_0000) + " (signed)")
    else Int(v)
  }

  /** `'[Bytes len={ln}]'` */
  function BytesLabel(ln: nat): string {
    "[Bytes len=" + Text.NatToString(ln) + "]"
  }

  /** The value recorded for one record: a blob with `ln > 0` whose body
      scans to at least one field is the nested result, any other blob is
      its length label, and fixed-width fields are placeholders. */
  function ValueOf(item: Wire.Item, depth: nat, bound: nat): (v: Value)
    requires item.BlobItem? ==> |item.body| < bound
    ensures item.VarintItem? ==> v == VarintValue(item.value)
    ensures v.Nested? ==> item.BlobItem? && item.len > 0 && |v.fields| > 0
    ensures item.BlobItem? && !v.Nested? ==> v == Str(BytesLabel(item.len))
    decreases bound, 0
  {
    match item
    case VarintItem(_, val) => VarintValue(val)
    case Fixed64Item(_) => Str("[64-bit Data]")
    case Fixed32Item(_) => Str("[32-bit Data]")
    case BlobItem(_, ln, body) =>
      if ln > 0 then
        var sub := ScanFields(body, depth + 1);
        if |sub| > 0 then Nested(sub) else Str(BytesLabel(ln))
      else Str(BytesLabel(ln))
  }

  /** The loop of `scan_fields(payload, depth)` from offset `i` with the
      results so far: each record read sets `Tag_{field}` to its value; a
      truncated varint or an unknown wire type ends the level without
      recording the field. Fixed-width fields advance by 8 or 4 even past the
      end, which ends the loop. */
  function ScanFrom(p: seq<Byte>, i: nat, depth: nat, results: map<nat, Value>): map<nat, Value>
    decreases |p|, 1, |p| - i
  {
    match Wire.Step(p, i)
    case None => results
    case Some((item, n)) => ScanFrom(p, n, depth, results[item.field := ValueOf(item, depth, |p|)])
  }

  /** `scan_fields(payload, depth)` */
  function ScanFields(p: seq<Byte>, depth: nat): map<nat, Value>
    decreases |p|, 2
  {
    ScanFrom(p, 0, depth, map[])
  }

  // ---------------------------------------------------------------------
  // The result as a sequence of assignments

  /** The assignments `results[Tag_{field}] = value` of a level, in order. */
  function Entries(p: seq<Byte>, items: seq<Wire.Item>, depth: nat): (r: seq<(nat, Value)>)
    requires forall k :: 0 <= k < |items| ==> items[k].BlobItem? ==> |items[k].body| < |p|
    ensures |r| == |items|
    ensures forall k :: 0 <= k < |r| ==> r[k] == (items[k].field, ValueOf(items[k], depth, |p|))
  {
    if |items| == 0 then []
    else [(items[0].field, ValueOf(items[0], depth, |p|))] + Entries(p, items[1..], depth)
  }

  /** The loop leaves behind the assignments of the records it reads. */
  lemma {:induction false} ScanIsEntries(p: seq<Byte>, i: nat, depth: nat, results: map<nat, Value>)
    ensures ScanFrom(p, i, depth, results) == results + Assoc.ToMap(Entries(p, WireLevel.Records(p, i), depth))
    decreases |p| - i
  {
    var r := Wire.Step(p, i);
    if r.None? {
      assert results + map[] == results;
    } else {
      var (item, n) := r.value;
      var e := (item.field, ValueOf(item, depth, |p|));
      UnfoldStep(p, i, depth, results, item, n);
      ScanIsEntries(p, n, depth, results[e.0 := e.1]);
      AssignThen(results, e, Entries(p, WireLevel.Records(p, n), depth));
    }
  }

  lemma UnfoldStep(p: seq<Byte>, i: nat, depth: nat, results: map<nat, Value>, item: Wire.Item, n: nat)
    requires Wire.Step(p, i) == Some((item, n))
    ensures ScanFrom(p, i, depth, results) == ScanFrom(p, n, depth, results[item.field := ValueOf(item, depth, |p|)])
    ensures Entries(p, WireLevel.Records(p, i), depth) == [(item.field, ValueOf(item, depth, |p|))] + Entries(p, WireLevel.Records(p, n), depth)
  {
    assert WireLevel.Records(p, i) == [item] + WireLevel.Records(p, n);
    assert (Entries(p, WireLevel.Records(p, i), depth))[1..] == Entries(p, WireLevel.Records(p, n), depth);
  }

  /** One assignment followed by the rest is all of them. */
  lemma AssignThen(results: map<nat, Value>, e: (nat, Value), rest: seq<(nat, Value)>)
    ensures results[e.0 := e.1] + Assoc.ToMap(rest) == results + Assoc.ToMap([e] + rest)
  {
    Assoc.AssignOne(results, e.0, e.1);
    assert [(e.0, e.1)] == [e];
    Assoc.MergeRuns(results, [e], rest);
  }

  /** `scan_fields` is the assignments of its top level. */
  lemma ScanFieldsIsEntries(p: seq<Byte>, depth: nat)
    ensures ScanFields(p, depth) == Assoc.ToMap(Entries(p, WireLevel.Records(p, 0), depth))
  {
    ScanIsEntries(p, 0, depth, map[]);
    assert map[] + Assoc.ToMap(Entries(p, WireLevel.Records(p, 0), depth)) == Assoc.ToMap(Entries(p, WireLevel.Records(p, 0), depth));
  }

  /** The result has one entry per field number read at the top level; a
      repeated field keeps the value of its last record; an integer is at
      most 2147483647; a nested value holds at least one field. */
  lemma ScanFieldsSpec(p: seq<Byte>, depth: nat)
    ensures var m := ScanFields(p, depth); var rs := WireLevel.Records(p, 0);
      && (forall k :: 0 <= k < |rs| ==> rs[k].field in m)
      && (forall f :: f in m ==> exists k :: 0 <= k < |rs| && rs[k].field == f)
      && (forall k :: 0 <= k < |rs| && (forall j :: k < j < |rs| ==> rs[j].field != rs[k].field) ==>
            m[rs[k].field] == ValueOf(rs[k], depth, |p|))
    ensures var m := ScanFields(p, depth);
      forall f :: f in m ==> (m[f].Int? ==> m[f].n <= IntLimit) && (m[f].Nested? ==> |m[f].fields| > 0)
  {
    ScanFieldsIsEntries(p, depth);
    var rs := WireLevel.Records(p, 0);
    EntriesKeys(p, rs, depth);
    EntriesLast(p, rs, depth);
    EntriesValues(p, rs, depth);
  }

  /** The keys of the assignments of a run of records are its field numbers. */
  lemma EntriesKeys(p: seq<Byte>, rs: seq<Wire.Item>, depth: nat)
    requires forall k :: 0 <= k < |rs| ==> rs[k].BlobItem? ==> |rs[k].body| < |p|
    ensures var m := Assoc.ToMap(Entries(p, rs, depth));
      && (forall k :: 0 <= k < |rs| ==> rs[k].field in m)
      && (forall f :: f in m ==> exists k :: 0 <= k < |rs| && rs[k].field == f)
  {
    var es := Entries(p, rs, depth);
    var m := Assoc.ToMap(es);
    forall f | f in m ensures exists k :: 0 <= k < |rs| && rs[k].field == f {
      var k :| 0 <= k < |es| && es[k].0 == f;
      assert rs[k].field == f;
    }
  }

  /** A field keeps the value of its last record. */
  lemma EntriesLast(p: seq<Byte>, rs: seq<Wire.Item>, depth: nat)
    requires forall k :: 0 <= k < |rs| ==> rs[k].BlobItem? ==> |rs[k].body| < |p|
    ensures var m := Assoc.ToMap(Entries(p, rs, depth));
      forall k :: 0 <= k < |rs| && (forall j :: k < j < |rs| ==> rs[j].field != rs[k].field) ==>
        rs[k].field in m && m[rs[k].field] == ValueOf(rs[k], depth, |p|)
  {
    var es := Entries(p, rs, depth);
    forall k | 0 <= k < |rs| && (forall j :: k < j < |rs| ==> rs[j].field != rs[k].field)
      ensures rs[k].field in Assoc.ToMap(es) && Assoc.ToMap(es)[rs[k].field] == ValueOf(rs[k], depth, |p|)
    {
      Assoc.LastWins(es, k);
    }
  }

  /** Every integer value is at most 2147483647 and every nested value
      holds a field. */
  lemma EntriesValues(p: seq<Byte>, rs: seq<Wire.Item>, depth: nat)
    requires forall k :: 0 <= k < |rs| ==> rs[k].BlobItem? ==> |rs[k].body| < |p|
    ensures var m := Assoc.ToMap(Entries(p, rs, depth));
      forall f :: f in m ==> (m[f].Int? ==> m[f].n <= IntLimit) && (m[f].Nested? ==> |m[f].fields| > 0)
  {
    var es := Entries(p, rs, depth);
    var m := Assoc.ToMap(es);
    forall f | f in m ensures (m[f].Int? ==> m[f].n <= IntLimit) && (m[f].Nested? ==> |m[f].fields| > 0) {
      var k :| 0 <= k < |es| && es[k].0 == f;
      var last := LastField(rs, k);
      Assoc.LastWins(es, last);
      var v := ValueOf(rs[last], depth, |p|);
      assert m[f] == v;
    }
  }

  /** The last record at or after `k` with the same field number. */
  lemma LastField(rs: seq<Wire.Item>, k: nat) returns (last: nat)
    requires k < |rs|
    ensures k <= last < |rs| && rs[last].field == rs[k].field
    ensures forall j :: last < j < |rs| ==> rs[j].field != rs[last].field
    decreases |rs| - k
  {
    if exists j :: k < j < |rs| && rs[j].field == rs[k].field {
      var j :| k < j < |rs| && rs[j].field == rs[k].field;
      last := LastField(rs, j);
    } else {
      last := k;
    }
  }

  // ---------------------------------------------------------------------
  // Edge cases

  /** A fixed-width field is recorded even when fewer bytes than its width
      remain: `09 01` is field 1, wire type 1, and the loop then ends. */
  lemma FixedPastEnd()
    ensures ScanFields([0x09, 0x01], 0) == map[1 := Str("[64-bit Data]")]
  {
    var p: seq<Byte> := [0x09, 0x01];
    assert Wire.Step(p, 0) == Some((Wire.Fixed64Item(1), 9));
    assert Wire.Step(p, 9) == None;
  }

  /** A field whose value is cut off is not recorded: `08 05 10` keeps only
      field 1. */
  lemma TruncatedNotRecorded()
    ensures ScanFields([0x08, 0x05, 0x10], 0) == map[1 := Int(5)]
  {
    var p: seq<Byte> := [0x08, 0x05, 0x10];
    assert Varint.Read(p, 0, None) == Success((8, 1));
    assert Varint.Read(p, 1, None) == Success((5, 2));
    assert Varint.Read(p, 2, None) == Success((16, 3));
    assert Varint.Read(p, 3, None) == Failure(Varint.Truncated);
    assert Wire.Step(p, 0) == Some((Wire.VarintItem(1, 5), 2));
    assert Wire.Step(p, 2) == None;
  }

  /** An empty blob is shown by its length: `0A 00`. */
  lemma EmptyBlobLabel()
    ensures ScanFields([0x0A, 0x00], 0) == map[1 := Str("[Bytes len=0]")]
  {
    var p: seq<Byte> := [0x0A, 0x00];
    assert Varint.Read(p, 0, None) == Success((10, 1));
    assert Varint.Read(p, 1, None) == Success((0, 2));
    assert Wire.Step(p, 0) == Some((Wire.BlobItem(1, 0, []), 2));
    assert Wire.Step(p, 2) == None;
    assert Text.NatToString(0) == "0";
    assert BytesLabel(0) == "[Bytes len=0]";
    assert ValueOf(Wire.BlobItem(1, 0, []), 0, 2) == Str("[Bytes len=0]");
    assert ScanFrom(p, 2, 0, map[1 := Str("[Bytes len=0]")]) == map[1 := Str("[Bytes len=0]")];
  }
}
