/** The deep inspector: it prints an indented tree of any protobuf payload,
    and prints it only for payloads whose structure fingerprint (the list of
    field numbers it reads) has not been seen before. */
module DeepInspector {
  import opened Wrappers
  import opened Bytes
  import Text
  import Varint
  import Wire
  import WireLevel

  // ---------------------------------------------------------------------
  // The tree

  /** `"  " * indent` */
  function Indent(n: nat): (r: string)
    ensures |r| == 2 * n
    ensures forall k :: 0 <= k < |r| ==> r[k] == ' '
  {
    if n == 0 then "" else "  " + Indent(n - 1)
  }

  /** `"  " * indent + f"├── [{field}] "` */
  function Prefix(indent: nat, field: nat): string {
    Indent(indent) + "\U{251C}\U{2500}\U{2500} [" + Text.NatToString(field) + "] "
  }

  lemma PrefixShape(indent: nat, field: nat)
    ensures Text.StartsWith(Prefix(indent, field), Indent(indent))
    ensures '\n' !in Prefix(indent, field)
  {
    var d := Text.NatToString(field);
    assert Prefix(indent, field) == Indent(indent) + ("\U{251C}\U{2500}\U{2500} [" + d + "] ");
    assert '\n' !in d by {
      forall k | 0 <= k < |d| ensures d[k] != '\n' {
        assert Text.IsDigit(d[k]);
      }
    }
  }

  /** The text shown for a blob that is not a container: its hex when it is
      at most ten bytes long, otherwise the hex of its first ten bytes and
      an ellipsis. */
  function BytesText(data: seq<Byte>): (r: string)
    ensures |data| <= 10 ==> r == Hex(data)
    ensures |data| > 10 ==> r == Hex(data[..10]) + "..."
    ensures |r| <= 23 && '\n' !in r
  {
    var h := Hex(data);
    if |data| > 10 then
      HexPrefix(data, 10);
      assert '\n' !in h[..20] by {
        forall k | 0 <= k < 20 ensures h[..20][k] != '\n' {
          assert IsHexDigit(h[k]);
        }
      }
      h[..20] + "..."
    else
      assert '\n' !in h by {
        forall k | 0 <= k < |h| ensures h[k] != '\n' {
          assert IsHexDigit(h[k]);
        }
      }
      h
  }

  /** Whether a blob is shown as a container: it is non-empty and its body
      reads at least one record, so that its sub-tree is not empty. */
  predicate IsContainer(item: Wire.Item) {
    item.BlobItem? && item.len > 0 && Wire.Step(item.body, 0).Some?
  }

  /** The one-line header of a record: `Int: v`, `Container (len=ln):`,
      `Bytes: …`, `64-bit data` or `32-bit data` after the prefix. */
  function Header(item: Wire.Item, indent: nat): (r: string)
    ensures Text.StartsWith(r, Prefix(indent, item.field))
    ensures Text.StartsWith(r, Indent(indent)) && '\n' !in r
  {
    PrefixShape(indent, item.field);
    var pre := Prefix(indent, item.field);
    var rest :=
      match item
      case VarintItem(_, v) => "Int: " + Text.NatToString(v)
      case BlobItem(_, ln, data) =>
        if IsContainer(item) then "Container (len=" + Text.NatToString(ln) + "):"
        else "Bytes: " + BytesText(data)
      case Fixed64Item(_) => "64-bit data"
      case Fixed32Item(_) => "32-bit data";
    assert '\n' !in rest by {
      if item.VarintItem? {
        DigitsNoNewline(item.value);
      } else if item.BlobItem? {
        DigitsNoNewline(item.len);
      }
    }
    assert (pre + rest)[..|pre|] == pre;
    assert (pre + rest)[..|Indent(indent)|] == pre[..|Indent(indent)|];
    pre + rest
  }

  lemma DigitsNoNewline(n: nat)
    ensures '\n' !in Text.NatToString(n)
  {
    var d := Text.NatToString(n);
    forall k | 0 <= k < |d| ensures d[k] != '\n' {
      assert Text.IsDigit(d[k]);
    }
  }

  /** The entries one record adds to `out`: its header, and for a container
      the whole sub-tree one level deeper as a single entry. */
  function ItemLines(item: Wire.Item, indent: nat, bound: nat): (r: seq<string>)
    requires item.BlobItem? ==> |item.body| < bound
    ensures |r| == (if IsContainer(item) then 2 else 1)
    ensures r[0] == Header(item, indent)
    ensures forall k :: 0 <= k < |r| ==> |r[k]| > 0 && Text.StartsWith(r[k], Indent(indent))
    decreases bound, 0
  {
    if IsContainer(item) then
      var sub := Tree(item.body, indent + 1);
      assert sub[..|Indent(indent)|] == Indent(indent + 1)[..|Indent(indent)|];
      [Header(item, indent), sub]
    else [Header(item, indent)]
  }

  /** The loop of `decode_tree(payload, indent)` from offset `i`: the
      entries of `out` for the records read there; a truncated varint or an
      unknown wire type ends the level. */
  function Lines(p: seq<Byte>, i: nat, indent: nat): (r: seq<string>)
    ensures |r| == 0 <==> Wire.Step(p, i).None?
    ensures forall k :: 0 <= k < |r| ==> |r[k]| > 0 && Text.StartsWith(r[k], Indent(indent))
    decreases |p|, 1, |p| - i
  {
    match Wire.Step(p, i)
    case None => []
    case Some((item, n)) => ItemLines(item, indent, |p|) + Lines(p, n, indent)
  }

  /** `decode_tree(payload, indent)`: empty exactly when the payload yields
      no record, and otherwise starting at the indentation of its level. */
  function Tree(p: seq<Byte>, indent: nat): (r: string)
    ensures r == "" <==> Wire.Step(p, 0).None?
    ensures r != "" ==> Text.StartsWith(r, Indent(indent))
    decreases |p|, 2
  {
    var lines := Lines(p, 0, indent);
    if |lines| == 0 then ""
    else
      Text.JoinFirst(lines, "\n");
      var r := Text.Join(lines, "\n");
      assert r[..|Indent(indent)|] == lines[0][..|Indent(indent)|];
      r
  }

  // ---------------------------------------------------------------------
  // The tree as printed lines

  /** The printed lines of a level from offset `i`: each record's header,
      followed for a container by the lines of its body one level deeper. */
  function FlatLines(p: seq<Byte>, i: nat, indent: nat): (r: seq<string>)
    ensures |r| == 0 <==> Wire.Step(p, i).None?
    ensures forall k :: 0 <= k < |r| ==> '\n' !in r[k] && Text.StartsWith(r[k], Indent(indent))
    decreases |p|, 2, |p| - i
  {
    match Wire.Step(p, i)
    case None => []
    case Some((item, n)) => FlatItem(item, indent, |p|) + FlatLines(p, n, indent)
  }

  function FlatItem(item: Wire.Item, indent: nat, bound: nat): (r: seq<string>)
    requires item.BlobItem? ==> |item.body| < bound
    ensures |r| >= 1 && r[0] == Header(item, indent)
    ensures forall k :: 0 <= k < |r| ==> '\n' !in r[k] && Text.StartsWith(r[k], Indent(indent))
    decreases bound, 1
  {
    if IsContainer(item) then
      var sub := FlatLines(item.body, 0, indent + 1);
      assert forall k :: 0 <= k < |sub| ==> sub[k][..|Indent(indent)|] == Indent(indent + 1)[..|Indent(indent)|];
      [Header(item, indent)] + sub
    else [Header(item, indent)]
  }

  /** The nested entries of `out` print as the flat lines: every printed
      line is one record's header, indented by its nesting depth. */
  lemma {:induction false} LinesAreFlat(p: seq<Byte>, i: nat, indent: nat)
    ensures Text.Join(Lines(p, i, indent), "\n") == Text.Join(FlatLines(p, i, indent), "\n")
    decreases |p|, 3, |p| - i
  {
    match Wire.Step(p, i)
    case None =>
    case Some((item, n)) =>
      var a, b := ItemLines(item, indent, |p|), Lines(p, n, indent);
      var fa, fb := FlatItem(item, indent, |p|), FlatLines(p, n, indent);
      assert Lines(p, i, indent) == a + b;
      assert FlatLines(p, i, indent) == fa + fb;
      ItemIsFlat(item, indent, |p|);
      LinesAreFlat(p, n, indent);
      if |b| == 0 {
        assert a + b == a && fa + fb == fa;
      } else {
        Text.JoinAppend(a, b, "\n");
        Text.JoinAppend(fa, fb, "\n");
      }
  }

  lemma {:induction false} ItemIsFlat(item: Wire.Item, indent: nat, bound: nat)
    requires item.BlobItem? ==> |item.body| < bound
    ensures Text.Join(ItemLines(item, indent, bound), "\n") == Text.Join(FlatItem(item, indent, bound), "\n")
    decreases bound, 2
  {
    if IsContainer(item) {
      var h := Header(item, indent);
      var sub := FlatLines(item.body, 0, indent + 1);
      var t := Tree(item.body, indent + 1);
      LinesAreFlat(item.body, 0, indent + 1);
      assert ItemLines(item, indent, bound) == [h, t];
      assert FlatItem(item, indent, bound) == [h] + sub;
      HeadOverJoin(h, t, sub);
    }
  }

  /** A header line above a joined body joins like the header line above
      the body's lines. */
  lemma HeadOverJoin(h: string, t: string, sub: seq<string>)
    requires |sub| > 0 && t == Text.Join(sub, "\n")
    ensures Text.Join([h, t], "\n") == Text.Join([h] + sub, "\n")
  {
    Text.JoinAppend([h], sub, "\n");
    assert Text.Join([h, t], "\n") == h + "\n" + t;
  }

  /** Splitting the printed tree at its line breaks gives the flat lines:
      one header per record, nested records indented one level deeper. */
  lemma TreeLines(p: seq<Byte>, indent: nat)
    requires Wire.Step(p, 0).Some?
    ensures Text.Split(Tree(p, indent), '\n') == FlatLines(p, 0, indent)
  {
    LinesAreFlat(p, 0, indent);
    Text.JoinSplit(FlatLines(p, 0, indent), '\n');
  }

  /** The headers of a run of records. */
  function Headers(items: seq<Wire.Item>, indent: nat): (r: seq<string>)
    ensures |r| == |items|
    ensures forall k :: 0 <= k < |r| ==> r[k] == Header(items[k], indent)
  {
    if |items| == 0 then [] else [Header(items[0], indent)] + Headers(items[1..], indent)
  }

  /** `hs` occurs in `ls` in order at the increasing positions `at`. */
  predicate OccursAt(at: seq<nat>, ls: seq<string>, hs: seq<string>) {
    && |at| == |hs|
    && (forall k :: 0 <= k < |at| ==> at[k] < |ls| && ls[at[k]] == hs[k])
    && (forall k, j :: 0 <= k < j < |at| ==> at[k] < at[j])
  }

  /** The top-level entries of `out` hold the headers of the records the
      reference reader reads, in order, each at its own position. */
  lemma {:induction false} HeadersAreRecords(p: seq<Byte>, i: nat, indent: nat) returns (at: seq<nat>)
    ensures OccursAt(at, Lines(p, i, indent), Headers(WireLevel.Records(p, i), indent))
    decreases |p| - i
  {
    match Wire.Step(p, i)
    case None =>
      assert WireLevel.Records(p, i) == [];
      at := [];
    case Some((item, n)) =>
      var at0 := HeadersAreRecords(p, n, indent);
      var rs := WireLevel.Records(p, n);
      assert WireLevel.Records(p, i) == [item] + rs;
      assert Headers([item] + rs, indent) == [Header(item, indent)] + Headers(rs, indent);
      assert Lines(p, i, indent) == ItemLines(item, indent, |p|) + Lines(p, n, indent);
      at := ConsOccurs(ItemLines(item, indent, |p|), Lines(p, n, indent), Headers(rs, indent), at0);
  }

  lemma ConsOccurs(a: seq<string>, ls: seq<string>, hs: seq<string>, at0: seq<nat>) returns (at: seq<nat>)
    requires |a| >= 1 && OccursAt(at0, ls, hs)
    ensures OccursAt(at, a + ls, [a[0]] + hs)
  {
    at := [0] + Shift(at0, |a|);
    forall k | 0 <= k < |at| ensures at[k] < |a + ls| && (a + ls)[at[k]] == ([a[0]] + hs)[k] {
      if k > 0 {
        assert at[k] == at0[k - 1] + |a|;
      }
    }
  }

  /** Every position moved up by `d`. */
  function Shift(at: seq<nat>, d: nat): (r: seq<nat>)
    ensures |r| == |at|
    ensures forall k :: 0 <= k < |r| ==> r[k] == at[k] + d
  {
    if |at| == 0 then [] else [at[0] + d] + Shift(at[1..], d)
  }

  // ---------------------------------------------------------------------
  // The structure fingerprint

  /** The field numbers `get_structure_fingerprint` collects from offset `i`,
      as written: a tag's field is kept before its value is looked at, and
      for wire type 0 the value is read but the offset is left after the
      tag, so the value's bytes are read again as the next tag. */
  function FieldsAsWritten(p: seq<Byte>, i: nat): (r: seq<nat>)
    ensures |r| <= if i < |p| then |p| - i else 0
    decreases |p| - i
  {
    if i >= |p| then []
    else match Varint.Read(p, i, None)
      case Failure(_) => []
      case Success((tag, j)) =>
        var f := Wire.FieldOf(tag);
        var w := Wire.WireOf(tag);
        if w == 0 then
          match Varint.Read(p, j, None)
          case Failure(_) => [f]
          case Success(_) => [f] + FieldsAsWritten(p, j)
        else if w == 2 then
          match Varint.Read(p, j, None)
          case Failure(_) => [f]
          case Success((ln, k)) => [f] + FieldsAsWritten(p, k + ln)
        else if w == 1 then [f] + FieldsAsWritten(p, j + 8)
        else if w == 5 then [f] + FieldsAsWritten(p, j + 4)
        else [f]
  }

  /** The fingerprint collection with the varint value skipped, as the other
      wire types' values are. */
  function FingerprintFields(p: seq<Byte>, i: nat): (r: seq<nat>)
    ensures |r| <= if i < |p| then |p| - i else 0
    decreases |p| - i
  {
    if i >= |p| then []
    else match Varint.Read(p, i, None)
      case Failure(_) => []
      case Success((tag, j)) =>
        var f := Wire.FieldOf(tag);
        var w := Wire.WireOf(tag);
        if w == 0 then
          match Varint.Read(p, j, None)
          case Failure(_) => [f]
          case Success((_, k)) => [f] + FingerprintFields(p, k)
        else if w == 2 then
          match Varint.Read(p, j, None)
          case Failure(_) => [f]
          case Success((ln, k)) => [f] + FingerprintFields(p, k + ln)
        else if w == 1 then [f] + FingerprintFields(p, j + 8)
        else if w == 5 then [f] + FingerprintFields(p, j + 4)
        else [f]
  }

  /** The corrected fingerprint lists the fields of the records the
      reference reader reads, in order, followed by at most one more: the
      field of a last record whose tag was read but whose value was not. */
  lemma {:induction false} FingerprintFollowsRecords(p: seq<Byte>, i: nat)
    ensures var fs := FingerprintFields(p, i); var rf := WireLevel.Fields(WireLevel.Records(p, i));
      |rf| <= |fs| <= |rf| + 1 && fs[..|rf|] == rf
    decreases |p| - i
  {
    match Wire.Step(p, i)
    case None =>
      assert WireLevel.Records(p, i) == [];
      FingerprintStop(p, i);
    case Some((item, n)) =>
      FingerprintFollowsRecords(p, n);
      var rs := WireLevel.Records(p, n);
      assert WireLevel.Records(p, i) == [item] + rs;
      assert WireLevel.Fields([item] + rs) == [item.field] + WireLevel.Fields(rs);
      FingerprintStep(p, i, item, n);
  }

  /** Where the reference reader reads a record, the collection keeps its
      field and goes on where the reader does. */
  lemma FingerprintStep(p: seq<Byte>, i: nat, item: Wire.Item, n: nat)
    requires Wire.Step(p, i) == Some((item, n))
    ensures FingerprintFields(p, i) == [item.field] + FingerprintFields(p, n)
  {
  }

  /** Where the reference reader ends the level, the collection keeps at
      most the field of the tag it could still read. */
  lemma FingerprintStop(p: seq<Byte>, i: nat)
    requires Wire.Step(p, i).None?
    ensures |FingerprintFields(p, i)| <= 1
  {
  }

  /** `"-".join(tags)`: empty for no fields, and otherwise split back on
      `-` into the decimal field numbers. */
  function Fingerprint(fields: seq<nat>): (r: string)
    ensures |fields| == 0 <==> r == ""
    ensures |fields| > 0 ==> Text.Split(r, '-') == Decimals(fields)
  {
    if |fields| == 0 then ""
    else
      DecimalsNoDash(fields);
      Text.JoinSplit(Decimals(fields), '-');
      Text.JoinFirst(Decimals(fields), "-");
      Text.Join(Decimals(fields), "-")
  }

  function Decimals(fields: seq<nat>): (r: seq<string>)
    ensures |r| == |fields|
    ensures forall k :: 0 <= k < |r| ==> r[k] == Text.NatToString(fields[k])
  {
    if |fields| == 0 then [] else [Text.NatToString(fields[0])] + Decimals(fields[1..])
  }

  /** Two payloads share a fingerprint exactly when they list the same field
      numbers: no digit is a dash, so the joined string can be split back. */
  lemma FingerprintInjective(a: seq<nat>, b: seq<nat>)
    requires Fingerprint(a) == Fingerprint(b)
    ensures a == b
  {
    var da, db := Decimals(a), Decimals(b);
    if |a| == 0 || |b| == 0 {
      if |a| > 0 {
        Text.JoinFirst(da, "-");
      } else if |b| > 0 {
        Text.JoinFirst(db, "-");
      }
    } else {
      DecimalsNoDash(a);
      DecimalsNoDash(b);
      Text.JoinSplit(da, '-');
      Text.JoinSplit(db, '-');
      assert da == db;
      forall k | 0 <= k < |a| ensures a[k] == b[k] {
        Text.NatToStringInjective(a[k], b[k]);
      }
    }
  }

  lemma DecimalsNoDash(fields: seq<nat>)
    ensures forall k :: 0 <= k < |fields| ==> '-' !in Decimals(fields)[k]
  {
    forall k | 0 <= k < |fields| ensures '-' !in Decimals(fields)[k] {
      var d := Text.NatToString(fields[k]);
      forall j | 0 <= j < |d| ensures d[j] != '-' {
        assert Text.IsDigit(d[j]);
      }
    }
  }

  /** Where the reference reader reads a blob or fixed-width record, the
      as-written collection keeps its field and goes on where the reader
      does; only varint records are walked differently. */
  lemma AsWrittenStep(p: seq<Byte>, i: nat, item: Wire.Item, n: nat)
    requires Wire.Step(p, i) == Some((item, n)) && !item.VarintItem?
    ensures FieldsAsWritten(p, i) == [item.field] + FieldsAsWritten(p, n)
  {
    var tag, j := StepTag(p, i, item, n);
    if item.BlobItem? {
      AsWrittenBlob(p, i, tag, j, item.len, n - item.len);
    } else {
      AsWrittenFixed(p, i, tag, j);
    }
  }

  /** The tag and the offset after it of a record the reference reader reads. */
  lemma StepTag(p: seq<Byte>, i: nat, item: Wire.Item, n: nat) returns (tag: nat, j: nat)
    requires Wire.Step(p, i) == Some((item, n))
    ensures i < |p| && Varint.Read(p, i, None) == Success((tag, j)) && item.field == Wire.FieldOf(tag)
    ensures item.BlobItem? ==> Wire.WireOf(tag) == 2 && n >= item.len && Varint.Read(p, j, None) == Success((item.len, n - item.len))
    ensures item.Fixed64Item? ==> Wire.WireOf(tag) == 1 && n == j + 8
    ensures item.Fixed32Item? ==> Wire.WireOf(tag) == 5 && n == j + 4
  {
    tag, j := Varint.Read(p, i, None).value.0, Varint.Read(p, i, None).value.1;
  }

  lemma AsWrittenBlob(p: seq<Byte>, i: nat, tag: nat, j: nat, ln: nat, k: nat)
    requires i < |p| && Varint.Read(p, i, None) == Success((tag, j)) && Wire.WireOf(tag) == 2
    requires Varint.Read(p, j, None) == Success((ln, k))
    ensures FieldsAsWritten(p, i) == [Wire.FieldOf(tag)] + FieldsAsWritten(p, k + ln)
  {
  }

  lemma AsWrittenFixed(p: seq<Byte>, i: nat, tag: nat, j: nat)
    requires i < |p| && Varint.Read(p, i, None) == Success((tag, j))
    requires Wire.WireOf(tag) == 1 || Wire.WireOf(tag) == 5
    ensures FieldsAsWritten(p, i) == [Wire.FieldOf(tag)] + FieldsAsWritten(p, if Wire.WireOf(tag) == 1 then j + 8 else j + 4)
  {
  }

  /** At every varint record the as-written walk resumes at the value's
      first byte, whereas the corrected walk resumes after the value: the
      two walks differ exactly by where they continue. */
  lemma AsWrittenResumesAtValue(p: seq<Byte>, i: nat, tag: nat, j: nat, v: nat, k: nat)
    requires i < |p|
    requires Varint.Read(p, i, None) == Success((tag, j)) && Wire.WireOf(tag) == 0
    requires Varint.Read(p, j, None) == Success((v, k))
    ensures j < k
    ensures FieldsAsWritten(p, i) == [Wire.FieldOf(tag)] + FieldsAsWritten(p, j)
    ensures FingerprintFields(p, i) == [Wire.FieldOf(tag)] + FingerprintFields(p, k)
  {
  }

  /** The fingerprint as written mistakes a varint's value for the next tag:
      `30 5A` is field 6 holding 90, yet it gives `6-11`, where the corrected
      collection gives `6`. */
  lemma VarintValueReadAsTag()
    ensures FieldsAsWritten([0x30, 0x5A], 0) == [6, 11]
    ensures Fingerprint(FieldsAsWritten([0x30, 0x5A], 0)) == "6-11"
    ensures FingerprintFields([0x30, 0x5A], 0) == [6]
    ensures WireLevel.Fields(WireLevel.Records([0x30, 0x5A], 0)) == [6]
  {
    var p: seq<Byte> := [0x30, 0x5A];
    assert Varint.Read(p, 0, None) == Success((48, 1));
    assert Varint.Read(p, 1, None) == Success((90, 2));
    assert Varint.Read(p, 2, None) == Failure(Varint.Truncated);
    assert FieldsAsWritten(p, 1) == [11];
    assert Text.NatToString(6) == "6" && Text.NatToString(11) == "11";
    assert Decimals([6, 11]) == ["6", "11"];
    assert Wire.Step(p, 0) == Some((Wire.VarintItem(6, 90), 2));
    assert WireLevel.Records(p, 2) == [];
  }

  // ---------------------------------------------------------------------
  // Message handling

  /** The device name looked for in the topic, in lower case. */
  const Target: string := "study"

  /** `on_message`: a topic naming the target device (in any case) and
      ending in `/data` has its payload fingerprinted by
      `get_structure_fingerprint` as written; a fingerprint not seen before
      is remembered and the payload's tree printed. Anything else prints
      nothing and remembers nothing. */
  function OnMessage(seen: set<string>, topic: string, payload: seq<Byte>): (r: (set<string>, Option<string>))
    ensures var fp := Fingerprint(FieldsAsWritten(payload, 0));
      var wanted := Text.Contains(Text.Lower(topic), Target) && Text.EndsWith(topic, "/data");
      && (r.1.Some? <==> wanted && fp !in seen)
      && (r.1.Some? ==> r.1.value == Tree(payload, 0))
      && r.0 == (if wanted then seen + {fp} else seen)
  {
    Handle(seen, topic, payload, Fingerprint(FieldsAsWritten(payload, 0)))
  }

  /** The handler with the corrected fingerprint, which skips varint values. */
  function OnMessageCorrected(seen: set<string>, topic: string, payload: seq<Byte>): (r: (set<string>, Option<string>))
    ensures var fp := Fingerprint(FingerprintFields(payload, 0));
      var wanted := Text.Contains(Text.Lower(topic), Target) && Text.EndsWith(topic, "/data");
      && (r.1.Some? <==> wanted && fp !in seen)
      && (r.1.Some? ==> r.1.value == Tree(payload, 0))
      && r.0 == (if wanted then seen + {fp} else seen)
  {
    Handle(seen, topic, payload, Fingerprint(FingerprintFields(payload, 0)))
  }

  /** The body of `on_message` once the fingerprint `fp` is known. */
  function Handle(seen: set<string>, topic: string, payload: seq<Byte>, fp: string): (set<string>, Option<string>) {
    if !Text.Contains(Text.Lower(topic), Target) then (seen, None)
    else if !Text.EndsWith(topic, "/data") then (seen, None)
    else if fp !in seen then (seen + {fp}, Some(Tree(payload, 0)))
    else (seen, None)
  }

  /** After a payload is printed, a payload not seen before is printed
      exactly when its as-written field list differs from the first one's:
      a field list is printed once, and distinct field lists never share a
      fingerprint. */
  lemma PrintedOncePerStructure(seen: set<string>, t1: string, p1: seq<Byte>, t2: string, p2: seq<Byte>)
    requires OnMessage(seen, t1, p1).1.Some?
    requires Text.Contains(Text.Lower(t2), Target) && Text.EndsWith(t2, "/data")
    requires Fingerprint(FieldsAsWritten(p2, 0)) !in seen
    ensures OnMessage(OnMessage(seen, t1, p1).0, t2, p2).1.Some? <==>
      FieldsAsWritten(p1, 0) != FieldsAsWritten(p2, 0)
  {
    var f1, f2 := FieldsAsWritten(p1, 0), FieldsAsWritten(p2, 0);
    if Fingerprint(f1) == Fingerprint(f2) {
      FingerprintInjective(f1, f2);
    }
  }

  /** The same for the corrected handler, in terms of the records the
      reference reader reads. */
  lemma CorrectedPrintedOncePerStructure(seen: set<string>, t1: string, p1: seq<Byte>, t2: string, p2: seq<Byte>)
    requires OnMessageCorrected(seen, t1, p1).1.Some?
    requires Text.Contains(Text.Lower(t2), Target) && Text.EndsWith(t2, "/data")
    requires Fingerprint(FingerprintFields(p2, 0)) !in seen
    ensures OnMessageCorrected(OnMessageCorrected(seen, t1, p1).0, t2, p2).1.Some? <==>
      FingerprintFields(p1, 0) != FingerprintFields(p2, 0)
  {
    var f1, f2 := FingerprintFields(p1, 0), FingerprintFields(p2, 0);
    if Fingerprint(f1) == Fingerprint(f2) {
      FingerprintInjective(f1, f2);
    }
  }

  /** Field 6 holding 90 and then field 6 holding 11, on any topic the
      handler takes: as written the two payloads fingerprint as `6-11` and
      `6-1`, so both are printed; the corrected handler sees one structure
      and prints only the first. */
  lemma SameStructurePrintedTwice(t: string, p: seq<Byte>, q: seq<Byte>)
    requires Text.Contains(Text.Lower(t), Target) && Text.EndsWith(t, "/data")
    requires p == [0x30, 0x5A] && q == [0x30, 0x0B]
    ensures OnMessage({}, t, p).1.Some?
    ensures OnMessage(OnMessage({}, t, p).0, t, q).1.Some?
    ensures OnMessageCorrected(OnMessageCorrected({}, t, p).0, t, q).1.None?
  {
    ExampleFingerprints(p, q);
    assert OnMessage({}, t, p).0 == {"6-11"};
    assert OnMessageCorrected({}, t, p).0 == {"6"};
  }

  lemma ExampleFingerprints(p: seq<Byte>, q: seq<Byte>)
    requires p == [0x30, 0x5A] && q == [0x30, 0x0B]
    ensures Fingerprint(FieldsAsWritten(p, 0)) == "6-11"
    ensures Fingerprint(FieldsAsWritten(q, 0)) == "6-1"
    ensures Fingerprint(FingerprintFields(p, 0)) == "6"
    ensures Fingerprint(FingerprintFields(q, 0)) == "6"
  {
    VarintValueReadAsTag();
    SecondPayloadFields();
  }

  lemma SecondPayloadFields()
    ensures Fingerprint(FieldsAsWritten([0x30, 0x0B], 0)) == "6-1"
    ensures Fingerprint(FingerprintFields([0x30, 0x0B], 0)) == "6"
    ensures Fingerprint(FingerprintFields([0x30, 0x5A], 0)) == "6"
  {
    var q: seq<Byte> := [0x30, 0x0B];
    assert Varint.Read(q, 0, None) == Success((48, 1));
    assert Varint.Read(q, 1, None) == Success((11, 2));
    assert Varint.Read(q, 2, None) == Failure(Varint.Truncated);
    assert FieldsAsWritten(q, 1) == [1];
    assert FieldsAsWritten(q, 0) == [6, 1];
    assert FingerprintFields(q, 0) == [6];
    VarintValueReadAsTag();
    assert Text.NatToString(1) == "1" && Text.NatToString(6) == "6";
    assert Decimals([6, 1]) == ["6", "1"];
    assert Decimals([6]) == ["6"];
  }
}
