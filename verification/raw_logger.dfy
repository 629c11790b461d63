/** The raw data logger: for every message it lists each top-level varint
    field 6 (the state-of-charge candidates) with its offset and raw bytes,
    and warns when they disagree. Its varint loops never raise: at the end
    of the payload they stop and keep the value gathered so far. */
module RawLogger {
  import opened Wrappers
  import opened Bytes
  import Varint
  import Wire
  import River3Plus
  import Text

  /** One entry of `all_tag6_occurrences`. */
  datatype Tag6 = Tag6(offset: nat, tag: nat, field: nat, value: nat, bytes: string)

  /** One round of the scan loop of `parse_all_tag6_values` at offset `i`:
      it reads a tag; a varint value is read and, for field 6, recorded; a
      body is skipped by its length; fixed-width values are skipped by 8 or 4
      bytes; any other wire type stops the scan (`None`). Otherwise the
      result holds the record found, if any, and where the loop goes on. */
  function ScanStep(p: seq<Byte>, i: nat): (r: Option<(Option<Tag6>, nat)>)
    requires i < |p|
    ensures r.Some? ==> i < r.value.1
    ensures r.Some? && r.value.0.Some? ==>
      var t := r.value.0.value;
      t.offset == i && t.tag == 48 && t.field == 6
  {
    var (tag, j) := Varint.ReadLenient(p, i);
    var f := Wire.FieldOf(tag);
    var w := Wire.WireOf(tag);
    if w == 0 then
      var (v, k) := Varint.ReadLenient(p, j);
      Some((if f == 6 then Some(Tag6(i, tag, f, v, Hex(p[i..k]))) else None, k))
    else if w == 2 then
      var (ln, k) := Varint.ReadLenient(p, j);
      Some((None, k + ln))
    else if w == 1 then Some((None, j + 8))
    else if w == 5 then Some((None, j + 4))
    else None
  }

  /** The scan loop from offset `i` until the end of the payload or an
      unknown wire type. */
  function ScanFrom(p: seq<Byte>, i: nat): (r: seq<Tag6>)
    ensures forall k :: 0 <= k < |r| ==> i <= r[k].offset < |p| && r[k].tag == 48 && r[k].field == 6
    ensures forall k :: 0 <= k < |r| - 1 ==> r[k].offset < r[k + 1].offset
    decreases |p| - i
  {
    if i >= |p| then []
    else
      match ScanStep(p, i)
      case None => []
      case Some((t, n)) => (if t.Some? then [t.value] else []) + ScanFrom(p, n)
  }

  /** `parse_all_tag6_values(payload)` */
  function ParseAllTag6(p: seq<Byte>): (r: seq<Tag6>)
    ensures forall k :: 0 <= k < |r| ==> r[k].offset < |p| && r[k].tag == 48 && r[k].field == 6
    ensures forall k :: 0 <= k < |r| - 1 ==> r[k].offset < r[k + 1].offset
  {
    ScanFrom(p, 0)
  }

  /** Where the reference reader sees a complete record, the scan reads the
      same record and goes on where the reference reader goes on: a varint
      field 6 is recorded with its value and raw bytes, every other record is
      passed over. */
  lemma ScanAgreesWithStep(p: seq<Byte>, i: nat, item: Wire.Item, n: nat)
    requires Wire.Step(p, i) == Some((item, n))
    ensures ScanFrom(p, i) ==
      (if item.VarintItem? && item.field == 6 then [Tag6(i, 48, 6, item.value, Hex(p[i..n]))] else [])
      + ScanFrom(p, n)
  {
    StepAgrees(p, i, item, n);
  }

  /** One round of the scan against one record of the reference reader. */
  lemma StepAgrees(p: seq<Byte>, i: nat, item: Wire.Item, n: nat)
    requires Wire.Step(p, i) == Some((item, n))
    ensures i < |p| && ScanStep(p, i) ==
      Some((if item.VarintItem? && item.field == 6 then Some(Tag6(i, 48, 6, item.value, Hex(p[i..n]))) else None, n))
  {
    var tag, j := StepTag(p, i, item, n);
    if Wire.WireOf(tag) == 0 && Wire.FieldOf(tag) == 6 {
      assert tag == 48;
    }
  }

  /** The reference reader's record in terms of the lenient reader. */
  lemma StepTag(p: seq<Byte>, i: nat, item: Wire.Item, n: nat) returns (tag: nat, j: nat)
    requires Wire.Step(p, i) == Some((item, n))
    ensures i < |p| && Varint.ReadLenient(p, i) == (tag, j)
    ensures Wire.WireOf(tag) == 0 ==>
      var (v, k) := Varint.ReadLenient(p, j);
      item == Wire.VarintItem(Wire.FieldOf(tag), v) && n == k && i < k <= |p|
    ensures Wire.WireOf(tag) == 2 ==>
      !item.VarintItem? && n == Varint.ReadLenient(p, j).0 + Varint.ReadLenient(p, j).1
    ensures Wire.WireOf(tag) == 1 ==> !item.VarintItem? && n == j + 8
    ensures Wire.WireOf(tag) == 5 ==> !item.VarintItem? && n == j + 4
    ensures Wire.WireOf(tag) == 0 || Wire.WireOf(tag) == 1 || Wire.WireOf(tag) == 2 || Wire.WireOf(tag) == 5
  {
    tag, j := Varint.Read(p, i, None).value.0, Varint.Read(p, i, None).value.1;
    LenientAgrees(p, i);
    var w := Wire.WireOf(tag);
    if w == 0 || w == 2 {
      LenientAgrees(p, j);
    }
  }

  /** The lenient reader returns what the raising reader returns whenever
      the latter succeeds. */
  lemma LenientAgrees(p: seq<Byte>, i: nat)
    requires Varint.Read(p, i, None).Success?
    ensures Varint.ReadLenient(p, i) == Varint.Read(p, i, None).value
  {
    Varint.ReadSpec(p, i, None);
  }

  /** A field 6 nested inside a body is not reported: `0A 02 30 5A` wraps
      `6 = 90` in field 1 and yields nothing. */
  lemma NestedNotSearched()
    ensures ParseAllTag6([0x0A, 0x02, 0x30, 0x5A]) == []
  {
    var p: seq<Byte> := [0x0A, 0x02, 0x30, 0x5A];
    assert Varint.ReadLenient(p, 0) == (10, 1);
    assert Varint.ReadLenient(p, 1) == (2, 2);
    assert ScanStep(p, 0) == Some((None, 4));
    assert ScanFrom(p, 4) == [];
  }

  /** The same field at the top level is reported with its offset and bytes. */
  lemma TopLevelReported()
    ensures ParseAllTag6([0x30, 0x5A]) == [Tag6(0, 48, 6, 90, "305a")]
  {
    var p: seq<Byte> := [0x30, 0x5A];
    assert Varint.ReadLenient(p, 0) == (48, 1);
    assert Varint.ReadLenient(p, 1) == (90, 2);
    assert p[0..2] == p;
    assert Hex(p) == "305a";
    assert ScanStep(p, 0) == Some((Some(Tag6(0, 48, 6, 90, "305a")), 2));
    assert ScanFrom(p, 2) == [];
  }

  /** A value cut off by the end of the payload is still reported, with the
      bits read so far. */
  lemma TruncatedValueReported()
    ensures ParseAllTag6([0x30, 0xDA]) == [Tag6(0, 48, 6, 90, "30da")]
  {
    var p: seq<Byte> := [0x30, 0xDA];
    assert Varint.ReadLenient(p, 0) == (48, 1);
    assert Varint.ReadLenient(p, 2) == (0, 2);
    assert Varint.ReadLenient(p, 1) == (90, 2);
    assert p[0..2] == p;
    assert Hex(p) == "30da";
    assert ScanStep(p, 0) == Some((Some(Tag6(0, 48, 6, 90, "30da")), 2));
    assert ScanFrom(p, 2) == [];
  }

  // ---------------------------------------------------------------------
  // Logging

  /** `len(set(values)) > 1` */
  predicate Disagree(records: seq<Tag6>) {
    |set k | 0 <= k < |records| :: records[k].value| > 1
  }

  /** The warning fires exactly when two records hold different values. */
  lemma DisagreeIff(records: seq<Tag6>)
    ensures Disagree(records) <==>
      exists a, b :: 0 <= a < |records| && 0 <= b < |records| && records[a].value != records[b].value
  {
    var vs := set k | 0 <= k < |records| :: records[k].value;
    if exists a, b :: 0 <= a < |records| && 0 <= b < |records| && records[a].value != records[b].value {
      var a, b :| 0 <= a < |records| && 0 <= b < |records| && records[a].value != records[b].value;
      assert {records[a].value, records[b].value} <= vs;
      assert |{records[a].value, records[b].value}| == 2;
      SubsetSize({records[a].value, records[b].value}, vs);
    }
    if |vs| > 1 {
      var x :| x in vs;
      var a :| 0 <= a < |records| && records[a].value == x;
      assert |vs - {x}| >= 1;
      var y :| y in vs - {x};
      var b :| 0 <= b < |records| && records[b].value == y;
    }
  }

  /** Two values need two records. */
  lemma DisagreeTwo(records: seq<Tag6>)
    requires Disagree(records)
    ensures |records| >= 2
  {
    DisagreeIff(records);
    var a, b :| 0 <= a < |records| && 0 <= b < |records| && records[a].value != records[b].value;
    assert a != b;
  }

  lemma SubsetSize(a: set<nat>, b: set<nat>)
    requires a <= b
    ensures |a| <= |b|
  {
    assert b == a + (b - a);
  }

  datatype Entry = Entry(
    messageNumber: nat, device: string, rawHex: string, rawLength: nat,
    decodedState: River3Plus.Device, validData: bool, tag6: seq<Tag6>, tag6Count: nat)

  datatype Logger = Logger(sn: string, device: River3Plus.Device, messageCount: nat)

  function NewLogger(sn: string): (l: Logger)
    ensures l.messageCount == 0 && l.sn == sn
  {
    Logger(sn, River3Plus.NewDevice(sn), 0)
  }

  /** `log_message(payload)` at clock reading `now`: the updated logger, the
      line written to the log, and whether the disagreement warning fires. */
  function LogMessage(l: Logger, payload: seq<Byte>, now: real): (r: (Logger, Entry, bool))
    ensures r.0.messageCount == l.messageCount + 1 && r.1.messageNumber == r.0.messageCount
    ensures r.1.tag6Count == |r.1.tag6| && r.1.tag6 == ParseAllTag6(payload)
    ensures r.1.rawLength == |payload| && |r.1.rawHex| == 2 * |payload|
    ensures r.0.sn == l.sn && r.1.device == l.sn && r.1.rawHex == Hex(payload)
    ensures r.0.device == r.1.decodedState
    ensures r.2 <==> Disagree(r.1.tag6)
    ensures r.2 ==> r.1.tag6Count >= 2
  {
    var (device, valid) := River3Plus.UpdateFromProtobuf(l.device, payload, now);
    var tags := ParseAllTag6(payload);
    var count := l.messageCount + 1;
    var entry := Entry(count, l.sn, Hex(payload), |payload|, device, valid, tags, |tags|);
    var warn := |tags| > 0 && Disagree(tags);
    assert warn ==> |tags| >= 2 by {
      if warn {
        DisagreeTwo(tags);
      }
    }
    (Logger(l.sn, device, count), entry, warn)
  }

  /** Each logger is filed under its own serial number. */
  predicate KeyedBySerial(loggers: map<string, Logger>) {
    forall k :: k in loggers ==> loggers[k].sn == k
  }

  /** `on_message`: the serial number is the second segment of the topic; a
      logger is created for a device on its first message. A topic of fewer
      than three segments is ignored. The result holds the loggers, and the
      line logged with its warning flag when one is. */
  function OnMessage(loggers: map<string, Logger>, topic: string, payload: seq<Byte>, now: real)
    : (r: (map<string, Logger>, Option<(Entry, bool)>))
    requires KeyedBySerial(loggers)
    ensures KeyedBySerial(r.0)
    ensures |Text.Split(topic, '/')| < 3 ==> r == (loggers, None)
    ensures |Text.Split(topic, '/')| >= 3 ==>
      var sn := Text.Split(topic, '/')[1];
      && r.1.Some? && r.1.value.0.device == sn
      && r.0.Keys == loggers.Keys + {sn}
      && (forall k :: k in loggers && k != sn ==> r.0[k] == loggers[k])
      && r.0[sn].messageCount == (if sn in loggers then loggers[sn].messageCount else 0) + 1
      && r.1.value.0.messageNumber == r.0[sn].messageCount
      && r.1.value.0.tag6 == ParseAllTag6(payload)
  {
    var parts := Text.Split(topic, '/');
    if |parts| < 3 then (loggers, None)
    else
      var sn := parts[1];
      var l := if sn in loggers then loggers[sn] else NewLogger(sn);
      var out := LogMessage(l, payload, now);
      assert out.0.messageCount == l.messageCount + 1 && out.1.messageNumber == out.0.messageCount;
      assert out.1.device == l.sn == sn && out.1.tag6 == ParseAllTag6(payload);
      (loggers[sn := out.0], Some((out.1, out.2)))
  }
}
