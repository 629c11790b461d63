/** The standalone decode service: it cuts an MQTT payload into
    length-prefixed frames, follows each frame's chain of field-1 wrappers,
    dumps the protobuf records of every level of that chain and lists the
    varints that could be a state of charge. Every varint it reads goes
    through the reader with the ceiling of 70 bits of shift. */
module DecodeService {
  import opened Wrappers
  import opened Bytes
  import Varint
  import Wire
  import Text
  import Field1Run

  /** Default `max_len` of `protobuf_wire_dump`. */
  const MaxDumpLen: nat := 8192
  /** `max_depth` the message handler passes to `unwrap_field1_chain`. */
  const MaxChainDepth: nat := 5

  /** `read_varint(buf, i)`: an error once the shift passes 70. */
  function ReadVarint(buf: seq<Byte>, i: nat): (r: Result<(nat, nat), Varint.VarintError>)
    ensures r.Success? ==> i < r.value.1 <= |buf|
  {
    Varint.Read(buf, i, Some(70))
  }

  /** The ceiling admits ten continuation bytes and the terminator: a varint
      of at most eleven bytes reads as the ceiling-free reader reads it, and
      a longer one is refused. */
  lemma ReadVarintLength(buf: seq<Byte>, i: nat)
    ensures var j := Varint.FirstTerminator(buf, i);
      ReadVarint(buf, i).Success? <==> j < |buf| && j - i <= 10
    ensures ReadVarint(buf, i).Success? ==>
      ReadVarint(buf, i) == Varint.Read(buf, i, None) && ReadVarint(buf, i).value.1 <= i + 11
  {
    Varint.ReadSpec(buf, i, Some(70));
    Varint.ReadSpec(buf, i, None);
  }

  // ---------------------------------------------------------------------
  // Frames

  /** `fs` tiles `p` from offset `i`: every frame is a varint holding its
      length followed by the frame itself, and the last frame ends exactly
      at the end of `p`. */
  predicate Tiles(p: seq<Byte>, i: nat, fs: seq<seq<Byte>>)
    decreases |fs|
  {
    if |fs| == 0 then i == |p|
    else
      && i < |p|
      && ReadVarint(p, i).Success?
      && ReadVarint(p, i).value.0 == |fs[0]|
      && At(p, ReadVarint(p, i).value.1, fs[0])
      && Tiles(p, ReadVarint(p, i).value.1 + |fs[0]|, fs[1..])
  }

  /** The loop of `split_length_delimited_frames` from offset `i`: the frames
      it collects up to the end, or `None` when it gives up on an unreadable
      length or a frame running past the end. */
  function FramesFrom(p: seq<Byte>, i: nat): Option<seq<seq<Byte>>>
    requires i <= |p|
    decreases |p| - i
  {
    if i == |p| then Some([])
    else match ReadVarint(p, i)
      case Failure(_) => None
      case Success((ln, j)) =>
        if j + ln > |p| then None
        else match FramesFrom(p, j + ln)
          case None => None
          case Some(fs) => Some([p[j..j + ln]] + fs)
  }

  /** The loop collects exactly the tiling of the payload, when there is one. */
  lemma {:induction false} FramesFromTiles(p: seq<Byte>, i: nat, fs: seq<seq<Byte>>)
    requires i <= |p|
    ensures FramesFrom(p, i) == Some(fs) <==> Tiles(p, i, fs)
    decreases |p| - i
  {
    if i < |p| && |fs| > 0 {
      match ReadVarint(p, i)
      case Failure(_) =>
      case Success((ln, j)) =>
        if j + ln <= |p| {
          FramesFromTiles(p, j + ln, fs[1..]);
          assert fs == [fs[0]] + fs[1..];
        }
    }
  }

  /** `split_length_delimited_frames(payload)`: the frames, or the whole
      payload as its only frame when it does not tile (or is empty). */
  function Frames(p: seq<Byte>): (r: seq<seq<Byte>>)
    ensures |r| >= 1
  {
    match FramesFrom(p, 0)
    case Some(fs) => if |fs| == 0 then [p] else fs
    case None => [p]
  }

  /** Either the payload is returned whole or the frames tile it; and
      whenever a non-empty tiling exists, it is what comes back. */
  lemma FramesSpec(p: seq<Byte>, fs: seq<seq<Byte>>)
    ensures Frames(p) == [p] || Tiles(p, 0, Frames(p))
    ensures Tiles(p, 0, fs) && |fs| > 0 ==> Frames(p) == fs
  {
    FramesFromTiles(p, 0, fs);
    if FramesFrom(p, 0).Some? {
      FramesFromTiles(p, 0, FramesFrom(p, 0).value);
    }
  }

  function Prepend(fs: seq<seq<Byte>>, r: Option<seq<seq<Byte>>>): Option<seq<seq<Byte>>> {
    match r
    case None => None
    case Some(gs) => Some(fs + gs)
  }

  /** The source's loop, which returns as soon as a length cannot be used. */
  method SplitFrames(payload: seq<Byte>) returns (frames: seq<seq<Byte>>)
    ensures frames == Frames(payload)
  {
    frames := [];
    var i := 0;
    if FramesFrom(payload, 0).Some? {
      assert [] + FramesFrom(payload, 0).value == FramesFrom(payload, 0).value;
    }
    while i < |payload|
      invariant i <= |payload|
      invariant FramesFrom(payload, 0) == Prepend(frames, FramesFrom(payload, i))
      decreases |payload| - i
    {
      var r := ReadVarint(payload, i);
      if r.Failure? {
        return [payload];
      }
      var (ln, j) := r.value;
      if j + ln > |payload| {
        return [payload];
      }
      FramesFromStep(payload, i, ln, j);
      PrependOne(frames, payload[j..j + ln], FramesFrom(payload, j + ln));
      frames := frames + [payload[j..j + ln]];
      i := j + ln;
    }
    assert FramesFrom(payload, 0) == Some(frames + []);
    assert frames + [] == frames;
    if |frames| == 0 {
      frames := [payload];
    }
  }

  /** A usable length at `i` puts its frame in front of the frames after it. */
  lemma FramesFromStep(p: seq<Byte>, i: nat, ln: nat, j: nat)
    requires i < |p| && ReadVarint(p, i) == Success((ln, j)) && j + ln <= |p|
    ensures FramesFrom(p, i) == Prepend([p[j..j + ln]], FramesFrom(p, j + ln))
  {
  }

  lemma PrependOne(fs: seq<seq<Byte>>, x: seq<Byte>, r: Option<seq<seq<Byte>>>)
    ensures Prepend(fs, Prepend([x], r)) == Prepend(fs + [x], r)
  {
    if r.Some? {
      assert fs + ([x] + r.value) == fs + [x] + r.value;
    }
  }

  /** Frames written the way the device writes them. */
  function Framed(bs: seq<seq<Byte>>): seq<Byte> {
    if |bs| == 0 then [] else Varint.Encode(|bs[0]|) + bs[0] + Framed(bs[1..])
  }

  predicate ShortLengths(bs: seq<seq<Byte>>) {
    forall k :: 0 <= k < |bs| ==> |Varint.Encode(|bs[k]|)| <= 11
  }

  lemma ShortLengthsTail(bs: seq<seq<Byte>>)
    requires |bs| > 0 && ShortLengths(bs)
    ensures ShortLengths(bs[1..]) && (forall k :: 0 <= k < |bs| - 1 ==> |bs[1..][k]| == |bs[k + 1]|)
  {
  }

  lemma {:induction false} TilesFramed(pre: seq<Byte>, bs: seq<seq<Byte>>)
    requires ShortLengths(bs)
    ensures Tiles(pre + Framed(bs), |pre|, bs)
    decreases |bs|
  {
    var p := pre + Framed(bs);
    if |bs| > 0 {
      var b := bs[0];
      var e := Varint.Encode(|b|);
      var pre' := pre + e + b;
      assert p == pre' + Framed(bs[1..]);
      assert p[|pre|..|pre| + |e|] == e;
      Varint.ReadEncoded(p, |pre|, |b|, Some(70));
      assert p[|pre| + |e|..|pre| + |e| + |b|] == b;
      ShortLengthsTail(bs);
      TilesFramed(pre', bs[1..]);
    }
  }

  /** Round trip: framing a non-empty list of bodies and splitting the result
      gives the bodies back. */
  lemma FramesRoundTrip(bs: seq<seq<Byte>>)
    requires |bs| > 0 && ShortLengths(bs)
    ensures Frames(Framed(bs)) == bs
  {
    TilesFramed([], bs);
    assert [] + Framed(bs) == Framed(bs);
    FramesSpec(Framed(bs), bs);
  }

  // ---------------------------------------------------------------------
  // Wire dump

  /** What one dump entry records besides its field and wire type. The
      UTF-8 and base64 previews of a body are not modelled. */
  datatype Value =
    | VarintValue(v: nat)
    | Fixed64Hex(hex: string)
    | Blob(len: nat, body: seq<Byte>)
    | Fixed32Hex(hex: string)
    | Unsupported
    | DecodeError
  {
    predicate Decoded() {
      !Unsupported? && !DecodeError?
    }
  }

  datatype Entry = Entry(field: nat, wire: nat, value: Value)

  /** The structure of a dump: the message length, its entries in order,
      and the bytes not decoded when the walk ended on a read failure
      (published base64-encoded). */
  datatype Dump = Dump(len: nat, fields: seq<Entry>, trailing: Option<seq<Byte>>)

  /** One round of the dump loop: a decoded record with the offset after it,
      or the end of the walk with its last entry and trailing bytes. */
  datatype Step = Record(entry: Entry, next: nat) | Stop(last: Option<Entry>, trailing: Option<seq<Byte>>)

  function Broken(msg: seq<Byte>, f: nat, w: nat, k: nat): Step
    requires k <= |msg|
  {
    Stop(Some(Entry(f, w, DecodeError)), Some(msg[k..]))
  }

  /** One record at offset `i`. Fixed-width values must end within `end`,
      while a body need only end within the message. A failed read of the
      value's varint keeps the offset after the key, a body running past the
      message keeps the offset after its length. */
  function DumpStep(msg: seq<Byte>, end: nat, i: nat): (s: Step)
    requires i < end <= |msg|
    ensures s.Record? ==> i < s.next <= |msg| && s.entry.value.Decoded() && s.entry.wire in {0, 1, 2, 5}
    ensures s.Stop? && s.last.Some? ==> !s.last.value.value.Decoded()
    ensures s.Stop? && s.last.Some? && s.last.value.value.Unsupported? ==> s.last.value.wire !in {0, 1, 2, 5}
  {
    match ReadVarint(msg, i)
    case Failure(_) => Stop(None, Some(msg[i..]))
    case Success((key, k)) =>
      var f := Wire.FieldOf(key);
      var w := Wire.WireOf(key);
      if w == 0 then
        match ReadVarint(msg, k)
        case Failure(_) => Broken(msg, f, w, k)
        case Success((v, m)) => Record(Entry(f, w, VarintValue(v)), m)
      else if w == 1 then
        if k + 8 > end then Broken(msg, f, w, k)
        else Record(Entry(f, w, Fixed64Hex(Hex(msg[k..k + 8]))), k + 8)
      else if w == 2 then
        match ReadVarint(msg, k)
        case Failure(_) => Broken(msg, f, w, k)
        case Success((ln, m)) =>
          if m + ln > |msg| then Broken(msg, f, w, m)
          else Record(Entry(f, w, Blob(ln, msg[m..m + ln])), m + ln)
      else if w == 5 then
        if k + 4 > end then Broken(msg, f, w, k)
        else Record(Entry(f, w, Fixed32Hex(Hex(msg[k..k + 4]))), k + 4)
      else Stop(Some(Entry(f, w, Unsupported)), None)
  }

  /** Shape of every dump: only the last entry may be an error or an
      unsupported wire type; an unsupported wire type leaves no trailing
      bytes and a decode error always does. */
  predicate WellFormed(fields: seq<Entry>, trailing: Option<seq<Byte>>) {
    && (forall k :: 0 <= k < |fields| - 1 ==> fields[k].value.Decoded())
    && (|fields| > 0 && fields[|fields| - 1].value.Unsupported? ==> trailing.None?)
    && (|fields| > 0 && fields[|fields| - 1].value.DecodeError? ==> trailing.Some?)
  }

  /** The dump loop from offset `i` while `i < end`. */
  function DumpFrom(msg: seq<Byte>, end: nat, i: nat): (r: (seq<Entry>, Option<seq<Byte>>))
    requires end <= |msg|
    ensures WellFormed(r.0, r.1)
    decreases |msg| - i
  {
    if i >= end then ([], None)
    else match DumpStep(msg, end, i)
      case Record(e, n) =>
        var rest := DumpFrom(msg, end, n);
        ([e] + rest.0, rest.1)
      case Stop(last, t) => (if last.Some? then [last.value] else [], t)
  }

  /** `protobuf_wire_dump(msg, max_len)`, without the previews. */
  function WireDump(msg: seq<Byte>, maxLen: nat): (d: Dump)
    ensures d.len == |msg| && WellFormed(d.fields, d.trailing)
  {
    var end := if |msg| < maxLen then |msg| else maxLen;
    var (fields, trailing) := DumpFrom(msg, end, 0);
    Dump(|msg|, fields, trailing)
  }

  /** The record a decoded entry stands for. */
  function ItemOf(e: Entry): Wire.Item
    requires e.value.Decoded()
  {
    match e.value
    case VarintValue(v) => Wire.VarintItem(e.field, v)
    case Fixed64Hex(_) => Wire.Fixed64Item(e.field)
    case Blob(ln, body) => Wire.BlobItem(e.field, ln, body)
    case Fixed32Hex(_) => Wire.Fixed32Item(e.field)
  }

  /** Every record the dump decodes is the record the reference reader sees
      at the same offset, ending at the same place. */
  lemma DumpStepAgrees(msg: seq<Byte>, end: nat, i: nat)
    requires i < end <= |msg|
    requires DumpStep(msg, end, i).Record?
    ensures Wire.Step(msg, i) == Some((ItemOf(DumpStep(msg, end, i).entry), DumpStep(msg, end, i).next))
  {
    Varint.CeilingMonotone(msg, i, 70, 70);
    var k := ReadVarint(msg, i).value.1;
    if ReadVarint(msg, k).Success? {
      Varint.CeilingMonotone(msg, k, 70, 70);
    }
  }

  /** Varint records `(field, value)` as an encoder writes them. */
  function VarintRecords(fs: seq<(nat, nat)>): seq<Byte> {
    if |fs| == 0 then []
    else Varint.Encode(8 * fs[0].0) + Varint.Encode(fs[0].1) + VarintRecords(fs[1..])
  }

  function VarintEntries(fs: seq<(nat, nat)>): seq<Entry> {
    if |fs| == 0 then [] else [Entry(fs[0].0, 0, VarintValue(fs[0].1))] + VarintEntries(fs[1..])
  }

  predicate ShortVarints(fs: seq<(nat, nat)>) {
    forall k :: 0 <= k < |fs| ==> |Varint.Encode(8 * fs[k].0)| <= 11 && |Varint.Encode(fs[k].1)| <= 11
  }

  lemma ShortVarintsTail(fs: seq<(nat, nat)>)
    requires |fs| > 0 && ShortVarints(fs)
    ensures ShortVarints(fs[1..])
  {
    forall k | 0 <= k < |fs| - 1
      ensures |Varint.Encode(8 * fs[1..][k].0)| <= 11 && |Varint.Encode(fs[1..][k].1)| <= 11
    {
      assert fs[1..][k] == fs[k + 1];
    }
  }

  lemma {:induction false} DumpVarintRecords(pre: seq<Byte>, fs: seq<(nat, nat)>)
    requires ShortVarints(fs)
    ensures var p := pre + VarintRecords(fs);
      DumpFrom(p, |p|, |pre|) == (VarintEntries(fs), None)
    decreases |fs|
  {
    var p := pre + VarintRecords(fs);
    if |fs| > 0 {
      var (f, v) := fs[0];
      var e1 := Varint.Encode(8 * f);
      var e2 := Varint.Encode(v);
      var pre' := pre + e1 + e2;
      VarintRecordsCons(pre, fs, f, v, e1, e2);
      VarintRecordStep(p, |pre|, f, v, e1, e2);
      ShortVarintsTail(fs);
      DumpVarintRecords(pre', fs[1..]);
      DumpFromRecord(p, |pre|, Entry(f, 0, VarintValue(v)), |pre'|);
    }
  }

  /** The buffer of records seen from its first record. */
  lemma VarintRecordsCons(pre: seq<Byte>, fs: seq<(nat, nat)>, f: nat, v: nat, e1: seq<Byte>, e2: seq<Byte>)
    requires |fs| > 0 && fs[0] == (f, v)
    requires e1 == Varint.Encode(8 * f) && e2 == Varint.Encode(v)
    ensures var p := pre + VarintRecords(fs);
      p == (pre + e1 + e2) + VarintRecords(fs[1..]) && At(p, |pre|, e1 + e2)
  {
    var m, rest := e1 + e2, VarintRecords(fs[1..]);
    assert VarintRecords(fs) == m + rest;
    Regroup2(pre, m, rest);
    Regroup2(pre, e1, e2);
    AtConcat(pre, m, rest);
  }

  lemma Regroup2<T>(x: seq<T>, y: seq<T>, z: seq<T>)
    ensures x + (y + z) == x + y + z
  {
  }

  /** A dump that reads a record at `i` goes on at the record's end. */
  lemma DumpFromRecord(p: seq<Byte>, i: nat, e: Entry, n: nat)
    requires i < |p| && DumpStep(p, |p|, i) == Record(e, n)
    ensures DumpFrom(p, |p|, i) == ([e] + DumpFrom(p, |p|, n).0, DumpFrom(p, |p|, n).1)
  {
  }

  /** One varint record in a buffer: the dump reads its key and value back
      and goes on just past them. */
  lemma VarintRecordStep(p: seq<Byte>, i: nat, f: nat, v: nat, e1: seq<Byte>, e2: seq<Byte>)
    requires e1 == Varint.Encode(8 * f) && e2 == Varint.Encode(v)
    requires |e1| <= 11 && |e2| <= 11
    requires At(p, i, e1 + e2)
    ensures DumpStep(p, |p|, i) == Record(Entry(f, 0, VarintValue(v)), i + |e1| + |e2|)
  {
    AtSplit(p, i, e1, e2);
    Varint.ReadEncoded(p, i, 8 * f, Some(70));
    Varint.ReadEncoded(p, i + |e1|, v, Some(70));
    assert Wire.FieldOf(8 * f) == f && Wire.WireOf(8 * f) == 0;
  }

  /** Round trip: a message of varint records no longer than the dump limit
      dumps to exactly those records, with nothing trailing. */
  lemma DumpRoundTrip(fs: seq<(nat, nat)>)
    requires ShortVarints(fs) && |VarintRecords(fs)| <= MaxDumpLen
    ensures WireDump(VarintRecords(fs), MaxDumpLen) == Dump(|VarintRecords(fs)|, VarintEntries(fs), None)
  {
    DumpVarintRecords([], fs);
    assert [] + VarintRecords(fs) == VarintRecords(fs);
  }

  // ---------------------------------------------------------------------
  // Field-1 chains

  /** `extract_field1_len_delimited(p)`: the leading run of records
      `0x0A <len> <body>` with a non-empty body that fits. */
  function Field1(p: seq<Byte>): (r: seq<seq<Byte>>)
    ensures forall k :: 0 <= k < |r| ==> 0 < |r[k]| && |r[k]| + 2 <= |p|
  {
    Field1Run.Extract(p, 0, Some(70))
  }

  /** Round trip: the extractor returns exactly the non-empty bodies of a run
      of field-1 records whose lengths take at most eleven bytes, however
      the buffer continues after the run so long as the next byte is not
      another 0x0A. */
  lemma Field1RoundTrip(bs: seq<seq<Byte>>, suf: seq<Byte>)
    requires forall k :: 0 <= k < |bs| ==> |bs[k]| > 0
    requires ShortLengths(bs)
    requires |suf| == 0 || suf[0] != 0x0A
    ensures Field1(Field1Run.Records(bs) + suf) == bs
  {
    Field1Run.RoundTrip(bs, suf, Some(70));
  }

  /** `unwrap_field1_chain(cur, fuel)`. */
  function Chain(cur: seq<Byte>, fuel: nat): (r: seq<seq<Byte>>)
    ensures 1 <= |r| <= fuel + 1 && r[0] == cur
    ensures forall k :: 0 <= k < |r| - 1 ==> |Field1(r[k])| > 0 && r[k + 1] == Field1(r[k])[0]
    ensures |r| <= fuel ==> |Field1(r[|r| - 1])| == 0
    decreases fuel
  {
    if fuel == 0 then [cur]
    else
      var blobs := Field1(cur);
      if |blobs| == 0 then [cur] else [cur] + Chain(blobs[0], fuel - 1)
  }

  /** Each level of a chain is at least two bytes shorter than the one it
      was unwrapped from. */
  lemma ChainShrinks(cur: seq<Byte>, fuel: nat)
    ensures var r := Chain(cur, fuel);
      forall k :: 0 <= k < |r| - 1 ==> |r[k + 1]| + 2 <= |r[k]|
  {
  }

  // ---------------------------------------------------------------------
  // State-of-charge candidates

  datatype Scale = Percent | PercentX10 | PercentX100

  datatype Candidate = Candidate(field: nat, value: nat, note: Scale)

  /** The three readings of a varint as a percentage. */
  predicate Fits(v: nat, s: Scale) {
    match s
    case Percent => v <= 100
    case PercentX10 => v <= 1000 && v % 10 == 0
    case PercentX100 => v <= 10000 && v % 100 == 0
  }

  function CandidatesOf(e: Entry): seq<Candidate> {
    if e.wire == 0 && e.value.VarintValue? then
      var v := e.value.v;
      (if Fits(v, Percent) then [Candidate(e.field, v, Percent)] else [])
      + (if Fits(v, PercentX10) then [Candidate(e.field, v, PercentX10)] else [])
      + (if Fits(v, PercentX100) then [Candidate(e.field, v, PercentX100)] else [])
    else []
  }

  /** `find_soc_candidates(dump)` */
  function SocCandidates(fields: seq<Entry>): (r: seq<Candidate>)
    ensures |r| <= 3 * |fields|
  {
    if |fields| == 0 then [] else CandidatesOf(fields[0]) + SocCandidates(fields[1..])
  }

  /** A candidate is listed exactly when a decoded varint entry carries its
      field and value and the value fits its scale. */
  lemma {:induction false} SocCandidatesIff(fields: seq<Entry>, c: Candidate)
    ensures c in SocCandidates(fields) <==>
      Fits(c.value, c.note) && Entry(c.field, 0, VarintValue(c.value)) in fields
  {
    if |fields| > 0 {
      var e, rest := fields[0], fields[1..];
      SocCandidatesIff(rest, c);
      CandidatesOfIff(e, c);
      assert c in SocCandidates(fields) <==> c in CandidatesOf(e) || c in SocCandidates(rest);
      assert fields == [e] + rest;
    }
  }

  /** The candidates of one entry are the scales its varint value fits. */
  lemma CandidatesOfIff(e: Entry, c: Candidate)
    ensures c in CandidatesOf(e) <==> Fits(c.value, c.note) && e == Entry(c.field, 0, VarintValue(c.value))
  {
  }

  /** A value that is a multiple of 100 and at most 100 is listed three
      times: as a percentage, as tenths and as hundredths. */
  lemma TripleCandidate(f: nat, v: nat)
    requires v == 0 || v == 100
    ensures |CandidatesOf(Entry(f, 0, VarintValue(v)))| == 3
  {
  }

  // ---------------------------------------------------------------------
  // Topics and the message handler

  /** `topic_to_device_leaf(topic)`: the second and third segments. */
  function DeviceLeaf(topic: string): (r: (string, string))
    ensures '/' !in r.0 && '/' !in r.1
  {
    var parts := Text.Split(topic, '/');
    if |parts| >= 3 then (parts[1], parts[2]) else ("unknown", "unknown")
  }

  /** The device and leaf of `<prefix>/<device>/<leaf>[/...]`. */
  lemma DeviceLeafOf(a: string, d: string, l: string, rest: string)
    requires '/' !in a && '/' !in d && '/' !in l
    ensures DeviceLeaf(a + "/" + d + "/" + l) == (d, l)
    ensures DeviceLeaf(a + "/" + d + "/" + l + "/" + rest) == (d, l)
  {
    ThreeSegments(a, d, l);
    MoreSegments(a, d, l, rest);
  }

  lemma ThreeSegments(a: string, d: string, l: string)
    requires '/' !in a && '/' !in d && '/' !in l
    ensures Text.Split(a + "/" + d + "/" + l, '/') == [a, d, l]
  {
    Text.SplitTwo(a, d, l, '/');
    Text.SplitNoSep(l, '/');
  }

  lemma MoreSegments(a: string, d: string, l: string, rest: string)
    requires '/' !in a && '/' !in d && '/' !in l
    ensures Text.Split(a + "/" + d + "/" + l + "/" + rest, '/') == [a, d, l] + Text.Split(rest, '/')
  {
    var x := l + "/" + rest;
    Regroup3On(a + "/" + d + "/", l, "/", rest);
    Text.SplitTwo(a, d, x, '/');
    Text.SplitCons(l, '/', rest);
    ConsTwo(a, d, l, Text.Split(rest, '/'));
  }

  lemma Regroup3On<T>(p: seq<T>, x: seq<T>, y: seq<T>, z: seq<T>)
    ensures p + x + y + z == p + (x + y + z)
  {
  }

  lemma ConsTwo<T>(a: T, d: T, l: T, r: seq<T>)
    ensures [a, d] + ([l] + r) == [a, d, l] + r
  {
  }

  /** Topics with fewer than three segments map to `unknown`. */
  lemma DeviceLeafShort(a: string, b: string)
    requires '/' !in a && '/' !in b
    ensures DeviceLeaf(a) == ("unknown", "unknown")
    ensures DeviceLeaf(a + "/" + b) == ("unknown", "unknown")
  {
    Text.SplitNoSep(a, '/');
    Text.SplitCons(a, '/', b);
    Text.SplitNoSep(b, '/');
  }

  /** The leaves whose payloads are decoded. */
  predicate Decodable(leaf: string) {
    leaf == "data" || leaf == "get_reply" || leaf == "set_reply"
  }

  datatype Level = Level(depth: nat, len: nat, dump: Dump)

  datatype SocSummary = SocSummary(depth: nat, candidates: seq<Candidate>)

  datatype Report = Report(
    ts: int, srcTopic: string, device: string, leaf: string,
    frameIndex: nat, frameLen: nat, levels: seq<Level>, socCandidates: seq<SocSummary>)

  datatype Publication = Publication(topic: string, report: Report)

  function Levels(chain: seq<seq<Byte>>): (r: seq<Level>)
    ensures |r| == |chain|
  {
    seq(|chain|, d requires 0 <= d < |chain| => Level(d, |chain[d]|, WireDump(chain[d], MaxDumpLen)))
  }

  function Summaries(chain: seq<seq<Byte>>): (r: seq<SocSummary>)
    ensures |r| == |chain|
  {
    seq(|chain|, d requires 0 <= d < |chain| => SocSummary(d, SocCandidates(WireDump(chain[d], MaxDumpLen).fields)))
  }

  function FrameReport(ts: int, topic: string, device: string, leaf: string, k: nat, frame: seq<Byte>): Report {
    var chain := Chain(frame, MaxChainDepth);
    Report(ts, topic, device, leaf, k, |frame|, Levels(chain), Summaries(chain))
  }

  /** `on_message`: the clock reading `ts` and the publish prefix are
      parameters. One report per frame of a decodable leaf, none otherwise. */
  function OnMessage(prefix: string, topic: string, payload: seq<Byte>, ts: int): (r: seq<Publication>)
    ensures var (device, leaf) := DeviceLeaf(topic);
      && |r| == (if Decodable(leaf) then |Frames(payload)| else 0)
      && forall k :: 0 <= k < |r| ==>
        && r[k].topic == prefix + "/" + device + "/json/" + leaf + "/rawN"
        && r[k].report.frameIndex == k
        && r[k].report.frameLen == |Frames(payload)[k]|
        && 1 <= |r[k].report.levels| <= MaxChainDepth + 1
        && r[k].report.levels[0].len == |Frames(payload)[k]|
  {
    var (device, leaf) := DeviceLeaf(topic);
    if !Decodable(leaf) then []
    else
      var frames := Frames(payload);
      seq(|frames|, k requires 0 <= k < |frames| =>
        Publication(prefix + "/" + device + "/json/" + leaf + "/rawN",
                    FrameReport(ts, topic, device, leaf, k, frames[k])))
  }
}
