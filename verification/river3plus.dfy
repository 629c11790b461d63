/** The River 3 Plus device library: a permissive protobuf walker that groups
    the varint fields of every buffer level into one dictionary, the BMS
    module signature check, the SOC latch, and the device state it updates. */
module River3Plus {
  import opened Wrappers
  import opened Bytes
  import Varint
  import Wire
  import Stats

  /** One decoded buffer level: field number to its last varint value. */
  type Msg = map<nat, nat>

  // ---------------------------------------------------------------------
  // Wire decoding
  // ---------------------------------------------------------------------

  /** `_read_varint`: the shared reader without a length ceiling. */
  function ReadVarint(buf: seq<Byte>, i: nat): (r: Result<(nat, nat), Varint.VarintError>)
    ensures r.Success? ==> i < r.value.1 <= |buf|
    ensures r.Failure? ==> r.error == Varint.Truncated
  {
    Varint.ReadSpec(buf, i, None);
    Varint.Read(buf, i, None)
  }

  /** Without a ceiling the reader fails only by running off the end: it
      succeeds exactly when some byte from `i` on lacks the continuation
      bit, and otherwise reports `Truncated`. */
  lemma ReadVarintTotal(buf: seq<Byte>, i: nat)
    ensures ReadVarint(buf, i).Success? <==> Varint.FirstTerminator(buf, i) < |buf|
    ensures ReadVarint(buf, i).Failure? ==> ReadVarint(buf, i).error == Varint.Truncated
  {
    Varint.ReadSpec(buf, i, None);
  }

  /** The loop of `_parse_proto_structure` from offset `i`, carrying the
      dictionaries of nested blobs found so far and the current level's
      dictionary. */
  function ParseLoop(buf: seq<Byte>, i: nat, msgs: seq<Msg>, cur: Msg): (r: (seq<Msg>, Msg))
    decreases |buf|, 0, |buf| - i
  {
    if i >= |buf| then (msgs, cur)
    else match ReadVarint(buf, i)
      case Failure(_) => (msgs, cur)
      case Success((tag, j)) =>
        var field := Wire.FieldOf(tag);
        var wt := Wire.WireOf(tag);
        if wt == 0 then
          match ReadVarint(buf, j)
          case Failure(_) => (msgs, cur)
          case Success((v, k)) => ParseLoop(buf, k, msgs, cur[field := v])
        else if wt == 2 then
          match ReadVarint(buf, j)
          case Failure(_) => (msgs, cur)
          case Success((ln, k)) => ParseLoop(buf, k + ln, msgs + Nested(buf, k, ln), cur)
        else if wt == 1 then ParseLoop(buf, j + 8, msgs, cur)
        else if wt == 5 then ParseLoop(buf, j + 4, msgs, cur)
        else (msgs, cur)
  }

  /** The dictionaries of a length-delimited body `buf[k:k+ln]`; an empty
      body is not descended into. */
  function Nested(buf: seq<Byte>, k: nat, ln: nat): seq<Msg>
    requires 0 < k <= |buf|
    decreases |buf|, 0, 0
  {
    if ln > 0 then Parse(Slice(buf, k, k + ln)) else []
  }

  /** `_parse_proto_structure`: the dictionaries of all nested blobs (deepest
      first, in order), then this level's own dictionary when it is not
      empty. Never fails: a truncated varint or wire type 3, 4, 6 or 7 ends
      the level with what was found so far. */
  function Parse(buf: seq<Byte>): seq<Msg>
    decreases |buf|, 1, 0
  {
    var (msgs, cur) := ParseLoop(buf, 0, [], map[]);
    msgs + (if cur != map[] then [cur] else [])
  }

  // --- reference characterisation through the shared record reader ---

  /** The dictionaries contributed by the non-empty blobs of the level from
      offset `i` on, in record order. */
  function NestedAt(buf: seq<Byte>, i: nat): seq<Msg>
    decreases |buf|, 0, |buf| - i
  {
    match Wire.Step(buf, i)
    case None => []
    case Some((x, next)) =>
      (if x.BlobItem? && x.len > 0 then Parse(x.body) else []) + NestedAt(buf, next)
  }

  /** The varint fields of the level from offset `i` on folded into `cur`,
      later occurrences overwriting earlier ones. */
  function LevelAt(buf: seq<Byte>, i: nat, cur: Msg): Msg
    decreases |buf| - i
  {
    match Wire.Step(buf, i)
    case None => cur
    case Some((x, next)) =>
      LevelAt(buf, next, if x.VarintItem? then cur[x.field := x.value] else cur)
  }

  lemma UnfoldVarint(buf: seq<Byte>, i: nat, msgs: seq<Msg>, cur: Msg, tag: nat, j: nat, v: nat, k: nat)
    requires i < |buf| && ReadVarint(buf, i) == Success((tag, j)) && Wire.WireOf(tag) == 0
    requires ReadVarint(buf, j) == Success((v, k))
    ensures Wire.Step(buf, i) == Some((Wire.VarintItem(Wire.FieldOf(tag), v), k))
    ensures ParseLoop(buf, i, msgs, cur) == ParseLoop(buf, k, msgs, cur[Wire.FieldOf(tag) := v])
  {
  }

  lemma StepBlob(buf: seq<Byte>, i: nat, tag: nat, j: nat, v: nat, k: nat)
    requires i < |buf| && ReadVarint(buf, i) == Success((tag, j)) && Wire.WireOf(tag) == 2
    requires ReadVarint(buf, j) == Success((v, k))
    ensures Wire.Step(buf, i) == Some((Wire.BlobItem(Wire.FieldOf(tag), v, Slice(buf, k, k + v)), k + v))
  {
  }

  lemma UnfoldBlob(buf: seq<Byte>, i: nat, msgs: seq<Msg>, cur: Msg, tag: nat, j: nat, v: nat, k: nat)
    requires i < |buf| && ReadVarint(buf, i) == Success((tag, j)) && Wire.WireOf(tag) == 2
    requires ReadVarint(buf, j) == Success((v, k))
    ensures 0 < k <= |buf|
    ensures ParseLoop(buf, i, msgs, cur) == ParseLoop(buf, k + v, msgs + Nested(buf, k, v), cur)
  {
    assert Wire.WireOf(tag) != 0 && i < |buf|;
    assert ReadVarint(buf, i).value == (tag, j) && ReadVarint(buf, j).value == (v, k);
  }

  lemma UnfoldFixed(buf: seq<Byte>, i: nat, msgs: seq<Msg>, cur: Msg, tag: nat, j: nat)
    requires i < |buf| && ReadVarint(buf, i) == Success((tag, j))
    requires Wire.WireOf(tag) == 1 || Wire.WireOf(tag) == 5
    ensures var next := if Wire.WireOf(tag) == 1 then j + 8 else j + 4;
      var f := Wire.FieldOf(tag);
      && Wire.Step(buf, i) == Some((if Wire.WireOf(tag) == 1 then Wire.Fixed64Item(f) else Wire.Fixed32Item(f), next))
      && ParseLoop(buf, i, msgs, cur) == ParseLoop(buf, next, msgs, cur)
  {
  }

  lemma UnfoldStop(buf: seq<Byte>, i: nat, msgs: seq<Msg>, cur: Msg)
    requires Wire.Step(buf, i).None?
    ensures ParseLoop(buf, i, msgs, cur) == (msgs, cur)
  {
  }

  /** `ParseLoop` is the fold of the shared record reader: blob dictionaries
      appended in record order, varint fields collected into the level's
      dictionary. */
  lemma {:induction false} ParseLoopItems(buf: seq<Byte>, i: nat, msgs: seq<Msg>, cur: Msg)
    ensures ParseLoop(buf, i, msgs, cur) == (msgs + NestedAt(buf, i), LevelAt(buf, i, cur))
    decreases |buf| - i, 1
  {
    match Wire.Step(buf, i)
    case None =>
      UnfoldStop(buf, i, msgs, cur);
      assert msgs + [] == msgs;
    case Some((x, next)) =>
      if x.VarintItem? {
        ParseLoopVarint(buf, i, msgs, cur);
      } else if x.BlobItem? {
        ParseLoopBlob(buf, i, msgs, cur);
      } else {
        ParseLoopFixed(buf, i, msgs, cur);
      }
  }

  lemma {:induction false} ParseLoopVarint(buf: seq<Byte>, i: nat, msgs: seq<Msg>, cur: Msg)
    requires Wire.Step(buf, i).Some? && Wire.Step(buf, i).value.0.VarintItem?
    ensures ParseLoop(buf, i, msgs, cur) == (msgs + NestedAt(buf, i), LevelAt(buf, i, cur))
    decreases |buf| - i, 0
  {
    var (tag, j) := ReadVarint(buf, i).value;
    var f := Wire.FieldOf(tag);
    var (v, k) := ReadVarint(buf, j).value;
    UnfoldVarint(buf, i, msgs, cur, tag, j, v, k);
    assert LevelAt(buf, i, cur) == LevelAt(buf, k, cur[f := v]);
    assert NestedAt(buf, i) == [] + NestedAt(buf, k) == NestedAt(buf, k);
    ParseLoopItems(buf, k, msgs, cur[f := v]);
  }

  lemma {:induction false} ParseLoopBlob(buf: seq<Byte>, i: nat, msgs: seq<Msg>, cur: Msg)
    requires Wire.Step(buf, i).Some? && Wire.Step(buf, i).value.0.BlobItem?
    ensures ParseLoop(buf, i, msgs, cur) == (msgs + NestedAt(buf, i), LevelAt(buf, i, cur))
    decreases |buf| - i, 0
  {
    var sub, next := BlobStep(buf, i, msgs, cur);
    ParseLoopItems(buf, next, msgs + sub, cur);
    Assoc(msgs, sub, NestedAt(buf, next));
  }

  /** One blob record seen from both sides: the loop descends into the
      body and continues after it, as the record reader does. */
  lemma BlobStep(buf: seq<Byte>, i: nat, msgs: seq<Msg>, cur: Msg) returns (sub: seq<Msg>, next: nat)
    requires Wire.Step(buf, i).Some? && Wire.Step(buf, i).value.0.BlobItem?
    ensures next == Wire.Step(buf, i).value.1
    ensures ParseLoop(buf, i, msgs, cur) == ParseLoop(buf, next, msgs + sub, cur)
    ensures NestedAt(buf, i) == sub + NestedAt(buf, next)
    ensures LevelAt(buf, i, cur) == LevelAt(buf, next, cur)
  {
    var (tag, j) := ReadVarint(buf, i).value;
    var (v, k) := ReadVarint(buf, j).value;
    var item := Wire.BlobItem(Wire.FieldOf(tag), v, Slice(buf, k, k + v));
    StepBlob(buf, i, tag, j, v, k);
    UnfoldBlob(buf, i, msgs, cur, tag, j, v, k);
    sub, next := Nested(buf, k, v), k + v;
    UnfoldLevel(buf, i, cur, item, next);
    assert sub == (if item.len > 0 then Parse(item.body) else []);
  }

  /** The reference characterisation one record at a time. */
  lemma UnfoldLevel(buf: seq<Byte>, i: nat, cur: Msg, item: Wire.Item, next: nat)
    requires Wire.Step(buf, i) == Some((item, next))
    ensures NestedAt(buf, i) == (if item.BlobItem? && item.len > 0 then Parse(item.body) else []) + NestedAt(buf, next)
    ensures LevelAt(buf, i, cur) == LevelAt(buf, next, if item.VarintItem? then cur[item.field := item.value] else cur)
  {
  }

  lemma Assoc<T>(a: seq<T>, b: seq<T>, c: seq<T>)
    ensures (a + b) + c == a + (b + c)
  {
  }

  lemma {:induction false} ParseLoopFixed(buf: seq<Byte>, i: nat, msgs: seq<Msg>, cur: Msg)
    requires Wire.Step(buf, i).Some?
    requires Wire.Step(buf, i).value.0.Fixed64Item? || Wire.Step(buf, i).value.0.Fixed32Item?
    ensures ParseLoop(buf, i, msgs, cur) == (msgs + NestedAt(buf, i), LevelAt(buf, i, cur))
    decreases |buf| - i, 0
  {
    var next := FixedStep(buf, i, msgs, cur);
    ParseLoopItems(buf, next, msgs, cur);
  }

  /** One fixed-width record seen from both sides: it is skipped. */
  lemma FixedStep(buf: seq<Byte>, i: nat, msgs: seq<Msg>, cur: Msg) returns (next: nat)
    requires Wire.Step(buf, i).Some?
    requires Wire.Step(buf, i).value.0.Fixed64Item? || Wire.Step(buf, i).value.0.Fixed32Item?
    ensures next == Wire.Step(buf, i).value.1
    ensures ParseLoop(buf, i, msgs, cur) == ParseLoop(buf, next, msgs, cur)
    ensures NestedAt(buf, i) == NestedAt(buf, next)
    ensures LevelAt(buf, i, cur) == LevelAt(buf, next, cur)
  {
    var (tag, j) := ReadVarint(buf, i).value;
    UnfoldFixed(buf, i, msgs, cur, tag, j);
    var item;
    item, next := Wire.Step(buf, i).value.0, Wire.Step(buf, i).value.1;
    UnfoldLevel(buf, i, cur, item, next);
    assert [] + NestedAt(buf, next) == NestedAt(buf, next);
  }

  /** Each dictionary `Parse` returns holds the varint fields of exactly one
      buffer level: the nested blobs' dictionaries come first, in record
      order, and the level's own dictionary (a repeated field keeping its
      last value) comes last, omitted when empty. */
  lemma ParseStructure(buf: seq<Byte>)
    ensures Parse(buf) == NestedAt(buf, 0) + (if LevelAt(buf, 0, map[]) != map[] then [LevelAt(buf, 0, map[])] else [])
  {
    ParseLoopItems(buf, 0, [], map[]);
    assert [] + NestedAt(buf, 0) == NestedAt(buf, 0);
  }

  /** No dictionary `Parse` returns is empty. */
  lemma {:induction false} ParseNonEmpty(buf: seq<Byte>)
    ensures forall k :: 0 <= k < |Parse(buf)| ==> Parse(buf)[k] != map[]
    decreases |buf|, 1
  {
    ParseStructure(buf);
    NestedAtNonEmpty(buf, 0);
  }

  lemma {:induction false} NestedAtNonEmpty(buf: seq<Byte>, i: nat)
    ensures forall k :: 0 <= k < |NestedAt(buf, i)| ==> NestedAt(buf, i)[k] != map[]
    decreases |buf|, 0, |buf| - i
  {
    match Wire.Step(buf, i)
    case None =>
    case Some((x, next)) =>
      NestedAtNonEmpty(buf, next);
      if x.BlobItem? && x.len > 0 {
        ParseNonEmpty(x.body);
      }
  }

  // ---------------------------------------------------------------------
  // Field semantics
  // ---------------------------------------------------------------------

  /** Outcome of the battery-module signature check on one dictionary. */
  datatype Verdict = OutOfRange | Ghost | Imposter | NoTemp | Accepted

  /** The elif chain of `update_from_protobuf` for a dictionary with SOC
      field 6 and optional temperature field 16 (centidegrees). */
  function ModuleVerdict(soc: nat, temp: Option<nat>): (v: Verdict)
    ensures v == Accepted <==>
      soc <= 100 && temp.Some? && (if soc == 0 then temp.value != 0 else !(0 < temp.value < 100))
    ensures v == Ghost ==> soc == 0
    ensures v == Imposter ==> 0 < soc <= 100 && temp.Some? && 0 < temp.value < 100
  {
    if soc > 100 then OutOfRange
    else if soc == 0 then (if temp.None? || temp.value == 0 then Ghost else Accepted)
    else if temp.Some? && 0 < temp.value < 100 then Imposter
    else if temp.None? then NoTemp
    else Accepted
  }

  function Field(m: Msg, f: nat): Option<nat> {
    if f in m then Some(m[f]) else None
  }

  /** Whether a dictionary carries an accepted battery module. */
  predicate AcceptedModule(m: Msg) {
    6 in m && ModuleVerdict(m[6], Field(m, 16)) == Accepted
  }

  /** Whether a dictionary makes the packet count as valid data. */
  predicate Contributes(m: Msg) {
    28 in m || 27 in m || AcceptedModule(m)
  }

  /** Index of the last dictionary that carries field `f`. */
  function LastWith(msgs: seq<Msg>, f: nat): (r: Option<nat>)
    ensures r.Some? ==> r.value < |msgs| && f in msgs[r.value]
    ensures r.Some? ==> forall k :: r.value < k < |msgs| ==> f !in msgs[k]
    ensures r.None? <==> forall k :: 0 <= k < |msgs| ==> f !in msgs[k]
  {
    if |msgs| == 0 then None
    else if f in msgs[|msgs| - 1] then Some(|msgs| - 1)
    else LastWith(msgs[..|msgs| - 1], f)
  }

  /** What one pass over the dictionaries collects: accepted SOCs and their
      temperatures in order, the last power and grid readings, and whether
      anything valid was seen. */
  datatype Scan = Scan(socs: seq<nat>, temps: seq<real>, watts: Option<real>, grid: Option<bool>, valid: bool)

  /** Field 28 in tenths of a watt. */
  function Watts(m: Msg): real
    requires 28 in m
  {
    m[28] as real / 10.0
  }

  function Absorb(s: Scan, m: Msg): Scan {
    var s1 := if 28 in m then s.(watts := Some(Watts(m)), valid := true) else s;
    var s2 := if 27 in m then s1.(grid := Some(m[27] <= 1), valid := true) else s1;
    if AcceptedModule(m) then
      s2.(socs := s2.socs + ModuleSocs(m), temps := s2.temps + ModuleTemps(m), valid := true)
    else s2
  }

  /** The `for msg in messages` loop of `update_from_protobuf`. */
  function ScanMsgs(msgs: seq<Msg>): (s: Scan)
    ensures s.valid <==> exists k :: 0 <= k < |msgs| && Contributes(msgs[k])
    ensures |s.temps| == |s.socs|
    ensures forall k :: 0 <= k < |s.socs| ==> s.socs[k] <= 100
    ensures |s.socs| == 0 <==> forall k :: 0 <= k < |msgs| ==> !AcceptedModule(msgs[k])
  {
    if |msgs| == 0 then Scan([], [], None, None, false)
    else
      var init := msgs[..|msgs| - 1];
      assert forall k :: 0 <= k < |init| ==> init[k] == msgs[k];
      Absorb(ScanMsgs(init), msgs[|msgs| - 1])
  }

  /** The SOC and temperature one dictionary adds to the scan: those of an
      accepted module, nothing otherwise. */
  function ModuleSocs(m: Msg): seq<nat> {
    if AcceptedModule(m) then [m[6]] else []
  }

  function ModuleTemps(m: Msg): seq<real> {
    if AcceptedModule(m) then [m[16] as real / 100.0] else []
  }

  /** One more dictionary appends its accepted module's SOC and temperature,
      and nothing when it holds no accepted module. */
  lemma ScanMsgsSnoc(msgs: seq<Msg>, m: Msg)
    ensures ScanMsgs(msgs + [m]).socs == ScanMsgs(msgs).socs + ModuleSocs(m)
    ensures ScanMsgs(msgs + [m]).temps == ScanMsgs(msgs).temps + ModuleTemps(m)
  {
    assert (msgs + [m])[..|msgs|] == msgs;
  }

  /** The accepted SOCs of a run of dictionaries are those of its two halves,
      in order: with `ScanMsgsSnoc` they are exactly the accepted modules'
      SOCs in input order. */
  lemma {:induction false} ScanSocsAppend(a: seq<Msg>, b: seq<Msg>)
    ensures ScanMsgs(a + b).socs == ScanMsgs(a).socs + ScanMsgs(b).socs
    decreases |b|
  {
    if |b| == 0 {
      assert a + b == a;
    } else {
      var init, m := b[..|b| - 1], b[|b| - 1];
      assert b == init + [m];
      assert a + b == (a + init) + [m];
      calc {
        ScanMsgs(a + b).socs;
        { ScanMsgsSnoc(a + init, m); }
        ScanMsgs(a + init).socs + ModuleSocs(m);
        { ScanSocsAppend(a, init); }
        (ScanMsgs(a).socs + ScanMsgs(init).socs) + ModuleSocs(m);
        ScanMsgs(a).socs + (ScanMsgs(init).socs + ModuleSocs(m));
        { ScanMsgsSnoc(init, m); }
        ScanMsgs(a).socs + ScanMsgs(b).socs;
      }
    }
  }

  /** The same for the accepted modules' temperatures. */
  lemma {:induction false} ScanTempsAppend(a: seq<Msg>, b: seq<Msg>)
    ensures ScanMsgs(a + b).temps == ScanMsgs(a).temps + ScanMsgs(b).temps
    decreases |b|
  {
    if |b| == 0 {
      assert a + b == a;
    } else {
      var init, m := b[..|b| - 1], b[|b| - 1];
      assert b == init + [m];
      assert a + b == (a + init) + [m];
      calc {
        ScanMsgs(a + b).temps;
        { ScanMsgsSnoc(a + init, m); }
        ScanMsgs(a + init).temps + ModuleTemps(m);
        { ScanTempsAppend(a, init); }
        (ScanMsgs(a).temps + ScanMsgs(init).temps) + ModuleTemps(m);
        ScanMsgs(a).temps + (ScanMsgs(init).temps + ModuleTemps(m));
        { ScanMsgsSnoc(init, m); }
        ScanMsgs(a).temps + ScanMsgs(b).temps;
      }
    }
  }

  /** A single dictionary contributes exactly its accepted module's readings. */
  lemma ScanMsgsOne(m: Msg)
    ensures ScanMsgs([m]).socs == ModuleSocs(m)
    ensures ScanMsgs([m]).temps == ModuleTemps(m)
  {
    assert [m][..0] == [];
  }

  /** Power is field 28 of the last dictionary carrying it, divided by 10
      and read unsigned, whether or not that dictionary's SOC was accepted. */
  lemma {:induction false} ScanWatts(msgs: seq<Msg>)
    ensures ScanMsgs(msgs).watts == (match LastWith(msgs, 28) case Some(k) => Some(Watts(msgs[k])) case None => None)
  {
    if |msgs| > 0 {
      var init, last := msgs[..|msgs| - 1], msgs[|msgs| - 1];
      ScanWatts(init);
      ScanWattsLast(msgs, init, last);
      if 28 in last {
        assert LastWith(msgs, 28) == Some(|msgs| - 1);
        assert ScanMsgs(msgs).watts == Some(Watts(last));
      } else {
        assert ScanMsgs(msgs).watts == ScanMsgs(init).watts;
        assert LastWith(msgs, 28) == LastWith(init, 28);
        if LastWith(init, 28).Some? {
          assert init[LastWith(init, 28).value] == msgs[LastWith(init, 28).value];
        }
      }
    }
  }

  /** The reading after the last dictionary. */
  lemma ScanWattsLast(msgs: seq<Msg>, init: seq<Msg>, last: Msg)
    requires |msgs| > 0 && init == msgs[..|msgs| - 1] && last == msgs[|msgs| - 1]
    ensures ScanMsgs(msgs).watts == if 28 in last then Some(Watts(last)) else ScanMsgs(init).watts
  {
    assert ScanMsgs(msgs) == Absorb(ScanMsgs(init), last);
  }

  /** The grid is connected iff field 27 of the last dictionary carrying it
      is at most 1, whether or not that dictionary's SOC was accepted. */
  lemma {:induction false} ScanGrid(msgs: seq<Msg>)
    ensures ScanMsgs(msgs).grid == (match LastWith(msgs, 27) case Some(k) => Some(msgs[k][27] <= 1) case None => None)
  {
    if |msgs| > 0 {
      var init, last := msgs[..|msgs| - 1], msgs[|msgs| - 1];
      ScanGrid(init);
      ScanGridLast(msgs, init, last);
      if 27 in last {
        assert LastWith(msgs, 27) == Some(|msgs| - 1);
        assert ScanMsgs(msgs).grid == Some(last[27] <= 1);
      } else {
        assert ScanMsgs(msgs).grid == ScanMsgs(init).grid;
        assert LastWith(msgs, 27) == LastWith(init, 27);
        if LastWith(init, 27).Some? {
          assert init[LastWith(init, 27).value] == msgs[LastWith(init, 27).value];
        }
      }
    }
  }

  /** The reading after the last dictionary. */
  lemma ScanGridLast(msgs: seq<Msg>, init: seq<Msg>, last: Msg)
    requires |msgs| > 0 && init == msgs[..|msgs| - 1] && last == msgs[|msgs| - 1]
    ensures ScanMsgs(msgs).grid == if 27 in last then Some(last[27] <= 1) else ScanMsgs(init).grid
  {
    assert ScanMsgs(msgs) == Absorb(ScanMsgs(init), last);
  }

  // ---------------------------------------------------------------------
  // Device state
  // ---------------------------------------------------------------------

  datatype Device = Device(
    sn: string,
    lastUpdate: real,
    soc: real,
    socModules: seq<int>,
    acInWatts: real,
    gridConnected: bool,
    tempCelsius: real)

  function NewDevice(sn: string): (d: Device)
    ensures d.sn == sn && d.soc == 0.0 && d.socModules == [] && d.gridConnected
  {
    Device(sn, 0.0, 0.0, [], 0.0, true, 0.0)
  }

  function Dist(a: real, b: real): real {
    if a >= b then a - b else b - a
  }

  /** Index of the candidate the latch picks: the largest when the current
      SOC is 0.0, otherwise the one nearest the current SOC; `max` and
      `min(key=...)` both keep the first of equal candidates. */
  function LatchIndex(cur: real, cands: seq<int>): (r: nat)
    requires |cands| > 0
    ensures r < |cands|
    ensures cur == 0.0 ==> forall k :: 0 <= k < |cands| ==> cands[k] <= cands[r]
    ensures cur == 0.0 ==> forall k :: 0 <= k < r ==> cands[k] < cands[r]
    ensures cur != 0.0 ==> forall k :: 0 <= k < |cands| ==> Dist(cands[r] as real, cur) <= Dist(cands[k] as real, cur)
    ensures cur != 0.0 ==> forall k :: 0 <= k < r ==> Dist(cands[r] as real, cur) < Dist(cands[k] as real, cur)
  {
    if |cands| == 1 then 0
    else
      var init := cands[..|cands| - 1];
      assert forall k :: 0 <= k < |init| ==> init[k] == cands[k];
      var b := LatchIndex(cur, init);
      var last := |cands| - 1;
      if cur == 0.0 then (if cands[last] > cands[b] then last else b)
      else if Dist(cands[last] as real, cur) < Dist(cands[b] as real, cur) then last else b
  }

  predicate SortedDesc(s: seq<int>) {
    forall a, b :: 0 <= a < b < |s| ==> s[a] >= s[b]
  }

  function Insert(x: int, s: seq<int>): (r: seq<int>)
    requires SortedDesc(s)
    ensures SortedDesc(r)
    ensures multiset(r) == multiset(s) + multiset{x}
    ensures |r| == |s| + 1
    ensures r[0] == x || (|s| > 0 && r[0] == s[0])
  {
    if |s| == 0 then [x]
    else if x >= s[0] then [x] + s
    else
      assert s == [s[0]] + s[1..];
      var rest := Insert(x, s[1..]);
      assert rest[0] <= s[0];
      ConsSorted(s[0], rest);
      [s[0]] + rest
  }

  /** A head no smaller than the first element keeps a run sorted. */
  lemma ConsSorted(h: int, rest: seq<int>)
    requires SortedDesc(rest) && |rest| > 0 && rest[0] <= h
    ensures SortedDesc([h] + rest)
  {
    var r := [h] + rest;
    forall a, b | 0 <= a < b < |r| ensures r[a] >= r[b] {
      if a == 0 {
        assert rest[0] >= rest[b - 1];
      } else {
        assert r[a] == rest[a - 1] && r[b] == rest[b - 1];
      }
    }
  }

  /** `sorted(candidates, reverse=True)`. */
  function SortDesc(s: seq<int>): (r: seq<int>)
    ensures SortedDesc(r)
    ensures multiset(r) == multiset(s)
  {
    if |s| == 0 then []
    else
      assert s == [s[0]] + s[1..];
      Insert(s[0], SortDesc(s[1..]))
  }

  /** `_update_soc_latch`: the out-of-range filter is re-applied, and an
      empty candidate list leaves the device as it is. */
  function UpdateSocLatch(d: Device, socs: seq<int>): (r: Device)
    ensures r == d || r.soc in (set k | 0 <= k < |socs| :: socs[k] as real)
    ensures r.soc == d.soc || 0.0 <= r.soc <= 100.0
    ensures (forall k :: 0 <= k < |socs| ==> !(0 <= socs[k] <= 100)) ==> r == d
    ensures (forall k :: 0 <= k < |socs| ==> 0 <= socs[k] <= 100) && |socs| > 0 ==>
      multiset(r.socModules) == multiset(socs) && SortedDesc(r.socModules)
    ensures r.(soc := d.soc, socModules := d.socModules) == d
    ensures var cands := InRange(socs);
      |cands| > 0 ==>
        && r.soc == cands[LatchIndex(d.soc, cands)] as real
        && multiset(r.socModules) == multiset(cands) && SortedDesc(r.socModules)
  {
    var cands := InRange(socs);
    if |cands| == 0 then d
    else
      var i := LatchIndex(d.soc, cands);
      d.(soc := cands[i] as real, socModules := SortDesc(cands))
  }

  /** `[s for s in valid_socs if 0 <= s <= 100]`. */
  function InRange(s: seq<int>): (r: seq<int>)
    ensures forall k :: 0 <= k < |r| ==> 0 <= r[k] <= 100 && r[k] in s
    ensures (forall k :: 0 <= k < |s| ==> 0 <= s[k] <= 100) ==> r == s
    ensures |r| == 0 <==> forall k :: 0 <= k < |s| ==> !(0 <= s[k] <= 100)
  {
    if |s| == 0 then []
    else
      var rest := InRange(s[1..]);
      assert forall k :: 1 <= k < |s| ==> s[k] == s[1..][k - 1];
      assert s == [s[0]] + s[1..];
      if 0 <= s[0] <= 100 then [s[0]] + rest else rest
  }

  /** One reading is kept exactly when it is within 0-100. */
  lemma InRangeOne(x: int)
    ensures InRange([x]) == if 0 <= x <= 100 then [x] else []
  {
    assert [x][1..] == [];
  }

  lemma InRangeCons(x: int, t: seq<int>)
    ensures InRange([x] + t) == (if 0 <= x <= 100 then [x] else []) + InRange(t)
  {
    assert ([x] + t)[1..] == t;
  }

  /** The filter works reading by reading: with `InRangeOne`, every
      in-range reading is kept, in input order. */
  lemma {:induction false} InRangeAppend(a: seq<int>, b: seq<int>)
    ensures InRange(a + b) == InRange(a) + InRange(b)
    decreases |a|
  {
    if |a| == 0 {
      assert a + b == b;
    } else {
      var x, t := a[0], a[1..];
      var keep := if 0 <= x <= 100 then [x] else [];
      assert a == [x] + t && a + b == [x] + (t + b);
      calc {
        InRange(a + b);
        { InRangeCons(x, t + b); }
        keep + InRange(t + b);
        { InRangeAppend(t, b); }
        keep + (InRange(t) + InRange(b));
        (keep + InRange(t)) + InRange(b);
        { InRangeCons(x, t); }
        InRange(a) + InRange(b);
      }
    }
  }

  /** `_apply_updates`: grid and power are taken as soon as any dictionary
      carries them. */
  function ApplyUpdates(d: Device, watts: Option<real>, grid: Option<bool>): (r: Device)
    ensures r.gridConnected == grid.GetOr(d.gridConnected)
    ensures r.acInWatts == watts.GetOr(d.acInWatts)
    ensures r.(gridConnected := d.gridConnected, acInWatts := d.acInWatts) == d
  {
    var d1 := if grid.Some? then d.(gridConnected := grid.value) else d;
    if watts.Some? then d1.(acInWatts := watts.value) else d1
  }

  /** Without any valid data the scan carries no reading at all. */
  lemma ScanNothing(msgs: seq<Msg>)
    requires !ScanMsgs(msgs).valid
    ensures ScanMsgs(msgs).watts.None? && ScanMsgs(msgs).grid.None? && |ScanMsgs(msgs).socs| == 0
  {
    ScanWatts(msgs);
    ScanGrid(msgs);
    assert forall k :: 0 <= k < |msgs| ==> !Contributes(msgs[k]);
  }

  /** The state changes of `update_from_protobuf` once the payload has been
      parsed into `msgs`. */
  function Update(d: Device, msgs: seq<Msg>, now: real): (r: (Device, bool))
    ensures r.1 == ScanMsgs(msgs).valid
    ensures !r.1 ==> r.0 == d
    ensures r.1 ==> r.0.lastUpdate == now
    ensures r.0.sn == d.sn
    ensures 0.0 <= d.soc <= 100.0 ==> 0.0 <= r.0.soc <= 100.0
    ensures |ScanMsgs(msgs).socs| == 0 ==>
      r.0.soc == d.soc && r.0.socModules == d.socModules && r.0.tempCelsius == d.tempCelsius
    ensures |ScanMsgs(msgs).socs| > 0 ==>
      r.0.tempCelsius == Stats.Mean(ScanMsgs(msgs).temps) && SortedDesc(r.0.socModules)
    ensures var s := ScanMsgs(msgs);
      r.1 ==>
        && r.0.gridConnected == s.grid.GetOr(d.gridConnected)
        && r.0.acInWatts == s.watts.GetOr(d.acInWatts)
        && r.0.tempCelsius == (if |s.temps| > 0 then Stats.Mean(s.temps) else d.tempCelsius)
        && r.0.soc == UpdateSocLatch(d, s.socs).soc
        && r.0.socModules == UpdateSocLatch(d, s.socs).socModules
  {
    var s := ScanMsgs(msgs);
    if !s.valid then
      ScanNothing(msgs);
      (d, false)
    else
      var d1 := if s.watts.Some? || s.grid.Some? then ApplyUpdates(d, s.watts, s.grid) else d;
      var d2 := if |s.temps| > 0 then d1.(tempCelsius := Stats.Mean(s.temps)) else d1;
      var d3 := if |s.socs| > 0 then UpdateSocLatch(d2, s.socs) else d2;
      (d3.(lastUpdate := now), true)
  }

  /** `update_from_protobuf` at time `now`: the new device state, and true
      exactly when some dictionary carried power, grid or an accepted
      battery module; otherwise the device is left untouched. */
  function UpdateFromProtobuf(d: Device, payload: seq<Byte>, now: real): (r: (Device, bool))
    ensures var msgs := Parse(payload);
      r.1 <==> exists k :: 0 <= k < |msgs| && Contributes(msgs[k])
    ensures !r.1 ==> r.0 == d
    ensures r.1 ==> r.0.lastUpdate == now
  {
    Update(d, Parse(payload), now)
  }

  /** The readings `update_from_protobuf` leaves on the device when the
      packet was valid: grid and power from the last dictionaries carrying
      them, the mean temperature of the accepted modules, and the SOC and
      module list of the latch. */
  lemma UpdateFromProtobufReadings(d: Device, payload: seq<Byte>, now: real)
    ensures var r := UpdateFromProtobuf(d, payload, now);
      var s := ScanMsgs(Parse(payload));
      r.1 ==>
        && r.0.gridConnected == s.grid.GetOr(d.gridConnected)
        && r.0.acInWatts == s.watts.GetOr(d.acInWatts)
        && r.0.tempCelsius == (if |s.temps| > 0 then Stats.Mean(s.temps) else d.tempCelsius)
        && r.0.soc == UpdateSocLatch(d, s.socs).soc
        && r.0.socModules == UpdateSocLatch(d, s.socs).socModules
  {
  }

  /** The multi-module case with a ghost slot and a module without
      temperature: only the 90 % module is latched. */
  lemma GhostAndPartialIgnored(now: real)
    ensures var r := Update(NewDevice("T"), [map[6 := 90, 16 := 2500], map[6 := 0, 16 := 0], map[6 := 16]], now);
      r.1 && r.0.soc == 90.0 && r.0.socModules == [90] && r.0.tempCelsius == 25.0 && r.0.lastUpdate == now
  {
    ExampleScan();
    assert [25.0][..0] == [];
    assert Stats.Mean([25.0]) == 25.0;
    assert SortDesc([90]) == [90];
  }

  lemma ExampleScan()
    ensures ScanMsgs([map[6 := 90, 16 := 2500], map[6 := 0, 16 := 0], map[6 := 16]])
      == Scan([90], [25.0], None, None, true)
  {
    var m0: Msg, m1: Msg, m2: Msg := map[6 := 90, 16 := 2500], map[6 := 0, 16 := 0], map[6 := 16];
    var found := Scan([90], [25.0], None, None, true);
    assert AcceptedModule(m0) && !Contributes(m1) && !Contributes(m2);
    assert [m0][..0] == [];
    assert ScanMsgs([m0]) == found;
    assert [m0, m1][..1] == [m0];
    assert ScanMsgs([m0, m1]) == found;
    assert [m0, m1, m2][..2] == [m0, m1];
  }
}
