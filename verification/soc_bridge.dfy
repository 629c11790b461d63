/** The SOC bridge service: the wake-up packet it forges, its depth-tagged
    protobuf walker, the signed power conversion, the per-device state with
    grid debounce and ghost-wattage filter, and the classification of walked
    fields in its MQTT message handler. */
module SocBridge {
  import opened Wrappers
  import opened Bytes
  import Varint
  import Wire
  import Text
  import Stats

  /** `GRID_DEBOUNCE_SEC` */
  const GridDebounceSec: real := 5.0

  /** `ANDROID_SUFFIX`: tag of field 23 (`ba 01`), length 7, "android". */
  const AndroidSuffix: seq<Byte> := [0xba, 0x01, 0x07, 0x61, 0x6e, 0x64, 0x72, 0x6f, 0x69, 0x64]

  // ---------------------------------------------------------------------
  // Packet forging
  // ---------------------------------------------------------------------

  /** `encode_varint`: the shared base-128 encoder. */
  function EncodeVarint(v: nat): seq<Byte> {
    Varint.Encode(v)
  }

  /** `_read_varint`: the shared reader, without a length ceiling. */
  function ReadVarint(buf: seq<Byte>, i: nat): (r: Result<(nat, nat), Varint.VarintError>)
    ensures r.Success? ==> i < r.value.1 <= |buf|
    ensures r.Failure? ==> r.error == Varint.Truncated
  {
    Varint.ReadSpec(buf, i, None);
    Varint.Read(buf, i, None)
  }

  /** `_read_varint(encode_varint(v), 0) == (v, len(encode_varint(v)))`. */
  lemma VarintRoundTrip(v: nat)
    ensures ReadVarint(EncodeVarint(v), 0) == Success((v, |EncodeVarint(v)|))
    ensures EncodeVarint(0) == [0]
  {
    Varint.RoundTrip(v, None);
  }

  /** The header body: source 32, destination 32, sequence number, then the
      "android" type tag. */
  function Header(seqNo: nat): (h: seq<Byte>)
    ensures |h| == 5 + |EncodeVarint(seqNo)| + 10
  {
    [0x10, 0x20, 0x18, 0x20, 0x70] + EncodeVarint(seqNo) + AndroidSuffix
  }

  /** The payload body: field 1 carrying the command id. */
  function Body(cmd: nat): (p: seq<Byte>)
    ensures |p| == 1 + |EncodeVarint(cmd)|
  {
    [0x08] + EncodeVarint(cmd)
  }

  /** `forge_packet(cmd_id)`, with the clock reading `int(time.time())` that
      becomes the sequence number passed in as `seqNo`. */
  function ForgePacket(cmd: nat, seqNo: nat): (p: seq<Byte>)
    ensures |p| > 0 && p[0] == 0x0a
  {
    var h := Header(seqNo);
    var b := Body(cmd);
    [0x0a] + EncodeVarint(|h|) + h + [0x12] + EncodeVarint(|b|) + b
  }

  // ---------------------------------------------------------------------
  // Depth-tagged walker
  // ---------------------------------------------------------------------

  /** `(field, value, depth)` of one varint field. */
  datatype Triple = Triple(field: nat, value: nat, depth: nat)

  predicate DepthsWithin(ts: seq<Triple>, lo: nat, hi: nat) {
    forall k :: 0 <= k < |ts| ==> lo <= ts[k].depth <= hi
  }

  /** The loop of `_extract_tags_with_depth` from offset `i`: the triples
      of the varint fields from there on, each nested non-empty blob's
      triples in its place. The loop reads its records exactly as the
      shared record reader `Wire.Step` does: a failed read or wire type 3,
      4, 6 or 7 ends the level, types 1 and 5 skip 8 and 4 bytes, and a
      blob's body is the clamped slice after its length. */
  function Walk(buf: seq<Byte>, i: nat, depth: nat, maxDepth: nat): (r: seq<Triple>)
    requires depth <= maxDepth
    ensures DepthsWithin(r, depth, maxDepth)
    decreases |buf|, 0, |buf| - i
  {
    match Wire.Step(buf, i)
    case None => []
    case Some((item, n)) =>
      match item
      case VarintItem(f, v) => [Triple(f, v, depth)] + Walk(buf, n, depth, maxDepth)
      case BlobItem(_, ln, body) =>
        (if ln > 0 then ExtractTagsWithDepth(body, depth + 1, maxDepth) else [])
          + Walk(buf, n, depth, maxDepth)
      case _ => Walk(buf, n, depth, maxDepth)
  }

  /** `_extract_tags_with_depth(payload, depth, max_depth)`: nothing below
      `max_depth`, and every triple's depth lies between `depth` and
      `max_depth`. Never fails: a truncated varint or wire type 3, 4, 6 or 7
      ends the level with what was found so far. */
  function ExtractTagsWithDepth(buf: seq<Byte>, depth: nat, maxDepth: nat): (r: seq<Triple>)
    ensures depth > maxDepth ==> r == []
    ensures DepthsWithin(r, depth, maxDepth)
    decreases |buf|, 1, 0
  {
    if depth > maxDepth then [] else Walk(buf, 0, depth, maxDepth)
  }

  // --- unfolding the walker over known bytes ---

  lemma UnfoldVarint(buf: seq<Byte>, i: nat, depth: nat, maxDepth: nat, f: nat, v: nat, n: nat)
    requires depth <= maxDepth && Wire.Step(buf, i) == Some((Wire.VarintItem(f, v), n))
    ensures Walk(buf, i, depth, maxDepth) == [Triple(f, v, depth)] + Walk(buf, n, depth, maxDepth)
  {
  }

  lemma UnfoldBlob(buf: seq<Byte>, i: nat, depth: nat, maxDepth: nat, f: nat, body: seq<Byte>, n: nat)
    requires depth <= maxDepth && |body| > 0
    requires Wire.Step(buf, i) == Some((Wire.BlobItem(f, |body|, body), n))
    ensures Walk(buf, i, depth, maxDepth) == ExtractTagsWithDepth(body, depth + 1, maxDepth) + Walk(buf, n, depth, maxDepth)
  {
  }

  lemma UnfoldFixed(buf: seq<Byte>, i: nat, depth: nat, maxDepth: nat, f: nat, n: nat)
    requires depth <= maxDepth && Wire.Step(buf, i) == Some((Wire.Fixed64Item(f), n))
    ensures Walk(buf, i, depth, maxDepth) == Walk(buf, n, depth, maxDepth)
  {
  }

  lemma ReadOne(buf: seq<Byte>, j: nat, v: nat)
    requires At(buf, j, EncodeVarint(v))
    ensures j < |buf| && ReadVarint(buf, j) == Success((v, j + |EncodeVarint(v)|))
  {
    Varint.ReadAt(buf, j, v);
  }

  /** Two encoded varints read back one after the other. */
  lemma ReadTwo(buf: seq<Byte>, i: nat, a: nat, b: nat, ea: seq<Byte>, eb: seq<Byte>)
    requires ea == EncodeVarint(a) && eb == EncodeVarint(b)
    requires At(buf, i, ea + eb)
    ensures i < |buf| && ReadVarint(buf, i) == Success((a, i + |ea|))
    ensures ReadVarint(buf, i + |ea|) == Success((b, i + |ea| + |eb|))
  {
    AtSplit(buf, i, ea, eb);
    var j := i + |ea|;
    ReadOne(buf, i, a);
    ReadOne(buf, j, b);
  }

  lemma WalkVarint(buf: seq<Byte>, i: nat, depth: nat, maxDepth: nat, tag: nat, v: nat, et: seq<Byte>, ev: seq<Byte>, f: nat, next: nat)
    requires depth <= maxDepth && tag % 8 == 0 && f == tag / 8
    requires et == EncodeVarint(tag) && ev == EncodeVarint(v)
    requires At(buf, i, et + ev) && next == i + |et| + |ev|
    ensures Walk(buf, i, depth, maxDepth) == [Triple(f, v, depth)] + Walk(buf, next, depth, maxDepth)
  {
    ReadTwo(buf, i, tag, v, et, ev);
    Wire.StepVarint(buf, i, tag, i + |et|, v, next);
    UnfoldVarint(buf, i, depth, maxDepth, f, v, next);
  }

  lemma WalkBlob(buf: seq<Byte>, i: nat, depth: nat, maxDepth: nat, tag: nat, body: seq<Byte>, et: seq<Byte>, el: seq<Byte>)
    requires depth <= maxDepth && tag % 8 == 2 && |body| > 0
    requires et == EncodeVarint(tag) && el == EncodeVarint(|body|)
    requires At(buf, i, et + el + body)
    ensures Walk(buf, i, depth, maxDepth)
      == ExtractTagsWithDepth(body, depth + 1, maxDepth) + Walk(buf, i + |et| + |el| + |body|, depth, maxDepth)
  {
    Wire.BlobReads(buf, i, tag, body, et, el);
    Wire.StepBlob(buf, i, tag, i + |et|, body, i + |et| + |el|);
    UnfoldBlob(buf, i, depth, maxDepth, tag / 8, body, i + |et| + |el| + |body|);
  }

  lemma WalkFixed64(buf: seq<Byte>, i: nat, depth: nat, maxDepth: nat, tag: nat)
    requires depth <= maxDepth && tag % 8 == 1
    requires At(buf, i, EncodeVarint(tag))
    ensures Walk(buf, i, depth, maxDepth) == Walk(buf, i + |EncodeVarint(tag)| + 8, depth, maxDepth)
  {
    Varint.ReadAt(buf, i, tag);
    Wire.StepFixed64(buf, i, tag, i + |EncodeVarint(tag)|);
    UnfoldFixed(buf, i, depth, maxDepth, tag / 8, i + |EncodeVarint(tag)| + 8);
  }

  lemma WalkEnd(buf: seq<Byte>, i: nat, depth: nat, maxDepth: nat)
    requires depth <= maxDepth && i >= |buf|
    ensures Walk(buf, i, depth, maxDepth) == []
  {
  }

  /** The "android" string read as a message: its first byte `a` is the
      tag of field 12 with wire type 1, whose eight fixed bytes run past
      the end, so it contributes no fields. */
  lemma AndroidHasNoFields(depth: nat, maxDepth: nat)
    ensures ExtractTagsWithDepth(AndroidSuffix[3..], depth, maxDepth) == []
  {
    if depth <= maxDepth {
      var s := AndroidSuffix[3..];
      assert EncodeVarint(0x61) == [0x61];
      assert At(s, 0, EncodeVarint(0x61));
      WalkFixed64(s, 0, depth, maxDepth, 0x61);
    }
  }

  /** The type tag at the end of the header: field 23, length 7, with a
      body that yields nothing. */
  lemma SuffixTags(h: seq<Byte>, a: nat, depth: nat, maxDepth: nat)
    requires depth <= maxDepth && At(h, a, AndroidSuffix) && a + 10 == |h|
    ensures Walk(h, a, depth, maxDepth) == []
  {
    var et, el := EncodeVarint(186), EncodeVarint(7);
    assert et == [0xba, 0x01] by {
      assert Varint.Encode(1) == [1];
    }
    assert el == [7];
    assert AndroidSuffix == et + el + AndroidSuffix[3..];
    WalkBlob(h, a, depth, maxDepth, 186, AndroidSuffix[3..], et, el);
    AndroidHasNoFields(depth + 1, maxDepth);
    WalkEnd(h, a + 10, depth, maxDepth);
  }

  /** The header walks to source 32, destination 32 and the sequence
      number, all at the header's depth. */
  lemma HeaderTags(seqNo: nat, depth: nat, maxDepth: nat)
    requires depth <= maxDepth
    ensures Walk(Header(seqNo), 0, depth, maxDepth)
      == [Triple(2, 32, depth), Triple(3, 32, depth), Triple(14, seqNo, depth)]
  {
    var es := EncodeVarint(seqNo);
    HeaderLayout(seqNo, es);
    HeaderWalk(Header(seqNo), seqNo, es, depth, maxDepth);
  }

  /** Where the records of a header sit: the two address records, the
      sequence number record at 4, and the type tag record that ends it. */
  predicate HeaderShape(h: seq<Byte>, es: seq<Byte>) {
    && |h| == 15 + |es|
    && h[..4] == [0x10, 0x20, 0x18, 0x20]
    && At(h, 4, [0x70] + es)
    && At(h, 5 + |es|, AndroidSuffix)
  }

  lemma HeaderLayout(seqNo: nat, es: seq<Byte>)
    requires es == EncodeVarint(seqNo)
    ensures HeaderShape(Header(seqNo), es)
  {
    var h := Header(seqNo);
    assert h[..4] == [0x10, 0x20, 0x18, 0x20];
    assert h[4..5 + |es|] == [0x70] + es;
    assert h[5 + |es|..15 + |es|] == AndroidSuffix;
  }

  /** A buffer laid out as a header walks to its three varint fields. */
  lemma HeaderWalk(h: seq<Byte>, seqNo: nat, es: seq<Byte>, depth: nat, maxDepth: nat)
    requires depth <= maxDepth && es == EncodeVarint(seqNo) && HeaderShape(h, es)
    ensures Walk(h, 0, depth, maxDepth)
      == [Triple(2, 32, depth), Triple(3, 32, depth), Triple(14, seqNo, depth)]
  {
    var n := 5 + |es|;
    AddressRecords(h, depth, maxDepth);
    SequenceRecord(h, seqNo, es, depth, maxDepth, n);
    SuffixTags(h, n, depth, maxDepth);
  }

  lemma EncodeSmall()
    ensures EncodeVarint(0x10) == [0x10] && EncodeVarint(0x20) == [0x20]
    ensures EncodeVarint(0x18) == [0x18] && EncodeVarint(0x70) == [0x70]
  {
    Varint.EncodeLast(0x10);
    Varint.EncodeLast(0x20);
    Varint.EncodeLast(0x18);
    Varint.EncodeLast(0x70);
  }

  /** The source and destination records of the header. */
  lemma AddressRecords(h: seq<Byte>, depth: nat, maxDepth: nat)
    requires depth <= maxDepth && |h| >= 4 && h[..4] == [0x10, 0x20, 0x18, 0x20]
    ensures Walk(h, 0, depth, maxDepth)
      == [Triple(2, 32, depth), Triple(3, 32, depth)] + Walk(h, 4, depth, maxDepth)
  {
    EncodeSmall();
    var x, y := [0x10, 0x20], [0x18, 0x20];
    var rest := h[4..];
    assert h == x + y + rest;
    assert Walk(h, 0, depth, maxDepth) == [Triple(2, 32, depth)] + Walk(h, 2, depth, maxDepth) by {
      AtConcat([], x, y + rest);
      assert [] + x + (y + rest) == h;
      WalkVarint(h, 0, depth, maxDepth, 0x10, 0x20, [0x10], [0x20], 2, 2);
    }
    assert Walk(h, 2, depth, maxDepth) == [Triple(3, 32, depth)] + Walk(h, 4, depth, maxDepth) by {
      AtConcat(x, y, rest);
      WalkVarint(h, 2, depth, maxDepth, 0x18, 0x20, [0x18], [0x20], 3, 4);
    }
  }

  /** The sequence number record of the header. */
  lemma SequenceRecord(h: seq<Byte>, seqNo: nat, ev: seq<Byte>, depth: nat, maxDepth: nat, next: nat)
    requires depth <= maxDepth && ev == EncodeVarint(seqNo) && next == 5 + |ev|
    requires At(h, 4, [0x70] + ev)
    ensures Walk(h, 4, depth, maxDepth) == [Triple(14, seqNo, depth)] + Walk(h, next, depth, maxDepth)
  {
    var et := EncodeVarint(0x70);
    assert et == [0x70] by {
      Varint.EncodeLast(0x70);
    }
    WalkVarint(h, 4, depth, maxDepth, 0x70, seqNo, et, ev, 14, next);
  }

  /** The payload walks to the command id. */
  lemma BodyTags(cmd: nat, depth: nat, maxDepth: nat)
    requires depth <= maxDepth
    ensures Walk(Body(cmd), 0, depth, maxDepth) == [Triple(1, cmd, depth)]
  {
    var b := Body(cmd);
    var e8, ec := EncodeVarint(0x08), EncodeVarint(cmd);
    assert e8 == [0x08];
    AtConcat([], e8 + ec, []);
    WalkVarint(b, 0, depth, maxDepth, 0x08, cmd, e8, ec, 1, |b|);
    WalkEnd(b, |b|, depth, maxDepth);
  }

  /** The reads that make `p` a blob of field 1 holding `h` at `j`, ending
      at `m`, then a blob of field 2 holding `b` at `n` that ends `p`. */
  predicate PacketReads(p: seq<Byte>, h: seq<Byte>, b: seq<Byte>, m: nat, j: nat, n: nat) {
    && j <= m
    && ReadVarint(p, 0) == Success((0x0a, 1)) && ReadVarint(p, 1) == Success((|h|, j))
    && Slice(p, j, j + |h|) == h && m == j + |h|
    && m < |p| && ReadVarint(p, m) == Success((0x12, m + 1)) && ReadVarint(p, m + 1) == Success((|b|, n))
    && Slice(p, n, n + |b|) == b && |p| == n + |b|
  }

  /** The top level of a forged packet: the header blob, then the payload
      blob, each walked one level deeper. */
  lemma PacketTags(p: seq<Byte>, h: seq<Byte>, b: seq<Byte>, m: nat, j: nat, n: nat, depth: nat, maxDepth: nat)
    requires depth <= maxDepth && |h| > 0 && |b| > 0
    requires PacketReads(p, h, b, m, j, n)
    ensures ExtractTagsWithDepth(p, depth, maxDepth)
      == ExtractTagsWithDepth(h, depth + 1, maxDepth) + ExtractTagsWithDepth(b, depth + 1, maxDepth)
  {
    PacketSteps(p, h, b, m, j, n);
    PacketWalk(p, h, b, m, depth, maxDepth);
  }

  /** The reads of a two-blob packet make its two records. */
  lemma PacketSteps(p: seq<Byte>, h: seq<Byte>, b: seq<Byte>, m: nat, j: nat, n: nat)
    requires PacketReads(p, h, b, m, j, n)
    ensures Wire.Step(p, 0) == Some((Wire.BlobItem(1, |h|, h), m))
    ensures Wire.Step(p, m) == Some((Wire.BlobItem(2, |b|, b), |p|))
  {
    Wire.StepBlob(p, m, 0x12, m + 1, b, n);
    Wire.StepBlob(p, 0, 0x0a, 1, h, j);
  }

  /** A buffer read as a blob of field 1 followed by a blob of field 2 that
      ends it walks as the two bodies, one level deeper. */
  lemma PacketWalk(p: seq<Byte>, h: seq<Byte>, b: seq<Byte>, m: nat, depth: nat, maxDepth: nat)
    requires depth <= maxDepth && |h| > 0 && |b| > 0
    requires Wire.Step(p, 0) == Some((Wire.BlobItem(1, |h|, h), m))
    requires Wire.Step(p, m) == Some((Wire.BlobItem(2, |b|, b), |p|))
    ensures Walk(p, 0, depth, maxDepth)
      == ExtractTagsWithDepth(h, depth + 1, maxDepth) + ExtractTagsWithDepth(b, depth + 1, maxDepth)
  {
    WalkEnd(p, |p|, depth, maxDepth);
    UnfoldBlob(p, m, depth, maxDepth, 2, b, |p|);
    UnfoldBlob(p, 0, depth, maxDepth, 1, h, m);
    var y := ExtractTagsWithDepth(b, depth + 1, maxDepth);
    assert Walk(p, m, depth, maxDepth) == y + [] == y;
  }

  /** Where the two records of a two-blob packet sit. */
  predicate TwoBlobShape(p: seq<Byte>, h: seq<Byte>, b: seq<Byte>, eh: seq<Byte>, eb: seq<Byte>) {
    && |p| == 1 + |eh| + |h| + 1 + |eb| + |b|
    && At(p, 0, [0x0a] + eh + h) && At(p, 1 + |eh| + |h|, [0x12] + eb + b)
  }

  /** The reads of a packet made of two blobs, fields 1 and 2. */
  lemma TwoBlobReads(p: seq<Byte>, h: seq<Byte>, b: seq<Byte>, eh: seq<Byte>, eb: seq<Byte>) returns (m: nat, j: nat, n: nat)
    requires eh == EncodeVarint(|h|) && eb == EncodeVarint(|b|)
    requires TwoBlobShape(p, h, b, eh, eb)
    ensures PacketReads(p, h, b, m, j, n)
  {
    j := 1 + |eh|;
    m := j + |h|;
    n := m + 1 + |eb|;
    HeaderBlobReads(p, h, b, eh, eb, j);
    PayloadBlobReads(p, h, b, eh, eb, m, n);
  }

  lemma TwoBlobLayout(p: seq<Byte>, h: seq<Byte>, b: seq<Byte>, eh: seq<Byte>, eb: seq<Byte>)
    requires p == [0x0a] + eh + h + [0x12] + eb + b
    ensures TwoBlobShape(p, h, b, eh, eb)
  {
    var first, second := [0x0a] + eh + h, [0x12] + eb + b;
    assert p == first + second;
    assert At(p, 0, first) by {
      AtConcat([], first, second);
      assert [] + first + second == p;
    }
    assert At(p, |first|, second) by {
      AtConcat(first, second, []);
      assert first + second + [] == p;
    }
  }

  /** The reads of the header record, field 1, at the start of a packet. */
  lemma HeaderBlobReads(p: seq<Byte>, h: seq<Byte>, b: seq<Byte>, eh: seq<Byte>, eb: seq<Byte>, j: nat)
    requires eh == EncodeVarint(|h|) && TwoBlobShape(p, h, b, eh, eb) && j == 1 + |eh|
    ensures ReadVarint(p, 0) == Success((0x0a, 1)) && ReadVarint(p, 1) == Success((|h|, j))
    ensures Slice(p, j, j + |h|) == h
  {
    var e0 := EncodeVarint(0x0a);
    assert e0 == [0x0a] by {
      Varint.EncodeLast(0x0a);
    }
    Wire.BlobReads(p, 0, 0x0a, h, e0, eh);
  }

  /** The reads of the payload record, field 2, that ends a packet. */
  lemma PayloadBlobReads(p: seq<Byte>, h: seq<Byte>, b: seq<Byte>, eh: seq<Byte>, eb: seq<Byte>, m: nat, n: nat)
    requires eb == EncodeVarint(|b|) && TwoBlobShape(p, h, b, eh, eb)
    requires m == 1 + |eh| + |h| && n == m + 1 + |eb|
    ensures m < |p| && ReadVarint(p, m) == Success((0x12, m + 1)) && ReadVarint(p, m + 1) == Success((|b|, n))
    ensures Slice(p, n, n + |b|) == b && |p| == n + |b|
  {
    var e1 := EncodeVarint(0x12);
    assert e1 == [0x12] by {
      Varint.EncodeLast(0x12);
    }
    Wire.BlobReads(p, m, 0x12, b, e1, eb);
  }

  /** A packet made of two blobs, fields 1 and 2, walks as the two bodies. */
  lemma TwoBlobWalk(p: seq<Byte>, h: seq<Byte>, b: seq<Byte>, eh: seq<Byte>, eb: seq<Byte>, depth: nat, maxDepth: nat)
    requires |h| > 0 && |b| > 0 && eh == EncodeVarint(|h|) && eb == EncodeVarint(|b|)
    requires p == [0x0a] + eh + h + [0x12] + eb + b
    requires depth <= maxDepth
    ensures ExtractTagsWithDepth(p, depth, maxDepth)
      == ExtractTagsWithDepth(h, depth + 1, maxDepth) + ExtractTagsWithDepth(b, depth + 1, maxDepth)
  {
    TwoBlobLayout(p, h, b, eh, eb);
    var m, j, n := TwoBlobReads(p, h, b, eh, eb);
    PacketTags(p, h, b, m, j, n, depth, maxDepth);
  }

  /** The top level of a forged packet is its header blob followed by its
      payload blob. */
  lemma ForgedPacketWalk(cmd: nat, seqNo: nat)
    ensures ExtractTagsWithDepth(ForgePacket(cmd, seqNo), 0, 4)
      == ExtractTagsWithDepth(Header(seqNo), 1, 4) + ExtractTagsWithDepth(Body(cmd), 1, 4)
  {
    var h, b := Header(seqNo), Body(cmd);
    TwoBlobWalk(ForgePacket(cmd, seqNo), h, b, EncodeVarint(|h|), EncodeVarint(|b|), 0, 4);
  }

  /** Walking a forged packet from depth 0 yields exactly the fields its
      header and payload comments name: source 32, destination 32, the
      sequence number and the command id, all at depth 1. */
  lemma ForgedPacketTags(cmd: nat, seqNo: nat)
    ensures ExtractTagsWithDepth(ForgePacket(cmd, seqNo), 0, 4)
      == [Triple(2, 32, 1), Triple(3, 32, 1), Triple(14, seqNo, 1), Triple(1, cmd, 1)]
  {
    ForgedPacketWalk(cmd, seqNo);
    HeaderTags(seqNo, 1, 4);
    BodyTags(cmd, 1, 4);
  }

  // ---------------------------------------------------------------------
  // Field semantics
  // ---------------------------------------------------------------------

  /** `to_signed_value`: an unsigned 32-bit underflow and the 16-bit
      sentinel 65535 read as 0; above 32768 the value is taken as a 16-bit
      two's complement; all results in tenths of a watt. */
  function ToSignedValue(v: nat): (w: real)
    ensures v > 4294900000 || v == 65535 ==> w == 0.0
    ensures v <= 32768 ==> w == v as real / 10.0
    ensures 32768 < v <= 4294900000 && v != 65535 ==> w == (v - 65536) as real / 10.0
  {
    if v > 4294900000 then 0.0
    else if v == 65535 then 0.0
    else if v > 32768 then (v - 65536) as real / 10.0
    else v as real / 10.0
  }

  /** The 16-bit two's complement reading of `v`. */
  function Int16(v: nat): int
    requires v < 65536
  {
    if v >= 32768 then v - 65536 else v
  }

  /** On 16-bit inputs the conversion is the two's complement reading in
      tenths, except for the sentinel 65535 and for 32768, which the strict
      comparison leaves positive. */
  lemma SignedMatchesInt16(v: nat)
    requires v < 65536 && v != 65535 && v != 32768
    ensures ToSignedValue(v) == Int16(v) as real / 10.0
  {
  }

  lemma SignedAt32768()
    ensures ToSignedValue(32768) == 3276.8 && Int16(32768) == -32768
  {
  }

  // ---------------------------------------------------------------------
  // Device state
  // ---------------------------------------------------------------------

  datatype DeviceState = DeviceState(
    deviceId: string,
    soc: real,
    socModules: seq<int>,
    acInWatts: real,
    gridConnected: bool,
    tempCelsius: real,
    lastUpdate: real,
    pendingGridState: bool,
    debounceStartTime: real)

  function NewDeviceState(id: string): (s: DeviceState)
    ensures s.deviceId == id && s.gridConnected && s.pendingGridState && s.debounceStartTime == 0.0
  {
    DeviceState(id, 0.0, [], 0.0, true, 0.0, 0.0, true, 0.0)
  }

  /** The `updates` dictionary of the message handler. */
  datatype Updates = Updates(temp: Option<real>, grid: Option<bool>, watts: Option<real>)

  predicate NoUpdates(u: Updates) {
    u.temp.None? && u.grid.None? && u.watts.None?
  }

  /** A new power reading that is between 1.8 and 2.2 times the current one
      (both above 10 W) is treated as a double-counted ghost. */
  predicate IsGhostWattage(cur: real, raw: real) {
    cur > 10.0 && raw > 10.0 && 1.8 < raw / cur < 2.2
  }

  /** The ghost test in multiplicative form. */
  lemma GhostIsNearDouble(cur: real, raw: real)
    requires cur > 10.0 && raw > 10.0
    ensures IsGhostWattage(cur, raw) <==> 1.8 * cur < raw < 2.2 * cur
  {
    var q := raw / cur;
    assert q * cur == raw;
    if 1.8 < q {
      assert 1.8 * cur < q * cur;
    }
    if q < 2.2 {
      assert q * cur < 2.2 * cur;
    }
    if 1.8 * cur < raw {
      assert 1.8 < q;
    }
    if raw < 2.2 * cur {
      assert q < 2.2;
    }
  }

  /** The grid part of `update_power` for a reading `raw` at time `now`. */
  function DebounceGrid(s: DeviceState, raw: bool, now: real): (r: DeviceState)
    ensures r.(gridConnected := s.gridConnected, pendingGridState := s.pendingGridState,
               debounceStartTime := s.debounceStartTime) == s
    ensures r.gridConnected != s.gridConnected <==>
      raw != s.gridConnected && raw == s.pendingGridState && s.debounceStartTime > 0.0
        && now - s.debounceStartTime > GridDebounceSec
    ensures r.gridConnected != s.gridConnected ==> r.gridConnected == raw && r.debounceStartTime == 0.0
    ensures raw == s.gridConnected ==> r.debounceStartTime == 0.0 && r.pendingGridState == raw
  {
    if raw == s.gridConnected then s.(debounceStartTime := 0.0, pendingGridState := raw)
    else
      var s1 := if raw != s.pendingGridState then s.(pendingGridState := raw, debounceStartTime := now) else s;
      if s1.debounceStartTime > 0.0 && now - s1.debounceStartTime > GridDebounceSec then
        s1.(gridConnected := raw, debounceStartTime := 0.0)
      else s1
  }

  /** `update_power(updates)` at time `now` (both clock readings of the
      source are taken as the same `now`). */
  /** The grid fields of `r` (the flag, the pending value and the debounce
      timer) are those the debounce leaves after a grid reading, and those of
      `s` without one. */
  predicate GridFollows(r: DeviceState, s: DeviceState, grid: Option<bool>, now: real) {
    match grid
    case Some(g) =>
      var dg := DebounceGrid(s, g, now);
      r.gridConnected == dg.gridConnected && r.pendingGridState == dg.pendingGridState
      && r.debounceStartTime == dg.debounceStartTime
    case None =>
      r.gridConnected == s.gridConnected && r.pendingGridState == s.pendingGridState
      && r.debounceStartTime == s.debounceStartTime
  }

  function UpdatePower(s: DeviceState, u: Updates, now: real): (r: DeviceState)
    ensures r.lastUpdate == now
    ensures r.tempCelsius == u.temp.GetOr(s.tempCelsius)
    ensures GridFollows(r, s, u.grid, now)
    ensures u.watts.Some? ==>
      r.acInWatts == (if IsGhostWattage(s.acInWatts, u.watts.value) then s.acInWatts else u.watts.value)
    ensures u.watts.None? ==> r.acInWatts == s.acInWatts
    ensures r.soc == s.soc && r.socModules == s.socModules && r.deviceId == s.deviceId
  {
    var s1 := if u.temp.Some? then s.(tempCelsius := u.temp.value) else s;
    var s2 := if u.grid.Some? then DebounceGrid(s1, u.grid.value, now) else s1;
    var s3 := if u.watts.Some? && !IsGhostWattage(s2.acInWatts, u.watts.value) then s2.(acInWatts := u.watts.value) else s2;
    s3.(lastUpdate := now)
  }

  /** A run of disconnected readings: the first one only arms the timer, a
      second one within five seconds changes nothing, and one more than
      five seconds after the first flips the confirmed state. */
  lemma GridDebounceRun(s: DeviceState, t0: real, t1: real)
    requires s.gridConnected && s.pendingGridState && t0 > 0.0
    ensures var a := DebounceGrid(s, false, t0);
      a.gridConnected && a.pendingGridState == false && a.debounceStartTime == t0
      && (DebounceGrid(a, false, t1).gridConnected == (t1 - t0 <= GridDebounceSec))
  {
  }

  /** A reading equal to the confirmed state in the middle of a run
      restarts it: the next differing reading arms the timer afresh. */
  lemma GridDebounceRestart(s: DeviceState, t0: real, t1: real, t2: real)
    requires s.gridConnected && s.pendingGridState && t0 > 0.0 && t2 > 0.0
    ensures var c := DebounceGrid(DebounceGrid(DebounceGrid(s, false, t0), true, t1), false, t2);
      c.gridConnected && c.debounceStartTime == t2
  {
  }

  /** `[s for s in soc_list if 0 <= s <= 100]` */
  function ValidSocs(xs: seq<nat>): (r: seq<nat>)
    ensures forall k :: 0 <= k < |r| ==> r[k] <= 100
    ensures |r| <= |xs|
    ensures (forall k :: 0 <= k < |xs| ==> xs[k] <= 100) ==> r == xs
    ensures |r| == 0 <==> forall k :: 0 <= k < |xs| ==> xs[k] > 100
  {
    if |xs| == 0 then []
    else
      var rest := ValidSocs(xs[1..]);
      assert forall k :: 1 <= k < |xs| ==> xs[k] == xs[1..][k - 1];
      if xs[0] <= 100 then [xs[0]] + rest else rest
  }

  /** One reading is kept exactly when it is at most 100. */
  lemma ValidSocsOne(x: nat)
    ensures ValidSocs([x]) == if x <= 100 then [x] else []
  {
    assert [x][1..] == [];
  }

  lemma ValidSocsCons(x: nat, t: seq<nat>)
    ensures ValidSocs([x] + t) == (if x <= 100 then [x] else []) + ValidSocs(t)
  {
    assert ([x] + t)[1..] == t;
  }

  /** The filter works reading by reading: with `ValidSocsOne`, the result
      is exactly the in-range readings, in input order. */
  lemma {:induction false} ValidSocsAppend(a: seq<nat>, b: seq<nat>)
    ensures ValidSocs(a + b) == ValidSocs(a) + ValidSocs(b)
    decreases |a|
  {
    if |a| == 0 {
      assert a + b == b;
    } else {
      var x, t := a[0], a[1..];
      var keep := if x <= 100 then [x] else [];
      assert a == [x] + t && a + b == [x] + (t + b);
      calc {
        ValidSocs(a + b);
        { ValidSocsCons(x, t + b); }
        keep + ValidSocs(t + b);
        { ValidSocsAppend(t, b); }
        keep + (ValidSocs(t) + ValidSocs(b));
        (keep + ValidSocs(t)) + ValidSocs(b);
        { ValidSocsCons(x, t); }
        ValidSocs(a) + ValidSocs(b);
      }
    }
  }

  function AsReals(xs: seq<nat>): (r: seq<real>)
    ensures |r| == |xs| && forall k :: 0 <= k < |xs| ==> r[k] == xs[k] as real
  {
    if |xs| == 0 then [] else [xs[0] as real] + AsReals(xs[1..])
  }

  /** `update_soc(soc_list)`: the in-range readings, in input order, become
      the module list and their mean the SOC; with none in range nothing
      changes. */
  function UpdateSoc(s: DeviceState, xs: seq<nat>): (r: DeviceState)
    ensures |ValidSocs(xs)| == 0 ==> r == s
    ensures |ValidSocs(xs)| > 0 ==>
      r.socModules == ValidSocs(xs)
      && Stats.Min(AsReals(ValidSocs(xs))) <= r.soc <= Stats.Max(AsReals(ValidSocs(xs)))
      && 0.0 <= r.soc <= 100.0
    ensures r.(soc := s.soc, socModules := s.socModules) == s
  {
    var valid := ValidSocs(xs);
    if |valid| == 0 then s
    else
      var rs := AsReals(valid);
      assert 0.0 <= Stats.Min(rs) && Stats.Max(rs) <= 100.0;
      s.(socModules := valid, soc := Stats.Mean(rs))
  }

  /** Python's `int(x)`: truncation toward zero. */
  function Trunc(x: real): (n: int)
    ensures x >= 0.0 ==> n as real <= x < n as real + 1.0
    ensures x < 0.0 ==> n as real - 1.0 < x <= n as real
  {
    if x >= 0.0 then x.Floor else -((-x).Floor)
  }

  datatype Json = Json(ts: int, device: string, soc: real, socModules: seq<int>, gridConnected: bool, tempCelsius: real)

  /** `to_json`: the timestamp in whole milliseconds, truncated. */
  function ToJson(s: DeviceState): (j: Json)
    ensures s.lastUpdate >= 0.0 ==> j.ts as real <= s.lastUpdate * 1000.0 < j.ts as real + 1.0
    ensures j.device == s.deviceId && j.soc == s.soc && j.socModules == s.socModules
    ensures j.gridConnected == s.gridConnected && j.tempCelsius == s.tempCelsius
  {
    Json(Trunc(s.lastUpdate * 1000.0), s.deviceId, s.soc, s.socModules, s.gridConnected, s.tempCelsius)
  }

  // ---------------------------------------------------------------------
  // Message handler
  // ---------------------------------------------------------------------

  /** What the classification loop of `on_message` gathers. */
  datatype Fields = Fields(socs: seq<nat>, updates: Updates)

  predicate IsSoc(t: Triple) { t.field == 6 && t.depth >= 2 }

  predicate IsTemp(t: Triple) { t.field == 16 && t.depth == 2 }

  /** Index of the last triple with field `f` (and, when `atDepth2`, at
      depth 2). */
  function LastField(ts: seq<Triple>, f: nat, atDepth2: bool): (r: Option<nat>)
    ensures r.Some? ==> r.value < |ts| && ts[r.value].field == f && (atDepth2 ==> ts[r.value].depth == 2)
    ensures r.Some? ==> forall k :: r.value < k < |ts| ==> !(ts[k].field == f && (atDepth2 ==> ts[k].depth == 2))
    ensures r.None? <==> forall k :: 0 <= k < |ts| ==> !(ts[k].field == f && (atDepth2 ==> ts[k].depth == 2))
  {
    if |ts| == 0 then None
    else if ts[|ts| - 1].field == f && (atDepth2 ==> ts[|ts| - 1].depth == 2) then Some(|ts| - 1)
    else LastField(ts[..|ts| - 1], f, atDepth2)
  }

  function Classify1(acc: Fields, t: Triple): Fields {
    var a1 := if IsSoc(t) then acc.(socs := acc.socs + [t.value]) else acc;
    var a2 := if t.field == 28 then a1.(updates := a1.updates.(watts := Some(ToSignedValue(t.value)))) else a1;
    var a3 := if t.field == 27 then a2.(updates := a2.updates.(grid := Some(t.value == 0))) else a2;
    if IsTemp(t) then a3.(updates := a3.updates.(temp := Some(t.value as real / 100.0))) else a3
  }

  /** The `for tag, val, depth in all_tags` loop: SOC readings are the
      field-6 values at depth 2 or deeper, in order. */
  function Classify(ts: seq<Triple>): (r: Fields)
    ensures |r.socs| <= |ts|
    ensures |r.socs| == 0 <==> forall k :: 0 <= k < |ts| ==> !IsSoc(ts[k])
    ensures NoUpdates(r.updates) <==> forall k :: 0 <= k < |ts| ==> ts[k].field != 28 && ts[k].field != 27 && !IsTemp(ts[k])
  {
    if |ts| == 0 then Fields([], Updates(None, None, None))
    else
      var init := ts[..|ts| - 1];
      assert forall k :: 0 <= k < |init| ==> init[k] == ts[k];
      Classify1(Classify(init), ts[|ts| - 1])
  }

  /** One triple adds its value to the SOC readings iff it is a field 6
      at depth 2 or deeper. */
  lemma ClassifyOneSoc(t: Triple)
    ensures Classify([t]).socs == if IsSoc(t) then [t.value] else []
  {
    assert [t][..0] == [];
  }

  /** The SOC readings of a run of triples are those of its parts, in
      order: with `ClassifyOneSoc`, they are the values of the field-6
      triples at depth 2 or deeper, in input order. */
  lemma {:induction false} ClassifySocsAppend(a: seq<Triple>, b: seq<Triple>)
    ensures Classify(a + b).socs == Classify(a).socs + Classify(b).socs
    decreases |b|
  {
    if |b| == 0 {
      assert a + b == a;
    } else {
      var b' := b[..|b| - 1];
      var x := b[|b| - 1];
      assert (a + b)[..|a + b| - 1] == a + b';
      assert (a + b)[|a + b| - 1] == x;
      var add := if IsSoc(x) then [x.value] else [];
      assert Classify(a + b).socs == Classify(a + b').socs + add;
      assert Classify(b).socs == Classify(b').socs + add;
      ClassifySocsAppend(a, b');
      assert (Classify(a).socs + Classify(b').socs) + add == Classify(a).socs + (Classify(b').socs + add);
    }
  }

  /** Power is the signed conversion of the last field 28. */
  lemma {:induction false} ClassifyWatts(ts: seq<Triple>)
    ensures Classify(ts).updates.watts == (match LastField(ts, 28, false) case Some(k) => Some(ToSignedValue(ts[k].value)) case None => None)
  {
    if |ts| > 0 {
      var init := ts[..|ts| - 1];
      ClassifyWatts(init);
      if LastField(init, 28, false).Some? {
        assert init[LastField(init, 28, false).value] == ts[LastField(init, 28, false).value];
      }
    }
  }

  /** The grid is connected iff the last field 27 is 0. */
  lemma {:induction false} ClassifyGrid(ts: seq<Triple>)
    ensures Classify(ts).updates.grid == (match LastField(ts, 27, false) case Some(k) => Some(ts[k].value == 0) case None => None)
  {
    if |ts| > 0 {
      var init := ts[..|ts| - 1];
      ClassifyGrid(init);
      if LastField(init, 27, false).Some? {
        assert init[LastField(init, 27, false).value] == ts[LastField(init, 27, false).value];
      }
    }
  }

  /** The temperature is the last field 16 at depth 2, in hundredths. */
  lemma {:induction false} ClassifyTemp(ts: seq<Triple>)
    ensures Classify(ts).updates.temp == (match LastField(ts, 16, true) case Some(k) => Some(ts[k].value as real / 100.0) case None => None)
  {
    if |ts| > 0 {
      var init := ts[..|ts| - 1];
      ClassifyTemp(init);
      if LastField(init, 16, true).Some? {
        assert init[LastField(init, 16, true).value] == ts[LastField(init, 16, true).value];
      }
    }
  }

  /** A state publication: topic and JSON body. */
  datatype Publish = Publish(topic: string, body: Json)

  /** `on_message` for a message on `topic` with `payload` at time `now`,
      given the device registry and the topic root `base`
      (`ECOFLOW_BASE`). Topics that do not have exactly three parts are
      ignored; otherwise the device is registered if new, SOC readings
      update it first, then the other readings, and the state is published
      iff anything was seen. */
  function OnMessage(devices: map<string, DeviceState>, base: string, topic: string, payload: seq<Byte>, now: real)
    : (r: (map<string, DeviceState>, Option<Publish>))
    ensures |Text.Split(topic, '/')| != 3 ==> r == (devices, None)
    ensures |Text.Split(topic, '/')| == 3 ==>
      var id := Text.Split(topic, '/')[1];
      var f := Classify(ExtractTagsWithDepth(payload, 0, 4));
      && r.0.Keys == devices.Keys + {id}
      && (forall d :: d in devices && d != id ==> r.0[d] == devices[d])
      && (r.1.Some? <==> |f.socs| > 0 || !NoUpdates(f.updates))
      && (r.1.Some? ==> r.1.value == Publish(base + "/" + id + "/json/state", ToJson(r.0[id])))
      && (r.1.None? ==> r.0[id] == if id in devices then devices[id] else NewDeviceState(id))
    ensures |Text.Split(topic, '/')| == 3 ==>
      var id := Text.Split(topic, '/')[1];
      var f := Classify(ExtractTagsWithDepth(payload, 0, 4));
      var s0 := if id in devices then devices[id] else NewDeviceState(id);
      var u := f.updates;
      var d := r.0[id];
      && d.deviceId == s0.deviceId
      && d.socModules == UpdateSoc(s0, f.socs).socModules && d.soc == UpdateSoc(s0, f.socs).soc
      && d.tempCelsius == u.temp.GetOr(s0.tempCelsius)
      && GridFollows(d, s0, u.grid, now)
      && d.acInWatts == (match u.watts
                         case Some(w) => if IsGhostWattage(s0.acInWatts, w) then s0.acInWatts else w
                         case None => s0.acInWatts)
      && d.lastUpdate == (if NoUpdates(u) then s0.lastUpdate else now)
  {
    var parts := Text.Split(topic, '/');
    if |parts| != 3 then (devices, None)
    else
      var id := parts[1];
      var s0 := if id in devices then devices[id] else NewDeviceState(id);
      var f := Classify(ExtractTagsWithDepth(payload, 0, 4));
      var s1 := if |f.socs| > 0 then UpdateSoc(s0, f.socs) else s0;
      var s2 := if !NoUpdates(f.updates) then UpdatePower(s1, f.updates, now) else s1;
      var pub := if |f.socs| > 0 || !NoUpdates(f.updates) then Some(Publish(base + "/" + id + "/json/state", ToJson(s2))) else None;
      (devices[id := s2], pub)
  }
}
