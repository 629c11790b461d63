/** The cloud bridge service: its own copy of the varint encoder and the
    wake-up packet forger, the parsing of the configured device list, and
    the remapping of cloud topics onto the local broker's topic scheme. */
module CloudBridge {
  import opened Wrappers
  import opened Bytes
  import Varint
  import Wire
  import Text
  import SocBridge

  /** `ANDROID_SUFFIX`, from the hex string `ba0107616e64726f6964`. */
  const AndroidSuffix: seq<Byte> := [0xba, 0x01, 0x07, 0x61, 0x6e, 0x64, 0x72, 0x6f, 0x69, 0x64]

  /** The bytes of "android". */
  const Android: seq<Byte> := [0x61, 0x6e, 0x64, 0x72, 0x6f, 0x69, 0x64]

  // ---------------------------------------------------------------------
  // Packet forging
  // ---------------------------------------------------------------------

  /** `encode_varint`: emit the low seven bits, shift, and set the
      continuation bit on every byte after which something is left. The
      loop computes the shared base-128 encoding, which is also the SOC
      bridge's encoder. */
  method EncodeVarint(v: nat) returns (out: seq<Byte>)
    ensures out == Varint.Encode(v)
    ensures out == SocBridge.EncodeVarint(v)
  {
    out := [];
    var val := v;
    while true
      invariant out + Varint.Encode(val) == Varint.Encode(v)
      decreases val
    {
      var b := val % 128;
      var rest := val / 128;
      if rest != 0 {
        EncodeRound(out, val, v);
        out, val := out + [b + 128], rest;
      } else {
        EncodeFinal(out, val, v);
        out := out + [b];
        return;
      }
    }
  }

  lemma EncodeRound(out: seq<Byte>, val: nat, v: nat)
    requires out + Varint.Encode(val) == Varint.Encode(v) && val >= 128
    ensures out + [val % 128 + 128] + Varint.Encode(val / 128) == Varint.Encode(v)
  {
    Varint.EncodeStep(val);
    assert out + ([val % 128 + 128] + Varint.Encode(val / 128)) == out + [val % 128 + 128] + Varint.Encode(val / 128);
  }

  lemma EncodeFinal(out: seq<Byte>, val: nat, v: nat)
    requires out + Varint.Encode(val) == Varint.Encode(v) && val < 128
    ensures out + [val] == Varint.Encode(v)
  {
    Varint.EncodeLast(val);
  }

  /** `forge_packet(cmd_id)`, with the clock reading `int(time.time())`
      passed in as `seqNo`: byte for byte the packet the SOC bridge forges
      for the same sequence number. */
  method ForgePacket(cmd: nat, seqNo: nat) returns (p: seq<Byte>)
    ensures p == SocBridge.ForgePacket(cmd, seqNo)
    ensures |p| > 0 && p[0] == 0x0a
  {
    var es := EncodeVarint(seqNo);
    var header := [0x10, 0x20, 0x18, 0x20, 0x70] + es + AndroidSuffix;
    var ec := EncodeVarint(cmd);
    var payload := [0x08] + ec;
    var eh := EncodeVarint(|header|);
    var ep := EncodeVarint(|payload|);
    p := [0x0a] + eh + header + [0x12] + ep + payload;
  }

  /** The length prefix after the leading `0x0a` announces a header of five
      fixed bytes, the sequence number's varint and the ten-byte suffix. */
  lemma HeaderLengthPrefix(cmd: nat, seqNo: nat)
    ensures var p := SocBridge.ForgePacket(cmd, seqNo);
      var n := 5 + |Varint.Encode(seqNo)| + 10;
      Varint.Read(p, 1, None) == Success((n, 1 + |Varint.Encode(n)|))
  {
    var h, b := SocBridge.Header(seqNo), SocBridge.Body(cmd);
    var eh, eb := SocBridge.EncodeVarint(|h|), SocBridge.EncodeVarint(|b|);
    var p := SocBridge.ForgePacket(cmd, seqNo);
    SocBridge.TwoBlobLayout(p, h, b, eh, eb);
    SocBridge.HeaderBlobReads(p, h, b, eh, eb, 1 + |eh|);
  }

  /** `ANDROID_SUFFIX` read as one record: field 23, wire type 2, a body of
      seven bytes spelling "android", ending exactly at the suffix's end. */
  lemma AndroidSuffixRecord()
    ensures Wire.Step(AndroidSuffix, 0) == Some((Wire.BlobItem(23, 7, Android), 10))
    ensures AndroidSuffix == SocBridge.AndroidSuffix
  {
    assert Varint.Encode(186) == [0xba, 0x01] by {
      Varint.EncodeStep(186);
      Varint.EncodeLast(1);
    }
    assert Varint.Encode(7) == [0x07] by {
      Varint.EncodeLast(7);
    }
    assert AndroidSuffix == Varint.Encode(186) + Varint.Encode(|Android|) + Android;
    assert At(AndroidSuffix, 0, AndroidSuffix);
    Wire.BlobReads(AndroidSuffix, 0, 186, Android, [0xba, 0x01], [0x07]);
    Wire.StepBlob(AndroidSuffix, 0, 186, 2, Android, 3);
  }


  // ---------------------------------------------------------------------
  // Device list
  // ---------------------------------------------------------------------

  /** `[s.strip() for s in parts if s.strip()]` */
  function Kept(parts: seq<string>): (r: seq<string>)
    ensures |r| <= |parts|
    ensures forall k :: 0 <= k < |r| ==> Text.Stripped(r[k])
  {
    if |parts| == 0 then []
    else
      var h, t := KeptOne(parts[0]), Kept(parts[1..]);
      AllStripped(h, t);
      h + t
  }

  lemma AllStripped(h: seq<string>, t: seq<string>)
    requires forall k :: 0 <= k < |h| ==> Text.Stripped(h[k])
    requires forall k :: 0 <= k < |t| ==> Text.Stripped(t[k])
    ensures forall k :: 0 <= k < |h + t| ==> Text.Stripped((h + t)[k])
  {
    forall k | 0 <= k < |h + t| ensures Text.Stripped((h + t)[k]) {
      if k < |h| {
        assert (h + t)[k] == h[k];
      } else {
        assert (h + t)[k] == t[k - |h|];
      }
    }
  }

  /** One part's contribution: its strip, unless that is empty. */
  function KeptOne(part: string): (r: seq<string>)
    ensures |r| <= 1
    ensures forall k :: 0 <= k < |r| ==> r[k] == Text.Strip(part) && Text.Stripped(r[k])
  {
    var s := Text.Strip(part);
    if s != [] then [s] else []
  }

  /** The kept entries of consecutive runs of parts follow one another: the
      filter keeps the configured order. */
  lemma {:induction false} KeptAppend(a: seq<string>, b: seq<string>)
    ensures Kept(a + b) == Kept(a) + Kept(b)
  {
    if |a| > 0 {
      var ab := a + b;
      assert ab[0] == a[0] && ab[1..] == a[1..] + b;
      KeptAppend(a[1..], b);
      Regroup3(KeptOne(a[0]), Kept(a[1..]), Kept(b));
    } else {
      assert a + b == b;
    }
  }

  lemma Regroup3<T>(x: seq<T>, y: seq<T>, z: seq<T>)
    ensures x + (y + z) == x + y + z
  {
  }

  /** An entry is kept iff it is the non-empty strip of some part. */
  lemma {:induction false} KeptMembers(parts: seq<string>, e: string)
    ensures e in Kept(parts) <==> e != [] && exists k :: 0 <= k < |parts| && Text.Strip(parts[k]) == e
  {
    if |parts| > 0 {
      KeptMembers(parts[1..], e);
      if e != [] && (exists k :: 0 <= k < |parts| && Text.Strip(parts[k]) == e) {
        var k :| 0 <= k < |parts| && Text.Strip(parts[k]) == e;
        if k > 0 {
          assert Text.Strip(parts[1..][k - 1]) == e;
        }
      }
      if e in Kept(parts[1..]) {
        var k :| 0 <= k < |parts| - 1 && Text.Strip(parts[1..][k]) == e;
        assert Text.Strip(parts[k + 1]) == e;
      }
    }
  }

  /** `[s.strip() for s in DEVICE_LIST_STR.split(",") if s.strip()]`: the
      serial numbers in configured order, none empty, none holding a comma,
      none with surrounding whitespace. */
  function DeviceList(config: string): (r: seq<string>)
    ensures forall k :: 0 <= k < |r| ==> r[k] != [] && ',' !in r[k]
    ensures forall k :: 0 <= k < |r| ==> Text.Stripped(r[k])
  {
    var parts := Text.Split(config, ',');
    var r := Kept(parts);
    forall k | 0 <= k < |r| ensures ',' !in r[k] {
      KeptMembers(parts, r[k]);
      var j :| 0 <= j < |parts| && Text.Strip(parts[j]) == r[k];
      Text.StripWithin(parts[j], ',');
    }
    r
  }

  /** A comma-free configuration names at most one device: its strip,
      unless that is empty. */
  lemma DeviceListSingle(x: string)
    requires ',' !in x
    ensures DeviceList(x) == (if Text.Strip(x) == [] then [] else [Text.Strip(x)])
  {
    Text.SplitNoSep(x, ',');
  }

  /** The devices of two comma-joined pieces are the devices of the first
      piece followed by those of the second. */
  lemma DeviceListAppend(a: string, b: string)
    ensures DeviceList(a + "," + b) == DeviceList(a) + DeviceList(b)
  {
    Text.SplitAppend(a, ',', b);
    KeptAppend(Text.Split(a, ','), Text.Split(b, ','));
  }

  predicate Trimmed(n: string) {
    Text.Stripped(n) && ',' !in n
  }

  /** A trimmed serial number on its own is the one device it names. */
  lemma DeviceListTrimmed(x: string)
    requires Trimmed(x)
    ensures DeviceList(x) == [x]
  {
    DeviceListSingle(x);
    Text.StripTrimmed(x);
  }

  /** Round trip: serial numbers without commas or surrounding whitespace,
      joined with commas, are parsed back in order. */
  lemma {:induction false} DeviceListJoin(ns: seq<string>)
    requires forall k :: 0 <= k < |ns| ==> Trimmed(ns[k])
    ensures DeviceList(Text.Join(ns, ",")) == ns
  {
    if |ns| == 0 {
      DeviceListSingle("");
      assert Text.Strip("") == "";
    } else if |ns| == 1 {
      DeviceListTrimmed(ns[0]);
    } else {
      var x, rest := ns[0], ns[1..];
      var t := Text.Join(rest, ",");
      DeviceListJoin(rest);
      DeviceListTrimmed(x);
      DeviceListAppend(x, t);
      assert Text.Join(ns, ",") == x + "," + t;
      assert ns == [x] + rest;
    }
  }

  // ---------------------------------------------------------------------
  // Topic remap
  // ---------------------------------------------------------------------

  /** `msg.topic.split('/')[-1]` */
  function LastSegment(topic: string): (sn: string)
    ensures '/' !in sn
    ensures Text.EndsWith(topic, sn)
    ensures var parts := Text.Split(topic, '/'); sn == parts[|parts| - 1]
  {
    Text.LastSegmentSpec(topic, '/');
    Text.LastPart(topic, '/')
  }

  /** `on_cloud_message`'s local topic `bridge-ecoflow/{sn}/data`. */
  function LocalTopic(topic: string): (t: string)
    ensures Text.StartsWith(t, "bridge-ecoflow/") && Text.EndsWith(t, "/data")
  {
    "bridge-ecoflow/" + LastSegment(topic) + "/data"
  }

  /** A message on any topic ending in `/{sn}`, in particular the
      subscribed `/app/device/property/{sn}`, is forwarded to
      `bridge-ecoflow/{sn}/data` on the local broker. */
  lemma RemapTopic(prefix: string, sn: string)
    requires '/' !in sn
    ensures LocalTopic(prefix + "/" + sn) == "bridge-ecoflow/" + sn + "/data"
  {
    Text.SplitLastAfter(prefix, '/', sn);
  }
}
