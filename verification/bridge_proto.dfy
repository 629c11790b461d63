/** The archived protobuf bridge: it takes mirrored device messages on
    `bridge-ecoflow/<device>/<leaf>`, extracts the run of field-1 frames of
    the payload and publishes one decoded heartbeat or one decode error per
    frame, or a single diagnostic when there is no frame. Its varint reader
    stops once the shift passes 64. The generated heartbeat decoder is not
    part of this model: it is a parameter that succeeds or reports an
    error. */
module BridgeProto {
  import opened Wrappers
  import opened Bytes
  import Varint
  import Text
  import Field1Run
  import DecodeService

  /** The first topic segment `parse_topic` expects. */
  const Root: string := "bridge-ecoflow"

  /** `_read_varint(buf, i)`: an error once the shift passes 64. */
  function ReadVarint(buf: seq<Byte>, i: nat): (r: Result<(nat, nat), Varint.VarintError>)
    ensures r.Success? ==> i < r.value.1 <= |buf|
  {
    Varint.Read(buf, i, Some(64))
  }

  /** The ceiling admits nine continuation bytes and the terminator: a varint
      of at most ten bytes reads as the ceiling-free reader reads it, and a
      longer one is refused. */
  lemma ReadVarintLength(buf: seq<Byte>, i: nat)
    ensures var j := Varint.FirstTerminator(buf, i);
      ReadVarint(buf, i).Success? <==> j < |buf| && j - i <= 9
    ensures ReadVarint(buf, i).Success? ==>
      ReadVarint(buf, i) == Varint.Read(buf, i, None) && ReadVarint(buf, i).value.1 <= i + 10
  {
    Varint.ReadSpec(buf, i, Some(64));
    Varint.ReadSpec(buf, i, None);
  }

  /** Everything this reader accepts, the decode service's reader accepts
      with the same value and end. */
  lemma ReadVarintAgrees(buf: seq<Byte>, i: nat)
    requires ReadVarint(buf, i).Success?
    ensures DecodeService.ReadVarint(buf, i) == ReadVarint(buf, i)
  {
    Varint.CeilingMonotone(buf, i, 64, 70);
  }

  /** `extract_len_delimited_field1_messages(payload)` */
  function Field1Messages(p: seq<Byte>): (r: seq<seq<Byte>>)
    ensures forall k :: 0 <= k < |r| ==> 0 < |r[k]| && |r[k]| + 2 <= |p|
  {
    Field1Run.Extract(p, 0, Some(64))
  }

  /** Round trip: the frames of a run of field-1 records whose lengths take
      at most ten bytes are the records' bodies, whatever follows the run
      provided it does not start with 0x0A. */
  lemma Field1RoundTrip(bs: seq<seq<Byte>>, suf: seq<Byte>)
    requires forall k :: 0 <= k < |bs| ==> |bs[k]| > 0 && |Varint.Encode(|bs[k]|)| <= 10
    requires |suf| == 0 || suf[0] != 0x0A
    ensures Field1Messages(Field1Run.Records(bs) + suf) == bs
  {
    Field1Run.RoundTrip(bs, suf, Some(64));
  }

  /** The bridge's frames are a leading part of the decode service's: the
      two copies differ only where a length needs eleven bytes. */
  lemma Field1AgreesWithDecodeService(p: seq<Byte>)
    ensures var a := Field1Messages(p); var b := DecodeService.Field1(p);
      |a| <= |b| && b[..|a|] == a
  {
    Field1Run.CeilingPrefix(p, 0, 64, 70);
  }

  // ---------------------------------------------------------------------
  // Topics

  /** `parse_topic(topic)`: the device and the rest of the path after the
      root, or `unknown` and the whole topic. */
  function ParseTopic(topic: string): (string, string) {
    var parts := Text.Split(topic, '/');
    if |parts| >= 3 && parts[0] == Root then (parts[1], Text.Join(parts[2..], "/"))
    else ("unknown", topic)
  }

  lemma RootHasNoSlash()
    ensures '/' !in Root
  {
  }

  /** A mirrored topic parses to its device and leaf; the leaf may itself
      hold further segments. */
  lemma ParseTopicOf(d: string, leaf: string)
    requires '/' !in d
    ensures ParseTopic(Root + "/" + d + "/" + leaf) == (d, leaf)
  {
    RootHasNoSlash();
    Text.SplitTwo(Root, d, leaf, '/');
    var parts := Text.Split(Root + "/" + d + "/" + leaf, '/');
    assert parts[2..] == Text.Split(leaf, '/');
    Text.SplitJoin(leaf, '/');
  }

  /** Conversely every topic either parses to `unknown` and itself, or is
      the root, a device without '/', and the leaf, joined by '/'. */
  lemma ParseTopicInverse(t: string)
    ensures var (d, l) := ParseTopic(t);
      (d, l) == ("unknown", t) || ('/' !in d && t == Root + "/" + d + "/" + l)
  {
    var parts := Text.Split(t, '/');
    Text.SplitJoin(t, '/');
    if |parts| >= 3 && parts[0] == Root {
      assert parts[1..][1..] == parts[2..];
      assert Text.Join(parts, "/") == parts[0] + "/" + (parts[1] + "/" + Text.Join(parts[2..], "/"));
    }
  }

  /** A bare leaf topic such as `data` is not under the root, parses to the
      `unknown` device, and is still a leaf the handler processes. */
  lemma BareLeafTopic()
    ensures ParseTopic("data") == ("unknown", "data") && Decodable("data")
  {
    Text.SplitNoSep("data", '/');
  }

  /** `pub_topic(device, leaf, suffix)` under the publish root `root`. */
  function PubTopic(root: string, device: string, leaf: string, suffix: string): string {
    root + "/" + device + "/json/" + Text.ReplaceChar(leaf, '/', '_') + "/" + suffix
  }

  /** A published topic is its five segments joined by '/'. */
  lemma PubTopicJoin(root: string, device: string, leaf: string, suffix: string)
    ensures var safe := Text.ReplaceChar(leaf, '/', '_');
      Text.Join([root, device, "json", safe, suffix], "/") == PubTopic(root, device, leaf, suffix)
  {
    var safe := Text.ReplaceChar(leaf, '/', '_');
    var parts := [root, device, "json", safe, suffix];
    assert Text.Join(parts[3..], "/") == safe + "/" + suffix by {
      assert parts[3..][1..] == [suffix];
    }
    assert Text.Join(parts[2..], "/") == "json" + "/" + (safe + "/" + suffix) by {
      assert parts[2..][1..] == parts[3..];
    }
    assert Text.Join(parts[1..], "/") == device + "/" + ("json" + "/" + (safe + "/" + suffix)) by {
      assert parts[1..][1..] == parts[2..];
    }
    assert Text.Join(parts, "/") == root + "/" + (device + "/" + ("json" + "/" + (safe + "/" + suffix)));
  }

  /** The five segments of a published topic are free of '/' when the root,
      device, leaf and suffix are. */
  lemma SegmentsFree(root: string, device: string, safe: string, suffix: string)
    requires '/' !in root && '/' !in device && '/' !in safe && '/' !in suffix
    ensures var parts := [root, device, "json", safe, suffix];
      forall k :: 0 <= k < |parts| ==> '/' !in parts[k]
  {
    var parts := [root, device, "json", safe, suffix];
    assert '/' !in "json";
    forall k | 0 <= k < |parts| ensures '/' !in parts[k] {
      if k == 0 {
        assert parts[k] == root;
      } else if k == 1 {
        assert parts[k] == device;
      } else if k == 2 {
        assert parts[k] == "json";
      } else if k == 3 {
        assert parts[k] == safe;
      } else {
        assert parts[k] == suffix;
      }
    }
  }

  /** With root, device and suffix free of '/', a published topic has exactly
      five segments, the fourth being the leaf with every '/' turned into
      '_'; a leaf without '/' is kept as it is. */
  lemma PubTopicSegments(root: string, device: string, leaf: string, suffix: string)
    requires '/' !in root && '/' !in device && '/' !in suffix
    ensures var safe := Text.ReplaceChar(leaf, '/', '_');
      && Text.Split(PubTopic(root, device, leaf, suffix), '/') == [root, device, "json", safe, suffix]
      && ('/' !in leaf ==> safe == leaf)
  {
    var safe := Text.ReplaceChar(leaf, '/', '_');
    var parts := [root, device, "json", safe, suffix];
    assert '/' !in safe by {
      forall k | 0 <= k < |safe| ensures safe[k] != '/' {
      }
    }
    SegmentsFree(root, device, safe, suffix);
    assert Text.Split(Text.Join(parts, "/"), '/') == parts by {
      Text.JoinSplit(parts, '/');
    }
    assert Text.Join(parts, "/") == PubTopic(root, device, leaf, suffix) by {
      PubTopicJoin(root, device, leaf, suffix);
    }
    assert '/' !in leaf ==> safe == leaf;
  }

  // ---------------------------------------------------------------------
  // Message handling

  /** The leaves the handler processes. */
  predicate Decodable(leaf: string) {
    leaf == "data" || leaf == "get_reply" || leaf == "set_reply"
  }

  /** Fields common to every per-frame output; `rawHex` is present when raw
      publishing is switched on. */
  datatype Base = Base(ts: int, srcTopic: string, device: string, leaf: string,
                       frameIndex: nat, innerLen: nat, rawHex: Option<string>)

  datatype Output<D> =
    | Diagnostic(ts: int, srcTopic: string, device: string, leaf: string, payloadLen: nat)
    | Heartbeat(base: Base, decoded: D)
    | DecodeFailure(base: Base, error: string)

  datatype Publication<D> = Publication(topic: string, body: Output<D>)

  /** One frame: its decoded heartbeat, or the decoder's error. */
  function FrameOutput<D>(root: string, topic: string, device: string, leaf: string, ts: int, rawHex: bool,
                          decode: seq<Byte> -> Result<D, string>, k: nat, inner: seq<Byte>): Publication<D>
  {
    var base := Base(ts, topic, device, leaf, k, |inner|, if rawHex then Some(Hex(inner)) else None);
    match decode(inner)
    case Success(d) => Publication(PubTopic(root, device, leaf, "heartbeat"), Heartbeat(base, d))
    case Failure(e) => Publication(PubTopic(root, device, leaf, "decode_error"), DecodeFailure(base, "DecodeError: " + e))
  }

  /** `on_message` with the clock reading `ts`, the publish root, the raw-hex
      switch and the heartbeat decoder as parameters. */
  function OnMessage<D>(root: string, topic: string, payload: seq<Byte>, ts: int, rawHex: bool,
                        decode: seq<Byte> -> Result<D, string>): (r: seq<Publication<D>>)
    ensures var (device, leaf) := ParseTopic(topic);
      var inners := Field1Messages(payload);
      && (!Decodable(leaf) ==> r == [])
      && (Decodable(leaf) && |inners| == 0 ==>
            && |r| == 1 && r[0].body.Diagnostic? && r[0].body.payloadLen == |payload|
            && r[0].topic == PubTopic(root, device, leaf, "diagnostic"))
      && (Decodable(leaf) && |inners| > 0 ==>
            && |r| == |inners|
            && forall k :: 0 <= k < |r| ==>
              && !r[k].body.Diagnostic?
              && r[k].body.base.frameIndex == k && r[k].body.base.innerLen == |inners[k]|
              && (r[k].body.Heartbeat? <==> decode(inners[k]).Success?)
              && r[k].topic == PubTopic(root, device, leaf, if r[k].body.Heartbeat? then "heartbeat" else "decode_error"))
  {
    var (device, leaf) := ParseTopic(topic);
    if !Decodable(leaf) then []
    else
      var inners := Field1Messages(payload);
      if |inners| == 0 then
        [Publication(PubTopic(root, device, leaf, "diagnostic"), Diagnostic(ts, topic, device, leaf, |payload|))]
      else
        seq(|inners|, k requires 0 <= k < |inners| => FrameOutput(root, topic, device, leaf, ts, rawHex, decode, k, inners[k]))
  }
}
