/** The tag finder: it scans every data message for varints at any depth,
    reads values just below 2^32 as negative numbers, and reports each tag
    whose value falls in the range of one of the labelled quantities the
    user is looking for, once per label and tag. */
module FindTags {
  import opened Wrappers
  import opened Bytes
  import Text
  import TagScan
  import opened TagKey

  /** `scan_payload(payload, depth)`: every varint is kept. */
  function ScanPayload(p: seq<Byte>, depth: nat): (r: map<Key, nat>)
    ensures forall x :: x in r ==> x.depth >= depth
  {
    TagScan.ScanPayloadSpec(p, depth, None);
    TagScan.ScanPayload(p, depth, None)
  }

  /** Every key lies at the scan's depth or deeper, and keeps the value of its
      last occurrence in the walk, nested blobs included. */
  lemma ScanPayloadSpec(p: seq<Byte>, depth: nat)
    ensures var m := ScanPayload(p, depth);
      forall x :: x in m ==> x.depth >= depth
    ensures var m := ScanPayload(p, depth); var s := TagScan.Stores(p, 0, depth, None);
      && (forall j :: 0 <= j < |s| ==> s[j].0 in m)
      && (forall j :: 0 <= j < |s| && (forall k :: j < k < |s| ==> s[k].0 != s[j].0) ==>
            m[s[j].0] == s[j].1)
  {
    TagScan.ScanPayloadSpec(p, depth, None);
  }

  /** Above this a value is taken for a negative 32-bit number. */
  const SignedThreshold: nat := 4294900000

  /** `real_val`: `val - 4294967296` above the threshold, `val` otherwise. */
  function RealValue(v: nat): (r: int)
    ensures v <= SignedThreshold ==> r == v
    ensures SignedThreshold < v < 0x1_0000_0000 ==> -67296 < r < 0
    ensures v >= 0x1_0000_0000 ==> r == v - 0x1_0000_0000
  {
    if v > SignedThreshold then v - 0x1_0000_0000 else v
  }

  /** A labelled range `(low, high)` of `TARGETS`. */
  datatype Target = Target(name: string, low: int, high: int)

  /** `TARGETS`, in its order. */
  const Targets: seq<Target> := [
    Target("VOLTAGE_230V", 2150, 2450),
    Target("LOAD_METERKAST", 850, 1150),
    Target("LOAD_STUDY", 1800, 3000),
    Target("SOC", 80, 90)
  ]

  predicate IsLabel(name: string) {
    exists t :: t in Targets && t.name == name
  }

  /** The range of a label. */
  function RangeOf(name: string): (t: Target)
    requires IsLabel(name)
    ensures t in Targets && t.name == name
  {
    if name == Targets[0].name then Targets[0]
    else if name == Targets[1].name then Targets[1]
    else if name == Targets[2].name then Targets[2]
    else Targets[3]
  }

  /** `low <= real_val <= high`, both bounds included. */
  predicate InRange(name: string, v: nat)
    requires IsLabel(name)
  {
    RangeOf(name).low <= RealValue(v) <= RangeOf(name).high
  }

  /** `known_candidates`: the tags reported so far, per label. */
  type Known = map<string, set<Key>>

  predicate ValidKnown(known: Known) {
    forall t :: t in Targets ==> t.name in known
  }

  /** `{k: set() for k in TARGETS}` */
  function NewKnown(): (k: Known)
    ensures ValidKnown(k)
    ensures forall l :: l in k ==> k[l] == {}
  {
    map t | t in Targets :: t.name := {}
  }

  /** A printed `MATCH FOUND` line. */
  datatype Match = Match(name: string, tag: Key, value: int)

  /** `on_message`: for a topic ending in `/data`, the matches of the
      payload's tags not reported before under their label, and the known
      tags with those added. Other topics change nothing. */
  function OnMessage(known: Known, topic: string, payload: seq<Byte>): (r: (Known, set<Match>))
    requires ValidKnown(known)
    ensures ValidKnown(r.0)
    ensures !Text.EndsWith(topic, "/data") ==> r == (known, {})
    ensures Text.EndsWith(topic, "/data") ==>
      var values := ScanPayload(payload, 0);
      && (forall m :: m in r.1 ==>
            && IsLabel(m.name) && m.tag in values && InRange(m.name, values[m.tag])
            && m.value == RealValue(values[m.tag]) && m.tag !in known[m.name])
      && (forall l, x :: IsLabel(l) && x in values && InRange(l, values[x]) && x !in known[l] ==>
            Match(l, x, RealValue(values[x])) in r.1)
    ensures forall l :: l in known ==> l in r.0 && known[l] <= r.0[l]
    ensures forall l :: l in r.0 ==> l in known
    ensures forall l :: l in r.0 ==> r.0[l] == known[l] + (set m | m in r.1 && m.name == l :: m.tag)
  {
    if !Text.EndsWith(topic, "/data") then (known, {})
    else
      var values := ScanPayload(payload, 0);
      var found := set l, x | l in known && IsLabel(l) && x in values && InRange(l, values[x]) && x !in known[l] ::
        Match(l, x, RealValue(values[x]));
      var known' := map l | l in known :: known[l] + (set m | m in found && m.name == l :: m.tag);
      (known', found)
  }

  /** Each label and tag is reported at most once: the same message a second
      time reports nothing. */
  lemma ReportedOnce(known: Known, topic: string, payload: seq<Byte>)
    requires ValidKnown(known)
    ensures var (k1, _) := OnMessage(known, topic, payload);
      OnMessage(k1, topic, payload).1 == {}
  {
  }
}
