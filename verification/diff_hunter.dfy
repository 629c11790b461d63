/** The diff hunter: it keeps the latest value of every varint under its
    depth/field key, takes a snapshot with the device plugged in and one
    after it is unplugged, and lists the keys whose value moved by more
    than five. Its walker reads records exactly as the reference reader
    does and drops values of 999999 and more as junk. */
module DiffHunter {
  import opened Wrappers
  import opened Bytes
  import Text
  import TagScan
  import opened TagKey

  /** Values at or above this are not stored. */
  const JunkCeiling: nat := 999999

  /** Changes of at most this size are jitter. */
  const Jitter: nat := 5

  /** `scan_payload(payload, depth)` */
  function ScanPayload(p: seq<Byte>, depth: nat): (r: map<Key, nat>)
    ensures forall x :: x in r ==> x.depth >= depth && r[x] < JunkCeiling
  {
    TagScan.ScanPayloadSpec(p, depth, Some(JunkCeiling));
    TagScan.ScanPayload(p, depth, Some(JunkCeiling))
  }

  /** Every stored key lies at the scan's depth or deeper, every stored value
      is below 999999, and a key keeps the value of its last occurrence in
      the walk, nested blobs included. */
  lemma ScanPayloadSpec(p: seq<Byte>, depth: nat)
    ensures var m := ScanPayload(p, depth);
      forall x :: x in m ==> x.depth >= depth && m[x] < JunkCeiling
    ensures var m := ScanPayload(p, depth); var s := TagScan.Stores(p, 0, depth, Some(JunkCeiling));
      && (forall j :: 0 <= j < |s| ==> s[j].0 in m)
      && (forall j :: 0 <= j < |s| && (forall k :: j < k < |s| ==> s[k].0 != s[j].0) ==>
            m[s[j].0] == s[j].1)
  {
    TagScan.ScanPayloadSpec(p, depth, Some(JunkCeiling));
  }

  /** The device name looked for in the topic, in lower case. */
  const Target: string := "study"

  /** `on_message`: a topic ending in `/data` that names the target device
      (in any case) has its payload scanned and the values found written
      over `latest_state`; every other topic leaves it as it was. */
  function OnMessage(latest: map<Key, nat>, topic: string, payload: seq<Byte>): (r: map<Key, nat>)
    ensures var wanted := Text.EndsWith(topic, "/data") && Text.Contains(Text.Lower(topic), Target);
      var found := ScanPayload(payload, 0);
      && (!wanted ==> r == latest)
      && (wanted ==>
            && r.Keys == latest.Keys + found.Keys
            && (forall k :: k in found ==> r[k] == found[k])
            && (forall k :: k in latest && k !in found ==> r[k] == latest[k]))
  {
    if !Text.EndsWith(topic, "/data") then latest
    else if !Text.Contains(Text.Lower(topic), Target) then latest
    else latest + ScanPayload(payload, 0)
  }

  /** The latest state never holds a junk value: if none was there before a
      message, none is there after it. */
  lemma OnMessageBelowCeiling(latest: map<Key, nat>, topic: string, payload: seq<Byte>)
    requires forall k :: k in latest ==> latest[k] < JunkCeiling
    ensures var r := OnMessage(latest, topic, payload); forall k :: k in r ==> r[k] < JunkCeiling
  {
    ScanPayloadSpec(payload, 0);
  }

  // ---------------------------------------------------------------------
  // Snapshot comparison

  /** One reported line of the analysis. */
  datatype Row = Row(tag: Key, plugged: nat, unplugged: nat, diff: int, likelyVoltage: bool)

  /** `snapshot_b.get(tag, val_a)` */
  function After(a: map<Key, nat>, b: map<Key, nat>, k: Key): nat
    requires k in a
  {
    if k in b then b[k] else a[k]
  }

  function Abs(x: int): nat {
    if x < 0 then -x else x
  }

  /** The loop of `main` over the first snapshot: a row for every key of
      `a` whose value differs from the second snapshot's by more than the
      jitter, the key's value in `a` standing in when `b` lacks it. So a
      key missing from the second snapshot is never reported, and no key
      is reported twice. */
  function Compare(a: map<Key, nat>, b: map<Key, nat>): (rows: set<Row>)
    ensures forall r :: r in rows ==>
      && r.tag in a && r.plugged == a[r.tag]
      && r.unplugged == (if r.tag in b then b[r.tag] else a[r.tag])
      && r.diff == r.plugged - r.unplugged && Abs(r.diff) > Jitter
      && (r.likelyVoltage <==> r.plugged > 2000 && r.unplugged < 100)
    ensures forall k :: k in a && Abs(a[k] - After(a, b, k)) > Jitter ==>
      exists r :: r in rows && r.tag == k
    ensures forall r :: r in rows ==> r.tag in b
    ensures forall r, s :: r in rows && s in rows && r.tag == s.tag ==> r == s
  {
    set k | k in a && Abs(a[k] - After(a, b, k)) > Jitter ::
      Row(k, a[k], After(a, b, k), a[k] - After(a, b, k), a[k] > 2000 && After(a, b, k) < 100)
  }

  /** The analysis: `None` when nothing was captured with the device plugged
      in (the tool exits), otherwise the rows; an empty set of rows is the
      "No significant changes detected." outcome. */
  function Analyse(a: map<Key, nat>, b: map<Key, nat>): (r: Option<set<Row>>)
    ensures r.None? <==> |a| == 0
    ensures r.Some? ==> r.value == Compare(a, b)
  {
    if |a| == 0 then None else Some(Compare(a, b))
  }
}
