/** The field-1 run extractor that the two archived bridges each carry a
    copy of: starting at the front of a payload, read records
    `0x0A <length varint> <body>` for as long as the next byte is 0x0A, the
    length reads, is positive and the body fits, and stop silently at the
    first record that violates any of these. The copies differ only in the
    ceiling of their varint reader, which is a parameter here. */
module Field1Run {
  import opened Wrappers
  import opened Bytes
  import Varint

  /** The run from offset `i`; every body is non-empty and at least two
      bytes shorter than what remains from `i`. */
  function Extract(p: seq<Byte>, i: nat, cap: Option<nat>): (r: seq<seq<Byte>>)
    ensures forall k :: 0 <= k < |r| ==> 0 < |r[k]| && |r[k]| + 2 <= |p| - i
    decreases |p| - i
  {
    if i >= |p| || p[i] != 0x0A then []
    else match Varint.Read(p, i + 1, cap)
      case Failure(_) => []
      case Success((ln, k)) =>
        if ln == 0 || k + ln > |p| then []
        else [p[k..k + ln]] + Extract(p, k + ln, cap)
  }

  /** One record as a writer lays it out. */
  function Record(b: seq<Byte>): seq<Byte> {
    [0x0A] + Varint.Encode(|b|) + b
  }

  function Records(bs: seq<seq<Byte>>): seq<Byte> {
    if |bs| == 0 then [] else Record(bs[0]) + Records(bs[1..])
  }

  /** Bodies the extractor can give back: non-empty, with a length prefix
      short enough for the reader's ceiling. */
  predicate Fit(bs: seq<seq<Byte>>, cap: Option<nat>) {
    forall k :: 0 <= k < |bs| ==> |bs[k]| > 0 && Varint.WithinCap(|Varint.Encode(|bs[k]|)| - 1, 0, cap)
  }

  lemma FitTail(bs: seq<seq<Byte>>, cap: Option<nat>)
    requires |bs| > 0 && Fit(bs, cap)
    ensures Fit(bs[1..], cap)
  {
    forall k | 0 <= k < |bs| - 1
      ensures |bs[1..][k]| > 0 && Varint.WithinCap(|Varint.Encode(|bs[1..][k]|)| - 1, 0, cap)
    {
      assert bs[1..][k] == bs[k + 1];
    }
  }

  /** The bytes of a record: the 0x0A, its length and its body. */
  lemma RecordFields(p: seq<Byte>, i: nat, b: seq<Byte>, cap: Option<nat>) returns (k: nat)
    requires At(p, i, Record(b))
    requires Varint.WithinCap(|Varint.Encode(|b|)| - 1, 0, cap)
    ensures k == i + 1 + |Varint.Encode(|b|)| && k + |b| == i + |Record(b)|
    ensures p[i] == 0x0A && Varint.Read(p, i + 1, cap) == Success((|b|, k)) && At(p, k, b)
  {
    var e := Varint.Encode(|b|);
    AtSplit(p, i, [0x0A] + e, b);
    AtSplit(p, i, [0x0A], e);
    assert p[i] == 0x0A;
    Varint.ReadEncoded(p, i + 1, |b|, cap);
    k := i + 1 + |e|;
  }

  /** A record at offset `i` is read as its body, and the run goes on at
      `next`, just after it. */
  lemma RecordReads(p: seq<Byte>, i: nat, b: seq<Byte>, next: nat, cap: Option<nat>)
    requires At(p, i, Record(b)) && next == i + |Record(b)|
    requires |b| > 0 && Varint.WithinCap(|Varint.Encode(|b|)| - 1, 0, cap)
    ensures Extract(p, i, cap) == [b] + Extract(p, next, cap)
  {
    var k := RecordFields(p, i, b, cap);
    UnfoldRecord(p, i, k, b, next, cap);
  }

  /** One step of the extractor over a record whose length has been read. */
  lemma UnfoldRecord(p: seq<Byte>, i: nat, k: nat, b: seq<Byte>, next: nat, cap: Option<nat>)
    requires i < |p| && p[i] == 0x0A && |b| > 0
    requires Varint.Read(p, i + 1, cap) == Success((|b|, k)) && At(p, k, b) && next == k + |b|
    ensures Extract(p, i, cap) == [b] + Extract(p, next, cap)
  {
    assert p[k..k + |b|] == b;
  }

  lemma EmptyFront<T>(x: seq<T>, y: seq<T>)
    ensures [] + x + y == x + y
  {
  }

  lemma Regroup4<T>(w: seq<T>, x: seq<T>, y: seq<T>, z: seq<T>)
    ensures w + (x + y) + z == w + x + (y + z)
    ensures w + (x + y) + z == (w + x) + y + z
  {
  }

  /** The run stops at a byte other than 0x0A, or at the end. */
  lemma Stops(pre: seq<Byte>, suf: seq<Byte>, cap: Option<nat>)
    requires |suf| == 0 || suf[0] != 0x0A
    ensures Extract(pre + [] + suf, |pre|, cap) == []
  {
    var p := pre + [] + suf;
    if |suf| > 0 {
      assert p[|pre|] == suf[0];
    }
  }

  lemma {:induction false} ReadsRecords(pre: seq<Byte>, bs: seq<seq<Byte>>, suf: seq<Byte>, cap: Option<nat>)
    requires Fit(bs, cap)
    requires |suf| == 0 || suf[0] != 0x0A
    ensures Extract(pre + Records(bs) + suf, |pre|, cap) == bs
    decreases |bs|
  {
    var p := pre + Records(bs) + suf;
    if |bs| == 0 {
      assert Records(bs) == [] && bs == [];
      Stops(pre, suf, cap);
    } else {
      var b := bs[0];
      var tail := Records(bs[1..]) + suf;
      Regroup4(pre, Record(b), Records(bs[1..]), suf);
      AtConcat(pre, Record(b), tail);
      var pre' := pre + Record(b);
      RecordReads(p, |pre|, b, |pre'|, cap);
      assert p == pre' + Records(bs[1..]) + suf;
      FitTail(bs, cap);
      ReadsRecords(pre', bs[1..], suf, cap);
      assert [b] + bs[1..] == bs;
    }
  }

  /** Round trip: the extractor returns exactly the bodies of a run of
      records, however the buffer continues after the run so long as the
      next byte is not another 0x0A. */
  lemma RoundTrip(bs: seq<seq<Byte>>, suf: seq<Byte>, cap: Option<nat>)
    requires Fit(bs, cap)
    requires |suf| == 0 || suf[0] != 0x0A
    ensures Extract(Records(bs) + suf, 0, cap) == bs
  {
    EmptyFront(Records(bs), suf);
    ReadsRecords([], bs, suf, cap);
  }

  /** A reader with a lower ceiling yields a leading part of the run a reader
      with a higher ceiling yields: it can only stop earlier. */
  lemma {:induction false} CeilingPrefix(p: seq<Byte>, i: nat, lo: nat, hi: nat)
    requires lo <= hi
    ensures var a := Extract(p, i, Some(lo)); var b := Extract(p, i, Some(hi));
      |a| <= |b| && b[..|a|] == a
    decreases |p| - i
  {
    if i < |p| && p[i] == 0x0A && Varint.Read(p, i + 1, Some(lo)).Success? {
      Varint.CeilingMonotone(p, i + 1, lo, hi);
      var (ln, k) := Varint.Read(p, i + 1, Some(lo)).value;
      if ln != 0 && k + ln <= |p| {
        CeilingPrefix(p, k + ln, lo, hi);
        ExtractCons(p, i, Some(lo), ln, k);
        ExtractCons(p, i, Some(hi), ln, k);
        PrefixCons(p[k..k + ln], Extract(p, k + ln, Some(lo)), Extract(p, k + ln, Some(hi)));
      }
    }
  }

  /** One step of the extractor over a record whose length has been read. */
  lemma ExtractCons(p: seq<Byte>, i: nat, cap: Option<nat>, ln: nat, k: nat)
    requires i < |p| && p[i] == 0x0A && Varint.Read(p, i + 1, cap) == Success((ln, k))
    requires ln != 0 && k + ln <= |p|
    ensures Extract(p, i, cap) == [p[k..k + ln]] + Extract(p, k + ln, cap)
  {
  }

  lemma PrefixCons<T>(x: T, a: seq<T>, b: seq<T>)
    requires |a| <= |b| && b[..|a|] == a
    ensures ([x] + b)[..|a| + 1] == [x] + a
  {
    assert ([x] + b)[..|a| + 1] == [x] + b[..|a|];
  }
}
