/** Base-128 varints of the Protocol Buffers encoding ("Base 128 Varints" in
    Google's protobuf Encoding guide). The repository carries several copies of
    the same reader loop that differ only in their runaway ceiling, so the
    loop is written once here with that ceiling as a parameter:
    `None` (no ceiling), `Some(64)` (error once the shift exceeds 64) or
    `Some(70)` (error once it exceeds 70). */
module Varint {
  import opened Wrappers
  import opened Bytes

  datatype VarintError = Truncated | TooLong

  /** Little-endian base-128 value of a byte run: the low seven bits of each
      byte, least significant group first. The source ORs `(b & 0x7F) << shift`
      into the accumulator; the groups occupy disjoint bits, so OR is addition. */
  function Base128(bs: seq<Byte>): nat {
    if |bs| == 0 then 0 else bs[0] % 128 + 128 * Base128(bs[1..])
  }

  /** Index of the first byte at or after `i` without the continuation bit,
      or `i` itself when `i` is already past the end, or `|buf|` when every
      remaining byte carries the bit. */
  function FirstTerminator(buf: seq<Byte>, i: nat): (j: nat)
    ensures i <= j
    ensures j < |buf| ==> buf[j] < 128
    ensures forall k :: i <= k < j && k < |buf| ==> buf[k] >= 128
    ensures j >= |buf| ==> j == (if i > |buf| then i else |buf|)
    decreases |buf| - i
  {
    if i >= |buf| then i
    else if buf[i] < 128 then i
    else FirstTerminator(buf, i + 1)
  }

  /** Whether `n` continuation bytes read from a loop that started at
      `shift` stay within the ceiling `maxShift`. */
  predicate WithinCap(n: nat, shift: nat, maxShift: Option<nat>) {
    maxShift.None? || shift + 7 * n <= maxShift.value
  }

  /** The reader loop, one byte per call: raise `Truncated` past the end,
      return on a byte without the continuation bit, otherwise add 7 to the
      shift and raise `TooLong` when it passes the ceiling. The result pairs
      the value with the index just past its last byte. */
  function ReadFrom(buf: seq<Byte>, i: nat, shift: nat, maxShift: Option<nat>): (r: Result<(nat, nat), VarintError>)
    requires WithinCap(0, shift, maxShift)
    ensures r.Success? ==> i < r.value.1 <= |buf|
    ensures i >= |buf| ==> r == Failure(Truncated)
    decreases |buf| - i
  {
    if i >= |buf| then Failure(Truncated)
    else
      var b := buf[i];
      if b < 128 then Success((b, i + 1))
      else if maxShift.Some? && shift + 7 > maxShift.value then Failure(TooLong)
      else
        match ReadFrom(buf, i + 1, shift + 7, maxShift)
        case Success((v, j)) => Success((b % 128 + 128 * v, j))
        case Failure(e) => Failure(e)
  }

  /** What the loop computes: it succeeds exactly when a terminating byte
      exists and the continuation bytes before it stay within the ceiling;
      it then returns the base-128 value of the bytes up to and including
      the terminator. It is `Truncated` exactly when the buffer runs out
      before the ceiling is passed, and `TooLong` otherwise. */
  predicate ReadFromMeets(buf: seq<Byte>, i: nat, shift: nat, maxShift: Option<nat>, r: Result<(nat, nat), VarintError>) {
    var j := FirstTerminator(buf, i);
    && (r.Success? <==> j < |buf| && WithinCap(j - i, shift, maxShift))
    && (r.Success? ==> r.value == (Base128(buf[i..j + 1]), j + 1))
    && (r == Failure(Truncated) <==> j >= |buf| && (i >= |buf| || WithinCap(|buf| - i, shift, maxShift)))
  }

  lemma {:induction false} ReadFromSpec(buf: seq<Byte>, i: nat, shift: nat, maxShift: Option<nat>)
    requires WithinCap(0, shift, maxShift)
    ensures ReadFromMeets(buf, i, shift, maxShift, ReadFrom(buf, i, shift, maxShift))
    decreases |buf| - i
  {
    if i >= |buf| {
    } else if buf[i] < 128 {
      var j := FirstTerminator(buf, i);
      assert j == i;
      assert buf[i..j + 1] == [buf[i]];
      assert Base128([buf[i]]) == buf[i] % 128 + 128 * Base128([]);
    } else if maxShift.Some? && shift + 7 > maxShift.value {
      assert FirstTerminator(buf, i) > i;
    } else {
      ReadFromSpec(buf, i + 1, shift + 7, maxShift);
      ReadFromStep(buf, i, shift, maxShift, ReadFrom(buf, i + 1, shift + 7, maxShift));
    }
  }

  /** One continuation byte within the ceiling: the loop's result at `i`
      meets the description when its result at `i + 1` does. */
  lemma ReadFromStep(buf: seq<Byte>, i: nat, shift: nat, maxShift: Option<nat>, r': Result<(nat, nat), VarintError>)
    requires i < |buf| && buf[i] >= 128 && WithinCap(1, shift, maxShift)
    requires r' == ReadFrom(buf, i + 1, shift + 7, maxShift)
    requires ReadFromMeets(buf, i + 1, shift + 7, maxShift, r')
    ensures ReadFromMeets(buf, i, shift, maxShift, ReadFrom(buf, i, shift, maxShift))
  {
    var r := ReadFrom(buf, i, shift, maxShift);
    var j := FirstTerminator(buf, i);
    assert j == FirstTerminator(buf, i + 1) && j > i;
    assert WithinCap(j - i, shift, maxShift) == WithinCap(j - (i + 1), shift + 7, maxShift);
    if r'.Success? {
      var s := buf[i..j + 1];
      assert s[0] == buf[i] && s[1..] == buf[i + 1..j + 1];
      assert Base128(s) == buf[i] % 128 + 128 * Base128(buf[i + 1..j + 1]);
      assert r == Success((buf[i] % 128 + 128 * r'.value.0, r'.value.1));
    } else {
      assert r == Failure(r'.error);
    }
  }

  /** `read_varint(buf, i)` with the given ceiling. */
  function Read(buf: seq<Byte>, i: nat, maxShift: Option<nat>): (r: Result<(nat, nat), VarintError>)
    ensures r.Success? ==> i < r.value.1 <= |buf|
    ensures i >= |buf| ==> r == Failure(Truncated)
  {
    ReadFrom(buf, i, 0, maxShift)
  }

  /** The reader's result in terms of the buffer: success exactly when a
      byte without the continuation bit is found within the ceiling, with
      the base-128 value of the bytes up to it; a `Truncated` failure means
      every remaining byte carries the continuation bit. */
  lemma ReadSpec(buf: seq<Byte>, i: nat, maxShift: Option<nat>)
    ensures var r := Read(buf, i, maxShift);
      var j := FirstTerminator(buf, i);
      && (r.Success? <==> j < |buf| && WithinCap(j - i, 0, maxShift))
      && (r.Success? ==> r.value == (Base128(buf[i..j + 1]), j + 1))
      && (r.Success? ==> buf[j] < 128 && forall k :: i <= k < j ==> buf[k] >= 128)
      && (r == Failure(Truncated) <==> j >= |buf| && (i >= |buf| || WithinCap(|buf| - i, 0, maxShift)))
      && (r == Failure(Truncated) ==> forall k :: i <= k < |buf| ==> buf[k] >= 128)
  {
    ReadFromSpec(buf, i, 0, maxShift);
  }

  /** `encode_varint(val)`: seven bits at a time, least significant first,
      every byte but the last carrying the continuation bit. */
  function Encode(v: nat): (bs: seq<Byte>)
    ensures |bs| >= 1
  {
    if v < 128 then [v]
    else [v % 128 + 128] + Encode(v / 128)
  }

  /** The encoding is a well-formed varint of `v`: only its last byte lacks
      the continuation bit, and its base-128 value is `v`. */
  lemma EncodeSpec(v: nat)
    ensures var bs := Encode(v);
      && bs[|bs| - 1] < 128
      && (forall k :: 0 <= k < |bs| - 1 ==> bs[k] >= 128)
      && Base128(bs) == v
      && (|bs| == 1 <==> v < 128)
  {
    EncodeValue(v);
    EncodeTerminated(v);
  }

  lemma {:induction false} EncodeValue(v: nat)
    ensures Base128(Encode(v)) == v
  {
    if v >= 128 {
      var b, t := v % 128 + 128, Encode(v / 128);
      EncodeValue(v / 128);
      EncodeStep(v);
      ConsBase128(b, t);
      LowBits(v, b);
    } else {
      EncodeLast(v);
    }
  }

  lemma {:induction false} EncodeTerminated(v: nat)
    ensures var bs := Encode(v);
      bs[|bs| - 1] < 128 && forall k :: 0 <= k < |bs| - 1 ==> bs[k] >= 128
  {
    if v >= 128 {
      var b, t := v % 128 + 128, Encode(v / 128);
      var bs := Encode(v);
      EncodeTerminated(v / 128);
      EncodeStep(v);
      assert bs[|bs| - 1] == t[|t| - 1];
      forall k | 0 <= k < |bs| - 1 ensures bs[k] >= 128 {
        if k > 0 {
          assert bs[k] == t[k - 1];
        }
      }
    } else {
      EncodeLast(v);
    }
  }

  /** The byte the encoder emits for a value of at least 128. */
  lemma LowBits(v: nat, b: nat)
    requires v >= 128 && b == v % 128 + 128
    ensures b >= 128 && b % 128 == v % 128 && b % 128 + 128 * (v / 128) == v
  {
  }

  /** The base-128 value and continuation bits of one byte put in front. */
  lemma ConsBase128(b: Byte, t: seq<Byte>)
    ensures var bs := [b] + t;
      && bs[0] == b && bs[1..] == t && |bs| == 1 + |t|
      && Base128(bs) == b % 128 + 128 * Base128(t)
  {
    var bs := [b] + t;
    assert bs[1..] == t;
  }

  /** One round of the encoder's loop: a value of at least 128 emits its low
      seven bits with the continuation bit and goes on with the rest. */
  lemma EncodeStep(v: nat)
    requires v >= 128
    ensures Encode(v) == [v % 128 + 128] + Encode(v / 128)
  {
  }

  /** The encoder's last round: a value below 128 is its own single byte. */
  lemma EncodeLast(v: nat)
    requires v < 128
    ensures Encode(v) == [v]
  {
  }

  lemma {:induction false} FirstTerminatorAt(buf: seq<Byte>, i: nat, j: nat)
    requires i <= j < |buf| && buf[j] < 128
    requires forall k :: i <= k < j ==> buf[k] >= 128
    ensures FirstTerminator(buf, i) == j
    decreases j - i
  {
    if i < j {
      FirstTerminatorAt(buf, i + 1, j);
    }
  }

  /** Round trip: reading back an encoded value at any position of any buffer
      yields the value and the index just past its encoding, provided the
      reader's ceiling admits that many continuation bytes. */
  lemma ReadEncoded(buf: seq<Byte>, i: nat, v: nat, maxShift: Option<nat>)
    requires i + |Encode(v)| <= |buf| && buf[i..i + |Encode(v)|] == Encode(v)
    requires WithinCap(|Encode(v)| - 1, 0, maxShift)
    ensures Read(buf, i, maxShift) == Success((v, i + |Encode(v)|))
  {
    var e := Encode(v);
    var j := i + |e| - 1;
    assert Base128(e) == v && e[|e| - 1] < 128 && forall k :: 0 <= k < |e| - 1 ==> e[k] >= 128 by {
      EncodeSpec(v);
    }
    assert FirstTerminator(buf, i) == j by {
      forall k | i <= k < j ensures buf[k] >= 128 {
        assert buf[k] == e[k - i];
      }
      assert buf[j] == e[|e| - 1];
      FirstTerminatorAt(buf, i, j);
    }
    ReadSpec(buf, i, maxShift);
  }

  /** The ceiling-free reader reads back any encoding embedded in a buffer. */
  lemma ReadAt(buf: seq<Byte>, i: nat, v: nat)
    requires At(buf, i, Encode(v))
    ensures i < |buf| && Read(buf, i, None) == Success((v, i + |Encode(v)|))
  {
    ReadEncoded(buf, i, v, None);
  }

  /** `decode(encode(v)) == v` on the encoding alone, for every ceiling. */
  lemma RoundTrip(v: nat, maxShift: Option<nat>)
    requires WithinCap(|Encode(v)| - 1, 0, maxShift)
    ensures Read(Encode(v), 0, maxShift) == Success((v, |Encode(v)|))
  {
    ReadEncoded(Encode(v), 0, v, None);
    ReadEncoded(Encode(v), 0, v, maxShift);
  }

  /** A reader with a higher ceiling accepts everything a lower one accepts,
      with the same value and end index. */
  lemma CeilingMonotone(buf: seq<Byte>, i: nat, lo: nat, hi: nat)
    requires lo <= hi
    requires Read(buf, i, Some(lo)).Success?
    ensures Read(buf, i, Some(hi)) == Read(buf, i, Some(lo))
    ensures Read(buf, i, None) == Read(buf, i, Some(lo))
  {
    ReadSpec(buf, i, Some(lo));
    ReadSpec(buf, i, Some(hi));
    ReadSpec(buf, i, None);
  }

  /** The reader inside `parse_all_tag6_values`: it stops silently at the end
      of the buffer and returns whatever value it has accumulated. */
  function ReadLenient(buf: seq<Byte>, i: nat): (r: (nat, nat))
    ensures var j := FirstTerminator(buf, i);
      r.1 == (if j < |buf| then j + 1 else if i > |buf| then i else |buf|)
    ensures i <= |buf| ==> r.0 == Base128(buf[i..r.1])
    ensures i < |buf| ==> i < r.1
    decreases |buf| - i
  {
    if i >= |buf| then (0, i)
    else
      var b := buf[i];
      if b < 128 then (b, i + 1)
      else
        var (v, j) := ReadLenient(buf, i + 1);
        assert buf[i..j] == [b] + buf[i + 1..j];
        (b % 128 + 128 * v, j)
  }
}
