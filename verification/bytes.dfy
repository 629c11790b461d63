/** Byte buffers as the Python code sees them: `bytes` objects indexed by
    position, sliced with clamping, and rendered with `bytes.hex()`. */
module Bytes {

  type Byte = b: int | 0 <= b < 256

  /** Python's `buf[lo:hi]` for non-negative bounds: both bounds are clamped
      to the length and an inverted range is empty. */
  function Slice<T>(buf: seq<T>, lo: nat, hi: nat): (r: seq<T>)
    ensures lo <= hi <= |buf| ==> r == buf[lo..hi]
    ensures |buf| <= lo ==> r == []
    ensures lo <= |buf| <= hi ==> r == buf[lo..]
    ensures |r| <= |buf| - lo || |r| == 0
    ensures lo <= hi ==> |r| <= hi - lo
  {
    var a := if lo < |buf| then lo else |buf|;
    var b := if hi < |buf| then hi else |buf|;
    if a <= b then buf[a..b] else []
  }

  function HexDigit(n: int): (c: char)
    requires 0 <= n < 16
  {
    if n < 10 then (48 + n) as char else (87 + n) as char
  }

  predicate IsHexDigit(c: char) {
    '0' <= c <= '9' || 'a' <= c <= 'f'
  }

  /** `bytes.hex()`: two lower-case hexadecimal digits per byte, high nibble first. */
  function Hex(bs: seq<Byte>): (h: string)
    ensures |h| == 2 * |bs|
    ensures forall k :: 0 <= k < |h| ==> IsHexDigit(h[k])
  {
    if |bs| == 0 then ""
    else [HexDigit(bs[0] / 16), HexDigit(bs[0] % 16)] + Hex(bs[1..])
  }

  lemma {:induction false} HexAppend(a: seq<Byte>, b: seq<Byte>)
    ensures Hex(a + b) == Hex(a) + Hex(b)
  {
    if |a| == 0 {
      assert a + b == b;
    } else {
      assert (a + b)[1..] == a[1..] + b;
      HexAppend(a[1..], b);
    }
  }

  /** The first `2n` hex digits of a buffer are the hex of its first `n` bytes. */
  lemma HexPrefix(bs: seq<Byte>, n: nat)
    requires n <= |bs|
    ensures Hex(bs)[..2 * n] == Hex(bs[..n])
  {
    assert bs == bs[..n] + bs[n..];
    HexAppend(bs[..n], bs[n..]);
  }

  /** `s` occurs in `buf` at offset `i`. */
  predicate At<T(==)>(buf: seq<T>, i: nat, s: seq<T>) {
    i + |s| <= |buf| && buf[i..i + |s|] == s
  }

  lemma AtConcat<T>(x: seq<T>, s: seq<T>, y: seq<T>)
    ensures At(x + s + y, |x|, s)
  {
    assert (x + s + y)[|x|..|x| + |s|] == s;
  }

  lemma AtShift<T>(buf: seq<T>, i: nat, s: seq<T>, n: nat)
    requires At(buf, i, s) && n <= |s|
    ensures At(buf, i + n, s[n..])
  {
    assert buf[i + n..i + |s|] == buf[i..i + |s|][n..];
  }

  lemma AtSplit<T>(buf: seq<T>, i: nat, x: seq<T>, y: seq<T>)
    requires At(buf, i, x + y)
    ensures At(buf, i, x) && At(buf, i + |x|, y)
  {
    assert buf[i..i + |x|] == (x + y)[..|x|];
    assert buf[i + |x|..i + |x| + |y|] == (x + y)[|x|..];
  }

  lemma SliceAt<T>(buf: seq<T>, i: nat, s: seq<T>)
    requires At(buf, i, s)
    ensures Slice(buf, i, i + |s|) == s
  {
  }
}
