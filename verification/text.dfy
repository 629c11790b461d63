/** Python string operations used by the topic, device-list and `.env`
    parsers: `str.split(sep)`, `sep.join`, `str.strip()`, `str.replace`
    and `str(n)` for naturals. */
module Text {

  /** Characters `str.isspace()` accepts (bidirectional class WS, B or S, or
      general category Zs), which is what argument-less `strip()` removes. */
  predicate IsSpace(c: char) {
    || ('\t' <= c <= '\r')
    || ('\U{1c}' <= c <= '\U{1f}')
    || c == ' ' || c == '\U{85}' || c == '\U{a0}' || c == '\U{1680}'
    || ('\U{2000}' <= c <= '\U{200a}')
    || c == '\U{2028}' || c == '\U{2029}' || c == '\U{202f}' || c == '\U{205f}' || c == '\U{3000}'
  }

  predicate AllSpace(s: string) {
    forall k :: 0 <= k < |s| ==> IsSpace(s[k])
  }

  predicate StartsWith(s: string, p: string) {
    |p| <= |s| && s[..|p|] == p
  }

  predicate EndsWith(s: string, p: string) {
    |p| <= |s| && s[|s| - |p|..] == p
  }

  /** `t` occurs in `s` at offset `k`. */
  predicate InfixAt(s: string, k: nat, t: string) {
    k + |t| <= |s| && s[k..k + |t|] == t
  }

  /** `t in s` for strings. */
  predicate Contains(s: string, t: string) {
    exists k: nat | k <= |s| :: InfixAt(s, k, t)
  }

  /** `str.lower()` on ASCII letters; every other character is kept. */
  function Lower(s: string): (r: string)
    ensures |r| == |s|
    ensures forall k :: 0 <= k < |s| ==> r[k] == (if 'A' <= s[k] <= 'Z' then (s[k] as int + 32) as char else s[k])
  {
    if |s| == 0 then ""
    else [if 'A' <= s[0] <= 'Z' then (s[0] as int + 32) as char else s[0]] + Lower(s[1..])
  }

  /** Starting with a one-character string is having that first character. */
  lemma StartsWithChar(s: string, c: char)
    ensures StartsWith(s, [c]) <==> |s| > 0 && s[0] == c
  {
    if |s| > 0 {
      assert s[..1] == [s[0]];
    }
  }

  /** Ending with a one-character string is having that last character. */
  lemma EndsWithChar(s: string, c: char)
    ensures EndsWith(s, [c]) <==> |s| > 0 && s[|s| - 1] == c
  {
    if |s| > 0 {
      assert s[|s| - 1..] == [s[|s| - 1]];
    }
  }

  /** Position of the first `c` in `s`, or `|s|` when there is none. */
  function IndexOf(s: string, c: char): (k: nat)
    ensures k <= |s|
    ensures k < |s| ==> s[k] == c
    ensures forall j :: 0 <= j < k ==> s[j] != c
  {
    if |s| == 0 then 0
    else if s[0] == c then 0
    else 1 + IndexOf(s[1..], c)
  }

  /** The first `c` of `x + [c] + u` is the one after `x` when `x` holds none. */
  lemma IndexOfAfter(x: string, c: char, u: string)
    requires c !in x
    ensures IndexOf(x + [c] + u, c) == |x|
  {
    var s := x + [c] + u;
    assert s[|x|] == c;
    assert forall j :: 0 <= j < |x| ==> s[j] == x[j];
  }

  function Join(parts: seq<string>, sep: string): string {
    if |parts| == 0 then ""
    else if |parts| == 1 then parts[0]
    else parts[0] + sep + Join(parts[1..], sep)
  }

  /** A join starts with its first part. */
  lemma JoinFirst(parts: seq<string>, sep: string)
    requires |parts| >= 1
    ensures StartsWith(Join(parts, sep), parts[0])
  {
  }

  /** Joining two non-empty runs of parts is joining each and putting the
      separator between them. */
  lemma {:induction false} JoinAppend(a: seq<string>, b: seq<string>, sep: string)
    requires |a| >= 1 && |b| >= 1
    ensures Join(a + b, sep) == Join(a, sep) + sep + Join(b, sep)
    decreases |a|
  {
    if |a| == 1 {
      assert (a + b)[1..] == b;
    } else {
      assert (a + b)[1..] == a[1..] + b;
      JoinAppend(a[1..], b, sep);
    }
  }

  /** `s.split(c)`: never empty, and no part holds the separator. */
  function Split(s: string, c: char): (parts: seq<string>)
    ensures |parts| >= 1
    ensures forall k :: 0 <= k < |parts| ==> c !in parts[k]
    decreases |s|
  {
    var k := IndexOf(s, c);
    if k == |s| then [s]
    else [s[..k]] + Split(s[k + 1..], c)
  }

  /** Joining the parts of a split back with the separator gives the string
      again. */
  lemma {:induction false} SplitJoin(s: string, c: char)
    ensures Join(Split(s, c), [c]) == s
    decreases |s|
  {
    var k := IndexOf(s, c);
    if k < |s| {
      var head, rest := s[..k], s[k + 1..];
      assert Split(s, c) == [head] + Split(rest, c);
      SplitJoin(rest, c);
      JoinCons(head, Split(rest, c), [c]);
      assert s == head + [c] + rest;
    }
  }

  /** Joining a part in front of at least one more puts the separator after it. */
  lemma JoinCons(x: string, ps: seq<string>, sep: string)
    requires |ps| >= 1
    ensures Join([x] + ps, sep) == x + sep + Join(ps, sep)
  {
    assert ([x] + ps)[1..] == ps;
  }

  /** Splitting at a leading piece free of the separator peels that piece off. */
  lemma SplitCons(a: string, c: char, b: string)
    requires c !in a
    ensures Split(a + [c] + b, c) == [a] + Split(b, c)
  {
    var s := a + [c] + b;
    assert s[|a|] == c;
    assert IndexOf(s, c) == |a|;
    assert s[..|a|] == a;
    assert s[|a| + 1..] == b;
  }

  /** Splitting two pieces joined by the separator splits each piece. */
  lemma {:induction false} SplitAppend(a: string, c: char, b: string)
    ensures Split(a + [c] + b, c) == Split(a, c) + Split(b, c)
    decreases |a|
  {
    var k := IndexOf(a, c);
    if k == |a| {
      SplitCons(a, c, b);
      SplitNoSep(a, c);
    } else {
      var l, r := a[..k], a[k + 1..];
      assert a == l + [c] + r;
      assert a + [c] + b == l + [c] + (r + [c] + b);
      calc {
        Split(a + [c] + b, c);
        { SplitCons(l, c, r + [c] + b); }
        [l] + Split(r + [c] + b, c);
        { SplitAppend(r, c, b); }
        [l] + (Split(r, c) + Split(b, c));
        ([l] + Split(r, c)) + Split(b, c);
        { SplitCons(l, c, r); }
        Split(a, c) + Split(b, c);
      }
    }
  }

  lemma Regroup(a: string, d: string, x: string, c: char)
    ensures a + [c] + d + [c] + x == a + [c] + (d + [c] + x)
  {
  }

  /** Splitting past two separator-free pieces peels both off. */
  lemma SplitTwo(a: string, d: string, x: string, c: char)
    requires c !in a && c !in d
    ensures Split(a + [c] + d + [c] + x, c) == [a, d] + Split(x, c)
  {
    Regroup(a, d, x, c);
    SplitCons(a, c, d + [c] + x);
    SplitCons(d, c, x);
  }

  /** Splitting undoes joining, when no part holds the separator. */
  lemma {:induction false} JoinSplit(parts: seq<string>, c: char)
    requires |parts| >= 1
    requires forall k :: 0 <= k < |parts| ==> c !in parts[k]
    ensures Split(Join(parts, [c]), c) == parts
    decreases |parts|
  {
    if |parts| == 1 {
      SplitNoSep(parts[0], c);
    } else {
      var rest := parts[1..];
      assert forall k :: 0 <= k < |rest| ==> rest[k] == parts[k + 1];
      JoinSplit(rest, c);
      SplitCons(parts[0], c, Join(rest, [c]));
      assert parts == [parts[0]] + rest;
    }
  }

  lemma SplitNoSep(a: string, c: char)
    requires c !in a
    ensures Split(a, c) == [a]
  {
  }

  /** What follows the last `c` in `s`, or all of `s` when it holds none. */
  function LastPart(s: string, c: char): string
    decreases |s|
  {
    var k := IndexOf(s, c);
    if k == |s| then s else LastPart(s[k + 1..], c)
  }

  /** The last part holds no separator, ends the string, and is either the
      whole string or preceded by the separator. */
  lemma {:induction false} SplitLast(s: string, c: char)
    ensures AfterLast(s, c, LastPart(s, c)) && c !in LastPart(s, c)
    decreases |s|
  {
    var k := IndexOf(s, c);
    if k < |s| {
      var t := s[k + 1..];
      SplitLast(t, c);
      assert LastPart(s, c) == LastPart(t, c);
      EndsAfter(s, c, k, t, LastPart(t, c));
    } else {
      assert LastPart(s, c) == s;
      NoneFound(s, c);
      assert s[|s| - |s|..] == s;
    }
  }

  lemma NoneFound(s: string, c: char)
    requires IndexOf(s, c) == |s|
    ensures c !in s
  {
    forall j | 0 <= j < |s| ensures s[j] != c {
    }
  }

  /** `s.split(c)[-1]` is the last part. */
  lemma {:induction false} LastOfSplit(s: string, c: char)
    ensures var ps := Split(s, c); ps[|ps| - 1] == LastPart(s, c)
    decreases |s|
  {
    var k := IndexOf(s, c);
    if k < |s| {
      var t := s[k + 1..];
      LastOfSplit(t, c);
      SplitUnfold(s, c, k);
      LastOfCons(Split(s, c), s[..k], Split(t, c));
    }
  }

  /** The last part as `s.split(c)[-1]` finds it: free of the separator
      and ending the string. */
  lemma LastSegmentSpec(s: string, c: char)
    ensures var e, ps := LastPart(s, c), Split(s, c);
      c !in e && EndsWith(s, e) && e == ps[|ps| - 1]
  {
    LastOfSplit(s, c);
    SplitLast(s, c);
  }

  /** `e` ends `s` and is either all of it or preceded by `c`. */
  predicate AfterLast(s: string, c: char, e: string) {
    EndsWith(s, e) && (|e| < |s| ==> s[|s| - |e| - 1] == c)
  }

  /** A string ending the part after the separator at `k`, and preceded by
      the separator there, ends the whole string and is preceded by the
      separator in it. */
  lemma EndsAfter(s: string, c: char, k: nat, t: string, e: string)
    requires k < |s| && s[k] == c && t == s[k + 1..] && AfterLast(t, c, e)
    ensures AfterLast(s, c, e)
  {
    SuffixOfSuffix(s, k + 1, |e|);
  }

  /** A split at a string holding the separator at `k` peels off what
      precedes it. */
  lemma SplitUnfold(s: string, c: char, k: nat)
    requires k == IndexOf(s, c) < |s|
    ensures Split(s, c) == [s[..k]] + Split(s[k + 1..], c)
  {
  }

  lemma LastOfCons<T>(ps: seq<T>, x: T, qs: seq<T>)
    requires |qs| > 0 && ps == [x] + qs
    ensures ps[|ps| - 1] == qs[|qs| - 1]
  {
  }

  /** The last `n` elements of a suffix of `s` are the last `n` of `s`. */
  lemma SuffixOfSuffix<T>(s: seq<T>, k: nat, n: nat)
    requires k <= |s| && n <= |s| - k
    ensures s[|s| - n..] == s[k..][|s| - k - n..]
    ensures n < |s| - k ==> s[|s| - n - 1] == s[k..][|s| - k - n - 1]
  {
  }

  /** Whatever precedes the last separator, the last part of the split is
      what follows it. */
  lemma SplitLastAfter(p: string, c: char, x: string)
    requires c !in x
    ensures LastPart(p + [c] + x, c) == x
  {
    var s := p + [c] + x;
    SplitLast(s, c);
    var e := LastPart(s, c);
    assert c !in e;
    assert s[|s| - |x| - 1] == c;
    assert s[|s| - |x|..] == x;
    if |e| < |x| {
      assert false;
    } else if |e| > |x| {
      assert false;
    }
  }

  /** Number of leading whitespace characters. */
  function LeadingSpace(s: string): (n: nat)
    ensures n <= |s|
    ensures AllSpace(s[..n])
    ensures n < |s| ==> !IsSpace(s[n])
  {
    if |s| > 0 && IsSpace(s[0]) then
      var m := LeadingSpace(s[1..]);
      assert forall k :: 1 <= k < m + 1 ==> s[k] == s[1..][k - 1];
      m + 1
    else 0
  }

  /** Number of trailing whitespace characters. */
  function TrailingSpace(s: string): (n: nat)
    ensures n <= |s|
    ensures AllSpace(s[|s| - n..])
    ensures n < |s| ==> !IsSpace(s[|s| - n - 1])
  {
    if |s| > 0 && IsSpace(s[|s| - 1]) then
      var t := s[..|s| - 1];
      var m := TrailingSpace(t);
      var tail := s[|s| - m - 1..];
      forall j | 0 <= j < |tail| ensures IsSpace(tail[j]) {
        if j < m {
          assert tail[j] == t[|t| - m..][j];
        } else {
          assert tail[j] == s[|s| - 1];
        }
      }
      m + 1
    else 0
  }

  /** Not empty, and neither starting nor ending with whitespace: what a
      non-empty `strip()` returns. */
  predicate Stripped(s: string) {
    s != [] && !IsSpace(s[0]) && !IsSpace(s[|s| - 1])
  }

  /** `s.strip()`: cut the leading whitespace, then the trailing whitespace of
      what remains. */
  function Strip(s: string): (r: string)
    ensures |r| > 0 ==> Stripped(r)
    ensures LeadingSpace(s) + |r| <= |s|
    ensures r == s[LeadingSpace(s)..LeadingSpace(s) + |r|]
    ensures AllSpace(s[..LeadingSpace(s)]) && AllSpace(s[LeadingSpace(s) + |r|..])
  {
    var lo := LeadingSpace(s);
    var rest := s[lo..];
    rest[..|rest| - TrailingSpace(rest)]
  }

  /** Stripping never adds a character. */
  lemma StripWithin(s: string, c: char)
    requires c !in s
    ensures c !in Strip(s)
  {
    var r := Strip(s);
    var lo := LeadingSpace(s);
    forall k | 0 <= k < |r| ensures r[k] != c {
      assert r[k] == s[lo + k];
    }
  }

  /** A string with no surrounding whitespace is its own strip. */
  lemma StripTrimmed(s: string)
    requires s == [] || Stripped(s)
    ensures Strip(s) == s
  {
    assert LeadingSpace(s) == 0;
    assert TrailingSpace(s) == 0;
  }

  /** Stripping removes exactly the white space padding of a trimmed (or
      empty) core: `(a + c + b).strip() == c`. */
  lemma StripPadded(a: string, c: string, b: string)
    requires AllSpace(a) && AllSpace(b) && (c == [] || Stripped(c))
    ensures Strip(a + c + b) == c
  {
    var s := a + c + b;
    if c == [] {
      assert s == a + b;
      assert AllSpace(s) by {
        forall k | 0 <= k < |s| ensures IsSpace(s[k]) {
          if k < |a| { assert s[k] == a[k]; } else { assert s[k] == b[k - |a|]; }
        }
      }
      LeadingAll(s);
      assert s[|s|..] == [];
    } else {
      assert s == a + (c + b);
      LeadingPadded(a, c + b);
      assert s[|a|..] == c + b;
      TrailingPadded(c, b);
      assert (c + b)[..|c|] == c;
    }
  }

  /** White space around a string does not change its strip. */
  lemma StripPad(w1: string, t: string, w2: string)
    requires AllSpace(w1) && AllSpace(w2)
    ensures Strip(w1 + t + w2) == Strip(t)
  {
    var r, lo := Strip(t), LeadingSpace(t);
    var pre, post := t[..lo], t[lo + |r|..];
    assert t == pre + r + post;
    AllSpaceConcat(w1, pre);
    AllSpaceConcat(post, w2);
    Regroup5(w1, pre, r, post, w2);
    StripPadded(w1 + pre, r, post + w2);
  }

  lemma Regroup5(v: string, w: string, x: string, y: string, z: string)
    ensures v + (w + x + y) + z == (v + w) + x + (y + z)
  {
  }

  lemma AllSpaceConcat(x: string, y: string)
    requires AllSpace(x) && AllSpace(y)
    ensures AllSpace(x + y)
  {
    forall k | 0 <= k < |x + y| ensures IsSpace((x + y)[k]) {
      if k < |x| { assert (x + y)[k] == x[k]; } else { assert (x + y)[k] == y[k - |x|]; }
    }
  }

  /** After leading white space, the first non-space character starts the
      strip. */
  lemma StripStart(a: string, t: string)
    requires AllSpace(a) && |t| > 0 && !IsSpace(t[0])
    ensures |Strip(a + t)| > 0 && Strip(a + t)[0] == t[0]
  {
    var s := a + t;
    LeadingPadded(a, t);
    assert s[|a|..] == t;
    TrailingBelow(t);
  }

  /** A string that starts with a non-space character is not all trailing
      white space. */
  lemma {:induction false} TrailingBelow(t: string)
    requires |t| > 0 && !IsSpace(t[0])
    ensures TrailingSpace(t) < |t|
  {
    if IsSpace(t[|t| - 1]) {
      var init := t[..|t| - 1];
      assert init[0] == t[0];
      TrailingBelow(init);
    }
  }

  /** A string of white space is all leading white space. */
  lemma {:induction false} LeadingAll(s: string)
    requires AllSpace(s)
    ensures LeadingSpace(s) == |s|
  {
    if |s| > 0 {
      assert AllSpace(s[1..]) by {
        forall k | 0 <= k < |s[1..]| ensures IsSpace(s[1..][k]) {
          assert s[1..][k] == s[k + 1];
        }
      }
      LeadingAll(s[1..]);
    }
  }

  /** White space in front of a non-space character is the leading white
      space. */
  lemma {:induction false} LeadingPadded(a: string, t: string)
    requires AllSpace(a) && |t| > 0 && !IsSpace(t[0])
    ensures LeadingSpace(a + t) == |a|
    decreases |a|
  {
    if |a| == 0 {
      assert a + t == t;
    } else {
      assert (a + t)[0] == a[0];
      assert (a + t)[1..] == a[1..] + t;
      assert AllSpace(a[1..]) by {
        forall k | 0 <= k < |a[1..]| ensures IsSpace(a[1..][k]) {
          assert a[1..][k] == a[k + 1];
        }
      }
      LeadingPadded(a[1..], t);
    }
  }

  /** White space after a non-space character is the trailing white space. */
  lemma {:induction false} TrailingPadded(t: string, b: string)
    requires AllSpace(b) && |t| > 0 && !IsSpace(t[|t| - 1])
    ensures TrailingSpace(t + b) == |b|
    decreases |b|
  {
    if |b| == 0 {
      assert t + b == t;
    } else {
      var u := t + b;
      assert u[|u| - 1] == b[|b| - 1];
      var init := b[..|b| - 1];
      assert u[..|u| - 1] == t + init;
      assert AllSpace(init) by {
        forall k | 0 <= k < |init| ensures IsSpace(init[k]) {
          assert init[k] == b[k];
        }
      }
      TrailingPadded(t, init);
    }
  }

  function ReplaceChar(s: string, a: char, b: char): (r: string)
    ensures |r| == |s|
    ensures forall k :: 0 <= k < |s| ==> r[k] == (if s[k] == a then b else s[k])
  {
    if |s| == 0 then ""
    else [if s[0] == a then b else s[0]] + ReplaceChar(s[1..], a, b)
  }

  predicate IsDigit(c: char) {
    '0' <= c <= '9'
  }

  /** `str(n)` for a natural number: its decimal numeral, which starts with
      `0` only when it is `0` itself. */
  function NatToString(n: nat): (r: string)
    ensures |r| >= 1
    ensures forall k :: 0 <= k < |r| ==> IsDigit(r[k])
    ensures r[0] == '0' <==> n == 0
    ensures r[0] == '0' ==> r == "0"
  {
    if n < 10 then [(48 + n) as char]
    else NatToString(n / 10) + [(48 + n % 10) as char]
  }

  /** The number a run of decimal digits denotes. */
  function DigitsValue(s: string): nat
    requires forall k :: 0 <= k < |s| ==> IsDigit(s[k])
  {
    if |s| == 0 then 0
    else
      assert IsDigit(s[|s| - 1]);
      DigitsValue(s[..|s| - 1]) * 10 + (s[|s| - 1] as int - 48)
  }

  /** Reading the numeral back gives the number, so distinct numbers have
      distinct numerals. */
  lemma {:induction false} NatToStringValue(n: nat)
    ensures DigitsValue(NatToString(n)) == n
  {
    if n >= 10 {
      NatToStringValue(n / 10);
      var s := NatToString(n);
      assert s[..|s| - 1] == NatToString(n / 10);
    }
  }

  lemma NatToStringInjective(a: nat, b: nat)
    requires NatToString(a) == NatToString(b)
    ensures a == b
  {
    NatToStringValue(a);
    NatToStringValue(b);
  }

  /** `str(i)` for any integer. */
  function IntToString(i: int): (r: string)
    ensures |r| >= 1
  {
    if i < 0 then "-" + NatToString(-i) else NatToString(i)
  }
}
