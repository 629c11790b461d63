/** The `.env` loader: it finds the first `.env` file among a few candidate
    paths and sets each `KEY=value` it holds in the process environment,
    never overwriting a variable that is already set. */
module EnvLoader {
  import opened Wrappers
  import opened Bytes
  import Text

  /** The process environment. */
  type Env = map<string, string>

  predicate IsQuote(c: char) {
    c == '"' || c == '\''
  }

  /** Remove one pair of matching surrounding quotes: `value[1:-1]` when the
      value starts and ends with the same quote character, which for the
      lone character `"` leaves the empty string. Any other value, a
      mismatched pair included, is kept as it is. */
  function Unquote(v: string): (r: string)
    ensures |v| >= 2 && IsQuote(v[0]) && v[|v| - 1] == v[0] ==> r == v[1..|v| - 1]
    ensures |v| == 1 && IsQuote(v[0]) ==> r == ""
    ensures (|v| == 0 || !IsQuote(v[0]) || v[|v| - 1] != v[0]) ==> r == v
  {
    Text.StartsWithChar(v, '"');
    Text.EndsWithChar(v, '"');
    Text.StartsWithChar(v, '\'');
    Text.EndsWithChar(v, '\'');
    if (Text.StartsWith(v, "\"") && Text.EndsWith(v, "\"")) || (Text.StartsWith(v, "'") && Text.EndsWith(v, "'")) then
      Slice(v, 1, |v| - 1)
    else v
  }

  /** One line of the file: `None` for a blank line, a comment or a line
      without `=`; otherwise the key before the first `=` and the value after
      it, both stripped, the value unquoted. */
  function ParseLine(line: string): (r: Option<(string, string)>)
    ensures r.Some? ==> '=' !in r.value.0 && Text.Strip(r.value.0) == r.value.0
    ensures var s := Text.Strip(line);
      r.None? <==> |s| == 0 || s[0] == '#' || '=' !in s
  {
    var s := Text.Strip(line);
    if |s| == 0 || s[0] == '#' then None
    else
      var k := Text.IndexOf(s, '=');
      if k == |s| then None
      else
        var key := Text.Strip(s[..k]);
        assert '=' !in key by {
          assert '=' !in s[..k];
          Text.StripWithin(s[..k], '=');
        }
        StripIdempotent(s[..k]);
        Some((key, Unquote(Text.Strip(s[k + 1..]))))
  }

  lemma StripIdempotent(s: string)
    ensures Text.Strip(Text.Strip(s)) == Text.Strip(s)
  {
    Text.StripTrimmed(Text.Strip(s));
  }

  /** What each line of the file reads as. */
  function Parsed(lines: seq<string>): (es: seq<Option<(string, string)>>)
    ensures |es| == |lines|
    ensures forall i :: 0 <= i < |es| ==> es[i] == ParseLine(lines[i])
  {
    seq(|lines|, i requires 0 <= i < |lines| => ParseLine(lines[i]))
  }

  /** Whether `os.environ[key] = value` raises: the empty key is an illegal
      name, and a NUL character in the key or the value is an embedded null
      byte. */
  predicate Unsettable(key: string, value: string) {
    key == "" || '\0' in key || '\0' in value
  }

  /** The loop over the lines of the file, on what they read as: a key not
      yet in the environment is set to its value. A key and value that
      cannot be set make the assignment raise; the handler reports it, and
      the remaining lines are not read. The second component says whether
      that happened. */
  function LoadEntries(env: Env, es: seq<Option<(string, string)>>): (r: (Env, bool))
    ensures forall k :: k in env ==> k in r.0 && r.0[k] == env[k]
    ensures forall k :: k in r.0 && k !in env ==>
      !Unsettable(k, r.0[k]) && exists i :: 0 <= i < |es| && es[i] == Some((k, r.0[k]))
    decreases |es|
  {
    if |es| == 0 then (env, false)
    else match es[0]
      case None => Later(env, es, LoadEntries(env, es[1..]))
      case Some((key, value)) =>
        if key in env then Later(env, es, LoadEntries(env, es[1..]))
        else if Unsettable(key, value) then (env, true)
        else
          var r := LoadEntries(env[key := value], es[1..]);
          LaterKeys(env[key := value], es, r);
          r
  }

  /** A result of loading the lines after the first, seen from all of them. */
  function Later(env: Env, es: seq<Option<(string, string)>>, r: (Env, bool)): (r': (Env, bool))
    requires |es| > 0
    requires forall k :: k in env ==> k in r.0 && r.0[k] == env[k]
    requires forall k :: k in r.0 && k !in env ==>
      !Unsettable(k, r.0[k]) && exists i :: 0 <= i < |es[1..]| && es[1..][i] == Some((k, r.0[k]))
    ensures r' == r
    ensures forall k :: k in r.0 && k !in env ==>
      !Unsettable(k, r.0[k]) && exists i :: 0 <= i < |es| && es[i] == Some((k, r.0[k]))
  {
    LaterKeys(env, es, r);
    r
  }

  lemma LaterKeys(env: Env, es: seq<Option<(string, string)>>, r: (Env, bool))
    requires |es| > 0
    requires forall k :: k in r.0 && k !in env ==>
      !Unsettable(k, r.0[k]) && exists i :: 0 <= i < |es[1..]| && es[1..][i] == Some((k, r.0[k]))
    ensures forall k :: k in r.0 && k !in env ==>
      !Unsettable(k, r.0[k]) && exists i :: 0 <= i < |es| && es[i] == Some((k, r.0[k]))
  {
    forall k | k in r.0 && k !in env
      ensures exists i :: 0 <= i < |es| && es[i] == Some((k, r.0[k]))
    {
      var i :| 0 <= i < |es[1..]| && es[1..][i] == Some((k, r.0[k]));
      assert es[i + 1] == Some((k, r.0[k]));
    }
  }

  /** The loop of `load_env` over the lines of the file. */
  function LoadLines(env: Env, lines: seq<string>): (r: (Env, bool))
    ensures forall k :: k in env ==> k in r.0 && r.0[k] == env[k]
    ensures forall k :: k in r.0 && k !in env ==>
      !Unsettable(k, r.0[k]) && exists i :: 0 <= i < |lines| && ParseLine(lines[i]) == Some((k, r.0[k]))
  {
    LoadEntries(env, Parsed(lines))
  }

  /** The value of the first entry that assigns `key`, if any. */
  function FirstValue(es: seq<Option<(string, string)>>, key: string): (r: Option<string>)
    ensures r.Some? ==>
      exists i :: 0 <= i < |es| && es[i] == Some((key, r.value)) && forall j :: 0 <= j < i ==> !Assigns(es[j], key)
    ensures r.None? ==> forall i :: 0 <= i < |es| ==> !Assigns(es[i], key)
  {
    if |es| == 0 then None
    else if Assigns(es[0], key) then Some(es[0].value.1)
    else
      var r := FirstValue(es[1..], key);
      if r.Some? then
        var i :| 0 <= i < |es[1..]| && es[1..][i] == Some((key, r.value))
          && forall j :: 0 <= j < i ==> !Assigns(es[1..][j], key);
        assert es[i + 1] == Some((key, r.value));
        assert forall j :: 0 <= j < i + 1 ==> !Assigns(es[j], key) by {
          forall j | 0 <= j < i + 1 ensures !Assigns(es[j], key) {
            if j > 0 {
              assert es[j] == es[1..][j - 1];
            }
          }
        }
        r
      else
        assert forall i :: 1 <= i < |es| ==> es[i] == es[1..][i - 1];
        r
  }

  predicate Assigns(e: Option<(string, string)>, key: string) {
    e.Some? && e.value.0 == key
  }

  /** No entry assigns the empty key. */
  predicate NoEmptyKey(es: seq<Option<(string, string)>>) {
    forall i :: 0 <= i < |es| ==> !Assigns(es[i], "")
  }

  /** An entry whose assignment raises. */
  predicate Refused(e: Option<(string, string)>) {
    e.Some? && Unsettable(e.value.0, e.value.1)
  }

  /** Every entry can be set. */
  predicate AllSettable(es: seq<Option<(string, string)>>) {
    forall i :: 0 <= i < |es| ==> !Refused(es[i])
  }

  /** The first occurrence of a key wins: after loading entries that can all
      be set, a variable that was not set holds the value of the first entry
      assigning it, and is set exactly when some entry assigns it. */
  lemma {:induction false} FirstWins(env: Env, es: seq<Option<(string, string)>>, key: string)
    requires AllSettable(es) && key !in env
    ensures !LoadEntries(env, es).1
    ensures var m := LoadEntries(env, es).0;
      (key in m <==> FirstValue(es, key).Some?) && (key in m ==> m[key] == FirstValue(es, key).value)
    decreases |es|
  {
    if |es| > 0 {
      var rest := es[1..];
      assert AllSettable(rest) by {
        forall i | 0 <= i < |rest| ensures !Refused(rest[i]) {
          assert rest[i] == es[i + 1];
        }
      }
      assert !Refused(es[0]);
      match es[0]
      case None =>
        FirstWins(env, rest, key);
      case Some((k, v)) =>
        if k in env {
          FirstWins(env, rest, key);
        } else if k == key {
          KeptOnward(env[k := v], rest, key);
        } else {
          FirstWins(env[k := v], rest, key);
        }
    }
  }

  /** A set variable is never overwritten, and the load completes when every
      entry can be set. */
  lemma {:induction false} KeptOnward(env: Env, es: seq<Option<(string, string)>>, key: string)
    requires AllSettable(es) && key in env
    ensures !LoadEntries(env, es).1
    ensures key in LoadEntries(env, es).0 && LoadEntries(env, es).0[key] == env[key]
    decreases |es|
  {
    if |es| > 0 {
      var rest := es[1..];
      assert AllSettable(rest) by {
        forall i | 0 <= i < |rest| ensures !Refused(rest[i]) {
          assert rest[i] == es[i + 1];
        }
      }
      assert !Refused(es[0]);
      match es[0]
      case None =>
        KeptOnward(env, rest, key);
      case Some((k, v)) =>
        if k in env {
          KeptOnward(env, rest, key);
        } else {
          KeptOnward(env[k := v], rest, key);
        }
    }
  }

  /** The load stops at entry `i`: it cannot be set, its key was not set
      before the load, and no earlier entry assigned that key (which would
      have set it, or stopped the load there). */
  predicate StopsAt(env: Env, es: seq<Option<(string, string)>>, i: nat)
    requires i < |es|
  {
    Refused(es[i]) && es[i].value.0 !in env && forall j :: 0 <= j < i ==> !Assigns(es[j], es[i].value.0)
  }

  predicate Stops(env: Env, es: seq<Option<(string, string)>>) {
    exists i :: 0 <= i < |es| && StopsAt(env, es, i)
  }

  /** The load ends with an error exactly when it reaches an entry it
      cannot set: the empty key, or a NUL in the key or the value, for a
      key neither set before nor assigned earlier in the file. */
  lemma {:induction false} LoadStops(env: Env, es: seq<Option<(string, string)>>)
    ensures LoadEntries(env, es).1 <==> Stops(env, es)
    decreases |es|
  {
    if |es| > 0 {
      var rest := es[1..];
      match es[0]
      case None =>
        StopsCons(env, env, es);
        LoadStops(env, rest);
      case Some((k, v)) =>
        if k in env {
          StopsCons(env, env, es);
          LoadStops(env, rest);
        } else if Unsettable(k, v) {
          assert StopsAt(env, es, 0);
        } else {
          StopsCons(env, env[k := v], es);
          LoadStops(env[k := v], rest);
        }
    }
  }

  /** Stopping in a run of entries is stopping at its first, or stopping in
      the rest from the environment the first leaves. */
  lemma StopsCons(env: Env, env2: Env, es: seq<Option<(string, string)>>)
    requires |es| > 0
    requires forall key :: key !in env2 <==> key !in env && !Assigns(es[0], key)
    ensures Stops(env, es) <==> StopsAt(env, es, 0) || Stops(env2, es[1..])
  {
    var rest := es[1..];
    if Stops(env, es) {
      var i :| 0 <= i < |es| && StopsAt(env, es, i);
      if i > 0 {
        StopsShift(env, env2, es, i - 1);
      }
    }
    if Stops(env2, rest) {
      var i :| 0 <= i < |rest| && StopsAt(env2, rest, i);
      StopsShift(env, env2, es, i);
    }
  }

  lemma StopsShift(env: Env, env2: Env, es: seq<Option<(string, string)>>, i: nat)
    requires i + 1 < |es|
    requires forall key :: key !in env2 <==> key !in env && !Assigns(es[0], key)
    ensures StopsAt(env, es, i + 1) <==> StopsAt(env2, es[1..], i)
  {
    var rest := es[1..];
    assert rest[i] == es[i + 1];
    assert forall j :: 0 <= j < i ==> rest[j] == es[j + 1];
    if Refused(es[i + 1]) {
      var key := es[i + 1].value.0;
      assert (forall j :: 0 <= j < i + 1 ==> !Assigns(es[j], key))
        <==> !Assigns(es[0], key) && forall j :: 0 <= j < i ==> !Assigns(rest[j], key) by {
        if forall j :: 0 <= j < i ==> !Assigns(rest[j], key) {
          forall j | 1 <= j < i + 1 ensures !Assigns(es[j], key) {
            assert es[j] == rest[j - 1];
          }
        }
      }
    }
  }

  /** The empty key always stops the load: the first entry assigning it is
      reached, since it can never have been set. */
  lemma EmptyKeyStops(env: Env, es: seq<Option<(string, string)>>)
    requires "" !in env
    ensures !NoEmptyKey(es) ==> LoadEntries(env, es).1
  {
    LoadStops(env, es);
    var first := FirstValue(es, "");
    if first.Some? {
      var i :| 0 <= i < |es| && es[i] == Some(("", first.value)) && forall j :: 0 <= j < i ==> !Assigns(es[j], "");
      assert StopsAt(env, es, i);
    }
  }

  /** The first candidate path that exists. */
  function FirstExisting(candidates: seq<string>, files: map<string, seq<string>>): (r: Option<nat>)
    ensures r.Some? ==>
      r.value < |candidates| && candidates[r.value] in files && forall j :: 0 <= j < r.value ==> candidates[j] !in files
    ensures r.None? ==> forall j :: 0 <= j < |candidates| ==> candidates[j] !in files
  {
    if |candidates| == 0 then None
    else if candidates[0] in files then Some(0)
    else match FirstExisting(candidates[1..], files)
      case None => None
      case Some(j) => Some(j + 1)
  }

  /** `load_env`: the lines of the first candidate `.env` file that exists
      (the current, parent and grandparent directory in the source) are
      loaded; when none exists the environment is left as it is. The file
      system is the map from existing paths to their lines. */
  function LoadEnv(env: Env, candidates: seq<string>, files: map<string, seq<string>>): (r: (Env, bool))
    ensures FirstExisting(candidates, files).None? ==> r == (env, false)
    ensures FirstExisting(candidates, files).Some? ==>
      r == LoadEntries(env, Parsed(files[candidates[FirstExisting(candidates, files).value]]))
    ensures forall k :: k in env ==> k in r.0 && r.0[k] == env[k]
  {
    match FirstExisting(candidates, files)
    case None => (env, false)
    case Some(j) => LoadLines(env, files[candidates[j]])
  }

  // ---------------------------------------------------------------------
  // Round trips and edge cases

  /** A trimmed line `key=raw` whose key and raw value are trimmed and
      whose key holds no `=` and starts no comment reads as the key and the
      unquoted value. */
  /** A line that is white space, then `x = u` starting and ending with a
      non-space character other than a leading `#`, then white space,
      assigns the stripped text before its first `=` the stripped and
      unquoted text after it. */
  lemma ParseCore(a: string, x: string, u: string, b: string)
    requires Text.AllSpace(a) && Text.AllSpace(b) && '=' !in x
    requires Text.Stripped(x + "=" + u) && x + "=" + u != [] && (x + "=" + u)[0] != '#'
    ensures ParseLine(a + (x + "=" + u) + b) == Some((Text.Strip(x), Unquote(Text.Strip(u))))
  {
    var core := x + "=" + u;
    Text.StripPadded(a, core, b);
    Text.IndexOfAfter(x, '=', u);
    assert core[..|x|] == x && core[|x| + 1..] == u;
  }

  /** `KEY = value`, with any white space around the key, the `=` and the
      value, assigns the key its value with matching surrounding quotes
      removed: for a key and value without surrounding white space (either
      may be empty), a key holding no `=` and not starting a comment. */
  lemma ParseAssignment(w1: string, key: string, w2: string, w3: string, raw: string, w4: string)
    requires Text.AllSpace(w1) && Text.AllSpace(w2) && Text.AllSpace(w3) && Text.AllSpace(w4)
    requires (key == [] || Text.Stripped(key)) && '=' !in key && !Text.StartsWith(key, "#")
    requires raw == [] || Text.Stripped(raw)
    ensures ParseLine(w1 + key + w2 + "=" + w3 + raw + w4) == Some((key, Unquote(raw)))
  {
    Text.AllSpaceConcat(w1, w2);
    Text.AllSpaceConcat(w3, w4);
    if key == [] {
      if raw == [] {
        LayoutBare(w1, w2, w3, w4);
        Text.StripTrimmed([]);
        ParseCore(w1 + w2, [], [], w3 + w4);
      } else {
        LayoutValue(w1, w2, w3, raw, w4);
        ValueSide(w3, raw);
        Text.StripTrimmed([]);
        ParseCore(w1 + w2, [], w3 + raw, w4);
      }
    } else {
      KeySide(key, w2);
      if raw == [] {
        LayoutKey(w1, key, w2, w3, w4);
        Text.StripTrimmed([]);
        ParseCore(w1, key + w2, [], w3 + w4);
      } else {
        LayoutBoth(w1, key, w2, w3, raw, w4);
        ValueSide(w3, raw);
        ParseCore(w1, key + w2, w3 + raw, w4);
      }
    }
  }

  /** A key padded on the right strips to itself and still holds no `=`. */
  lemma KeySide(key: string, w2: string)
    requires Text.Stripped(key) && Text.AllSpace(w2) && '=' !in key
    ensures Text.Strip(key + w2) == key && '=' !in key + w2
  {
    Text.StripPadded([], key, w2);
    assert [] + key + w2 == key + w2;
    NoSign(key, w2);
  }

  lemma NoSign(key: string, w2: string)
    requires Text.AllSpace(w2) && '=' !in key
    ensures '=' !in key + w2
  {
    forall j | 0 <= j < |key + w2| ensures (key + w2)[j] != '=' {
      if j < |key| {
        assert (key + w2)[j] == key[j];
      } else {
        assert (key + w2)[j] == w2[j - |key|];
      }
    }
  }

  /** A value padded on the left strips to itself. */
  lemma ValueSide(w3: string, raw: string)
    requires Text.Stripped(raw) && Text.AllSpace(w3)
    ensures Text.Strip(w3 + raw) == raw
  {
    Text.StripPadded(w3, raw, []);
    assert w3 + raw + [] == w3 + raw;
  }

  /** `=` alone between white space. */
  lemma LayoutBare(w1: string, w2: string, w3: string, w4: string)
    ensures var core: string := [] + "=" + [];
      && w1 + [] + w2 + "=" + w3 + [] + w4 == (w1 + w2) + core + (w3 + w4)
      && Text.Stripped(core) && core[0] != '#'
  {
  }

  /** `= value` after white space. */
  lemma LayoutValue(w1: string, w2: string, w3: string, raw: string, w4: string)
    requires Text.Stripped(raw)
    ensures var core: string := [] + "=" + (w3 + raw);
      && w1 + [] + w2 + "=" + w3 + raw + w4 == (w1 + w2) + core + w4
      && Text.Stripped(core) && core[0] != '#'
  {
    var core: string := [] + "=" + (w3 + raw);
    assert core[|core| - 1] == raw[|raw| - 1];
  }

  /** `key =` before white space. */
  lemma LayoutKey(w1: string, key: string, w2: string, w3: string, w4: string)
    requires Text.Stripped(key) && !Text.StartsWith(key, "#")
    ensures var core: string := (key + w2) + "=" + [];
      && w1 + key + w2 + "=" + w3 + [] + w4 == w1 + core + (w3 + w4)
      && Text.Stripped(core) && core[0] != '#'
  {
    var core: string := (key + w2) + "=" + [];
    assert key[..1] == [key[0]];
    assert core[0] == key[0];
  }

  /** `key = value`. */
  lemma LayoutBoth(w1: string, key: string, w2: string, w3: string, raw: string, w4: string)
    requires Text.Stripped(key) && !Text.StartsWith(key, "#") && Text.Stripped(raw)
    ensures var core: string := (key + w2) + "=" + (w3 + raw);
      && w1 + key + w2 + "=" + w3 + raw + w4 == w1 + core + w4
      && Text.Stripped(core) && core[0] != '#'
  {
    var core: string := (key + w2) + "=" + (w3 + raw);
    assert key[..1] == [key[0]];
    assert core[0] == key[0];
    assert core[|core| - 1] == raw[|raw| - 1];
  }

  /** A line written as `KEY="value"` reads back as that key and value, for
      any key that is not empty, has no surrounding whitespace, holds no `=`
      and does not start a comment. */
  lemma QuotedRoundTrip(key: string, value: string)
    requires |key| > 0 && !Text.IsSpace(key[0]) && !Text.IsSpace(key[|key| - 1])
    requires '=' !in key && key[0] != '#'
    ensures ParseLine(key + "=\"" + value + "\"") == Some((key, value))
  {
    var q := "\"" + value + "\"";
    Quoted(key, value);
    BareAssignment(key, q);
    ParseAssignment([], key, [], [], q, []);
    assert q[1..|q| - 1] == value;
  }

  /** `KEY=` sets the key to the empty string. */
  lemma EmptyValue(key: string)
    requires |key| > 0 && !Text.IsSpace(key[0]) && !Text.IsSpace(key[|key| - 1])
    requires '=' !in key && key[0] != '#'
    ensures ParseLine(key + "=") == Some((key, ""))
  {
    BareAssignment(key, []);
    assert key + "=" + [] == key + "=";
    ParseAssignment([], key, [], [], [], []);
  }

  /** Mismatched quotes are kept: `KEY='value"` sets `'value"`. */
  lemma MismatchedQuotesKept(key: string, value: string)
    requires |key| > 0 && !Text.IsSpace(key[0]) && !Text.IsSpace(key[|key| - 1])
    requires '=' !in key && key[0] != '#'
    ensures ParseLine(key + "='" + value + "\"") == Some((key, "'" + value + "\""))
  {
    var raw := "'" + value + "\"";
    Mismatched(key, value);
    BareAssignment(key, raw);
    assert raw[0] == '\'' && raw[|raw| - 1] == '"';
    ParseAssignment([], key, [], [], raw, []);
  }

  /** The loader reads one line at a time, so a quote opened on one line is
      never closed by a later one: `KEY='{` sets `'{`, quote included. */
  lemma UnclosedQuoteKept(key: string, value: string)
    requires |key| > 0 && !Text.IsSpace(key[0]) && !Text.IsSpace(key[|key| - 1])
    requires '=' !in key && key[0] != '#'
    requires Text.Stripped(value) && value[|value| - 1] != '\''
    ensures ParseLine(key + "='" + value) == Some((key, "'" + value))
  {
    var raw := "'" + value;
    Opened(key, value);
    BareAssignment(key, raw);
    assert raw[0] == '\'' && raw[|raw| - 1] == value[|value| - 1];
    ParseAssignment([], key, [], [], raw, []);
  }

  /** A non-empty key without white space around it, with no padding. */
  lemma BareAssignment(key: string, raw: string)
    requires |key| > 0 && key[0] != '#'
    ensures [] + key + [] + "=" + [] + raw + [] == key + "=" + raw
    ensures !Text.StartsWith(key, "#")
  {
    assert key[..1] == [key[0]];
  }

  /** `KEY="value"` is `KEY=` followed by the quoted value. */
  lemma Quoted(key: string, value: string)
    ensures key + "=\"" + value + "\"" == key + "=" + ("\"" + value + "\"")
  {
  }

  /** `KEY='value"` is `KEY=` followed by the value and its quotes. */
  lemma Mismatched(key: string, value: string)
    ensures key + "='" + value + "\"" == key + "=" + ("'" + value + "\"")
  {
  }

  /** `KEY='value` is `KEY=` followed by the value and its opening quote. */
  lemma Opened(key: string, value: string)
    ensures key + "='" + value == key + "=" + ("'" + value)
  {
  }

  /** A comment, indented or not, assigns nothing, whatever follows the
      `#`. */
  lemma CommentsSkipped(w: string, rest: string)
    requires Text.AllSpace(w)
    ensures ParseLine(w + "#" + rest) == None
  {
    assert w + "#" + rest == w + ("#" + rest);
    Text.StripStart(w, "#" + rest);
  }

  /** A line without `=` assigns nothing. */
  lemma NoAssignmentSkipped(line: string)
    requires '=' !in line
    ensures ParseLine(line) == None
  {
    Text.StripWithin(line, '=');
  }
}
