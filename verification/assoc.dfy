/** Python dictionaries built by a sequence of assignments `d[k] = v` and
    `d.update(e)`: the keys are the keys assigned, and each key keeps the
    value of its last assignment. */
module Assoc {

  /** The dictionary after performing the assignments of `s` in order on an
      empty one. */
  function ToMap<K, V>(s: seq<(K, V)>): (m: map<K, V>)
    ensures forall k :: 0 <= k < |s| ==> s[k].0 in m
    ensures forall x :: x in m ==> exists k :: 0 <= k < |s| && s[k].0 == x
  {
    if |s| == 0 then map[]
    else
      var init := s[..|s| - 1];
      assert forall k :: 0 <= k < |init| ==> init[k] == s[k];
      ToMap(init)[s[|s| - 1].0 := s[|s| - 1].1]
  }

  /** A key's value is that of its last assignment. */
  lemma {:induction false} LastWins<K, V>(s: seq<(K, V)>, j: nat)
    requires j < |s| && forall k :: j < k < |s| ==> s[k].0 != s[j].0
    ensures s[j].0 in ToMap(s) && ToMap(s)[s[j].0] == s[j].1
  {
    if j < |s| - 1 {
      var init := s[..|s| - 1];
      assert forall k :: j < k < |init| ==> init[k] == s[k];
      LastWins(init, j);
    }
  }

  /** Performing `a` and then `b` is `update`-ing the result of `a` with
      the result of `b`. */
  lemma {:induction false} ToMapAppend<K, V>(a: seq<(K, V)>, b: seq<(K, V)>)
    ensures ToMap(a + b) == ToMap(a) + ToMap(b)
  {
    if |b| == 0 {
      assert a + b == a;
    } else {
      var init, last := b[..|b| - 1], b[|b| - 1];
      assert (a + b)[..|a + b| - 1] == a + init && (a + b)[|a + b| - 1] == last;
      assert ToMap(a + b) == ToMap(a + init)[last.0 := last.1];
      assert ToMap(b) == ToMap(init)[last.0 := last.1];
      ToMapAppend(a, init);
      UpdateAssign(ToMap(a), ToMap(init), last.0, last.1);
    }
  }

  /** An assignment after an update is an assignment in the update. */
  lemma UpdateAssign<K, V>(m: map<K, V>, n: map<K, V>, k: K, v: V)
    ensures (m + n)[k := v] == m + n[k := v]
  {
  }

  /** `update` is associative. */
  lemma UpdateAssoc<K, V>(a: map<K, V>, b: map<K, V>, c: map<K, V>)
    ensures (a + b) + c == a + (b + c)
  {
  }

  /** Merging into an empty dictionary gives the merged one. */
  lemma MergeIntoEmpty<K, V>(m: map<K, V>)
    ensures map[] + m == m
  {
  }

  /** Updating with the results of two runs of assignments one after the
      other is updating with the result of both. */
  lemma MergeRuns<K, V>(found: map<K, V>, a: seq<(K, V)>, b: seq<(K, V)>)
    ensures (found + ToMap(a)) + ToMap(b) == found + ToMap(a + b)
  {
    ToMapAppend(a, b);
    UpdateAssoc(found, ToMap(a), ToMap(b));
  }

  /** One assignment is an update with its one-entry result. */
  lemma AssignOne<K, V>(found: map<K, V>, k: K, v: V)
    ensures found[k := v] == found + ToMap([(k, v)])
  {
    assert ToMap([(k, v)]) == map[k := v];
  }
}
