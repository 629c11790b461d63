/** `BooleanStateFilter`: a boolean reading (such as grid connected) is
    only believed once it has been seen on `n` consecutive calls; until then
    the previously confirmed value is reported. A pure step function from
    the filter state, the required confirmations `n`, the raw reading and
    its timestamp to the next state and the reported value. */
module StateFilter {
  import opened Wrappers

  /** A gap longer than this since the last call clears the pending change. */
  const GapSec: real := 300.0

  /** `confirmed_state` is `None` only before the first reading (`Fresh`);
      afterwards so is never `last_update_time`. */
  datatype BoolFilter =
    | Fresh
    | Live(confirmed: bool, pending: Option<bool>, count: nat, lastTime: real)

  /** `_reset_confirmation` */
  function Reset(f: BoolFilter): (r: BoolFilter)
    requires f.Live?
    ensures r.Live? && r.pending.None? && r.count == 0 && r.confirmed == f.confirmed && r.lastTime == f.lastTime
  {
    f.(pending := None, count := 0)
  }

  /** `filter(raw_value, timestamp)` with `required_confirmations == n`. */
  function Step(f: BoolFilter, n: nat, raw: bool, now: real): (r: (BoolFilter, bool))
    ensures r.0.Live? && r.0.lastTime == now
    ensures r.1 == r.0.confirmed
  {
    if f.Fresh? then (Live(raw, None, 0, now), raw)
    else
      var g := if now - f.lastTime > GapSec then Reset(f) else f;
      if raw == g.confirmed then (Reset(g).(lastTime := now), g.confirmed)
      else if g.pending.None? || g.pending.value != raw then
        (g.(pending := Some(raw), count := 1, lastTime := now), g.confirmed)
      else if g.count + 1 >= n then (Live(raw, None, 0, now), raw)
      else (g.(count := g.count + 1, lastTime := now), g.confirmed)
  }

  /** Feeding a run of timestamped readings; the reported values in order. */
  function Run(f: BoolFilter, n: nat, rs: seq<(bool, real)>): (r: (BoolFilter, seq<bool>))
    ensures |r.1| == |rs|
    ensures |rs| > 0 ==> r.0.Live? && r.0.lastTime == rs[|rs| - 1].1
    decreases |rs|
  {
    if |rs| == 0 then (f, [])
    else
      var (g, out) := Step(f, n, rs[0].0, rs[0].1);
      var (h, outs) := Run(g, n, rs[1..]);
      (h, [out] + outs)
  }

  // ---------------------------------------------------------------------
  // Properties
  // ---------------------------------------------------------------------

  /** A pending change is always a change away from the confirmed value,
      and is pending exactly while the count is positive. */
  predicate Valid(f: BoolFilter) {
    f.Live? ==> (f.pending.Some? <==> f.count > 0) && (f.pending.Some? ==> f.pending.value != f.confirmed)
  }

  lemma StepValid(f: BoolFilter, n: nat, raw: bool, now: real)
    requires Valid(f)
    ensures Valid(Step(f, n, raw, now).0)
  {
  }

  /** The first reading is believed at once. */
  lemma FirstReading(n: nat, raw: bool, now: real)
    ensures Step(Fresh, n, raw, now) == (Live(raw, None, 0, now), raw)
  {
  }

  /** A reading equal to the confirmed value clears any pending change. */
  lemma AgreeingReading(f: BoolFilter, n: nat, now: real)
    requires f.Live?
    ensures Step(f, n, f.confirmed, now) == (Live(f.confirmed, None, 0, now), f.confirmed)
  {
  }

  /** The confirmed value changes only to the raw reading, and only when
      that reading repeats a pending change whose count thereby reaches `n`. */
  lemma ChangeNeedsConfirmation(f: BoolFilter, n: nat, raw: bool, now: real)
    requires f.Live?
    ensures var g := Step(f, n, raw, now).0;
      g.confirmed != f.confirmed <==>
        && raw != f.confirmed
        && now - f.lastTime <= GapSec
        && f.pending == Some(raw)
        && f.count + 1 >= n
  {
  }

  /** A gap of more than 300 seconds forgets the pending change, never the
      confirmed value: the call behaves as if nothing were pending. */
  lemma GapForgetsPending(f: BoolFilter, n: nat, raw: bool, now: real)
    requires f.Live? && now - f.lastTime > GapSec
    ensures Step(f, n, raw, now) == Step(Reset(f), n, raw, now)
  {
  }

  /** `k` consecutive readings of the other value, each within 300 seconds
      of the previous call. */
  predicate Steady(t0: real, v: bool, rs: seq<(bool, real)>) {
    && (forall i :: 0 <= i < |rs| ==> rs[i].0 == v)
    && (|rs| > 0 ==> rs[0].1 - t0 <= GapSec)
    && (forall i :: 0 < i < |rs| ==> rs[i].1 - rs[i - 1].1 <= GapSec)
  }

  lemma SteadyPrefix(t0: real, v: bool, rs: seq<(bool, real)>)
    requires Steady(t0, v, rs) && |rs| > 0
    ensures Steady(t0, v, rs[..|rs| - 1])
  {
    var init := rs[..|rs| - 1];
    assert forall i :: 0 <= i < |init| ==> init[i] == rs[i];
  }

  /** From a filter with nothing pending, `k` consecutive readings of the
      other value leave the confirmed value alone while `k` is below
      `max(n, 2)` (the count is checked only when it is incremented, so even
      `n <= 1` needs two readings), and count them as pending. */
  lemma {:induction false} SteadyCounts(f: BoolFilter, n: nat, rs: seq<(bool, real)>)
    requires f.Live? && f.pending.None? && f.count == 0
    requires Steady(f.lastTime, !f.confirmed, rs)
    requires |rs| > 0 && (|rs| < n || |rs| == 1)
    ensures var (g, outs) := Run(f, n, rs);
      && g.confirmed == f.confirmed && g.pending == Some(!f.confirmed) && g.count == |rs|
      && forall i :: 0 <= i < |outs| ==> outs[i] == f.confirmed
  {
    if |rs| > 1 {
      var init := rs[..|rs| - 1];
      SteadyPrefix(f.lastTime, !f.confirmed, rs);
      SteadyCounts(f, n, init);
      RunSnoc(f, n, init, rs[|rs| - 1]);
      assert init + [rs[|rs| - 1]] == rs;
    }
  }

  /** Running a run followed by one more reading. */
  lemma {:induction false} RunSnoc(f: BoolFilter, n: nat, rs: seq<(bool, real)>, x: (bool, real))
    ensures var (g, outs) := Run(f, n, rs);
      var (h, out) := Step(g, n, x.0, x.1);
      Run(f, n, rs + [x]) == (h, outs + [out])
    decreases |rs|
  {
    if |rs| > 0 {
      assert (rs + [x])[1..] == rs[1..] + [x];
      assert (rs + [x])[0] == rs[0];
      var (g, o) := Step(f, n, rs[0].0, rs[0].1);
      RunSnoc(g, n, rs[1..], x);
      var (g1, outs1) := Run(g, n, rs[1..]);
      var (h, out) := Step(g1, n, x.0, x.1);
      assert [o] + (outs1 + [out]) == ([o] + outs1) + [out];
    } else {
      assert rs + [x] == [x];
      var (h, out) := Step(f, n, x.0, x.1);
      assert Run(f, n, [x]) == (h, [out] + []);
      assert [out] + [] == [] + [out];
    }
  }

  /** The `max(n, 2)`-th consecutive reading of the other value flips the
      confirmed value, reports it and clears the pending change. */
  lemma SteadyFlips(f: BoolFilter, n: nat, rs: seq<(bool, real)>)
    requires f.Live? && f.pending.None? && f.count == 0
    requires Steady(f.lastTime, !f.confirmed, rs)
    requires |rs| == (if n < 2 then 2 else n)
    ensures var (g, outs) := Run(f, n, rs);
      && g.confirmed == !f.confirmed && g.pending.None? && g.count == 0
      && outs[|rs| - 1] == !f.confirmed
      && forall i :: 0 <= i < |rs| - 1 ==> outs[i] == f.confirmed
  {
    var init := rs[..|rs| - 1];
    SteadyPrefix(f.lastTime, !f.confirmed, rs);
    SteadyCounts(f, n, init);
    RunSnoc(f, n, init, rs[|rs| - 1]);
    assert init + [rs[|rs| - 1]] == rs;
  }

  /** Readings alternating between the other value and the confirmed one,
      starting from a filter with nothing pending, never change the
      confirmed value, whatever `n` is. */
  lemma {:induction false} AlternatingNeverFlips(f: BoolFilter, n: nat, rs: seq<(bool, real)>)
    requires f.Live? && f.pending.None?
    requires forall i :: 0 <= i < |rs| ==> rs[i].0 == (if i % 2 == 0 then !f.confirmed else f.confirmed)
    ensures var (g, outs) := Run(f, n, rs);
      g.Live? && g.confirmed == f.confirmed && forall i :: 0 <= i < |outs| ==> outs[i] == f.confirmed
    decreases |rs|
  {
    if |rs| == 1 {
    } else if |rs| >= 2 {
      var (g1, o1) := Step(f, n, rs[0].0, rs[0].1);
      var (g2, o2) := Step(g1, n, rs[1].0, rs[1].1);
      var rest := rs[2..];
      assert rs[1..][1..] == rest;
      AlternatingNeverFlips(g2, n, rest);
    }
  }

  /** Five `False` readings after an initial `True`, one second apart, with
      five confirmations required: reported `True` four times, then `False`. */
  lemma FiveFalses(t: real)
    ensures var f := Step(Fresh, 5, true, t).0;
      Run(f, 5, [(false, t + 1.0), (false, t + 2.0), (false, t + 3.0), (false, t + 4.0), (false, t + 5.0)]).1
        == [true, true, true, true, false]
  {
    var f := Step(Fresh, 5, true, t).0;
    var rs := [(false, t + 1.0), (false, t + 2.0), (false, t + 3.0), (false, t + 4.0), (false, t + 5.0)];
    assert Steady(f.lastTime, false, rs);
    SteadyFlips(f, 5, rs);
  }
}
