/** The three-tier SOC anomaly filter: a plausibility (rate) check, a
    confirmation window for large changes, and a median over the last five
    accepted readings. One filter is a pure step function from its state,
    the raw reading and the reading's timestamp to the next state and the
    value it returns (`None` for a rejected reading). */
module SocFilter {
  import opened Wrappers
  import Stats

  /** `max_change_per_minute` */
  const MaxChangePerMinute: real := 10.0
  /** Changes up to this size are plausible whatever the elapsed time. */
  const SmallChange: real := 3.0
  /** `confirmation_threshold` */
  const ConfirmationThreshold: real := 5.0
  /** `required_confirmations` */
  const RequiredConfirmations: nat := 5
  /** A reading within this distance of the pending value repeats it. */
  const PendingTolerance: real := 0.5
  /** `window_size` */
  const WindowSize: nat := 5
  /** A gap longer than this since the last accepted reading restarts the
      confirmation window. */
  const GapSec: real := 300.0

  /** Before the first reading `last_valid_soc` is `None` (`Fresh`); the first
      reading sets it together with `confirmed_soc`, and neither is ever
      `None` again, so a `Live` filter carries them as plain values. */
  datatype Filter =
    | Fresh
    | Live(pending: Option<real>, count: nat, confirmed: real, window: seq<real>, lastValid: real, lastTime: real)

  function Abs(x: real): real {
    if x < 0.0 then -x else x
  }

  /** `_calculate_change_rate`: percent per minute since the last accepted
      reading; no elapsed time counts as no change. */
  function ChangeRate(f: Filter, raw: real, now: real): (r: real)
    requires f.Live?
    ensures r >= 0.0
  {
    var dt := now - f.lastTime;
    if dt <= 0.0 then 0.0 else Abs(raw - f.lastValid) / dt * 60.0
  }

  /** `_is_plausible` */
  predicate Plausible(f: Filter, raw: real, now: real)
    requires f.Live?
  {
    Abs(raw - f.lastValid) <= SmallChange || ChangeRate(f, raw, now) <= MaxChangePerMinute
  }

  /** A reading is plausible iff it moved at most 3 points, or no time has
      passed, or it moved at most 10 points per 60 seconds elapsed. */
  lemma PlausibleIff(f: Filter, raw: real, now: real)
    requires f.Live?
    ensures var d, dt := Abs(raw - f.lastValid), now - f.lastTime;
      Plausible(f, raw, now) <==> d <= 3.0 || dt <= 0.0 || d * 60.0 <= 10.0 * dt
  {
    var d, dt := Abs(raw - f.lastValid), now - f.lastTime;
    if dt > 0.0 {
      RateBound(d, dt);
    }
  }

  /** A change of `d` points over `dt > 0` seconds is at most 10 points per
      minute iff `60 d <= 10 dt`. */
  lemma RateBound(d: real, dt: real)
    requires dt > 0.0 && d >= 0.0
    ensures d / dt * 60.0 <= MaxChangePerMinute <==> d * 60.0 <= 10.0 * dt
  {
    var r := d / dt * 60.0;
    assert r * dt == d * 60.0;
    ScaleOrder(r, 10.0, dt);
  }

  /** Scaling by a positive factor keeps the order. */
  lemma ScaleOrder(a: real, b: real, c: real)
    requires c > 0.0
    ensures a <= b <==> a * c <= b * c
  {
    if a > b {
      assert (a - b) * c > 0.0;
    }
  }

  /** `_reset_confirmation` */
  function ResetConfirmation(f: Filter): (r: Filter)
    requires f.Live?
    ensures r.Live? && r.pending.None? && r.count == 0
    ensures r.(pending := f.pending, count := f.count) == f
  {
    f.(pending := None, count := 0)
  }

  /** `_check_confirmation`: the updated filter and whether the reading is
      confirmed. */
  function CheckConfirmation(f: Filter, raw: real): (r: (Filter, bool))
    requires f.Live?
    ensures r.0.Live?
    ensures r.0.(pending := f.pending, count := f.count, confirmed := f.confirmed) == f
  {
    if Abs(raw - f.confirmed) <= ConfirmationThreshold then
      (f.(pending := None, count := 0, confirmed := raw), true)
    else if f.pending.None? || Abs(raw - f.pending.value) > PendingTolerance then
      (f.(pending := Some(raw), count := 1), false)
    else if f.count + 1 >= RequiredConfirmations then
      (f.(pending := None, count := 0, confirmed := raw), true)
    else
      (f.(count := f.count + 1), false)
  }

  /** `recent_readings` after `append` and the eviction of the oldest
      reading beyond five: the newest readings, ending in `x`. */
  function Push(window: seq<real>, x: real): (w: seq<real>)
    ensures 0 < |w| <= WindowSize
    ensures |w| == (if |window| < WindowSize then |window| + 1 else WindowSize)
    ensures w == (window + [x])[|window| + 1 - |w|..]
  {
    var ws := window + [x];
    if |ws| > WindowSize then ws[|ws| - WindowSize..] else ws
  }

  /** `filter(raw_soc, timestamp)`, with the timestamp always supplied. */
  function Step(f: Filter, raw: real, now: real): (r: (Filter, Option<real>))
    ensures r.0.Live?
  {
    if f.Fresh? then
      (Live(None, 0, raw, [], raw, now), Some(raw))
    else
      var g := if now - f.lastTime > GapSec then ResetConfirmation(f) else f;
      if !Plausible(g, raw, now) then (g, None)
      else
        var (h, ok) := CheckConfirmation(g, raw);
        if !ok then (h, Some(h.confirmed))
        else
          var w := Push(h.window, raw);
          var m := Stats.Median(w);
          (h.(window := w, lastValid := m, lastTime := now), Some(m))
  }

  // ---------------------------------------------------------------------
  // Properties
  // ---------------------------------------------------------------------

  /** What every reachable filter satisfies: a window of at most five
      readings, a pending value exactly while the count is positive, a count
      below the confirmation threshold, and a rate anchor equal to the
      window's median once the window holds anything. */
  predicate Valid(f: Filter) {
    f.Live? ==>
      && |f.window| <= WindowSize
      && (f.pending.None? <==> f.count == 0)
      && f.count < RequiredConfirmations
      && (|f.window| > 0 ==> f.lastValid == Stats.Median(f.window))
  }

  lemma StepValid(f: Filter, raw: real, now: real)
    requires Valid(f)
    ensures Valid(Step(f, raw, now).0)
  {
    if f.Live? {
      var g := if now - f.lastTime > GapSec then ResetConfirmation(f) else f;
      assert Valid(g);
      if Plausible(g, raw, now) {
        var (h, ok) := CheckConfirmation(g, raw);
        assert h.window == f.window && h.lastValid == f.lastValid;
        assert h.count < RequiredConfirmations && (h.pending.None? <==> h.count == 0);
      }
    }
  }

  /** The first reading is returned unchanged and becomes both the
      confirmed value and the rate anchor; it does not enter the window. */
  lemma FirstReading(raw: real, now: real)
    ensures var (f, out) := Step(Fresh, raw, now);
      && out == Some(raw) && f.confirmed == raw && f.lastValid == raw
      && f.lastTime == now && f.window == [] && f.pending.None?
  {
  }

  /** A reading is rejected exactly when it is implausible; a rejected
      reading changes nothing but the pending value and count, and those
      only by a gap reset. */
  lemma Rejection(f: Filter, raw: real, now: real)
    requires f.Live?
    ensures var (g, out) := Step(f, raw, now);
      && (out.None? <==> !Plausible(f, raw, now))
      && (out.None? ==> g.(pending := f.pending, count := f.count) == f)
      && (out.None? && now - f.lastTime <= GapSec ==> g == f)
  {
    var g := if now - f.lastTime > GapSec then ResetConfirmation(f) else f;
    assert g.lastValid == f.lastValid && g.lastTime == f.lastTime;
    assert Plausible(g, raw, now) == Plausible(f, raw, now);
    if Plausible(g, raw, now) {
      assert Step(f, raw, now).1.Some?;
    } else {
      assert Step(f, raw, now) == (g, None);
    }
  }

  /** A plausible reading within the confirmation threshold of the
      confirmed value is confirmed at once: it becomes the confirmed value,
      clears the pending value, enters the window, and the window's median
      is returned and becomes the rate anchor. */
  lemma SmallChangeConfirmed(f: Filter, raw: real, now: real)
    requires f.Live? && Plausible(f, raw, now) && Abs(raw - f.confirmed) <= ConfirmationThreshold
    ensures var (g, out) := Step(f, raw, now);
      && g.confirmed == raw && g.pending.None? && g.count == 0
      && g.window == Push(f.window, raw) && out == Some(Stats.Median(g.window))
      && Stats.Min(g.window) <= out.value <= Stats.Max(g.window)
      && g.lastValid == out.value && g.lastTime == now
  {
  }

  /** A plausible reading beyond the threshold either starts a new pending
      value (count 1), or repeats the pending value (within 0.5) and
      increments the count. Until the count reaches five the call returns
      the confirmed value and leaves the window and the rate anchor alone;
      the fifth repetition confirms the reading. */
  lemma LargeChangePending(f: Filter, raw: real, now: real)
    requires f.Live? && Plausible(f, raw, now) && Abs(raw - f.confirmed) > ConfirmationThreshold
    ensures var (g, out) := Step(f, raw, now);
      var p := if now - f.lastTime > GapSec then None else f.pending;
      var c := if now - f.lastTime > GapSec then 0 else f.count;
      var repeat := p.Some? && Abs(raw - p.value) <= PendingTolerance;
      && (!repeat ==> g.pending == Some(raw) && g.count == 1)
      && (repeat && c + 1 < RequiredConfirmations ==> g.pending == p && g.count == c + 1)
      && (repeat && c + 1 >= RequiredConfirmations ==> g.confirmed == raw && g.pending.None? && g.count == 0)
      && (!repeat || c + 1 < RequiredConfirmations ==>
            out == Some(f.confirmed) && g.confirmed == f.confirmed && g.window == f.window
            && g.lastValid == f.lastValid && g.lastTime == f.lastTime)
      && (repeat && c + 1 >= RequiredConfirmations ==> out == Some(Stats.Median(g.window)) && g.window == Push(f.window, raw))
  {
  }

  // ---------------------------------------------------------------------
  // Traces
  // ---------------------------------------------------------------------

  /** 90 % then 9 % one second later is rejected. */
  lemma RejectsDrop()
    ensures var (f, a) := Step(Fresh, 90.0, 1000.0);
      var (_, b) := Step(f, 9.0, 1001.0);
      a == Some(90.0) && b == None
  {
  }

  /** Rapid toggling between 90 % and 89 % a tenth of a second apart is
      accepted: the outputs are 90, 89 and the median 89.5 of the window
      [89, 90]. */
  lemma RapidToggle()
    ensures var (f1, a) := Step(Fresh, 90.0, 1000.0);
      var (f2, b) := Step(f1, 89.0, 1000.1);
      var (_, c) := Step(f2, 90.0, 1000.2);
      a == Some(90.0) && b == Some(89.0) && c == Some(89.5)
  {
    var f1 := Live(None, 0, 90.0, [], 90.0, 1000.0);
    assert Step(Fresh, 90.0, 1000.0) == (f1, Some(90.0));
    ToggleDown();
    ToggleUp();
  }

  /** 89 % a tenth of a second after the first 90 % is a small change: it
      is confirmed and becomes the window's only reading. */
  lemma ToggleDown()
    ensures Step(Live(None, 0, 90.0, [], 90.0, 1000.0), 89.0, 1000.1)
      == (Live(None, 0, 89.0, [89.0], 89.0, 1000.1), Some(89.0))
  {
    assert Push([], 89.0) == [89.0];
    Stats.MedianSingle(89.0);
  }

  /** 90 % again is confirmed too; the window [89, 90] has median 89.5. */
  lemma ToggleUp()
    ensures Step(Live(None, 0, 89.0, [89.0], 89.0, 1000.1), 90.0, 1000.2).1 == Some(89.5)
  {
    assert Push([89.0], 90.0) == [89.0, 90.0];
    Stats.MedianPair(89.0, 90.0);
  }

  /** A drop from 90 % to 50 % arriving at the maximum plausible rate is held
      back four times (the confirmed 90 is returned) and confirmed by the
      fifth consecutive reading, which is returned as the median of a window
      holding only it. */
  lemma ConfirmedOnFifth()
    ensures var (f0, _) := Step(Fresh, 90.0, 0.0);
      var (f1, a) := Step(f0, 50.0, 240.0);
      var (f2, b) := Step(f1, 50.0, 250.0);
      var (f3, c) := Step(f2, 50.0, 260.0);
      var (f4, d) := Step(f3, 50.0, 270.0);
      var (f5, e) := Step(f4, 50.0, 280.0);
      a == b == c == d == Some(90.0) && e == Some(50.0) && f5.confirmed == 50.0
  {
    var f0 := Live(None, 0, 90.0, [], 90.0, 0.0);
    assert Step(Fresh, 90.0, 0.0).0 == f0;
    HeldBack(0, 240.0);
    HeldBack(1, 250.0);
    HeldBack(2, 260.0);
    HeldBack(3, 270.0);
    FifthConfirms();
  }

  /** The fifth reading of 50 % is confirmed and enters the empty window. */
  lemma FifthConfirms()
    ensures Step(Live(Some(50.0), 4, 90.0, [], 90.0, 0.0), 50.0, 280.0)
      == (Live(None, 0, 50.0, [50.0], 50.0, 280.0), Some(50.0))
  {
    var f := Live(Some(50.0), 4, 90.0, [], 90.0, 0.0);
    assert Plausible(f, 50.0, 280.0) by {
      PlausibleIff(f, 50.0, 280.0);
    }
    assert Push([], 50.0) == [50.0];
    Stats.MedianSingle(50.0);
  }

  /** One of the first four readings of 50 % after 90 %, each at least four
      minutes after the anchor and within the gap: it is plausible, beyond
      the threshold, and counted. */
  lemma HeldBack(c: nat, now: real)
    requires c < 4 && 240.0 <= now <= 300.0
    ensures var p := if c == 0 then None else Some(50.0);
      Step(Live(p, c, 90.0, [], 90.0, 0.0), 50.0, now) == (Live(Some(50.0), c + 1, 90.0, [], 90.0, 0.0), Some(90.0))
  {
    var p := if c == 0 then None else Some(50.0);
    var f := Live(p, c, 90.0, [], 90.0, 0.0);
    assert Plausible(f, 50.0, now) by {
      PlausibleIff(f, 50.0, now);
    }
  }
}
