/** The policy engine: per device, a danger timer (grid lost and SOC at or
    below the minimum) that triggers a shutdown once it has run longer than
    the debounce time, at most once per cooldown, and an abort when the
    danger clears soon after a shutdown; plus the fan-out of a command to
    the agents mapped to the device. The clock reading and the command id
    are parameters. */
module PolicyEngine {
  import opened Wrappers

  /** `max_data_gap_sec` */
  const MaxDataGapSec: real := 60.0
  /** `agent_shutdown_delay` */
  const AgentShutdownDelay: int := 60
  /** `ttl_sec` of every command */
  const CommandTtlSec: int := 300

  /** The configuration read at start-up: `POLICY_SOC_MIN`,
      `POLICY_DEBOUNCE_SEC`, `POLICY_COOLDOWN_SEC` and
      `DEVICE_TO_AGENTS_JSON`. */
  datatype Config = Config(socMin: int, debounceSec: int, cooldownSec: int, agents: map<string, seq<string>>)

  /** `device_states[device]`: the danger timer start, the last message
      time and the last shutdown time (0.0 for none). */
  datatype DeviceState = DeviceState(startTime: Option<real>, lastMsg: real, lastTrigger: real)

  datatype Action = Shutdown | Abort

  datatype Reason = Critical(soc: real) | Restored

  /** The command payload `{id, action, delay_sec, reason, ttl_sec}`. */
  datatype Command = Command(id: string, action: Action, delaySec: int, reason: Reason, ttlSec: int)

  datatype Publish = Publish(topic: string, command: Command)

  /** `(not grid_connected) and (soc <= policy_soc_min)`: inclusive. */
  predicate Danger(cfg: Config, soc: real, grid: bool) {
    !grid && soc <= cfg.socMin as real
  }

  /** The state a device gets on its first message. */
  function NewState(now: real): DeviceState {
    DeviceState(None, now, 0.0)
  }

  /** One `evaluate_policy` call for a device's state: the next state and
      the command to send, if any. */
  function Evaluate(cfg: Config, s: DeviceState, soc: real, grid: bool, now: real): (r: (DeviceState, Option<Action>))
    ensures r.0.lastMsg == now
  {
    if now - s.lastMsg > MaxDataGapSec then (DeviceState(None, now, s.lastTrigger), None)
    else if Danger(cfg, soc, grid) then
      if s.startTime.None? then (DeviceState(Some(now), now, s.lastTrigger), None)
      else if now - s.startTime.value > cfg.debounceSec as real && now - s.lastTrigger >= cfg.cooldownSec as real then
        (DeviceState(s.startTime, now, now), Some(Shutdown))
      else (s.(lastMsg := now), None)
    else if now - s.lastTrigger < (AgentShutdownDelay + 60) as real && s.lastTrigger > 0.0 then
      (DeviceState(None, now, 0.0), Some(Abort))
    else (DeviceState(None, now, s.lastTrigger), None)
  }

  /** `send_command`: one publish of the same command per mapped agent, on
      `power-manager/{agent}/cmd`, in the mapping's order. */
  function SendCommand(cfg: Config, device: string, action: Action, reason: Reason, id: string): (ps: seq<Publish>)
    ensures var agents := if device in cfg.agents then cfg.agents[device] else [];
      && |ps| == |agents|
      && forall k :: 0 <= k < |ps| ==>
           ps[k] == Publish("power-manager/" + agents[k] + "/cmd", Command(id, action, AgentShutdownDelay, reason, CommandTtlSec))
  {
    var agents := if device in cfg.agents then cfg.agents[device] else [];
    Fanout(agents, Command(id, action, AgentShutdownDelay, reason, CommandTtlSec))
  }

  function Fanout(agents: seq<string>, c: Command): (ps: seq<Publish>)
    ensures |ps| == |agents|
    ensures forall k :: 0 <= k < |ps| ==> ps[k] == Publish("power-manager/" + agents[k] + "/cmd", c)
  {
    if |agents| == 0 then []
    else [Publish("power-manager/" + agents[0] + "/cmd", c)] + Fanout(agents[1..], c)
  }

  /** `evaluate_policy(device, soc, grid_connected)` over all devices: the
      device's state is created on its first message, and the decided
      command, if any, is fanned out with the given command id. */
  function EvaluatePolicy(cfg: Config, states: map<string, DeviceState>, device: string, soc: real, grid: bool, now: real, id: string)
    : (r: (map<string, DeviceState>, seq<Publish>))
    ensures device in r.0 && r.0.Keys == states.Keys + {device}
    ensures forall d :: d in states && d != device ==> r.0[d] == states[d]
    ensures var (t, act) := Evaluate(cfg, if device in states then states[device] else NewState(now), soc, grid, now);
      && r.0[device] == t
      && (act.None? ==> r.1 == [])
      && (act == Some(Shutdown) ==> r.1 == SendCommand(cfg, device, Shutdown, Critical(soc), id))
      && (act == Some(Abort) ==> r.1 == SendCommand(cfg, device, Abort, Restored, id))
  {
    var s := if device in states then states[device] else NewState(now);
    var (s', act) := Evaluate(cfg, s, soc, grid, now);
    var ps := match act
      case None => []
      case Some(Shutdown) => SendCommand(cfg, device, Shutdown, Critical(soc), id)
      case Some(Abort) => SendCommand(cfg, device, Abort, Restored, id);
    (states[device := s'], ps)
  }

  /** Every agent mapped to the device receives the decided command, and
      nobody receives anything when there is no decision. */
  lemma PublishesFollowDecision(cfg: Config, states: map<string, DeviceState>, device: string, soc: real, grid: bool, now: real, id: string)
    ensures var ps := EvaluatePolicy(cfg, states, device, soc, grid, now, id).1;
      var act := Evaluate(cfg, if device in states then states[device] else NewState(now), soc, grid, now).1;
      var agents := if device in cfg.agents then cfg.agents[device] else [];
      && |ps| == (if act.None? then 0 else |agents|)
      && forall k :: 0 <= k < |ps| ==>
           && ps[k].topic == "power-manager/" + agents[k] + "/cmd"
           && ps[k].command.action == act.value && ps[k].command.id == id
           && ps[k].command.reason == (if act.value == Shutdown then Critical(soc) else Restored)
  {
  }

  /** A decoded state message: `device`, `soc` and `grid_connected`, each
      possibly missing. */
  datatype Message = Message(device: Option<string>, soc: Option<real>, grid: Option<bool>)

  /** The guard in `on_message`: only a message with a non-empty device
      name, a SOC and a grid flag is evaluated. */
  function OnMessage(cfg: Config, states: map<string, DeviceState>, m: Message, now: real, id: string)
    : (r: (map<string, DeviceState>, seq<Publish>))
    ensures (m.device.None? || m.device.value == [] || m.soc.None? || m.grid.None?) ==> r == (states, [])
    ensures m.device.Some? && m.device.value != [] && m.soc.Some? && m.grid.Some? ==>
      r == EvaluatePolicy(cfg, states, m.device.value, m.soc.value, m.grid.value, now, id)
  {
    if m.device.Some? && m.device.value != [] && m.soc.Some? && m.grid.Some? then
      EvaluatePolicy(cfg, states, m.device.value, m.soc.value, m.grid.value, now, id)
    else (states, [])
  }

  // ---------------------------------------------------------------------
  // Properties
  // ---------------------------------------------------------------------

  /** More than 60 seconds of silence clears the timer and decides nothing,
      whatever the reading. */
  lemma DataGap(cfg: Config, s: DeviceState, soc: real, grid: bool, now: real)
    requires now - s.lastMsg > MaxDataGapSec
    ensures Evaluate(cfg, s, soc, grid, now) == (DeviceState(None, now, s.lastTrigger), None)
  {
  }

  /** A shutdown is decided exactly when, without a data gap and in danger,
      the timer is already running for longer than the debounce time and
      the cooldown since the last shutdown has passed. It records the time
      of the shutdown and keeps the timer running. */
  lemma ShutdownIff(cfg: Config, s: DeviceState, soc: real, grid: bool, now: real)
    ensures var (t, act) := Evaluate(cfg, s, soc, grid, now);
      && (act == Some(Shutdown) <==>
            && now - s.lastMsg <= MaxDataGapSec && Danger(cfg, soc, grid)
            && s.startTime.Some? && now - s.startTime.value > cfg.debounceSec as real
            && now - s.lastTrigger >= cfg.cooldownSec as real)
      && (act == Some(Shutdown) ==> t.lastTrigger == now && t.startTime == s.startTime)
  {
  }

  /** The first danger reading only starts the timer. */
  lemma TimerStart(cfg: Config, s: DeviceState, soc: real, grid: bool, now: real)
    requires now - s.lastMsg <= MaxDataGapSec && Danger(cfg, soc, grid) && s.startTime.None?
    ensures Evaluate(cfg, s, soc, grid, now) == (DeviceState(Some(now), now, s.lastTrigger), None)
  {
  }

  /** A safe reading clears the timer; an abort is decided exactly when a
      shutdown was recorded less than the agents' delay plus 60 seconds
      ago, and it forgets that shutdown. */
  lemma AbortIff(cfg: Config, s: DeviceState, soc: real, grid: bool, now: real)
    requires now - s.lastMsg <= MaxDataGapSec && !Danger(cfg, soc, grid)
    ensures var (t, act) := Evaluate(cfg, s, soc, grid, now);
      && t.startTime.None?
      && (act == Some(Abort) <==> s.lastTrigger > 0.0 && now - s.lastTrigger < 120.0)
      && (act == Some(Abort) ==> t.lastTrigger == 0.0)
      && (act != Some(Abort) ==> act.None? && t.lastTrigger == s.lastTrigger)
  {
  }

  /** An abort is decided exactly on a safe reading without a data gap,
      less than 120 seconds after a recorded shutdown: a dangerous reading
      never aborts, so it never cancels a shutdown it still needs. */
  lemma DangerNeverAborts(cfg: Config, s: DeviceState, soc: real, grid: bool, now: real)
    ensures var (t, act) := Evaluate(cfg, s, soc, grid, now);
      && (Danger(cfg, soc, grid) ==> act != Some(Abort))
      && (act == Some(Abort) <==>
            && now - s.lastMsg <= MaxDataGapSec && !Danger(cfg, soc, grid)
            && s.lastTrigger > 0.0 && now - s.lastTrigger < 120.0)
  {
  }

  /** A running danger timer that does not fire (too early, or within the
      cooldown) only records the message time. */
  lemma TimerWaits(cfg: Config, s: DeviceState, soc: real, grid: bool, now: real)
    requires now - s.lastMsg <= MaxDataGapSec && Danger(cfg, soc, grid) && s.startTime.Some?
    requires !(now - s.startTime.value > cfg.debounceSec as real && now - s.lastTrigger >= cfg.cooldownSec as real)
    ensures Evaluate(cfg, s, soc, grid, now) == (s.(lastMsg := now), None)
  {
  }

  /** Two shutdowns with no abort between them are at least the cooldown
      apart: a decision that is not an abort keeps the recorded shutdown
      time or replaces it by a later shutdown. */
  lemma ShutdownsSpaced(cfg: Config, s: DeviceState, soc: real, grid: bool, now: real, t1: real)
    requires s.lastTrigger == t1 > 0.0
    ensures var (t, act) := Evaluate(cfg, s, soc, grid, now);
      && (act == Some(Shutdown) ==> now - t1 >= cfg.cooldownSec as real)
      && (act != Some(Abort) && act != Some(Shutdown) ==> t.lastTrigger == t1)
  {
  }

  /** A device's decisions over a run of readings `(soc, grid, now)`. */
  function Run(cfg: Config, s: DeviceState, rs: seq<(real, bool, real)>): (r: (DeviceState, seq<Action>))
    decreases |rs|
  {
    if |rs| == 0 then (s, [])
    else
      var (t, act) := Evaluate(cfg, s, rs[0].0, rs[0].1, rs[0].2);
      var (u, acts) := Run(cfg, t, rs[1..]);
      (u, (if act.Some? then [act.value] else []) + acts)
  }

  function Count(acts: seq<Action>, a: Action): nat {
    if |acts| == 0 then 0 else (if acts[0] == a then 1 else 0) + Count(acts[1..], a)
  }

  lemma CountAppend(xs: seq<Action>, ys: seq<Action>, a: Action)
    ensures Count(xs + ys, a) == Count(xs, a) + Count(ys, a)
  {
    if |xs| > 0 {
      assert (xs + ys)[1..] == xs[1..] + ys;
    } else {
      assert xs + ys == ys;
    }
  }

  /** Every abort answers a distinct earlier shutdown: over any run, the
      aborts plus the shutdown still on record at the end never outnumber
      the shutdowns plus the one on record at the start. */
  lemma {:induction false} AbortsFollowShutdowns(cfg: Config, s: DeviceState, rs: seq<(real, bool, real)>)
    ensures var (u, acts) := Run(cfg, s, rs);
      Count(acts, Abort) + (if u.lastTrigger > 0.0 then 1 else 0)
        <= Count(acts, Shutdown) + (if s.lastTrigger > 0.0 then 1 else 0)
    decreases |rs|
  {
    if |rs| > 0 {
      var (t, act) := Evaluate(cfg, s, rs[0].0, rs[0].1, rs[0].2);
      AbortsFollowShutdowns(cfg, t, rs[1..]);
      var (u, acts) := Run(cfg, t, rs[1..]);
      var first := if act.Some? then [act.value] else [];
      CountAppend(first, acts, Abort);
      CountAppend(first, acts, Shutdown);
    }
  }

  /** From a fresh device, there are never more aborts than shutdowns. */
  lemma AtMostOneAbortPerShutdown(cfg: Config, now: real, rs: seq<(real, bool, real)>)
    ensures var (_, acts) := Run(cfg, NewState(now), rs);
      Count(acts, Abort) <= Count(acts, Shutdown)
  {
    AbortsFollowShutdowns(cfg, NewState(now), rs);
  }

  /** A device that is not mapped to any agent gets no publishes. */
  lemma UnmappedDeviceSilent(cfg: Config, device: string, action: Action, reason: Reason, id: string)
    requires device !in cfg.agents || cfg.agents[device] == []
    ensures SendCommand(cfg, device, action, reason, id) == []
  {
  }

  /** A message missing a field creates no device state and publishes
      nothing; a complete one always leaves a state for its device. */
  lemma GuardedMessage(cfg: Config, states: map<string, DeviceState>, m: Message, now: real, id: string)
    ensures var (st, ps) := OnMessage(cfg, states, m, now, id);
      && (st.Keys == states.Keys <==> !(m.device.Some? && m.device.value != [] && m.soc.Some? && m.grid.Some?) || m.device.value in states)
      && (st != states ==> m.device.Some? && m.device.value in st)
  {
  }
}
