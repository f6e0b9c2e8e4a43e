// The probe schedule that generations of probers share, as a machine of atomic steps.

module ProbeSchedules {
  import opened Wrappers
  import opened Integers

  /** No deadline yet: the identity of `min`. */
  const UNSCHEDULED: U64 := MAX_U64

  // ---------------------------------------------------------------------------------------------
  // The shared slots

  /** `fetch_min`: spawning only ever moves a deadline earlier. */
  function Earliest(slot: U64, first: U64): (deadline: U64)
    ensures deadline <= slot && deadline <= first && (deadline == slot || deadline == first)
  {
    if slot <= first then slot else first
  }

  /** `compare_exchange`: a tick moves the deadline it owns, and no other. */
  function Advanced(slot: U64, owned: U64, next: U64): (own: U64)
    ensures slot != owned ==> own == slot
    ensures slot == owned ==> own == next
  {
    if slot == owned then next else slot
  }

  class ProbeSchedule {
    var generation: nat
    const deadlines: array<U64>

    constructor (laneCount: nat)
      ensures generation == 0 && fresh(deadlines) && deadlines.Length == laneCount
      ensures forall i | 0 <= i < laneCount :: deadlines[i] == UNSCHEDULED
    {
      generation := 0;
      deadlines := new U64[laneCount](_ => UNSCHEDULED);
    }

    method NextGeneration() returns (mine: nat)
      modifies this
      ensures generation == mine == old(generation) + 1
    {
      generation := generation + 1;
      mine := generation;
    }

    /** A lane without a slot keeps a schedule of its own. */
    method ScheduleFirst(i: nat, first: U64) returns (deadline: U64)
      modifies deadlines
      ensures i < deadlines.Length ==>
                deadline == Earliest(old(deadlines[i]), first) && deadlines[..] == old(deadlines[..])[i := deadline]
      ensures i >= deadlines.Length ==> deadline == first && deadlines[..] == old(deadlines[..])
    {
      if i >= deadlines.Length {
        return first;
      }
      deadline := if deadlines[i] < first then deadlines[i] else first;
      deadlines[i] := deadline;
    }

    method AdvanceOwnedDeadline(i: nat, owned: U64, next: U64) returns (own: U64)
      requires i < deadlines.Length
      modifies deadlines
      ensures own == Advanced(old(deadlines[i]), owned, next)
      ensures deadlines[..] == old(deadlines[..])[i := own]
    {
      if deadlines[i] == owned {
        deadlines[i] := next;
      }
      own := deadlines[i];
    }
  }

  // ---------------------------------------------------------------------------------------------
  // The machine

  /** In milliseconds: the time between ticks, and the longest that a probe may take. */
  datatype Timing = Timing(interval: nat, timeout: nat)

  /** What each generation configures for a lane, if it probes the lane. */
  type Config = (nat, nat) -> Option<Timing>

  datatype Phase = Sleeping | Checked | Timed(next: U64) | Written

  /** `fire` is when its ticker is due, `since` when its last tick passed the generation check; `Written` may last. */
  datatype Prober = Prober(gen: nat, lane: nat, owned: U64, fire: nat, phase: Phase, since: nat)

  /** A call of `spawn_probers` that has come to `lane`; `first` once it has read the clock for it. */
  datatype Spawner = Spawner(gen: nat, lane: nat, first: Option<U64>)

  /** `passed` is history: when a tick of the lane last passed the generation check, or the lane was first scheduled. */
  datatype State = State(
    now: nat, generation: nat, slots: seq<U64>,
    probers: map<nat, Prober>, spawners: map<nat, Spawner>,
    passed: seq<Option<nat>>)

  datatype Step =
    | Bump(id: nat)
    | SkipLane(id: nat)
    | ReadFirst(id: nat)
    | Schedule(id: nat, pid: nat)
    | Finish(id: nat)
    | Wake(pid: nat, fire: nat)
    | ReadNext(pid: nat)
    | Write(pid: nat)
    | Retire(pid: nat)
    | Probe(pid: nat)
    | Advance(to: nat)

  function Later(now: nat, interval: nat): U64 { Clamp(now + interval, 0, MAX_U64) }

  function Init(lanes: nat): State
  {
    State(0, 0, seq(lanes, _ => UNSCHEDULED), map[], map[], seq(lanes, _ => None))
  }

  /** Spawner `id` is at a lane that its generation probes. */
  predicate AtLane(cfg: Config, s: State, id: nat)
  {
    && id in s.spawners && s.spawners[id].lane < |s.slots|
    && cfg(s.spawners[id].gen, s.spawners[id].lane).Some?
  }

  predicate Running(cfg: Config, s: State, pid: nat)
  {
    && pid in s.probers && s.probers[pid].lane < |s.slots|
    && cfg(s.probers[pid].gen, s.probers[pid].lane).Some?
  }

  /** A live prober lets time pass until its tick is due, and a probe, superseded or not, until it times out. */
  predicate LetsPass(cfg: Config, s: State, p: Prober, to: nat)
  {
    match p.phase
    case Sleeping => p.gen == s.generation ==> to <= p.fire
    case Written => cfg(p.gen, p.lane).Some? && to <= ProbeEnd(cfg, p)
    case _ => false
  }

  /** When the probe of the tick has timed out. */
  function ProbeEnd(cfg: Config, p: Prober): nat
    requires cfg(p.gen, p.lane).Some?
  {
    p.since + cfg(p.gen, p.lane).value.timeout
  }

  /** Time passes when no spawn is under way and every prober lets it. */
  predicate MayAdvance(cfg: Config, s: State, to: nat)
  {
    s.now < to && s.spawners == map[] && forall p | p in s.probers :: LetsPass(cfg, s, s.probers[p], to)
  }

  predicate Enabled(cfg: Config, s: State, step: Step)
  {
    match step
    case Bump(id) => id !in s.spawners
    case SkipLane(id) =>
      && id in s.spawners && s.spawners[id].lane < |s.slots|
      && cfg(s.spawners[id].gen, s.spawners[id].lane) == None
    case ReadFirst(id) => AtLane(cfg, s, id) && s.spawners[id].first == None
    case Schedule(id, pid) => AtLane(cfg, s, id) && s.spawners[id].first.Some? && pid !in s.probers
    case Finish(id) => id in s.spawners && s.spawners[id].lane >= |s.slots|
    case Wake(pid, fire) =>
      && Running(cfg, s, pid) && s.probers[pid].phase == Sleeping && s.probers[pid].fire <= s.now
      && s.now < fire <= s.now + cfg(s.probers[pid].gen, s.probers[pid].lane).value.interval
    case ReadNext(pid) => Running(cfg, s, pid) && s.probers[pid].phase == Checked
    case Write(pid) => Running(cfg, s, pid) && s.probers[pid].phase.Timed?
    case Retire(pid) => Running(cfg, s, pid) && s.probers[pid].phase == Written && s.probers[pid].gen != s.generation
    case Probe(pid) => Running(cfg, s, pid) && s.probers[pid].phase == Written
    case Advance(to) => MayAdvance(cfg, s, to)
  }

  function After(cfg: Config, s: State, step: Step): State
    requires Enabled(cfg, s, step) && |s.passed| == |s.slots|
  {
    match step
    case Bump(id) =>
      s.(generation := s.generation + 1, spawners := s.spawners[id := Spawner(s.generation + 1, 0, None)])
    case SkipLane(id) =>
      s.(spawners := s.spawners[id := Spawner(s.spawners[id].gen, s.spawners[id].lane + 1, None)])
    case ReadFirst(id) =>
      var sp := s.spawners[id];
      s.(spawners := s.spawners[id := sp.(first := Some(Later(s.now, cfg(sp.gen, sp.lane).value.interval)))])
    case Schedule(id, pid) =>
      var sp := s.spawners[id];
      var deadline := Earliest(s.slots[sp.lane], sp.first.value);
      s.(slots := s.slots[sp.lane := deadline],
         probers := s.probers[pid := Prober(sp.gen, sp.lane, deadline, deadline, Sleeping, s.now)],
         spawners := s.spawners[id := Spawner(sp.gen, sp.lane + 1, None)],
         passed := if s.passed[sp.lane].None? then s.passed[sp.lane := Some(s.now)] else s.passed)
    case Finish(id) => s.(spawners := s.spawners - {id})
    case Wake(pid, fire) =>
      var p := s.probers[pid];
      if p.gen != s.generation then s.(probers := s.probers - {pid})
      else s.(probers := s.probers[pid := p.(phase := Checked, fire := fire, since := s.now)], passed := s.passed[p.lane := Some(s.now)])
    case ReadNext(pid) =>
      var p := s.probers[pid];
      s.(probers := s.probers[pid := p.(phase := Timed(Later(s.now, cfg(p.gen, p.lane).value.interval)))])
    case Write(pid) =>
      var p := s.probers[pid];
      var own := Advanced(s.slots[p.lane], p.owned, p.phase.next);
      s.(slots := s.slots[p.lane := own], probers := s.probers[pid := p.(owned := own, phase := Written)])
    case Retire(pid) => s.(probers := s.probers - {pid})
    case Probe(pid) => s.(probers := s.probers[pid := s.probers[pid].(phase := Sleeping)])
    case Advance(to) => s.(now := to)
  }

  /** The steps lead from `s` to `t`. */
  ghost predicate Leads(cfg: Config, s: State, steps: seq<Step>, t: State)
    decreases |steps|
  {
    |s.passed| == |s.slots| &&
    if steps == [] then s == t
    else Enabled(cfg, s, steps[0]) && Leads(cfg, After(cfg, s, steps[0]), steps[1..], t)
  }

  // ---------------------------------------------------------------------------------------------
  // Slots

  /**
   * A slot is raised by nothing but the write of a prober that passed the generation check and owns exactly the
   * value the slot holds; spawning never raises one, and a slot below what a late prober owns is left alone.
   */
  lemma OnlyOwnersRaise(cfg: Config, s: State, step: Step, lane: nat)
    requires |s.passed| == |s.slots| && Enabled(cfg, s, step) && lane < |s.slots|
    ensures var t := After(cfg, s, step);
            |t.slots| == |s.slots| &&
            (t.slots[lane] > s.slots[lane] ==>
               step.Write? && s.probers[step.pid].lane == lane && s.probers[step.pid].owned == s.slots[lane])
  {
  }

  /** A slot changes in two ways: its owner's write puts what that read, and a spawn may lower it to what that read. */
  lemma SlotChanges(cfg: Config, s: State, step: Step, lane: nat)
    requires |s.passed| == |s.slots| && Enabled(cfg, s, step) && lane < |s.slots|
    ensures var t := After(cfg, s, step);
            |t.slots| == |s.slots| &&
            (t.slots[lane] != s.slots[lane] ==>
               || (step.Write? && s.probers[step.pid].lane == lane && s.probers[step.pid].owned == s.slots[lane]
                   && t.slots[lane] == s.probers[step.pid].phase.next)
               || (step.Schedule? && s.spawners[step.id].lane == lane && t.slots[lane] < s.slots[lane]
                   && s.spawners[step.id].first == Some(t.slots[lane])))
    ensures step.Write? && s.probers[step.pid].owned != s.slots[s.probers[step.pid].lane] ==> After(cfg, s, step).slots == s.slots
    ensures step.Schedule? ==> After(cfg, s, step).slots[s.spawners[step.id].lane] <= s.spawners[step.id].first.value
  {
  }

  /** What a spawn or a tick reads is one interval from now, or the last millisecond of the clock. */
  lemma ReadsAhead(cfg: Config, s: State, step: Step)
    requires |s.passed| == |s.slots| && Enabled(cfg, s, step) && (step.ReadFirst? || step.ReadNext?)
    ensures
      var t := After(cfg, s, step);
      var (gen, lane) := if step.ReadFirst? then (s.spawners[step.id].gen, s.spawners[step.id].lane)
                         else (s.probers[step.pid].gen, s.probers[step.pid].lane);
      var interval := cfg(gen, lane).value.interval;
      var ahead := if s.now + interval < 0xFFFF_FFFF_FFFF_FFFF then s.now + interval else 0xFFFF_FFFF_FFFF_FFFF;
      && t.slots == s.slots && t.now == s.now
      && (step.ReadFirst? ==> t.spawners[step.id].first == Some(ahead))
      && (step.ReadNext? ==> t.probers[step.pid].phase == Timed(ahead))
  {
  }

  /** A superseded prober that finds out leaves, and touches nothing on its way. */
  lemma SupersededLeave(cfg: Config, s: State, step: Step)
    requires |s.passed| == |s.slots| && Enabled(cfg, s, step) && (step.Wake? || step.Retire?)
    requires s.probers[step.pid].gen != s.generation
    ensures var t := After(cfg, s, step);
            t == s.(probers := t.probers) && t.probers == s.probers - {step.pid}
  {
  }

  // ---------------------------------------------------------------------------------------------
  // Never dark

  /** Every generation probes the lane, with its interval and its timeout within `bound`. */
  ghost predicate Probed(cfg: Config, lane: nat, bound: nat)
  {
    forall g :: cfg(g, lane).Some? && cfg(g, lane).value.interval <= bound && cfg(g, lane).value.timeout <= bound
  }

  ghost predicate Soon(s: State, lane: nat, bound: nat, time: nat)
    requires lane < |s.passed|
  {
    s.passed[lane].Some? && time <= s.passed[lane].value + bound
  }

  ghost predicate ProberSafe(s: State, lane: nat, bound: nat, p: Prober)
    requires lane < |s.passed|
  {
    p.lane == lane ==>
      && Soon(s, lane, bound, p.fire)
      && (p.phase != Sleeping ==> p.since <= s.passed[lane].value)
      && (p.phase == Checked || p.phase.Timed? ==> s.passed[lane] == Some(s.now))
      && (p.phase.Timed? ==> p.phase.next <= s.now + bound)
  }

  ghost predicate SpawnerSafe(s: State, lane: nat, bound: nat, sp: Spawner)
  {
    sp.lane == lane && sp.first.Some? ==> sp.first.value <= s.now + bound
  }

  /** A live prober of the lane, or a live spawner that has yet to come to it. */
  ghost predicate Attended(s: State, lane: nat)
  {
    || (exists p :: p in s.probers && s.probers[p].gen == s.generation && s.probers[p].lane == lane)
    || (exists i :: i in s.spawners && s.spawners[i].gen == s.generation && s.spawners[i].lane <= lane)
  }

  ghost predicate Inv(s: State, lane: nat, bound: nat)
  {
    && lane < |s.slots| == |s.passed|
    && (s.passed[lane].Some? ==> s.passed[lane].value <= s.now && Soon(s, lane, bound, s.now) && Soon(s, lane, bound, s.slots[lane]))
    && (forall p | p in s.probers :: ProberSafe(s, lane, bound, s.probers[p]))
    && (forall i | i in s.spawners :: SpawnerSafe(s, lane, bound, s.spawners[i]) && s.spawners[i].gen <= s.generation)
    && (if s.generation > 0 then Attended(s, lane) else s.passed[lane] == None)
    && (forall i | i in s.spawners :: s.spawners[i].gen > 0)
  }

  lemma AttendedStep(cfg: Config, s: State, step: Step, lane: nat, bound: nat)
    requires Probed(cfg, lane, bound) && Inv(s, lane, bound) && Enabled(cfg, s, step)
    ensures After(cfg, s, step).generation > 0 ==> Attended(After(cfg, s, step), lane)
  {
    var t := After(cfg, s, step);
    if step.Bump? {
      assert step.id in t.spawners;
    } else if p :| p in s.probers && s.probers[p].gen == s.generation && s.probers[p].lane == lane {
      assert p in t.probers && t.probers[p].gen == t.generation && t.probers[p].lane == lane;
    } else if i :| i in s.spawners && s.spawners[i].gen == s.generation && s.spawners[i].lane <= lane {
      if step.Schedule? && step.id == i && s.spawners[i].lane == lane {
        assert step.pid in t.probers;
      } else {
        assert i in t.spawners && t.spawners[i].lane <= lane;
      }
    }
  }

  lemma BoundsStep(cfg: Config, s: State, step: Step, lane: nat, bound: nat)
    requires Probed(cfg, lane, bound) && Inv(s, lane, bound) && Enabled(cfg, s, step) && !step.Advance?
    ensures var t := After(cfg, s, step);
            && lane < |t.slots| == |t.passed|
            && (t.passed[lane].Some? ==> t.passed[lane].value <= t.now && Soon(t, lane, bound, t.now) && Soon(t, lane, bound, t.slots[lane]))
            && (forall p | p in t.probers :: ProberSafe(t, lane, bound, t.probers[p]))
  {
  }

  /** Time stops at the tick of the live prober, which is due in time. */
  lemma AdvanceStep(cfg: Config, s: State, to: nat, lane: nat, bound: nat)
    requires Probed(cfg, lane, bound) && Inv(s, lane, bound) && MayAdvance(cfg, s, to)
    ensures Inv(After(cfg, s, Advance(to)), lane, bound)
  {
    AttendedStep(cfg, s, Advance(to), lane, bound);
    if s.generation > 0 {
      var p :| p in s.probers && s.probers[p].gen == s.generation && s.probers[p].lane == lane;
      assert LetsPass(cfg, s, s.probers[p], to);
    }
  }

  lemma InvStep(cfg: Config, s: State, step: Step, lane: nat, bound: nat)
    requires Probed(cfg, lane, bound) && Inv(s, lane, bound) && Enabled(cfg, s, step)
    ensures Inv(After(cfg, s, step), lane, bound)
  {
    if step.Advance? {
      AdvanceStep(cfg, s, step.to, lane, bound);
    } else {
      AttendedStep(cfg, s, step, lane, bound);
      BoundsStep(cfg, s, step, lane, bound);
    }
  }

  lemma {:induction false} InvRun(cfg: Config, s: State, steps: seq<Step>, t: State, lane: nat, bound: nat)
    requires Probed(cfg, lane, bound) && Inv(s, lane, bound) && Leads(cfg, s, steps, t)
    ensures Inv(t, lane, bound)
    decreases |steps|
  {
    if steps != [] {
      InvStep(cfg, s, steps[0], lane, bound);
      InvRun(cfg, After(cfg, s, steps[0]), steps[1..], t, lane, bound);
    }
  }

  /**
   * Probing never goes dark. However spawns and ticks interleave, once the lane is scheduled a tick passes the
   * generation check at least every `bound`; its slot and, between spawns, the next firing of its live prober
   * are at most `bound` after the last tick that did.
   */
  lemma NeverDark(cfg: Config, lanes: nat, steps: seq<Step>, t: State, lane: nat, bound: nat)
    requires lane < lanes && Probed(cfg, lane, bound) && Leads(cfg, Init(lanes), steps, t)
    ensures |t.slots| == |t.passed| == lanes
    ensures t.generation > 0 && t.spawners == map[] ==>
              && t.passed[lane].Some?
              && exists p :: p in t.probers && t.probers[p].gen == t.generation && t.probers[p].lane == lane
                             && t.probers[p].fire <= t.passed[lane].value + bound
    ensures t.passed[lane].Some? ==>
              t.now <= t.passed[lane].value + bound && t.slots[lane] <= t.passed[lane].value + bound
  {
    assert Inv(Init(lanes), lane, bound);
    InvRun(cfg, Init(lanes), steps, t, lane, bound);
    SameLanes(cfg, Init(lanes), steps, t);
    if t.generation > 0 && t.spawners == map[] {
      var p :| p in t.probers && t.probers[p].gen == t.generation && t.probers[p].lane == lane;
      assert ProberSafe(t, lane, bound, t.probers[p]);
    }
  }

  lemma {:induction false} SameLanes(cfg: Config, s: State, steps: seq<Step>, t: State)
    requires Leads(cfg, s, steps, t)
    ensures |t.slots| == |s.slots| == |t.passed|
    decreases |steps|
  {
    if steps != [] {
      SameLanes(cfg, After(cfg, s, steps[0]), steps[1..], t);
    }
  }
}
