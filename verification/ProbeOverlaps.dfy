// When probers of two generations probe a lane at once.

module ProbeOverlaps {
  import opened Wrappers
  import opened Integers
  import opened ProbeSchedules

  // ---------------------------------------------------------------------------------------------
  // When generations overlap

  /** Every generation probes the lane, at a positive interval. */
  ghost predicate Positive(cfg: Config, lane: nat)
  {
    forall g :: cfg(g, lane).Some? && cfg(g, lane).value.interval >= 1
  }

  /** The prober is past the generation check of its tick. */
  predicate Past(s: State, pid: nat, lane: nat)
  {
    pid in s.probers && s.probers[pid].lane == lane && s.probers[pid].phase != Sleeping
  }

  /** Probers of two generations are past the check. */
  ghost predicate Overlaps(s: State, lane: nat)
  {
    exists p, q :: Past(s, p, lane) && Past(s, q, lane) && s.probers[p].gen != s.probers[q].gen
  }

  /** Whoever is past the check is of the current generation. */
  ghost predicate Current(s: State, lane: nat)
  {
    forall p | Past(s, p, lane) :: s.probers[p].gen == s.generation
  }

  /** No generation starts while a prober of the lane is past the check. */
  ghost predicate Calm(cfg: Config, s: State, steps: seq<Step>, lane: nat)
    requires |s.passed| == |s.slots|
    decreases |steps|
  {
    steps == [] ||
    (Enabled(cfg, s, steps[0])
     && (steps[0].Bump? ==> forall p :: !Past(s, p, lane))
     && |After(cfg, s, steps[0]).passed| == |After(cfg, s, steps[0]).slots|
     && Calm(cfg, After(cfg, s, steps[0]), steps[1..], lane))
  }

  lemma {:induction false} CalmRunsAreCurrent(cfg: Config, s: State, steps: seq<Step>, t: State, lane: nat)
    requires Leads(cfg, s, steps, t) && Calm(cfg, s, steps, lane) && Current(s, lane)
    ensures Current(t, lane)
    decreases |steps|
  {
    if steps != [] {
      var next := After(cfg, s, steps[0]);
      forall p | Past(next, p, lane) ensures next.probers[p].gen == next.generation {
        if !(steps[0].Wake? && steps[0].pid == p) {
          assert Past(s, p, lane);
        }
      }
      CalmRunsAreCurrent(cfg, next, steps[1..], t, lane);
    }
  }

  /** Generations never probe a lane together if none starts while a prober of the lane is past the check. */
  lemma CalmRunsNeverOverlap(cfg: Config, lanes: nat, steps: seq<Step>, t: State, lane: nat)
    requires Leads(cfg, Init(lanes), steps, t) && Calm(cfg, Init(lanes), steps, lane)
    ensures !Overlaps(t, lane)
  {
    CalmRunsAreCurrent(cfg, Init(lanes), steps, t, lane);
  }

  // ---------------------------------------------------------------------------------------------
  // Starts that are careful

  ghost predicate Clear(cfg: Config, s: State, p: Prober, lane: nat)
    requires Positive(cfg, lane) && lane < |s.slots| && p.lane == lane
  {
    && p.phase == Written
    && ProbeEnd(cfg, p) < s.slots[lane]
    && forall h :: ProbeEnd(cfg, p) < s.now + cfg(h, lane).value.interval
  }

  /**
   * A generation starts only while whoever is past the check is probing, and will have timed out before the slot is
   * due and before any generation's interval is over.
   */
  ghost predicate Careful(cfg: Config, s: State, steps: seq<Step>, lane: nat)
    requires Positive(cfg, lane)
    decreases |steps|
  {
    steps == [] ||
    (lane < |s.slots| == |s.passed| && Enabled(cfg, s, steps[0])
     && (steps[0].Bump? ==> forall p | Past(s, p, lane) :: Clear(cfg, s, s.probers[p], lane))
     && Careful(cfg, After(cfg, s, steps[0]), steps[1..], lane))
  }

  /** What starts later comes after the probe. */
  ghost predicate Ahead(cfg: Config, s: State, p: Prober, lane: nat)
    requires Positive(cfg, lane) && lane < |s.slots| && p.lane == lane
  {
    && (p.phase == Written ==> s.now <= ProbeEnd(cfg, p))
    && (p.phase == Checked || p.phase.Timed? ==> p.since == s.now)
    && (forall u | u in s.probers && s.probers[u].lane == lane && s.probers[u].gen > p.gen ::
          s.probers[u].phase == Sleeping && ProbeEnd(cfg, p) < s.probers[u].fire)
    && (p.gen < s.generation ==> Clear(cfg, s, p, lane))
  }

  ghost predicate Apart(cfg: Config, s: State, lane: nat)
    requires Positive(cfg, lane)
  {
    && lane < |s.slots| == |s.passed|
    && Born(s)
    && (forall i | i in s.spawners && s.spawners[i].lane == lane && s.spawners[i].first.Some? ::
          s.spawners[i].first.value == Later(s.now, cfg(s.spawners[i].gen, lane).value.interval))
    && (forall p | p in s.probers && s.probers[p].lane == lane && s.probers[p].phase.Timed? ::
          s.probers[p].phase.next == Later(s.now, cfg(s.probers[p].gen, lane).value.interval))
    && forall p | Past(s, p, lane) :: Ahead(cfg, s, s.probers[p], lane)
  }

  lemma AheadStep(cfg: Config, s: State, step: Step, lane: nat, p: nat)
    requires Positive(cfg, lane) && Apart(cfg, s, lane) && Enabled(cfg, s, step)
    requires step.Bump? ==> forall p | Past(s, p, lane) :: Clear(cfg, s, s.probers[p], lane)
    requires Past(After(cfg, s, step), p, lane)
    ensures Ahead(cfg, After(cfg, s, step), After(cfg, s, step).probers[p], lane)
  {
    if Past(s, p, lane) {
      assert Ahead(cfg, s, s.probers[p], lane);
    } else {
      assert step == Wake(p, After(cfg, s, step).probers[p].fire);
    }
  }

  lemma ApartStep(cfg: Config, s: State, step: Step, lane: nat)
    requires Positive(cfg, lane) && Apart(cfg, s, lane) && Enabled(cfg, s, step)
    requires step.Bump? ==> forall p | Past(s, p, lane) :: Clear(cfg, s, s.probers[p], lane)
    ensures Apart(cfg, After(cfg, s, step), lane)
  {
    forall p | Past(After(cfg, s, step), p, lane)
      ensures Ahead(cfg, After(cfg, s, step), After(cfg, s, step).probers[p], lane)
    {
      AheadStep(cfg, s, step, lane, p);
    }
  }

  lemma {:induction false} CarefulRunsStayApart(cfg: Config, s: State, steps: seq<Step>, t: State, lane: nat)
    requires Positive(cfg, lane) && Leads(cfg, s, steps, t) && Careful(cfg, s, steps, lane) && Apart(cfg, s, lane)
    ensures Apart(cfg, t, lane)
    decreases |steps|
  {
    if steps != [] {
      ApartStep(cfg, s, steps[0], lane);
      CarefulRunsStayApart(cfg, After(cfg, s, steps[0]), steps[1..], t, lane);
    }
  }

  /** Generations never probe a lane together if each starts carefully: spawns during a probe included. */
  lemma CarefulRunsNeverOverlap(cfg: Config, lanes: nat, steps: seq<Step>, t: State, lane: nat)
    requires Positive(cfg, lane) && lane < lanes
    requires Leads(cfg, Init(lanes), steps, t) && Careful(cfg, Init(lanes), steps, lane)
    ensures !Overlaps(t, lane)
  {
    CarefulRunsStayApart(cfg, Init(lanes), steps, t, lane);
    forall p, q | Past(t, p, lane) && Past(t, q, lane) ensures t.probers[p].gen == t.probers[q].gen {
      assert Ahead(cfg, t, t.probers[p], lane) && Ahead(cfg, t, t.probers[q], lane);
    }
  }

  /** Every probe times out before any interval is over. */
  ghost predicate Quick(cfg: Config, lane: nat)
    requires Positive(cfg, lane)
  {
    forall g, h :: cfg(g, lane).value.timeout < cfg(h, lane).value.interval
  }

  /** A generation starts only while whoever is past the check is probing, and will have timed out when the slot is due. */
  ghost predicate Punctuated(cfg: Config, s: State, steps: seq<Step>, lane: nat)
    requires Positive(cfg, lane)
    decreases |steps|
  {
    steps == [] ||
    (lane < |s.slots| == |s.passed| && Enabled(cfg, s, steps[0])
     && (steps[0].Bump? ==> forall p | Past(s, p, lane) ::
           s.probers[p].phase == Written && ProbeEnd(cfg, s.probers[p]) < s.slots[lane])
     && Punctuated(cfg, After(cfg, s, steps[0]), steps[1..], lane))
  }

  lemma {:induction false} QuickProbesAreCareful(cfg: Config, s: State, steps: seq<Step>, lane: nat)
    requires Positive(cfg, lane) && Quick(cfg, lane) && Punctuated(cfg, s, steps, lane)
    requires forall p | p in s.probers :: s.probers[p].since <= s.now
    ensures Careful(cfg, s, steps, lane)
    decreases |steps|
  {
    if steps != [] {
      QuickProbesAreCareful(cfg, After(cfg, s, steps[0]), steps[1..], lane);
    }
  }

  /** With timeouts below the intervals, only the slot matters. */
  lemma QuickProbesNeverOverlap(cfg: Config, lanes: nat, steps: seq<Step>, t: State, lane: nat)
    requires Positive(cfg, lane) && Quick(cfg, lane) && lane < lanes
    requires Leads(cfg, Init(lanes), steps, t) && Punctuated(cfg, Init(lanes), steps, lane)
    ensures !Overlaps(t, lane)
  {
    QuickProbesAreCareful(cfg, Init(lanes), steps, lane);
    CarefulRunsNeverOverlap(cfg, lanes, steps, t, lane);
  }

  // ---------------------------------------------------------------------------------------------
  // Overlaps at once

  /** An overlap can come about before any time passes. */
  ghost predicate CanOverlap(cfg: Config, s: State, lane: nat)
  {
    exists steps, t :: Leads(cfg, s, steps, t) && Instant(steps) && Overlaps(t, lane)
  }

  predicate Instant(steps: seq<Step>)
  {
    forall i | 0 <= i < |steps| :: !steps[i].Advance?
  }

  lemma OverlapsAfter(cfg: Config, s: State, step: Step, lane: nat)
    requires |s.passed| == |s.slots| && Enabled(cfg, s, step) && !step.Advance? && CanOverlap(cfg, After(cfg, s, step), lane)
    ensures CanOverlap(cfg, s, lane)
  {
    var steps, t :| Leads(cfg, After(cfg, s, step), steps, t) && Instant(steps) && Overlaps(t, lane);
    assert ([step] + steps)[1..] == steps;
    forall i | 0 <= i < |steps| + 1 ensures !([step] + steps)[i].Advance? {
      assert i > 0 ==> ([step] + steps)[i] == steps[i - 1];
    }
    assert Leads(cfg, s, [step] + steps, t) && Instant([step] + steps);
  }

  lemma {:induction false} FreshId(ids: set<nat>) returns (id: nat)
    ensures forall i | i in ids :: i < id
  {
    if ids == {} {
      id := 0;
    } else {
      var i :| i in ids;
      var rest := FreshId(ids - {i});
      id := if i < rest then rest else i + 1;
      assert ids == (ids - {i}) + {i};
    }
  }

  /** A spawn is on its way to a lane whose slot is due, with a prober past the check there. */
  ghost predicate Approaches(s: State, id: nat, p: nat, lane: nat)
  {
    && |s.passed| == |s.slots| && lane < |s.slots| && s.slots[lane] <= s.now
    && id in s.spawners && s.spawners[id].gen == s.generation && s.spawners[id].lane <= lane
    && Past(s, p, lane) && s.probers[p].gen != s.generation
  }

  lemma {:induction false} SpawnOverlaps(cfg: Config, s: State, id: nat, p: nat, lane: nat)
    requires Positive(cfg, lane) && Approaches(s, id, p, lane)
    ensures CanOverlap(cfg, s, lane)
    decreases lane - s.spawners[id].lane, s.spawners[id].first == None
  {
    var sp := s.spawners[id];
    if cfg(sp.gen, sp.lane) == None {
      SpawnOverlaps(cfg, After(cfg, s, SkipLane(id)), id, p, lane);
      OverlapsAfter(cfg, s, SkipLane(id), lane);
    } else if sp.first == None {
      SpawnOverlaps(cfg, After(cfg, s, ReadFirst(id)), id, p, lane);
      OverlapsAfter(cfg, s, ReadFirst(id), lane);
    } else {
      var pid := FreshId(s.probers.Keys);
      var t := After(cfg, s, Schedule(id, pid));
      if sp.lane < lane {
        SpawnOverlaps(cfg, t, id, p, lane);
      } else {
        WakeOverlaps(cfg, t, pid, p, lane);
      }
      OverlapsAfter(cfg, s, Schedule(id, pid), lane);
    }
  }

  /** A prober of the current generation is due where one of another is past the check. */
  lemma WakeOverlaps(cfg: Config, s: State, pid: nat, p: nat, lane: nat)
    requires Positive(cfg, lane) && |s.passed| == |s.slots| && lane < |s.slots|
    requires Past(s, p, lane) && s.probers[p].gen != s.generation
    requires pid in s.probers && s.probers[pid].gen == s.generation && s.probers[pid].lane == lane
    requires s.probers[pid].phase == Sleeping && s.probers[pid].fire <= s.now
    ensures CanOverlap(cfg, s, lane)
  {
    var step := Wake(pid, s.now + 1);
    var t := After(cfg, s, step);
    assert Past(t, p, lane) && Past(t, pid, lane);
    assert Leads(cfg, t, [], t) && Instant([]) && Overlaps(t, lane);
    OverlapsAfter(cfg, s, step, lane);
  }

  /** No slot, spawn or new prober of the lane is due. */
  ghost predicate NothingDue(s: State, lane: nat, gen: nat)
  {
    && lane < |s.slots| == |s.passed| && s.now < s.slots[lane] && gen <= s.generation
    && (forall p | p in s.probers && s.probers[p].lane == lane ::
          && (s.probers[p].phase != Sleeping ==> s.probers[p].gen == gen)
          && (s.probers[p].gen > gen ==> s.now < s.probers[p].fire)
          && (s.probers[p].phase.Timed? ==> s.now < s.probers[p].phase.next))
    && (forall i | i in s.spawners ::
          && s.spawners[i].gen > gen
          && (s.spawners[i].lane == lane && s.spawners[i].first.Some? ==> s.now < s.spawners[i].first.value))
  }

  lemma NothingDueStep(cfg: Config, s: State, step: Step, lane: nat, gen: nat)
    requires Positive(cfg, lane) && NothingDue(s, lane, gen) && Enabled(cfg, s, step) && !step.Advance?
    ensures NothingDue(After(cfg, s, step), lane, gen)
  {
  }

  lemma {:induction false} NothingDueRun(cfg: Config, s: State, steps: seq<Step>, t: State, lane: nat, gen: nat)
    requires Positive(cfg, lane) && NothingDue(s, lane, gen) && Leads(cfg, s, steps, t) && Instant(steps)
    ensures !Overlaps(t, lane)
    decreases |steps|
  {
    if steps != [] {
      assert !steps[0].Advance?;
      NothingDueStep(cfg, s, steps[0], lane, gen);
      NothingDueRun(cfg, After(cfg, s, steps[0]), steps[1..], t, lane, gen);
    }
  }

  /** A tick that has read the clock has read the time that it still is. */
  ghost predicate Punctual(cfg: Config, s: State, lane: nat)
  {
    forall p | p in s.probers && s.probers[p].lane == lane && s.probers[p].phase.Timed? ::
      cfg(s.probers[p].gen, lane).Some? && s.probers[p].phase.next == Later(s.now, cfg(s.probers[p].gen, lane).value.interval)
  }

  lemma {:induction false} PunctualRun(cfg: Config, s: State, steps: seq<Step>, t: State, lane: nat)
    requires Punctual(cfg, s, lane) && Leads(cfg, s, steps, t)
    ensures Punctual(cfg, t, lane)
    decreases |steps|
  {
    if steps != [] {
      PunctualRun(cfg, After(cfg, s, steps[0]), steps[1..], t, lane);
    }
  }

  /**
   * While a live prober is past the check, with no spawn under way, two generations can come to probe the lane at
   * this instant if and only if the lane's slot is due: that is what a spawn would inherit.
   */
  lemma OverlapExactly(cfg: Config, lanes: nat, steps: seq<Step>, s: State, lane: nat, p: nat)
    requires Positive(cfg, lane) && Leads(cfg, Init(lanes), steps, s) && lane < |s.slots|
    requires s.spawners == map[] && Past(s, p, lane) && Current(s, lane)
    ensures CanOverlap(cfg, s, lane) <==> s.slots[lane] <= s.now
  {
    SameLanes(cfg, Init(lanes), steps, s);
    PunctualRun(cfg, Init(lanes), steps, s, lane);
    if s.slots[lane] <= s.now {
      var t := After(cfg, s, Bump(0));
      assert Approaches(t, 0, p, lane);
      SpawnOverlaps(cfg, t, 0, p, lane);
      OverlapsAfter(cfg, s, Bump(0), lane);
    } else {
      NothingDueAtFirst(cfg, lanes, steps, s, lane);
      forall rest, t | Leads(cfg, s, rest, t) && Instant(rest) ensures !Overlaps(t, lane) {
        NothingDueRun(cfg, s, rest, t, lane, s.generation);
      }
    }
  }

  lemma NothingDueAtFirst(cfg: Config, lanes: nat, steps: seq<Step>, s: State, lane: nat)
    requires Positive(cfg, lane) && lane < |s.slots| == |s.passed| && Leads(cfg, Init(lanes), steps, s)
    requires s.spawners == map[] && Current(s, lane) && Punctual(cfg, s, lane) && s.now < s.slots[lane]
    ensures NothingDue(s, lane, s.generation)
  {
    GenerationsGrow(cfg, Init(lanes), steps, s);
    forall q | q in s.probers && s.probers[q].lane == lane && s.probers[q].phase != Sleeping
      ensures s.probers[q].gen == s.generation
    {
      assert Past(s, q, lane);
    }
  }

  ghost predicate Born(s: State)
  {
    && (forall p | p in s.probers :: s.probers[p].gen <= s.generation)
    && (forall i | i in s.spawners :: s.spawners[i].gen <= s.generation)
  }

  lemma {:induction false} GenerationsGrow(cfg: Config, s: State, steps: seq<Step>, t: State)
    requires Leads(cfg, s, steps, t) && Born(s)
    ensures Born(t)
    decreases |steps|
  {
    if steps != [] {
      GenerationsGrow(cfg, After(cfg, s, steps[0]), steps[1..], t);
    }
  }

  /** After the write of the prober that owns it, the slot lies ahead: from then on, the probe's length matters. */
  lemma WriteEndsIt(cfg: Config, s: State, pid: nat, lane: nat)
    requires Positive(cfg, lane) && |s.passed| == |s.slots| && Punctual(cfg, s, lane) && s.now < MAX_U64
    requires Enabled(cfg, s, Write(pid)) && s.probers[pid].lane == lane && s.probers[pid].owned == s.slots[lane]
    ensures After(cfg, s, Write(pid)).slots[lane] > s.now
  {
  }

  // An overlap that happens

  ghost predicate Reaches(cfg: Config, s: State, t: State)
  {
    exists steps :: Leads(cfg, s, steps, t)
  }

  lemma Then(cfg: Config, s: State, step: Step, t: State)
    requires |s.passed| == |s.slots| && Enabled(cfg, s, step) && Reaches(cfg, After(cfg, s, step), t)
    ensures Reaches(cfg, s, t)
  {
    var steps :| Leads(cfg, After(cfg, s, step), steps, t);
    assert ([step] + steps)[1..] == steps;
    assert Leads(cfg, s, [step] + steps, t);
  }

  /** The first prober of a lane wakes and passes the generation check. */
  function Awake(): State
  {
    State(10, 1, [10], map[0 := Prober(1, 0, 10, 20, Checked, 10)], map[], [Some(10)])
  }

  /** Probers of two generations have passed the check. */
  function Both(): State
  {
    State(10, 2, [10], map[0 := Prober(1, 0, 10, 20, Checked, 10), 1 := Prober(2, 0, 10, 20, Checked, 10)],
          map[0 := Spawner(2, 1, None)], [Some(10)])
  }

  lemma Boots(cfg: Config, t: State)
    requires (forall g, lane :: cfg(g, lane) == Some(Timing(10, 5))) && Reaches(cfg, Awake(), t)
    ensures Reaches(cfg, Init(1), t)
  {
    var s1 := After(cfg, Init(1), Bump(0));
    var s2 := After(cfg, s1, ReadFirst(0));
    var s3 := After(cfg, s2, Schedule(0, 0));
    var s4 := After(cfg, s3, Finish(0));
    var s5 := After(cfg, s4, Advance(10));
    assert After(cfg, s5, Wake(0, 20)) == Awake();
    Then(cfg, s5, Wake(0, 20), t);
    Then(cfg, s4, Advance(10), t);
    Then(cfg, s3, Finish(0), t);
    Then(cfg, s2, Schedule(0, 0), t);
    Then(cfg, s1, ReadFirst(0), t);
    Then(cfg, Init(1), Bump(0), t);
  }

  lemma OneMoreWakes(cfg: Config)
    requires forall g, lane :: cfg(g, lane) == Some(Timing(10, 5))
    ensures Reaches(cfg, Awake(), Both())
  {
    var s1 := After(cfg, Awake(), Bump(0));
    var s2 := After(cfg, s1, ReadFirst(0));
    var s3 := After(cfg, s2, Schedule(0, 1));
    assert After(cfg, s3, Wake(1, 20)) == Both();
    assert Leads(cfg, Both(), [], Both());
    Then(cfg, s3, Wake(1, 20), Both());
    Then(cfg, s2, Schedule(0, 1), Both());
    Then(cfg, s1, ReadFirst(0), Both());
    Then(cfg, Awake(), Bump(0), Both());
  }

  /**
   * Two generations can probe a lane at the same instant: one passes the check, a spawn inherits the slot
   * before the write moves it, and the new prober is due at once.
   */
  lemma GenerationsCanOverlap()
    ensures exists cfg :: Probed(cfg, 0, 10) && Reaches(cfg, Init(1), Both())
  {
    var cfg: Config := (g, lane) => Some(Timing(10, 5));
    OneMoreWakes(cfg);
    Boots(cfg, Both());
    assert Probed(cfg, 0, 10);
  }
}
