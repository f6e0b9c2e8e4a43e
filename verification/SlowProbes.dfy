// A probe that is still in flight when another generation comes to probe the lane.

module SlowProbes {
  import opened Wrappers
  import opened Integers
  import opened ProbeSchedules
  import opened ProbeOverlaps

  /** No generation has an interval of zero. */
  ghost predicate Timely(cfg: Config)
  {
    forall g, lane :: cfg(g, lane).Some? ==> cfg(g, lane).value.interval >= 1
  }

  /** One tick of a prober, past the generation check: the prober, its generation, and when it passed. */
  datatype Tick = Tick(pid: nat, lane: nat, gen: nat, since: nat)

  predicate InTick(s: State, k: Tick)
  {
    Past(s, k.pid, k.lane) && s.probers[k.pid].gen == k.gen && s.probers[k.pid].since == k.since
  }

  /** During the tick, a prober of another generation is past the check. */
  ghost predicate Meets(s: State, k: Tick)
  {
    InTick(s, k) && exists q :: Past(s, q, k.lane) && s.probers[q].gen != k.gen
  }

  ghost predicate CanMeet(cfg: Config, s: State, k: Tick)
  {
    exists steps, t :: Leads(cfg, s, steps, t) && Meets(t, k)
  }

  lemma MeetsAfter(cfg: Config, s: State, step: Step, k: Tick)
    requires |s.passed| == |s.slots| && Enabled(cfg, s, step) && CanMeet(cfg, After(cfg, s, step), k)
    ensures CanMeet(cfg, s, k)
  {
    var steps, t :| Leads(cfg, After(cfg, s, step), steps, t) && Meets(t, k);
    assert ([step] + steps)[1..] == steps;
    assert Leads(cfg, s, [step] + steps, t);
  }

  function End(cfg: Config, k: Tick): nat
    requires cfg(k.gen, k.lane).Some?
  {
    k.since + cfg(k.gen, k.lane).value.timeout
  }

  // ---------------------------------------------------------------------------------------------
  // From a due prober to a meeting

  /** The tick is probing, no spawn is under way, and every prober can go on. */
  ghost predicate Probing(cfg: Config, s: State, k: Tick)
  {
    && |s.passed| == |s.slots| && k.lane < |s.slots| && InTick(s, k) && s.probers[k.pid].phase == Written
    && forall u | u in s.probers :: Running(cfg, s, u)
  }

  /** A live prober of the lane, of another generation, is due before the probe times out. */
  ghost predicate DueInTime(cfg: Config, s: State, k: Tick, q: nat)
    requires Positive(cfg, k.lane)
  {
    && q in s.probers && s.probers[q].lane == k.lane && s.probers[q].gen == s.generation != k.gen
    && s.probers[q].phase == Sleeping && s.probers[q].fire <= End(cfg, k)
  }

  /** It does not stand in the way of time. */
  predicate Settled(s: State, u: nat)
    requires u in s.probers
  {
    s.probers[u].phase == Sleeping && (s.probers[u].gen == s.generation ==> s.now < s.probers[u].fire)
  }

  function Unsettled(s: State, but: nat): set<nat>
  {
    set u | u in s.probers && u != but && !Settled(s, u)
  }

  /** How many steps it is from being settled. */
  function Distance(s: State, u: nat): nat
    requires u in s.probers
  {
    (if s.probers[u].gen == s.generation && s.probers[u].fire <= s.now then 4 else 0)
    + match s.probers[u].phase case Sleeping => 0 case Written => 1 case Timed(_) => 2 case Checked => 3
  }

  function Wait(s: State, q: nat): nat
    requires q in s.probers
  {
    if s.probers[q].fire <= s.now then 0 else s.probers[q].fire - s.now
  }

  /** Time goes on until the other generation's prober is due; everyone else ticks as they must. */
  lemma {:induction false} Converge(cfg: Config, s: State, k: Tick, q: nat)
    requires Timely(cfg) && Positive(cfg, k.lane) && Probing(cfg, s, k) && s.spawners == map[] && DueInTime(cfg, s, k, q)
    ensures CanMeet(cfg, s, k)
    decreases Wait(s, q), |Unsettled(s, k.pid)|, 8
  {
    if s.probers[q].fire <= s.now {
      var t := After(cfg, s, Wake(q, s.now + 1));
      assert Past(t, q, k.lane) && Meets(t, k);
      assert Leads(cfg, t, [], t);
      MeetsAfter(cfg, s, Wake(q, s.now + 1), k);
    } else if Unsettled(s, k.pid) == {} {
      TimePasses(cfg, s, k, q);
      var t := After(cfg, s, Advance(s.now + 1));
      Converge(cfg, t, k, q);
      MeetsAfter(cfg, s, Advance(s.now + 1), k);
    } else {
      var u :| u in Unsettled(s, k.pid);
      Settle(cfg, s, k, q, u);
    }
  }

  lemma TimePasses(cfg: Config, s: State, k: Tick, q: nat)
    requires Positive(cfg, k.lane) && Probing(cfg, s, k) && s.spawners == map[] && DueInTime(cfg, s, k, q)
    requires s.now < s.probers[q].fire && Unsettled(s, k.pid) == {}
    ensures MayAdvance(cfg, s, s.now + 1)
  {
    forall u | u in s.probers ensures LetsPass(cfg, s, s.probers[u], s.now + 1) {
      if u != k.pid {
        assert u !in Unsettled(s, k.pid);
      }
    }
  }

  function NextStep(s: State, u: nat): Step
    requires u in s.probers
  {
    match s.probers[u].phase
    case Sleeping => Wake(u, s.now + 1)
    case Checked => ReadNext(u)
    case Timed(_) => Write(u)
    case Written => Probe(u)
  }

  lemma {:induction false} Settle(cfg: Config, s: State, k: Tick, q: nat, u: nat)
    requires Timely(cfg) && Positive(cfg, k.lane) && Probing(cfg, s, k) && s.spawners == map[] && DueInTime(cfg, s, k, q)
    requires s.now < s.probers[q].fire && u in Unsettled(s, k.pid)
    ensures CanMeet(cfg, s, k)
    decreases Wait(s, q), |Unsettled(s, k.pid)|, Distance(s, u)
  {
    var step := NextStep(s, u);
    var t := After(cfg, s, step);
    OneMoves(cfg, s, k, u);
    if Settled(t, u) {
      assert Unsettled(t, k.pid) == Unsettled(s, k.pid) - {u};
      Converge(cfg, t, k, q);
    } else {
      assert Unsettled(t, k.pid) == Unsettled(s, k.pid);
      Settle(cfg, t, k, q, u);
    }
    MeetsAfter(cfg, s, step, k);
  }

  lemma CanMove(cfg: Config, s: State, k: Tick, u: nat)
    requires Timely(cfg) && Probing(cfg, s, k) && u in Unsettled(s, k.pid)
    ensures Enabled(cfg, s, NextStep(s, u))
  {
    assert Running(cfg, s, u);
  }

  /** The step of one prober brings it closer to being settled, and leaves the others as they are. */
  lemma OneMoves(cfg: Config, s: State, k: Tick, u: nat)
    requires Timely(cfg) && Probing(cfg, s, k) && u in Unsettled(s, k.pid)
    ensures Enabled(cfg, s, NextStep(s, u))
    ensures var t := After(cfg, s, NextStep(s, u));
            && t.now == s.now && t.generation == s.generation && t.spawners == s.spawners && Probing(cfg, t, k)
            && t.probers.Keys == s.probers.Keys && (forall x | x in s.probers && x != u :: t.probers[x] == s.probers[x])
            && Distance(t, u) < Distance(s, u)
  {
    CanMove(cfg, s, k, u);
    var t := After(cfg, s, NextStep(s, u));
    assert t.probers.Keys == s.probers.Keys && |t.slots| == |s.slots| == |t.passed|;
  }

  // ---------------------------------------------------------------------------------------------
  // From a start to a due prober

  /** The one spawn under way is of the current generation, and has read the time that it still is. */
  ghost predicate Spawning(cfg: Config, s: State, k: Tick, id: nat)
  {
    && Probing(cfg, s, k) && s.spawners.Keys == {id} && k.gen < s.generation
    && var sp := s.spawners[id];
    && sp.gen == s.generation && sp.lane <= |s.slots|
    && (sp.first.Some? ==> sp.lane < |s.slots| && cfg(sp.gen, sp.lane).Some?
                           && sp.first.value == Later(s.now, cfg(sp.gen, sp.lane).value.interval))
  }

  /** The slot is due in time, or the interval of generation `h` is over in time. */
  ghost predicate Promising(cfg: Config, s: State, k: Tick, h: nat)
    requires Positive(cfg, k.lane) && k.lane < |s.slots|
  {
    s.slots[k.lane] <= End(cfg, k) || s.now + cfg(h, k.lane).value.interval <= End(cfg, k)
  }

  ghost predicate SomeoneDue(cfg: Config, s: State, k: Tick)
    requires Positive(cfg, k.lane)
  {
    exists q :: DueInTime(cfg, s, k, q)
  }

  /** Start generations up to `h`: one of their probers is due in time. */
  lemma {:induction false} StartsMeet(cfg: Config, s: State, k: Tick, h: nat)
    requires Timely(cfg) && Positive(cfg, k.lane) && Probing(cfg, s, k) && s.spawners == map[]
    requires k.gen <= s.generation < h && Promising(cfg, s, k, h)
    ensures CanMeet(cfg, s, k)
    decreases h - s.generation, 0, 0
  {
    var t := After(cfg, s, Bump(0));
    SpawnMeets(cfg, t, k, 0, h);
    MeetsAfter(cfg, s, Bump(0), k);
  }

  lemma {:induction false} SpawnMeets(cfg: Config, s: State, k: Tick, id: nat, h: nat)
    requires Timely(cfg) && Positive(cfg, k.lane) && Spawning(cfg, s, k, id) && s.generation <= h
    requires if s.spawners[id].lane <= k.lane then Promising(cfg, s, k, h)
             else SomeoneDue(cfg, s, k) || (s.generation < h && Promising(cfg, s, k, h))
    ensures CanMeet(cfg, s, k)
    decreases h - s.generation, 1 + |s.slots| - s.spawners[id].lane, if s.spawners[id].first.None? then 1 else 0
  {
    var sp := s.spawners[id];
    if sp.lane == |s.slots| {
      var t := After(cfg, s, Finish(id));
      if q :| DueInTime(cfg, s, k, q) {
        assert DueInTime(cfg, t, k, q);
        Converge(cfg, t, k, q);
      } else {
        StartsMeet(cfg, t, k, h);
      }
      MeetsAfter(cfg, s, Finish(id), k);
    } else if cfg(sp.gen, sp.lane) == None {
      var t := After(cfg, s, SkipLane(id));
      StillDue(cfg, s, t, k);
      SpawnMeets(cfg, t, k, id, h);
      MeetsAfter(cfg, s, SkipLane(id), k);
    } else if sp.first == None {
      var t := After(cfg, s, ReadFirst(id));
      StillDue(cfg, s, t, k);
      SpawnMeets(cfg, t, k, id, h);
      MeetsAfter(cfg, s, ReadFirst(id), k);
    } else {
      var pid := FreshId(s.probers.Keys);
      ScheduleKeepsPromise(cfg, s, k, id, pid, h);
      SpawnMeets(cfg, After(cfg, s, Schedule(id, pid)), k, id, h);
      MeetsAfter(cfg, s, Schedule(id, pid), k);
    }
  }

  lemma StillDue(cfg: Config, s: State, t: State, k: Tick)
    requires Positive(cfg, k.lane) && t.generation == s.generation
    requires forall u | u in s.probers :: u in t.probers && t.probers[u] == s.probers[u]
    ensures SomeoneDue(cfg, s, k) ==> SomeoneDue(cfg, t, k)
  {
    if q :| DueInTime(cfg, s, k, q) {
      assert DueInTime(cfg, t, k, q);
    }
  }

  /** At the lane, the new prober is due in time, or a later generation's will be. */
  lemma ScheduleKeepsPromise(cfg: Config, s: State, k: Tick, id: nat, pid: nat, h: nat)
    requires Positive(cfg, k.lane) && Spawning(cfg, s, k, id) && s.generation <= h && pid !in s.probers
    requires s.spawners[id].lane < |s.slots| && s.spawners[id].first.Some?
    requires if s.spawners[id].lane <= k.lane then Promising(cfg, s, k, h)
             else SomeoneDue(cfg, s, k) || (s.generation < h && Promising(cfg, s, k, h))
    ensures var t := After(cfg, s, Schedule(id, pid));
            && Spawning(cfg, t, k, id)
            && (if t.spawners[id].lane <= k.lane then Promising(cfg, t, k, h)
                else SomeoneDue(cfg, t, k) || (t.generation < h && Promising(cfg, t, k, h)))
  {
    var t := After(cfg, s, Schedule(id, pid));
    if s.spawners[id].lane == k.lane {
      if t.slots[k.lane] <= End(cfg, k) {
        assert DueInTime(cfg, t, k, pid);
      }
    } else {
      StillDue(cfg, s, t, k);
    }
  }

  // ---------------------------------------------------------------------------------------------
  // No meeting otherwise

  /** Nothing of another generation comes to the lane before the probe times out. */
  ghost predicate Alone(cfg: Config, s: State, k: Tick, from: nat)
    requires Positive(cfg, k.lane) && k.lane < |s.slots| && InTick(s, k)
  {
    && s.probers[k.pid].phase == Written && k.since < s.probers[k.pid].fire && s.now <= End(cfg, k)
    && End(cfg, k) < s.slots[k.lane]
    && (forall h | h > from :: End(cfg, k) < s.now + cfg(h, k.lane).value.interval)
    && (forall u | u in s.probers && s.probers[u].lane == k.lane && u != k.pid ::
          && s.probers[u].phase == Sleeping && s.probers[u].gen != k.gen
          && (s.probers[u].gen >= from ==> End(cfg, k) < s.probers[u].fire))
    && (forall i | i in s.spawners && s.spawners[i].lane == k.lane && s.spawners[i].first.Some? ::
          End(cfg, k) < s.spawners[i].first.value)
  }

  /** The tick is over, and stays over. */
  predicate Over(s: State, k: Tick)
  {
    k.pid in s.probers && s.probers[k.pid].lane == k.lane && s.probers[k.pid].gen == k.gen ==>
      || (s.probers[k.pid].phase == Sleeping && k.since < s.probers[k.pid].fire)
      || k.since < s.probers[k.pid].since <= s.now
  }

  ghost predicate Late(cfg: Config, s: State, k: Tick, from: nat)
    requires Positive(cfg, k.lane)
  {
    && k.lane < |s.slots| == |s.passed| && k.gen <= from <= s.generation && k.since <= s.now
    && (forall i | i in s.spawners :: s.spawners[i].gen > from)
    && if InTick(s, k) then Alone(cfg, s, k, from) else Over(s, k)
  }

  lemma AloneStep(cfg: Config, s: State, step: Step, k: Tick, from: nat)
    requires Positive(cfg, k.lane) && Late(cfg, s, k, from) && Enabled(cfg, s, step) && InTick(After(cfg, s, step), k)
    ensures |After(cfg, s, step).slots| == |s.slots| && Alone(cfg, After(cfg, s, step), k, from)
  {
    assert InTick(s, k);
  }

  lemma OverStep(cfg: Config, s: State, step: Step, k: Tick, from: nat)
    requires Positive(cfg, k.lane) && Late(cfg, s, k, from) && Enabled(cfg, s, step) && !InTick(After(cfg, s, step), k)
    ensures Over(After(cfg, s, step), k)
  {
  }

  lemma LateStep(cfg: Config, s: State, step: Step, k: Tick, from: nat)
    requires Positive(cfg, k.lane) && Late(cfg, s, k, from) && Enabled(cfg, s, step)
    ensures Late(cfg, After(cfg, s, step), k, from)
  {
    if InTick(After(cfg, s, step), k) {
      AloneStep(cfg, s, step, k, from);
    } else {
      OverStep(cfg, s, step, k, from);
    }
  }

  lemma {:induction false} LateRun(cfg: Config, s: State, steps: seq<Step>, t: State, k: Tick, from: nat)
    requires Positive(cfg, k.lane) && Late(cfg, s, k, from) && Leads(cfg, s, steps, t)
    ensures !Meets(t, k)
    decreases |steps|
  {
    if steps != [] {
      LateStep(cfg, s, steps[0], k, from);
      LateRun(cfg, After(cfg, s, steps[0]), steps[1..], t, k, from);
    }
  }

  // ---------------------------------------------------------------------------------------------
  // What every state keeps

  ghost predicate ProberFounded(cfg: Config, s: State, p: nat)
    requires p in s.probers
  {
    && Running(cfg, s, p) && s.probers[p].since <= s.now
    && (s.probers[p].phase != Sleeping ==> s.probers[p].since < s.probers[p].fire)
    && (s.probers[p].phase == Checked || s.probers[p].phase.Timed? ==> s.probers[p].since == s.now)
    && (s.probers[p].phase == Written ==> s.now <= ProbeEnd(cfg, s.probers[p]))
  }

  ghost predicate Founded(cfg: Config, s: State)
  {
    |s.passed| == |s.slots| && Born(s) && forall p | p in s.probers :: ProberFounded(cfg, s, p)
  }

  lemma ProberFoundedStep(cfg: Config, s: State, step: Step, p: nat)
    requires Founded(cfg, s) && Enabled(cfg, s, step) && p in After(cfg, s, step).probers
    ensures ProberFounded(cfg, After(cfg, s, step), p)
  {
    if p in s.probers {
      assert ProberFounded(cfg, s, p);
    }
  }

  lemma FoundedStep(cfg: Config, s: State, step: Step)
    requires Founded(cfg, s) && Enabled(cfg, s, step)
    ensures Founded(cfg, After(cfg, s, step))
  {
    forall p | p in After(cfg, s, step).probers ensures ProberFounded(cfg, After(cfg, s, step), p) {
      ProberFoundedStep(cfg, s, step, p);
    }
  }

  lemma {:induction false} FoundedRun(cfg: Config, s: State, steps: seq<Step>, t: State)
    requires Founded(cfg, s) && Leads(cfg, s, steps, t)
    ensures Founded(cfg, t)
    decreases |steps|
  {
    if steps != [] {
      FoundedStep(cfg, s, steps[0]);
      FoundedRun(cfg, After(cfg, s, steps[0]), steps[1..], t);
    }
  }

  /** A generation has one spawn. */
  ghost predicate OneSpawn(s: State)
  {
    forall i, j | i in s.spawners && j in s.spawners && s.spawners[i].gen == s.spawners[j].gen :: i == j
  }

  /** Its probers are on lanes that the spawn has come past. */
  ghost predicate SpawnLeads(s: State)
  {
    forall i, p | i in s.spawners && p in s.probers && s.probers[p].gen == s.spawners[i].gen ::
      s.probers[p].lane < s.spawners[i].lane
  }

  /** It has one prober a lane. */
  ghost predicate OneProber(s: State)
  {
    forall p, q | p in s.probers && q in s.probers && s.probers[p].gen == s.probers[q].gen
                  && s.probers[p].lane == s.probers[q].lane :: p == q
  }

  ghost predicate OneEach(s: State)
  {
    Born(s) && OneSpawn(s) && SpawnLeads(s) && OneProber(s)
  }

  lemma BornStep(cfg: Config, s: State, step: Step)
    requires OneEach(s) && |s.passed| == |s.slots| && Enabled(cfg, s, step)
    ensures Born(After(cfg, s, step)) && OneSpawn(After(cfg, s, step))
  {
  }

  lemma SpawnLeadsStep(cfg: Config, s: State, step: Step)
    requires OneEach(s) && |s.passed| == |s.slots| && Enabled(cfg, s, step)
    ensures SpawnLeads(After(cfg, s, step))
  {
  }

  lemma OneProberStep(cfg: Config, s: State, step: Step)
    requires OneEach(s) && |s.passed| == |s.slots| && Enabled(cfg, s, step)
    ensures OneProber(After(cfg, s, step))
  {
  }

  lemma {:induction false} OneEachRun(cfg: Config, s: State, steps: seq<Step>, t: State)
    requires OneEach(s) && Leads(cfg, s, steps, t)
    ensures OneEach(t)
    decreases |steps|
  {
    if steps != [] {
      BornStep(cfg, s, steps[0]);
      SpawnLeadsStep(cfg, s, steps[0]);
      OneProberStep(cfg, s, steps[0]);
      OneEachRun(cfg, After(cfg, s, steps[0]), steps[1..], t);
    }
  }

  // ---------------------------------------------------------------------------------------------

  /**
   * Something of another generation comes to the lane before the probe times out: the slot, the interval of a
   * generation yet to start, or a live prober that is already there.
   */
  ghost predicate ComesInTime(cfg: Config, s: State, k: Tick)
    requires Positive(cfg, k.lane) && k.lane < |s.slots|
  {
    || s.slots[k.lane] <= End(cfg, k)
    || (exists h :: h > s.generation && s.now + cfg(h, k.lane).value.interval <= End(cfg, k))
    || SomeoneDue(cfg, s, k)
  }

  /**
   * While a probe is in flight, with no spawn under way and no other generation past the check, another generation
   * can come to probe the lane before that probe is over if and only if something of it comes in time.
   */
  lemma MeetsExactly(cfg: Config, lanes: nat, steps: seq<Step>, s: State, k: Tick)
    requires Timely(cfg) && Positive(cfg, k.lane) && Leads(cfg, Init(lanes), steps, s) && k.lane < |s.slots|
    requires s.spawners == map[] && InTick(s, k) && s.probers[k.pid].phase == Written
    requires forall u | Past(s, u, k.lane) :: s.probers[u].gen == k.gen
    ensures CanMeet(cfg, s, k) <==> ComesInTime(cfg, s, k)
  {
    FoundedRun(cfg, Init(lanes), steps, s);
    OneEachRun(cfg, Init(lanes), steps, s);
    if ComesInTime(cfg, s, k) {
      ComingMeets(cfg, s, k);
    } else {
      NothingComes(cfg, s, k);
      forall rest, t | Leads(cfg, s, rest, t) ensures !Meets(t, k) {
        LateRun(cfg, s, rest, t, k, s.generation);
      }
    }
  }

  lemma ComingMeets(cfg: Config, s: State, k: Tick)
    requires Timely(cfg) && Positive(cfg, k.lane) && Founded(cfg, s) && k.lane < |s.slots| && ComesInTime(cfg, s, k)
    requires s.spawners == map[] && InTick(s, k) && s.probers[k.pid].phase == Written
    ensures CanMeet(cfg, s, k)
  {
    if s.slots[k.lane] <= End(cfg, k) {
      StartsMeet(cfg, s, k, s.generation + 1);
    } else if h :| h > s.generation && s.now + cfg(h, k.lane).value.interval <= End(cfg, k) {
      StartsMeet(cfg, s, k, h);
    } else {
      var q :| DueInTime(cfg, s, k, q);
      Converge(cfg, s, k, q);
    }
  }

  lemma NothingComes(cfg: Config, s: State, k: Tick)
    requires Positive(cfg, k.lane) && Founded(cfg, s) && OneEach(s) && k.lane < |s.slots| && !ComesInTime(cfg, s, k)
    requires s.spawners == map[] && InTick(s, k) && s.probers[k.pid].phase == Written
    requires forall u | Past(s, u, k.lane) :: s.probers[u].gen == k.gen
    ensures Late(cfg, s, k, s.generation)
  {
    forall u | u in s.probers && s.probers[u].lane == k.lane && u != k.pid
      ensures s.probers[u].phase == Sleeping && s.probers[u].gen != k.gen
      ensures s.probers[u].gen >= s.generation ==> End(cfg, k) < s.probers[u].fire
    {
      assert Past(s, u, k.lane) <==> s.probers[u].phase != Sleeping;
      assert !DueInTime(cfg, s, k, u);
    }
  }
}
