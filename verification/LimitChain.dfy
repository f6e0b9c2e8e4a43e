// The enforcement chain of a key, and what it means for the limits an operator wrote.

module LimitChain {
  import opened Wrappers
  import opened Sequences
  import opened BucketIds
  import opened Limits

  type Config = map<string, GroupCfg>

  // ---------------------------------------------------------------------------------------------
  // The topology

  function ParentIndex(idx: map<string, nat>, parent: Option<string>): Option<nat>
  {
    if parent.Some? && parent.value in idx then Some(idx[parent.value]) else None
  }

  ghost predicate Resolved(cfg: GroupCfg, idx: map<string, nat>, g: GroupRuntime)
  {
    && g.enabled == cfg.enabled
    && Projects(g.name, cfg.limits, g.buckets)
    && IsMinimum(g.concurrentCap, ConcurrentAmounts(cfg.limits))
    && g.parent == ParentIndex(idx, cfg.parent)
  }

  /** The groups are those of the configuration, each once, with parents turned into indices. */
  ghost predicate Represents(cfg: Config, groups: seq<GroupRuntime>, idx: map<string, nat>)
  {
    && idx.Keys == cfg.Keys
    && (forall n | n in idx :: idx[n] < |groups|)
    && (forall n {:trigger groups[idx[n]]} | n in idx :: groups[idx[n]].name == n)
    && (forall i | 0 <= i < |groups| ::
          groups[i].name in idx && idx[groups[i].name] == i && Resolved(cfg[groups[i].name], idx, groups[i]))
  }

  /** The keys of the map in order, each once. */
  ghost predicate Enumerates(names: seq<string>, cfg: Config)
  {
    && (forall n :: n in names <==> n in cfg)
    && (forall i, j | 0 <= i < j < |names| :: names[i] != names[j])
  }

  method IndexNames(ghost cfg: Config, names: seq<string>) returns (idx: map<string, nat>)
    requires Enumerates(names, cfg)
    ensures idx.Keys == cfg.Keys
    ensures forall n | n in idx :: idx[n] < |names| && names[idx[n]] == n
  {
    idx := map[];
    for i := 0 to |names|
      invariant forall n :: n in idx <==> n in names[..i]
      invariant forall n | n in idx :: idx[n] < i && names[idx[n]] == n
    {
      assert names[..i + 1] == names[..i] + [names[i]];
      idx := idx[names[i] := i];
    }
    assert names[..|names|] == names;
  }

  method ProjectGroup(name: string, cfg: GroupCfg, idx: map<string, nat>) returns (g: GroupRuntime)
    ensures g.name == name && Resolved(cfg, idx, g)
  {
    var buckets, concurrentCap := ProjectLimits(name, cfg.limits);
    g := GroupRuntime(name, cfg.enabled, concurrentCap, buckets, ParentIndex(idx, cfg.parent));
  }

  /** `project_groups`, for the sorted keys of the map. */
  method ProjectGroups(cfg: Config, names: seq<string>) returns (groups: seq<GroupRuntime>, idx: map<string, nat>)
    requires Enumerates(names, cfg)
    ensures Represents(cfg, groups, idx)
    ensures |groups| == |names| && forall i | 0 <= i < |groups| :: groups[i].name == names[i]
  {
    idx := IndexNames(cfg, names);
    groups := [];
    for i := 0 to |names|
      invariant |groups| == i
      invariant forall j | 0 <= j < i :: groups[j].name == names[j] && Resolved(cfg[names[j]], idx, groups[j])
    {
      assert names[i] in names;
      var g := ProjectGroup(names[i], cfg[names[i]], idx);
      groups := groups + [g];
    }
    forall i | 0 <= i < |names| ensures names[i] in idx && idx[names[i]] == i {
      assert names[i] in names;
    }
  }

  // ---------------------------------------------------------------------------------------------
  // Capped bucket ids

  predicate HasCap(b: GroupBucket)
  {
    b.requestsCap.Some? || b.tokensCap.Some? || b.budgetCap.Some?
  }

  function CappedBucketIds(groups: seq<GroupRuntime>): set<string>
  {
    set i, j | 0 <= i < |groups| && 0 <= j < |groups[i].buckets| && HasCap(groups[i].buckets[j]) ::
      groups[i].buckets[j].bucketId
  }

  lemma BucketsInUseAreCapped(name: string, limits: seq<Limit>, b: GroupBucket)
    requires Compiled(name, limits, b) && Uses(limits, BucketCell(b))
    ensures HasCap(b) && (b.requestsCap.Some? || b.tokensCap.Some? || b.budgetCap.Some?)
  {
    var i :| 0 <= i < |limits| && CellOf(limits[i]) == Some(BucketCell(b));
    assert Enforced(limits[i]) in Amounts(limits, limits[i].metric, BucketCell(b));
  }

  /** `bucket_enforces_a_cap` holds of exactly the ids of the cells that windowed limits count in. */
  lemma CappedExactly(cfg: Config, groups: seq<GroupRuntime>, idx: map<string, nat>, id: string)
    requires Represents(cfg, groups, idx)
    ensures id in CappedBucketIds(groups) <==>
            exists n, c :: n in cfg && Uses(cfg[n].limits, c) && id == BucketId(n, c.window, c.scope)
  {
    if id in CappedBucketIds(groups) {
      var i, j :| 0 <= i < |groups| && 0 <= j < |groups[i].buckets| && id == groups[i].buckets[j].bucketId;
      assert Uses(cfg[groups[i].name].limits, BucketCell(groups[i].buckets[j]));
    }
    if n, c :| n in cfg && Uses(cfg[n].limits, c) && id == BucketId(n, c.window, c.scope) {
      CellIsCapped(cfg, groups, idx, n, c);
    }
  }

  lemma CellIsCapped(cfg: Config, groups: seq<GroupRuntime>, idx: map<string, nat>, n: string, c: Cell)
    requires Represents(cfg, groups, idx) && n in cfg && Uses(cfg[n].limits, c)
    ensures BucketId(n, c.window, c.scope) in CappedBucketIds(groups)
  {
    var g := groups[idx[n]];
    assert Resolved(cfg[g.name], idx, g);
    var j :| 0 <= j < |g.buckets| && BucketCell(g.buckets[j]) == c;
    BucketsInUseAreCapped(n, cfg[n].limits, g.buckets[j]);
  }

  // ---------------------------------------------------------------------------------------------
  // Ancestors

  /** The group `k` parents above `name`; a parent that does not exist ends the chain. */
  ghost function Ancestor(cfg: Config, name: string, k: nat): (r: Option<string>)
    ensures r.Some? ==> r.value in cfg
  {
    if k == 0 then (if name in cfg then Some(name) else None)
    else
      match Ancestor(cfg, name, k - 1)
      case None => None
      case Some(n) => if cfg[n].parent.Some? && cfg[n].parent.value in cfg then cfg[n].parent else None
  }

  ghost predicate Reaches(cfg: Config, name: string, ancestor: string)
  {
    exists k: nat :: Ancestor(cfg, name, k) == Some(ancestor)
  }

  lemma {:induction false} ChainsEndOnce(cfg: Config, name: string, j: nat, k: nat)
    requires j <= k && Ancestor(cfg, name, j) == None
    ensures Ancestor(cfg, name, k) == None
  {
    if j < k {
      ChainsEndOnce(cfg, name, j, k - 1);
    }
  }

  /** Equal groups have equal ancestors. */
  lemma {:induction false} ChainsRepeat(cfg: Config, name: string, i: nat, j: nat, d: nat)
    requires Ancestor(cfg, name, i) == Ancestor(cfg, name, j)
    ensures Ancestor(cfg, name, i + d) == Ancestor(cfg, name, j + d)
  {
    if d > 0 {
      ChainsRepeat(cfg, name, i, j, d - 1);
    }
  }

  lemma {:induction false} DistinctFit<T>(s: seq<T>, pool: set<T>)
    requires forall i | 0 <= i < |s| :: s[i] in pool
    requires forall i, j | 0 <= i < j < |s| :: s[i] != s[j]
    ensures |s| <= |pool|
  {
    if s != [] {
      DistinctFit(s[1..], pool - {s[0]});
    }
  }

  /** Pigeonhole: a chain as long as the tree has met some group twice. */
  lemma LongChainsRepeat(cfg: Config, name: string)
    requires Ancestor(cfg, name, |cfg|).Some?
    ensures exists i: nat, j: nat :: i < j <= |cfg| && Ancestor(cfg, name, i) == Ancestor(cfg, name, j)
  {
    forall k: nat | k <= |cfg| ensures Ancestor(cfg, name, k).Some? {
      if Ancestor(cfg, name, k) == None {
        ChainsEndOnce(cfg, name, k, |cfg|);
      }
    }
    var s := seq(|cfg| + 1, k requires 0 <= k < |cfg| + 1 => Ancestor(cfg, name, k).value);
    assert |cfg.Keys| == |cfg|;
    if forall i, j | 0 <= i < j < |s| :: s[i] != s[j] {
      DistinctFit(s, cfg.Keys);
    }
    var i, j :| 0 <= i < j < |s| && s[i] == s[j];
    assert Ancestor(cfg, name, i) == Ancestor(cfg, name, j);
  }

  /** Every ancestor is met within as many steps as there are groups, even on a cyclic tree. */
  lemma {:induction false} AncestorsAreNear(cfg: Config, name: string, k: nat)
    requires Ancestor(cfg, name, k).Some?
    ensures exists j: nat :: j < |cfg| && Ancestor(cfg, name, j) == Ancestor(cfg, name, k)
    decreases k
  {
    if k >= |cfg| {
      if Ancestor(cfg, name, |cfg|) == None {
        ChainsEndOnce(cfg, name, |cfg|, k);
      }
      LongChainsRepeat(cfg, name);
      var a: nat, b: nat :| a < b <= |cfg| && Ancestor(cfg, name, a) == Ancestor(cfg, name, b);
      ChainsRepeat(cfg, name, a, b, k - b);
      AncestorsAreNear(cfg, name, a + (k - b));
    }
  }

  // ---------------------------------------------------------------------------------------------
  // The chain

  datatype ChainBucket = ChainBucket(
    bucketId: string, groupName: Option<string>, window: Window,
    requestsCap: Option<int>, tokensCap: Option<int>, budgetCap: Option<int>,
    scope: Option<Scope>, downgradeTo: Option<Scope>)
  {
    function AppliesToPool(pool: string): bool
    {
      scope.None? || (scope.value.kind == "pool" && scope.value.value == pool)
    }
  }

  datatype Chain = Chain(buckets: seq<ChainBucket>, groups: seq<nat>)

  datatype ChainResult = Found(chain: Chain) | Missing(group: string)

  function KeyBucket(id: string): ChainBucket
  {
    ChainBucket(id, None, Total, None, None, None, None, None)
  }

  function Charge(g: GroupRuntime, b: GroupBucket): ChainBucket
  {
    ChainBucket(b.bucketId, Some(g.name), b.window, b.requestsCap, b.tokensCap, b.budgetCap, b.scope, b.downgradeTo)
  }

  function GroupCharges(g: GroupRuntime): (s: seq<ChainBucket>)
    ensures |s| == |g.buckets| && forall i | 0 <= i < |s| :: s[i] == Charge(g, g.buckets[i])
  {
    seq(|g.buckets|, i requires 0 <= i < |g.buckets| => Charge(g, g.buckets[i]))
  }

  /** The buckets of the groups, innermost group first. */
  ghost function Charges(groups: seq<GroupRuntime>, walked: seq<nat>): seq<ChainBucket>
    requires forall k | 0 <= k < |walked| :: walked[k] < |groups|
  {
    if walked == [] then []
    else
      Charges(groups, walked[..|walked| - 1]) + GroupCharges(groups[walked[|walked| - 1]])
  }

  /** The groups walked are the key's group and its ancestors in order, cut at the number of groups. */
  ghost predicate Walks(cfg: Config, groups: seq<GroupRuntime>, group: string, walked: seq<nat>)
  {
    && |walked| <= |groups|
    && (forall k | 0 <= k < |walked| ::
          walked[k] < |groups| && Ancestor(cfg, group, k) == Some(groups[walked[k]].name))
    && (|walked| < |groups| ==> Ancestor(cfg, group, |walked|) == None)
  }

  ghost predicate IsChain(cfg: Config, groups: seq<GroupRuntime>, id: string, group: Option<string>, chain: Chain)
  {
    && (match group
        case None => chain.groups == []
        case Some(name) => name in cfg && Walks(cfg, groups, name, chain.groups))
    && chain.buckets == [KeyBucket(id)] + Charges(groups, chain.groups)
  }

  lemma ChargesStep(groups: seq<GroupRuntime>, walked: seq<nat>, i: nat)
    requires i < |groups| && forall k | 0 <= k < |walked| :: walked[k] < |groups|
    ensures Charges(groups, walked + [i]) == Charges(groups, walked) + GroupCharges(groups[i])
  {
    assert (walked + [i])[..|walked|] == walked;
  }

  method ChargeGroup(g: GroupRuntime, buckets: seq<ChainBucket>) returns (charged: seq<ChainBucket>)
    ensures charged == buckets + GroupCharges(g)
  {
    charged := buckets;
    for i := 0 to |g.buckets|
      invariant charged == buckets + GroupCharges(g)[..i]
    {
      charged := charged + [Charge(g, g.buckets[i])];
    }
  }

  /** Following the parent index is following the parent name. */
  lemma ParentIsNext(cfg: Config, groups: seq<GroupRuntime>, idx: map<string, nat>, group: string, k: nat, i: nat)
    requires Represents(cfg, groups, idx)
    requires i < |groups| && Ancestor(cfg, group, k) == Some(groups[i].name)
    ensures var next := groups[i].parent;
            && (next.Some? ==> next.value < |groups|)
            && Ancestor(cfg, group, k + 1) == if next.Some? then Some(groups[next.value].name) else None
  {
    assert Resolved(cfg[groups[i].name], idx, groups[i]);
  }

  /** The walk so far, and where it goes next. */
  ghost predicate Walking(cfg: Config, groups: seq<GroupRuntime>, group: Option<string>, walked: seq<nat>, next: Option<nat>)
  {
    && (forall k | 0 <= k < |walked| :: walked[k] < |groups|)
    && (next.Some? ==> next.value < |groups|)
    && match group
       case None => walked == [] && next == None
       case Some(name) =>
         && (forall k | 0 <= k < |walked| :: Ancestor(cfg, name, k) == Some(groups[walked[k]].name))
         && Ancestor(cfg, name, |walked|) == if next.Some? then Some(groups[next.value].name) else None
  }

  lemma WalkOn(cfg: Config, groups: seq<GroupRuntime>, idx: map<string, nat>, group: Option<string>,
               walked: seq<nat>, next: Option<nat>)
    requires Represents(cfg, groups, idx) && Walking(cfg, groups, group, walked, next) && next.Some?
    ensures Walking(cfg, groups, group, walked + [next.value], groups[next.value].parent)
    ensures Charges(groups, walked + [next.value]) == Charges(groups, walked) + GroupCharges(groups[next.value])
  {
    ParentIsNext(cfg, groups, idx, group.value, |walked|, next.value);
    ChargesStep(groups, walked, next.value);
  }

  /** `chain_for` */
  method ChainFor(ghost cfg: Config, groups: seq<GroupRuntime>, idx: map<string, nat>, id: string, group: Option<string>)
    returns (r: ChainResult)
    requires Represents(cfg, groups, idx)
    ensures r.Missing? <==> group.Some? && group.value !in cfg
    ensures r.Missing? ==> r.group == group.value
    ensures r.Found? ==> IsChain(cfg, groups, id, group, r.chain)
  {
    var buckets := [KeyBucket(id)];
    var walked: seq<nat> := [];
    var next: Option<nat> := None;
    if group.Some? {
      if group.value !in idx {
        return Missing(group.value);
      }
      next := Some(idx[group.value]);
    }
    while next.Some? && |walked| < |groups|
      invariant Walking(cfg, groups, group, walked, next) && |walked| <= |groups|
      invariant buckets == [KeyBucket(id)] + Charges(groups, walked)
      decreases |groups| - |walked|
    {
      var i := next.value;
      WalkOn(cfg, groups, idx, group, walked, next);
      Associative([KeyBucket(id)], Charges(groups, walked), GroupCharges(groups[i]));
      walked := walked + [i];
      buckets := ChargeGroup(groups[i], buckets);
      next := groups[i].parent;
    }
    r := Found(Chain(buckets, walked));
  }

  // ---------------------------------------------------------------------------------------------
  // What the chain enforces

  lemma SizesAgree(cfg: Config, groups: seq<GroupRuntime>, idx: map<string, nat>)
    requires Represents(cfg, groups, idx)
    ensures |groups| == |cfg|
  {
    var names := seq(|groups|, i requires 0 <= i < |groups| => groups[i].name);
    DistinctFit(names, cfg.Keys);
    forall m, n | m in cfg && n in cfg && idx[m] == idx[n] ensures m == n {
      assert groups[idx[m]].name == groups[idx[n]].name;
    }
    Images(cfg.Keys, idx, Below(|groups|));
  }

  function Below(n: nat): (s: set<nat>)
    ensures |s| == n && forall i: nat :: i in s <==> i < n
  {
    if n == 0 then {} else Below(n - 1) + {n - 1}
  }

  lemma {:induction false} Images(keys: set<string>, idx: map<string, nat>, s: set<nat>)
    requires keys <= idx.Keys && forall n | n in keys :: idx[n] in s
    requires forall m, n | m in keys && n in keys && idx[m] == idx[n] :: m == n
    ensures |keys| <= |s|
  {
    if keys != {} {
      var n :| n in keys;
      Images(keys - {n}, idx, s - {idx[n]});
    }
  }

  /** The groups of a chain are the key's group and every ancestor of it, and nothing else. */
  lemma ChainVisitsAncestors(cfg: Config, groups: seq<GroupRuntime>, idx: map<string, nat>,
                             group: string, walked: seq<nat>, name: string)
    requires Represents(cfg, groups, idx) && Walks(cfg, groups, group, walked)
    ensures Reaches(cfg, group, name) <==> exists k :: 0 <= k < |walked| && groups[walked[k]].name == name
  {
    SizesAgree(cfg, groups, idx);
    if Reaches(cfg, group, name) {
      var k: nat :| Ancestor(cfg, group, k) == Some(name);
      AncestorsAreNear(cfg, group, k);
      var j: nat :| j < |cfg| && Ancestor(cfg, group, j) == Some(name);
      if |walked| <= j {
        ChainsEndOnce(cfg, group, |walked|, j);
      }
      assert groups[walked[j]].name == name;
    }
  }

  ghost predicate Cyclic(cfg: Config, group: string)
  {
    exists i: nat, j: nat :: i < j && Ancestor(cfg, group, i).Some? && Ancestor(cfg, group, i) == Ancestor(cfg, group, j)
  }

  lemma {:induction false} CyclesGoOn(cfg: Config, group: string, i: nat, j: nat, k: nat)
    requires i < j && Ancestor(cfg, group, i).Some? && Ancestor(cfg, group, i) == Ancestor(cfg, group, j)
    ensures Ancestor(cfg, group, k).Some?
    decreases k
  {
    if Ancestor(cfg, group, k) == None {
      if k <= j {
        ChainsEndOnce(cfg, group, k, j);
      } else {
        ChainsRepeat(cfg, group, i, j, k - j);
        CyclesGoOn(cfg, group, i, j, i + (k - j));
      }
    }
  }

  /** The clamp cuts a walk short exactly when the key's group leads into a cycle. */
  lemma ClampExactlyOnCycles(cfg: Config, groups: seq<GroupRuntime>, idx: map<string, nat>, group: string, walked: seq<nat>)
    requires Represents(cfg, groups, idx) && Walks(cfg, groups, group, walked)
    ensures Ancestor(cfg, group, |walked|).Some? <==> Cyclic(cfg, group)
    ensures !Cyclic(cfg, group) ==> forall i, j | 0 <= i < j < |walked| :: walked[i] != walked[j]
  {
    SizesAgree(cfg, groups, idx);
    if Ancestor(cfg, group, |walked|).Some? {
      LongChainsRepeat(cfg, group);
      var i: nat, j: nat :| i < j <= |cfg| && Ancestor(cfg, group, i) == Ancestor(cfg, group, j);
      if Ancestor(cfg, group, i) == None {
        ChainsEndOnce(cfg, group, i, |cfg|);
      }
    }
    if Cyclic(cfg, group) {
      var i: nat, j: nat :| i < j && Ancestor(cfg, group, i).Some? && Ancestor(cfg, group, i) == Ancestor(cfg, group, j);
      CyclesGoOn(cfg, group, i, j, |walked|);
    } else {
      forall i, j | 0 <= i < j < |walked| ensures walked[i] != walked[j] {
        assert Ancestor(cfg, group, i) != Ancestor(cfg, group, j);
      }
    }
  }

  /** Usage so far. */
  datatype Counters = Counters(requests: nat, tokens: nat, spend: int)
  {
    function Of(m: Metric): int
    {
      match m case Requests => requests case Tokens => tokens case Budget => spend case Concurrent => 0
    }
  }

  /** The counters of each group's cells, and of the key itself. */
  type Ledger = (Option<string>, Cell) -> Counters

  predicate Under(used: int, cap: Option<int>) { cap.Some? ==> used < cap.value }

  predicate UnderCaps(requestsCap: Option<int>, tokensCap: Option<int>, budgetCap: Option<int>, used: Counters)
  {
    Under(used.requests, requestsCap) && Under(used.tokens, tokensCap) && Under(used.spend, budgetCap)
  }

  predicate BucketAdmits(b: ChainBucket, pool: string, ledger: Ledger)
  {
    b.AppliesToPool(pool) ==>
      UnderCaps(b.requestsCap, b.tokensCap, b.budgetCap, ledger(b.groupName, Cell(b.window, b.scope)))
  }

  /** Every bucket of the chain that the pool takes part in is under its caps. */
  predicate ChainAdmits(chain: Chain, pool: string, ledger: Ledger)
  {
    forall i | 0 <= i < |chain.buckets| :: BucketAdmits(chain.buckets[i], pool, ledger)
  }

  /** The limit is windowed, and group-wide or about this pool. */
  predicate Concerns(l: Limit, pool: string)
  {
    CellOf(l).Some? && (l.scope == None || l.scope == Some(Scope("pool", pool)))
  }

  predicate LimitHolds(name: string, l: Limit, pool: string, ledger: Ledger)
  {
    Concerns(l, pool) ==> ledger(Some(name), CellOf(l).value).Of(l.metric) < Enforced(l)
  }

  predicate LimitsHold(name: string, limits: seq<Limit>, pool: string, ledger: Ledger)
  {
    forall i | 0 <= i < |limits| :: LimitHolds(name, limits[i], pool, ledger)
  }

  /** Every windowed limit that concerns the pool holds in the key's group and in all its ancestors. */
  ghost predicate PolicyAdmits(cfg: Config, group: Option<string>, pool: string, ledger: Ledger)
  {
    group.Some? ==> forall n | n in cfg && Reaches(cfg, group.value, n) :: LimitsHold(n, cfg[n].limits, pool, ledger)
  }

  lemma CapMeans(limits: seq<Limit>, m: Metric, c: Cell, cap: Option<int>, used: int)
    requires IsMinimum(cap, Amounts(limits, m, c))
    ensures Under(used, cap) <==> forall i | 0 <= i < |limits| && Caps(limits[i], m, c) :: used < Enforced(limits[i])
  {
    forall i | 0 <= i < |limits| && Caps(limits[i], m, c) ensures Enforced(limits[i]) in Amounts(limits, m, c) {
    }
  }

  /** Every limit of the cell holds. */
  predicate CellHolds(limits: seq<Limit>, c: Cell, used: Counters)
  {
    forall i | 0 <= i < |limits| && CellOf(limits[i]) == Some(c) :: used.Of(limits[i].metric) < Enforced(limits[i])
  }

  /** A compiled bucket is under its caps when every limit of its cell holds. */
  lemma BucketMeans(name: string, limits: seq<Limit>, b: GroupBucket, used: Counters)
    requires Compiled(name, limits, b)
    ensures UnderCaps(b.requestsCap, b.tokensCap, b.budgetCap, used) <==> CellHolds(limits, BucketCell(b), used)
  {
    var c := BucketCell(b);
    CapMeans(limits, Requests, c, b.requestsCap, used.requests);
    CapMeans(limits, Tokens, c, b.tokensCap, used.tokens);
    CapMeans(limits, Budget, c, b.budgetCap, used.spend);
    forall i | 0 <= i < |limits| && CellOf(limits[i]) == Some(c) ensures Caps(limits[i], limits[i].metric, c) {
    }
  }

  lemma CellAdmits(g: GroupRuntime, limits: seq<Limit>, j: nat, pool: string, ledger: Ledger)
    requires j < |g.buckets| && Compiled(g.name, limits, g.buckets[j])
    ensures BucketAdmits(Charge(g, g.buckets[j]), pool, ledger) <==>
            forall i | 0 <= i < |limits| && CellOf(limits[i]) == Some(BucketCell(g.buckets[j])) ::
              LimitHolds(g.name, limits[i], pool, ledger)
  {
    var c := BucketCell(g.buckets[j]);
    BucketMeans(g.name, limits, g.buckets[j], ledger(Some(g.name), c));
    if Charge(g, g.buckets[j]).AppliesToPool(pool) {
      forall i | 0 <= i < |limits| && CellOf(limits[i]) == Some(c) ensures Concerns(limits[i], pool) {
      }
    }
  }

  lemma GroupMeans(g: GroupRuntime, limits: seq<Limit>, pool: string, ledger: Ledger)
    requires Projects(g.name, limits, g.buckets)
    ensures LimitsHold(g.name, limits, pool, ledger) <==>
            forall j | 0 <= j < |g.buckets| :: BucketAdmits(Charge(g, g.buckets[j]), pool, ledger)
  {
    if LimitsHold(g.name, limits, pool, ledger) {
      forall j | 0 <= j < |g.buckets| ensures BucketAdmits(Charge(g, g.buckets[j]), pool, ledger) {
        CellAdmits(g, limits, j, pool, ledger);
      }
    }
    if forall j | 0 <= j < |g.buckets| :: BucketAdmits(Charge(g, g.buckets[j]), pool, ledger) {
      forall i | 0 <= i < |limits| ensures LimitHolds(g.name, limits[i], pool, ledger) {
        if CellOf(limits[i]).Some? {
          LimitHasBucket(g, limits, i, pool, ledger);
        }
      }
    }
  }

  lemma LimitHasBucket(g: GroupRuntime, limits: seq<Limit>, i: nat, pool: string, ledger: Ledger)
    requires Projects(g.name, limits, g.buckets)
    requires forall j | 0 <= j < |g.buckets| :: BucketAdmits(Charge(g, g.buckets[j]), pool, ledger)
    requires i < |limits| && CellOf(limits[i]).Some?
    ensures LimitHolds(g.name, limits[i], pool, ledger)
  {
    assert Uses(limits, CellOf(limits[i]).value);
    var j :| 0 <= j < |g.buckets| && BucketCell(g.buckets[j]) == CellOf(limits[i]).value;
    CellAdmits(g, limits, j, pool, ledger);
  }

  lemma {:induction false} ChargesAdmit(groups: seq<GroupRuntime>, walked: seq<nat>, pool: string, ledger: Ledger)
    requires forall k | 0 <= k < |walked| :: walked[k] < |groups|
    ensures (forall i | 0 <= i < |Charges(groups, walked)| :: BucketAdmits(Charges(groups, walked)[i], pool, ledger)) <==>
            forall k, j | 0 <= k < |walked| && 0 <= j < |groups[walked[k]].buckets| ::
              BucketAdmits(Charge(groups[walked[k]], groups[walked[k]].buckets[j]), pool, ledger)
  {
    if walked != [] {
      var last := |walked| - 1;
      var g, before := groups[walked[last]], Charges(groups, walked[..last]);
      ChargesAdmit(groups, walked[..last], pool, ledger);
      var all := Charges(groups, walked);
      forall i | 0 <= i < |before| ensures all[i] == before[i] {
      }
      forall j | 0 <= j < |g.buckets| ensures all[|before| + j] == Charge(g, g.buckets[j]) {
      }
    }
  }

  /**
   * Compiling limits preserves their meaning, on every tree, cyclic or not: the chain admits a request to a
   * pool exactly when every limit of the key's group and of its ancestors that concerns the pool holds.
   */
  lemma CompilationPreservesMeaning(cfg: Config, groups: seq<GroupRuntime>, idx: map<string, nat>,
                                    id: string, group: Option<string>, chain: Chain, pool: string, ledger: Ledger)
    requires Represents(cfg, groups, idx) && IsChain(cfg, groups, id, group, chain)
    ensures ChainAdmits(chain, pool, ledger) <==> PolicyAdmits(cfg, group, pool, ledger)
  {
    var walked := chain.groups;
    var charges := Charges(groups, walked);
    ChargesAdmit(groups, walked, pool, ledger);
    ChainIsCharges(id, charges, chain, pool, ledger);
    if group.Some? {
      forall k | 0 <= k < |walked| ensures
        LimitsHold(groups[walked[k]].name, cfg[groups[walked[k]].name].limits, pool, ledger) <==>
        forall j | 0 <= j < |groups[walked[k]].buckets| ::
          BucketAdmits(Charge(groups[walked[k]], groups[walked[k]].buckets[j]), pool, ledger)
      {
        var g := groups[walked[k]];
        assert Resolved(cfg[g.name], idx, g);
        GroupMeans(g, cfg[g.name].limits, pool, ledger);
      }
      forall n ensures Reaches(cfg, group.value, n) <==> exists k :: 0 <= k < |walked| && groups[walked[k]].name == n {
        ChainVisitsAncestors(cfg, groups, idx, group.value, walked, n);
      }
    }
  }

  lemma ChainIsCharges(id: string, charges: seq<ChainBucket>, chain: Chain, pool: string, ledger: Ledger)
    requires chain.buckets == [KeyBucket(id)] + charges
    ensures ChainAdmits(chain, pool, ledger) <==> forall i | 0 <= i < |charges| :: BucketAdmits(charges[i], pool, ledger)
  {
    forall i | 0 <= i < |charges| ensures chain.buckets[i + 1] == charges[i] {
    }
    if ChainAdmits(chain, pool, ledger) {
      forall i | 0 <= i < |charges| ensures BucketAdmits(charges[i], pool, ledger) {
        assert BucketAdmits(chain.buckets[i + 1], pool, ledger);
      }
    }
  }

  /** A disabled group freezes exactly the keys that charge through it. */
  lemma FrozenExactly(cfg: Config, groups: seq<GroupRuntime>, idx: map<string, nat>, group: string, walked: seq<nat>)
    requires Represents(cfg, groups, idx) && Walks(cfg, groups, group, walked)
    ensures (exists k :: 0 <= k < |walked| && !groups[walked[k]].enabled) <==>
            exists n :: n in cfg && Reaches(cfg, group, n) && !cfg[n].enabled
  {
    forall n ensures Reaches(cfg, group, n) <==> exists k :: 0 <= k < |walked| && groups[walked[k]].name == n {
      ChainVisitsAncestors(cfg, groups, idx, group, walked, n);
    }
    if k :| 0 <= k < |walked| && !groups[walked[k]].enabled {
      assert Reaches(cfg, group, groups[walked[k]].name);
    }
  }
}
