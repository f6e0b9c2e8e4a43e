// What stands where in an enforcement chain, and what the chain admits when usage is kept by bucket id.

module ChainLayouts {
  import opened Wrappers
  import opened BucketIds
  import opened Limits
  import opened LimitChain

  const LARGEST_BUDGET: int := 0x7FFF_FFFF_FFFF_FFFF

  // ---------------------------------------------------------------------------------------------
  // Positions

  /** How many buckets the groups have together. */
  ghost function Places(groups: seq<GroupRuntime>, walked: seq<nat>): nat
    requires forall k | 0 <= k < |walked| :: walked[k] < |groups|
  {
    if walked == [] then 0
    else Places(groups, walked[..|walked| - 1]) + |groups[walked[|walked| - 1]].buckets|
  }

  lemma {:induction false} ChargesAreCounted(groups: seq<GroupRuntime>, walked: seq<nat>)
    requires forall k | 0 <= k < |walked| :: walked[k] < |groups|
    ensures |Charges(groups, walked)| == Places(groups, walked)
  {
    if walked != [] {
      ChargesAreCounted(groups, walked[..|walked| - 1]);
    }
  }

  lemma {:induction false} ChargeStands(groups: seq<GroupRuntime>, walked: seq<nat>, k: nat, j: nat)
    requires forall i | 0 <= i < |walked| :: walked[i] < |groups|
    requires k < |walked| && j < |groups[walked[k]].buckets|
    ensures Places(groups, walked[..k]) + j < |Charges(groups, walked)|
    ensures Charges(groups, walked)[Places(groups, walked[..k]) + j] == Charge(groups[walked[k]], groups[walked[k]].buckets[j])
  {
    var last := |walked| - 1;
    ChargesAreCounted(groups, walked[..last]);
    if k < last {
      assert walked[..last][..k] == walked[..k];
      ChargeStands(groups, walked[..last], k, j);
    }
  }

  lemma {:induction false} ChargeHasPlace(groups: seq<GroupRuntime>, walked: seq<nat>, i: nat) returns (k: nat, j: nat)
    requires forall k | 0 <= k < |walked| :: walked[k] < |groups|
    requires i < |Charges(groups, walked)|
    ensures k < |walked| && j < |groups[walked[k]].buckets| && i == Places(groups, walked[..k]) + j
  {
    var last := |walked| - 1;
    var before := Charges(groups, walked[..last]);
    ChargesAreCounted(groups, walked[..last]);
    if i < |before| {
      k, j := ChargeHasPlace(groups, walked[..last], i);
      assert walked[..last][..k] == walked[..k];
    } else {
      k, j := last, i - |before|;
    }
  }

  /** First the key's own bucket, which caps nothing; then one place for each bucket of each group walked. */
  lemma KeyBucketIsFirst(cfg: Config, groups: seq<GroupRuntime>, id: string, group: Option<string>, chain: Chain)
    requires IsChain(cfg, groups, id, group, chain)
    ensures |chain.buckets| == 1 + Places(groups, chain.groups)
    ensures var key := chain.buckets[0];
            && key.bucketId == id && key.groupName == None && key.window == Window.Total && key.scope == None
            && key.requestsCap == key.tokensCap == key.budgetCap == None && key.downgradeTo == None
  {
    ChargesAreCounted(groups, chain.groups);
  }

  /** Bucket `j` of the `k`th group walked stands behind all those of the groups before, field by field. */
  lemma BucketStands(cfg: Config, groups: seq<GroupRuntime>, id: string, group: Option<string>, chain: Chain, k: nat, j: nat)
    requires IsChain(cfg, groups, id, group, chain)
    requires k < |chain.groups| && j < |groups[chain.groups[k]].buckets|
    ensures var i, own := 1 + Places(groups, chain.groups[..k]) + j, groups[chain.groups[k]].buckets[j];
            && i < |chain.buckets|
            && chain.buckets[i].groupName == Some(groups[chain.groups[k]].name)
            && chain.buckets[i].bucketId == own.bucketId
            && chain.buckets[i].window == own.window && chain.buckets[i].scope == own.scope
            && chain.buckets[i].requestsCap == own.requestsCap && chain.buckets[i].tokensCap == own.tokensCap
            && chain.buckets[i].budgetCap == own.budgetCap && chain.buckets[i].downgradeTo == own.downgradeTo
  {
    ChargeStands(groups, chain.groups, k, j);
    FollowsKey(id, groups, chain, Places(groups, chain.groups[..k]) + j);
  }

  lemma FollowsKey(id: string, groups: seq<GroupRuntime>, chain: Chain, i: nat)
    requires forall k | 0 <= k < |chain.groups| :: chain.groups[k] < |groups|
    requires chain.buckets == [KeyBucket(id)] + Charges(groups, chain.groups) && i < |Charges(groups, chain.groups)|
    ensures i + 1 < |chain.buckets| && chain.buckets[i + 1] == Charges(groups, chain.groups)[i]
  {
  }

  // ---------------------------------------------------------------------------------------------
  // The chain against the configuration

  /** The bucket is that of a cell of the group's limits: its id, its least caps, its downgrade. */
  ghost predicate IsCellOf(b: ChainBucket, name: string, limits: seq<Limit>)
  {
    var c := Cell(b.window, b.scope);
    && b.groupName == Some(name) && b.bucketId == BucketId(name, b.window, b.scope)
    && Uses(limits, c)
    && IsMinimum(b.requestsCap, Amounts(limits, Requests, c))
    && IsMinimum(b.tokensCap, Amounts(limits, Tokens, c))
    && IsMinimum(b.budgetCap, Amounts(limits, Budget, c))
    && Downgrades(limits, c, b.budgetCap, b.downgradeTo)
  }

  lemma GroupOfChain(cfg: Config, groups: seq<GroupRuntime>, idx: map<string, nat>, id: string, group: Option<string>,
                     chain: Chain, k: nat)
    requires Represents(cfg, groups, idx) && IsChain(cfg, groups, id, group, chain) && k < |chain.groups|
    ensures group.Some? && chain.groups[k] < |groups|
    ensures var g := groups[chain.groups[k]];
            g.name in cfg && Reaches(cfg, group.value, g.name) && Projects(g.name, cfg[g.name].limits, g.buckets)
  {
    var g := groups[chain.groups[k]];
    assert Ancestor(cfg, group.value, k) == Some(g.name);
    assert Resolved(cfg[g.name], idx, g);
  }

  lemma PlaceHasCell(cfg: Config, groups: seq<GroupRuntime>, id: string, group: Option<string>, chain: Chain,
                     k: nat, j: nat, limits: seq<Limit>) returns (i: nat)
    requires IsChain(cfg, groups, id, group, chain)
    requires k < |chain.groups| && j < |groups[chain.groups[k]].buckets|
    requires Projects(groups[chain.groups[k]].name, limits, groups[chain.groups[k]].buckets)
    ensures i == 1 + Places(groups, chain.groups[..k]) + j < |chain.buckets|
    ensures IsCellOf(chain.buckets[i], groups[chain.groups[k]].name, limits)
    ensures Cell(chain.buckets[i].window, chain.buckets[i].scope) == BucketCell(groups[chain.groups[k]].buckets[j])
  {
    BucketStands(cfg, groups, id, group, chain, k, j);
    i := 1 + Places(groups, chain.groups[..k]) + j;
    var g := groups[chain.groups[k]];
    assert Compiled(g.name, limits, g.buckets[j]) && Uses(limits, BucketCell(g.buckets[j]));
  }

  /** Every bucket after the key's is that of a cell in use, in the key's group or an ancestor of it. */
  lemma EveryBucketHasCell(cfg: Config, groups: seq<GroupRuntime>, idx: map<string, nat>, id: string, group: Option<string>,
                           chain: Chain, i: nat) returns (name: string)
    requires Represents(cfg, groups, idx) && IsChain(cfg, groups, id, group, chain) && 0 < i < |chain.buckets|
    ensures group.Some? && name in cfg && Reaches(cfg, group.value, name)
    ensures IsCellOf(chain.buckets[i], name, cfg[name].limits)
  {
    var k, j := ChargeHasPlace(groups, chain.groups, i - 1);
    GroupOfChain(cfg, groups, idx, id, group, chain, k);
    name := groups[chain.groups[k]].name;
    var place := PlaceHasCell(cfg, groups, id, group, chain, k, j, cfg[name].limits);
  }

  /** Every cell in use there has a bucket. */
  lemma EveryCellHasBucket(cfg: Config, groups: seq<GroupRuntime>, idx: map<string, nat>, id: string, group: string,
                           chain: Chain, name: string, c: Cell) returns (i: nat)
    requires Represents(cfg, groups, idx) && IsChain(cfg, groups, id, Some(group), chain)
    requires name in cfg && Reaches(cfg, group, name) && Uses(cfg[name].limits, c)
    ensures 0 < i < |chain.buckets| && IsCellOf(chain.buckets[i], name, cfg[name].limits)
    ensures chain.buckets[i].window == c.window && chain.buckets[i].scope == c.scope
  {
    ChainVisitsAncestors(cfg, groups, idx, group, chain.groups, name);
    var k :| 0 <= k < |chain.groups| && groups[chain.groups[k]].name == name;
    GroupOfChain(cfg, groups, idx, id, Some(group), chain, k);
    var own := groups[chain.groups[k]].buckets;
    var j := PlaceOfCell(name, cfg[name].limits, own, c);
    i := PlaceHasCell(cfg, groups, id, Some(group), chain, k, j, cfg[name].limits);
  }

  lemma PlaceOfCell(name: string, limits: seq<Limit>, buckets: seq<GroupBucket>, c: Cell) returns (j: nat)
    requires Projects(name, limits, buckets) && Uses(limits, c)
    ensures j < |buckets| && BucketCell(buckets[j]) == c
  {
    j :| 0 <= j < |buckets| && BucketCell(buckets[j]) == c;
  }

  // ---------------------------------------------------------------------------------------------
  // Admission by rows

  /** Usage by ledger row, which a bucket finds by its id. */
  type Rows = string -> Counters

  predicate RowAdmits(b: ChainBucket, pool: string, rows: Rows)
  {
    b.scope == None || b.scope == Some(Scope("pool", pool)) ==>
      && (b.requestsCap.Some? ==> rows(b.bucketId).requests < b.requestsCap.value)
      && (b.tokensCap.Some? ==> rows(b.bucketId).tokens < b.tokensCap.value)
      && (b.budgetCap.Some? ==> rows(b.bucketId).spend < b.budgetCap.value)
  }

  /** A windowed limit about every pool or this one is not used up in its own row; a budget counts signed cents. */
  predicate HasLeft(name: string, l: Limit, pool: string, rows: Rows)
  {
    l.per.Some? && (l.scope == None || l.scope == Some(Scope("pool", pool))) ==>
      var used := rows(BucketId(name, l.per.value, l.scope));
      match l.metric
      case Concurrent => true
      case Requests => used.requests < l.amount
      case Tokens => used.tokens < l.amount
      case Budget => used.spend < if l.amount < LARGEST_BUDGET then l.amount else LARGEST_BUDGET
  }

  /** What the rows say of the cells. */
  function ByCell(id: string, rows: Rows): Ledger
  {
    (group: Option<string>, c: Cell) =>
      if group.Some? then rows(BucketId(group.value, c.window, c.scope)) else rows(id)
  }

  lemma SameBucket(b: ChainBucket, id: string, pool: string, rows: Rows)
    requires (b.groupName == None && b.bucketId == id) ||
             (b.groupName.Some? && b.bucketId == BucketId(b.groupName.value, b.window, b.scope))
    ensures RowAdmits(b, pool, rows) <==> BucketAdmits(b, pool, ByCell(id, rows))
  {
  }

  lemma SameLimit(name: string, l: Limit, id: string, pool: string, rows: Rows)
    ensures HasLeft(name, l, pool, rows) <==> LimitHolds(name, l, pool, ByCell(id, rows))
  {
  }

  lemma SameChain(cfg: Config, groups: seq<GroupRuntime>, idx: map<string, nat>, id: string, group: Option<string>,
                  chain: Chain, pool: string, rows: Rows)
    requires Represents(cfg, groups, idx) && IsChain(cfg, groups, id, group, chain)
    ensures (forall i | 0 <= i < |chain.buckets| :: RowAdmits(chain.buckets[i], pool, rows)) <==>
            ChainAdmits(chain, pool, ByCell(id, rows))
  {
    forall i | 0 <= i < |chain.buckets|
      ensures RowAdmits(chain.buckets[i], pool, rows) <==> BucketAdmits(chain.buckets[i], pool, ByCell(id, rows))
    {
      if i == 0 {
        KeyBucketIsFirst(cfg, groups, id, group, chain);
      } else {
        var name := EveryBucketHasCell(cfg, groups, idx, id, group, chain, i);
      }
      SameBucket(chain.buckets[i], id, pool, rows);
    }
  }

  /**
   * Usage kept by row: a chain admits a request to a pool exactly when every limit of the key's group and of its
   * ancestors has something left in the row of its own id.
   */
  lemma AdmissionByRow(cfg: Config, groups: seq<GroupRuntime>, idx: map<string, nat>, id: string, group: Option<string>,
                       chain: Chain, pool: string, rows: Rows)
    requires Represents(cfg, groups, idx) && IsChain(cfg, groups, id, group, chain)
    ensures (forall i | 0 <= i < |chain.buckets| :: RowAdmits(chain.buckets[i], pool, rows)) <==>
            (group.Some? ==> forall n, i | n in cfg && Reaches(cfg, group.value, n) && 0 <= i < |cfg[n].limits| ::
               HasLeft(n, cfg[n].limits[i], pool, rows))
  {
    var ledger := ByCell(id, rows);
    SameChain(cfg, groups, idx, id, group, chain, pool, rows);
    CompilationPreservesMeaning(cfg, groups, idx, id, group, chain, pool, ledger);
    if group.Some? {
      forall n, i | n in cfg && 0 <= i < |cfg[n].limits|
        ensures HasLeft(n, cfg[n].limits[i], pool, rows) <==> LimitHolds(n, cfg[n].limits[i], pool, ledger)
      {
        SameLimit(n, cfg[n].limits[i], id, pool, rows);
      }
    }
  }
}
