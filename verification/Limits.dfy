// Compiling the tree of group limits into enforcement buckets.

module Limits {
  import opened Wrappers
  import opened Integers
  import opened BucketIds

  datatype Metric = Concurrent | Requests | Tokens | Budget

  datatype Limit = Limit(
    metric: Metric, amount: U64, per: Option<Window>, scope: Option<Scope>, downgradeTo: Option<Scope>)

  datatype GroupCfg = GroupCfg(parent: Option<string>, enabled: bool, limits: seq<Limit>)

  datatype GroupBucket = GroupBucket(
    bucketId: string, window: Window,
    requestsCap: Option<int>, tokensCap: Option<int>, budgetCap: Option<int>,
    scope: Option<Scope>, downgradeTo: Option<Scope>)

  datatype GroupRuntime = GroupRuntime(
    name: string, enabled: bool, concurrentCap: Option<int>, buckets: seq<GroupBucket>, parent: Option<nat>)

  // ---------------------------------------------------------------------------------------------
  // What a group's limits mean

  /** The (window, scope) that a limit counts in; `None` for one that counts in no window. */
  datatype Cell = Cell(window: Window, scope: Option<Scope>)

  function CellOf(l: Limit): Option<Cell>
  {
    if l.metric != Concurrent && l.per.Some? then Some(Cell(l.per.value, l.scope)) else None
  }

  function BucketCell(b: GroupBucket): Cell { Cell(b.window, b.scope) }

  /** The amount that is enforced: a budget counts signed cents. */
  function Enforced(l: Limit): int
  {
    if l.metric == Budget && l.amount > MAX_I64 then MAX_I64 else l.amount
  }

  /** The limit caps this metric in this cell. */
  predicate Caps(l: Limit, m: Metric, c: Cell)
  {
    l.metric == m && CellOf(l) == Some(c)
  }

  ghost predicate IsMinimum(cap: Option<int>, amounts: set<int>)
  {
    match cap
    case None => amounts == {}
    case Some(n) => n in amounts && forall a | a in amounts :: n <= a
  }

  /** What the limits of `m` in the cell `c` enforce. */
  ghost function Amounts(limits: seq<Limit>, m: Metric, c: Cell): set<int>
  {
    set i | 0 <= i < |limits| && Caps(limits[i], m, c) :: Enforced(limits[i])
  }

  ghost function ConcurrentAmounts(limits: seq<Limit>): set<int>
  {
    set i | 0 <= i < |limits| && limits[i].metric == Concurrent :: limits[i].amount as int
  }

  /** Limit `i` is the first budget of the cell to enforce `cap`. */
  ghost predicate Governs(limits: seq<Limit>, i: int, c: Cell, cap: int)
  {
    && 0 <= i < |limits|
    && Caps(limits[i], Budget, c) && Enforced(limits[i]) == cap
    && forall j | 0 <= j < i :: Caps(limits[j], Budget, c) ==> Enforced(limits[j]) != cap
  }

  ghost predicate Downgrades(limits: seq<Limit>, c: Cell, cap: Option<int>, to: Option<Scope>)
  {
    match cap
    case None => to == None
    case Some(n) => exists i :: Governs(limits, i, c, n) && to == limits[i].downgradeTo
  }

  /** The bucket enforces what the limits ask of its cell. */
  ghost predicate Compiled(name: string, limits: seq<Limit>, b: GroupBucket)
  {
    && b.bucketId == BucketId(name, b.window, b.scope)
    && IsMinimum(b.requestsCap, Amounts(limits, Requests, BucketCell(b)))
    && IsMinimum(b.tokensCap, Amounts(limits, Tokens, BucketCell(b)))
    && IsMinimum(b.budgetCap, Amounts(limits, Budget, BucketCell(b)))
    && Downgrades(limits, BucketCell(b), b.budgetCap, b.downgradeTo)
  }

  ghost predicate Uses(limits: seq<Limit>, c: Cell)
  {
    exists i :: 0 <= i < |limits| && CellOf(limits[i]) == Some(c)
  }

  /** Some limit is in cell `c` with none in `d` up to it. */
  ghost predicate UsedBefore(limits: seq<Limit>, c: Cell, d: Cell)
  {
    exists i :: 0 <= i < |limits| && CellOf(limits[i]) == Some(c) && forall j | 0 <= j <= i :: CellOf(limits[j]) != Some(d)
  }

  /** One bucket per cell in use, in the order of first use. */
  ghost predicate Projects(name: string, limits: seq<Limit>, buckets: seq<GroupBucket>)
  {
    && (forall k | 0 <= k < |buckets| :: Compiled(name, limits, buckets[k]) && Uses(limits, BucketCell(buckets[k])))
    && (forall c | Uses(limits, c) :: exists k :: 0 <= k < |buckets| && BucketCell(buckets[k]) == c)
    && (forall j, k | 0 <= j < k < |buckets| :: UsedBefore(limits, BucketCell(buckets[j]), BucketCell(buckets[k])))
  }

  // ---------------------------------------------------------------------------------------------
  // One more limit

  lemma AmountsGrow(limits: seq<Limit>, l: Limit, m: Metric, c: Cell)
    ensures Amounts(limits + [l], m, c) == Amounts(limits, m, c) + if Caps(l, m, c) then {Enforced(l)} else {}
  {
    var longer := limits + [l];
    forall i | 0 <= i < |limits| && Caps(limits[i], m, c) ensures Enforced(limits[i]) in Amounts(longer, m, c) {
      assert longer[i] == limits[i];
    }
    assert longer[|limits|] == l;
  }

  lemma ConcurrentGrow(limits: seq<Limit>, l: Limit)
    ensures ConcurrentAmounts(limits + [l]) == ConcurrentAmounts(limits) + if l.metric == Concurrent then {l.amount as int} else {}
  {
    var longer := limits + [l];
    forall i | 0 <= i < |limits| && limits[i].metric == Concurrent ensures limits[i].amount as int in ConcurrentAmounts(longer) {
      assert longer[i] == limits[i];
    }
    assert longer[|limits|] == l;
  }

  function Min(cur: Option<int>, amount: int): (r: int)
    ensures r <= amount && (cur.None? ==> r == amount)
    ensures cur.Some? ==> r <= cur.value && (r == amount || r == cur.value)
  {
    if cur.Some? && cur.value <= amount then cur.value else amount
  }

  lemma DowngradeStays(limits: seq<Limit>, l: Limit, c: Cell, cap: Option<int>, to: Option<Scope>)
    requires Downgrades(limits, c, cap, to)
    requires !Caps(l, Budget, c) || (cap.Some? && cap.value <= Enforced(l))
    ensures Downgrades(limits + [l], c, cap, to)
  {
    if cap.Some? {
      var i :| Governs(limits, i, c, cap.value) && to == limits[i].downgradeTo;
      assert Governs(limits + [l], i, c, cap.value);
    }
  }

  lemma DowngradeMoves(limits: seq<Limit>, l: Limit, c: Cell, cap: Option<int>)
    requires IsMinimum(cap, Amounts(limits, Budget, c))
    requires Caps(l, Budget, c) && (cap.None? || Enforced(l) < cap.value)
    ensures Downgrades(limits + [l], c, Some(Enforced(l)), l.downgradeTo)
  {
    var longer := limits + [l];
    forall j | 0 <= j < |limits| && Caps(longer[j], Budget, c) ensures Enforced(longer[j]) != Enforced(l) {
      assert Enforced(limits[j]) in Amounts(limits, Budget, c);
    }
    assert Governs(longer, |limits|, c, Enforced(l));
  }

  /** A limit of another cell changes nothing in this bucket. */
  lemma CompiledStays(name: string, limits: seq<Limit>, l: Limit, b: GroupBucket)
    requires Compiled(name, limits, b) && CellOf(l) != Some(BucketCell(b))
    ensures Compiled(name, limits + [l], b)
  {
    var c := BucketCell(b);
    CapTightens(limits, l, Requests, c, b.requestsCap);
    CapTightens(limits, l, Tokens, c, b.tokensCap);
    CapTightens(limits, l, Budget, c, b.budgetCap);
    DowngradeStays(limits, l, c, b.budgetCap, b.downgradeTo);
  }

  /** The bucket after a limit of its cell. */
  function Tightened(b: GroupBucket, l: Limit): GroupBucket
  {
    match l.metric
    case Requests => b.(requestsCap := Some(Min(b.requestsCap, l.amount)))
    case Tokens => b.(tokensCap := Some(Min(b.tokensCap, l.amount)))
    case Budget =>
      b.(downgradeTo := if b.budgetCap.None? || Enforced(l) < b.budgetCap.value then l.downgradeTo else b.downgradeTo,
         budgetCap := Some(Min(b.budgetCap, Enforced(l))))
    case Concurrent => b
  }

  lemma CapTightens(limits: seq<Limit>, l: Limit, m: Metric, c: Cell, cap: Option<int>)
    requires IsMinimum(cap, Amounts(limits, m, c))
    ensures IsMinimum(if Caps(l, m, c) then Some(Min(cap, Enforced(l))) else cap, Amounts(limits + [l], m, c))
  {
    AmountsGrow(limits, l, m, c);
  }

  lemma CompiledTightens(name: string, limits: seq<Limit>, l: Limit, b: GroupBucket)
    requires Compiled(name, limits, b) && CellOf(l) == Some(BucketCell(b))
    ensures Compiled(name, limits + [l], Tightened(b, l))
  {
    var c := BucketCell(b);
    CapTightens(limits, l, Requests, c, b.requestsCap);
    CapTightens(limits, l, Tokens, c, b.tokensCap);
    CapTightens(limits, l, Budget, c, b.budgetCap);
    if l.metric == Budget && (b.budgetCap.None? || Enforced(l) < b.budgetCap.value) {
      DowngradeMoves(limits, l, c, b.budgetCap);
    } else {
      DowngradeStays(limits, l, c, b.budgetCap, b.downgradeTo);
    }
  }

  function Unused(name: string, c: Cell): GroupBucket
  {
    GroupBucket(BucketId(name, c.window, c.scope), c.window, None, None, None, c.scope, None)
  }

  lemma UnusedIsCompiled(name: string, limits: seq<Limit>, c: Cell)
    requires !Uses(limits, c)
    ensures Compiled(name, limits, Unused(name, c))
  {
    forall m, i | 0 <= i < |limits| ensures !Caps(limits[i], m, c) {
    }
  }

  lemma UsesGrow(limits: seq<Limit>, l: Limit, c: Cell)
    ensures Uses(limits + [l], c) <==> Uses(limits, c) || CellOf(l) == Some(c)
  {
    var longer := limits + [l];
    assert longer[|limits|] == l;
    if i :| 0 <= i < |limits| && CellOf(limits[i]) == Some(c) {
      assert longer[i] == limits[i];
    }
  }

  lemma UsedBeforeGrows(limits: seq<Limit>, l: Limit, c: Cell, d: Cell)
    requires UsedBefore(limits, c, d)
    ensures UsedBefore(limits + [l], c, d)
  {
    var i :| 0 <= i < |limits| && CellOf(limits[i]) == Some(c) && forall j | 0 <= j <= i :: CellOf(limits[j]) != Some(d);
    assert (limits + [l])[i] == limits[i];
  }

  lemma UsedBeforeUnused(limits: seq<Limit>, c: Cell, d: Cell)
    requires Uses(limits, c) && !Uses(limits, d)
    ensures UsedBefore(limits, c, d)
  {
    var i :| 0 <= i < |limits| && CellOf(limits[i]) == Some(c);
  }

  lemma ProjectsSkips(name: string, limits: seq<Limit>, l: Limit, buckets: seq<GroupBucket>)
    requires Projects(name, limits, buckets) && CellOf(l) == None
    ensures Projects(name, limits + [l], buckets)
  {
    forall k | 0 <= k < |buckets| ensures Compiled(name, limits + [l], buckets[k]) {
      CompiledStays(name, limits, l, buckets[k]);
    }
    forall c ensures Uses(limits + [l], c) <==> Uses(limits, c) {
      UsesGrow(limits, l, c);
    }
    forall j, k | 0 <= j < k < |buckets| ensures UsedBefore(limits + [l], BucketCell(buckets[j]), BucketCell(buckets[k])) {
      UsedBeforeGrows(limits, l, BucketCell(buckets[j]), BucketCell(buckets[k]));
    }
  }

  lemma ProjectsTightens(name: string, limits: seq<Limit>, l: Limit, buckets: seq<GroupBucket>, at: nat)
    requires Projects(name, limits, buckets)
    requires at < |buckets| && CellOf(l) == Some(BucketCell(buckets[at]))
    ensures Projects(name, limits + [l], buckets[at := Tightened(buckets[at], l)])
  {
    var after := buckets[at := Tightened(buckets[at], l)];
    forall k | 0 <= k < |buckets| ensures BucketCell(after[k]) == BucketCell(buckets[k]) && Compiled(name, limits + [l], after[k]) {
      if k == at {
        CompiledTightens(name, limits, l, buckets[k]);
      } else {
        DifferentCells(limits, buckets, k, at);
        CompiledStays(name, limits, l, buckets[k]);
      }
    }
    forall c ensures Uses(limits + [l], c) <==> Uses(limits, c) {
      UsesGrow(limits, l, c);
    }
    forall c | Uses(limits, c) ensures exists k :: 0 <= k < |after| && BucketCell(after[k]) == c {
      var k :| 0 <= k < |buckets| && BucketCell(buckets[k]) == c;
      assert BucketCell(after[k]) == c;
    }
    forall j, k | 0 <= j < k < |after| ensures UsedBefore(limits + [l], BucketCell(after[j]), BucketCell(after[k])) {
      UsedBeforeGrows(limits, l, BucketCell(buckets[j]), BucketCell(buckets[k]));
    }
  }

  lemma DifferentCells(limits: seq<Limit>, buckets: seq<GroupBucket>, j: nat, k: nat)
    requires forall j, k | 0 <= j < k < |buckets| :: UsedBefore(limits, BucketCell(buckets[j]), BucketCell(buckets[k]))
    requires j < |buckets| && k < |buckets| && j != k
    ensures BucketCell(buckets[j]) != BucketCell(buckets[k])
  {
    assert UsedBefore(limits, BucketCell(buckets[if j < k then j else k]), BucketCell(buckets[if j < k then k else j]));
  }

  lemma ProjectsOpens(name: string, limits: seq<Limit>, l: Limit, buckets: seq<GroupBucket>)
    requires Projects(name, limits, buckets)
    requires CellOf(l).Some? && !Uses(limits, CellOf(l).value)
    ensures Projects(name, limits + [l], buckets + [Tightened(Unused(name, CellOf(l).value), l)])
  {
    var cell := CellOf(l).value;
    var last := Tightened(Unused(name, cell), l);
    var after := buckets + [last];
    UnusedIsCompiled(name, limits, cell);
    CompiledTightens(name, limits, l, Unused(name, cell));
    forall k | 0 <= k < |buckets| ensures Compiled(name, limits + [l], buckets[k]) {
      CompiledStays(name, limits, l, buckets[k]);
    }
    UsesBecome(limits, l, buckets, last);
    OrderGrows(limits, l, buckets, last);
  }

  lemma UsesBecome(limits: seq<Limit>, l: Limit, buckets: seq<GroupBucket>, last: GroupBucket)
    requires forall k | 0 <= k < |buckets| :: Uses(limits, BucketCell(buckets[k]))
    requires forall c | Uses(limits, c) :: exists k :: 0 <= k < |buckets| && BucketCell(buckets[k]) == c
    requires CellOf(l) == Some(BucketCell(last))
    ensures var after := buckets + [last];
            && (forall k | 0 <= k < |after| :: Uses(limits + [l], BucketCell(after[k])))
            && (forall c | Uses(limits + [l], c) :: exists k :: 0 <= k < |after| && BucketCell(after[k]) == c)
  {
    var after := buckets + [last];
    forall c ensures Uses(limits + [l], c) <==> Uses(limits, c) || c == BucketCell(last) {
      UsesGrow(limits, l, c);
    }
    forall c | Uses(limits + [l], c) ensures exists k :: 0 <= k < |after| && BucketCell(after[k]) == c {
      if c == BucketCell(last) {
        assert BucketCell(after[|buckets|]) == c;
      } else {
        var k :| 0 <= k < |buckets| && BucketCell(buckets[k]) == c;
        assert BucketCell(after[k]) == c;
      }
    }
  }

  lemma OrderGrows(limits: seq<Limit>, l: Limit, buckets: seq<GroupBucket>, last: GroupBucket)
    requires forall k | 0 <= k < |buckets| :: Uses(limits, BucketCell(buckets[k]))
    requires forall j, k | 0 <= j < k < |buckets| :: UsedBefore(limits, BucketCell(buckets[j]), BucketCell(buckets[k]))
    requires !Uses(limits, BucketCell(last))
    ensures var after := buckets + [last];
            forall j, k | 0 <= j < k < |after| :: UsedBefore(limits + [l], BucketCell(after[j]), BucketCell(after[k]))
  {
    var after := buckets + [last];
    forall j, k | 0 <= j < k < |after| ensures UsedBefore(limits + [l], BucketCell(after[j]), BucketCell(after[k])) {
      if k == |buckets| {
        UsedBeforeUnused(limits, BucketCell(buckets[j]), BucketCell(last));
      }
      UsedBeforeGrows(limits, l, BucketCell(after[j]), BucketCell(after[k]));
    }
  }

  // ---------------------------------------------------------------------------------------------
  // The compiler

  /** `buckets.iter_mut().find(..)` */
  method FindCell(buckets: seq<GroupBucket>, c: Cell) returns (at: nat)
    ensures at <= |buckets| && (at < |buckets| ==> BucketCell(buckets[at]) == c)
    ensures forall k | 0 <= k < at :: BucketCell(buckets[k]) != c
  {
    at := 0;
    while at < |buckets| && BucketCell(buckets[at]) != c
      invariant at <= |buckets| && forall k | 0 <= k < at :: BucketCell(buckets[k]) != c
    {
      at := at + 1;
    }
  }

  method ProjectLimits(name: string, limits: seq<Limit>) returns (buckets: seq<GroupBucket>, concurrentCap: Option<int>)
    ensures Projects(name, limits, buckets)
    ensures IsMinimum(concurrentCap, ConcurrentAmounts(limits))
  {
    buckets, concurrentCap := [], None;
    for i := 0 to |limits|
      invariant Projects(name, limits[..i], buckets)
      invariant IsMinimum(concurrentCap, ConcurrentAmounts(limits[..i]))
    {
      var l := limits[i];
      assert limits[..i + 1] == limits[..i] + [l];
      ConcurrentGrow(limits[..i], l);
      if l.metric == Concurrent {
        concurrentCap := Some(Min(concurrentCap, l.amount));
      }
      buckets := ProjectLimit(name, limits[..i], l, buckets);
    }
    assert limits[..|limits|] == limits;
  }

  method ProjectLimit(name: string, ghost before: seq<Limit>, l: Limit, buckets: seq<GroupBucket>)
    returns (after: seq<GroupBucket>)
    requires Projects(name, before, buckets)
    ensures Projects(name, before + [l], after)
  {
    if l.metric == Concurrent || l.per.None? {
      ProjectsSkips(name, before, l, buckets);
      return buckets;
    }
    var cell := Cell(l.per.value, l.scope);
    var at := FindCell(buckets, cell);
    after := buckets;
    if at == |buckets| {
      ProjectsOpens(name, before, l, buckets);
      after := after + [Unused(name, cell)];
    } else {
      ProjectsTightens(name, before, l, buckets, at);
    }
    var bucket := Enforce(after[at], l);
    assert at == |buckets| ==> after[at := bucket] == buckets + [bucket];
    after := after[at := bucket];
  }

  method Enforce(bucket: GroupBucket, l: Limit) returns (b: GroupBucket)
    requires l.metric != Concurrent
    ensures b == Tightened(bucket, l)
  {
    b := bucket;
    match l.metric {
      case Requests =>
        b := b.(requestsCap := Some(Min(b.requestsCap, l.amount)));
      case Tokens =>
        b := b.(tokensCap := Some(Min(b.tokensCap, l.amount)));
      case Budget =>
        var amount := if l.amount <= MAX_I64 then l.amount else MAX_I64;
        if b.budgetCap.None? || amount < b.budgetCap.value {
          b := b.(downgradeTo := l.downgradeTo);
        }
        b := b.(budgetCap := Some(Min(b.budgetCap, amount)));
    }
  }
}
