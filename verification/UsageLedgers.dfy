// The token ledger of one bucket and window, and the signed deltas that accumulate into it.

module UsageLedgers {
  import opened Wrappers
  import opened Integers
  import opened Sequences

  datatype TierTokens = TierTokens(input: U64, output: U64, cacheRead: U64, cacheWrite: U64)

  datatype ModelTokens = ModelTokens(model: string, tokens: TierTokens)

  datatype TierTokensDelta = TierTokensDelta(input: I64, output: I64, cacheRead: I64, cacheWrite: I64)

  datatype ModelTokensDelta = ModelTokensDelta(model: string, tokens: TierTokensDelta)

  datatype UsageDelta = UsageDelta(requests: I64, billableRequests: I64, models: seq<ModelTokensDelta>)

  // ---------------------------------------------------------------------------------------------
  // One floored counter

  /** A counter that saturates at both ends, after a run of signed amounts. */
  function Run(start: U64, amounts: seq<I64>): U64
  {
    if amounts == [] then start
    else SaturatingAddSigned(Run(start, amounts[..|amounts| - 1]), amounts[|amounts| - 1])
  }

  /** The exact running sum S_n. */
  ghost function Sum(start: int, amounts: seq<I64>): int
  {
    if amounts == [] then start
    else Sum(start, amounts[..|amounts| - 1]) + amounts[|amounts| - 1]
  }

  /** min(0, min_k S_k) */
  ghost function Lowest(start: U64, amounts: seq<I64>): (low: int)
    ensures low <= 0
  {
    if amounts == [] then 0
    else
      var before, now := Lowest(start, amounts[..|amounts| - 1]), Sum(start, amounts);
      if now < before then now else before
  }

  /** The sum, raised by as much as the floor ever gave, fits the counter after every step. */
  ghost predicate NeverFull(start: U64, amounts: seq<I64>)
  {
    forall k | 0 <= k <= |amounts| :: Sum(start, amounts[..k]) - Lowest(start, amounts[..k]) <= MAX_U64
  }

  ghost predicate NeverNegative(start: U64, amounts: seq<I64>)
  {
    forall k | 0 <= k <= |amounts| :: Sum(start, amounts[..k]) >= 0
  }

  lemma {:induction false} LowestIsMinimum(start: U64, amounts: seq<I64>)
    ensures forall k | 0 <= k <= |amounts| :: Lowest(start, amounts) <= Sum(start, amounts[..k])
    ensures Lowest(start, amounts) == 0 || exists k :: 0 <= k <= |amounts| && Sum(start, amounts[..k]) == Lowest(start, amounts)
  {
    assert amounts[..|amounts|] == amounts;
    if amounts != [] {
      var front := amounts[..|amounts| - 1];
      LowestIsMinimum(start, front);
      forall k | 0 <= k < |amounts| ensures front[..k] == amounts[..k] {
      }
    }
  }

  lemma {:induction false} FlooredRun(start: U64, amounts: seq<I64>)
    requires NeverFull(start, amounts)
    ensures Run(start, amounts) == Sum(start, amounts) - Lowest(start, amounts)
  {
    if amounts != [] {
      var front := amounts[..|amounts| - 1];
      forall k | 0 <= k <= |front| ensures front[..k] == amounts[..k] {
      }
      FlooredRun(start, front);
      assert amounts[..|amounts|] == amounts;
    }
  }

  /** The identity holds at every step exactly while the counter has room. */
  lemma FlooredIdentity(start: U64, amounts: seq<I64>)
    ensures NeverFull(start, amounts) <==>
            forall k | 0 <= k <= |amounts| ::
              Run(start, amounts[..k]) == Sum(start, amounts[..k]) - Lowest(start, amounts[..k])
  {
    if NeverFull(start, amounts) {
      forall k | 0 <= k <= |amounts|
        ensures Run(start, amounts[..k]) == Sum(start, amounts[..k]) - Lowest(start, amounts[..k])
      {
        forall j | 0 <= j <= k ensures amounts[..k][..j] == amounts[..j] {
        }
        FlooredRun(start, amounts[..k]);
      }
    }
  }

  /** A counter with room is never below the true sum, and equals it exactly when no prefix went negative. */
  lemma FloorOnlyAdds(start: U64, amounts: seq<I64>)
    requires NeverFull(start, amounts)
    ensures Run(start, amounts) >= Sum(start, amounts)
    ensures Run(start, amounts) == Sum(start, amounts) <==> NeverNegative(start, amounts)
  {
    FlooredRun(start, amounts);
    LowestIsMinimum(start, amounts);
  }

  /** Charging back before charging is not charging back after. */
  lemma FloorIsOrderSensitive()
    ensures Run(0, [-5, 3]) == 3 && Run(0, [3, -5]) == 0
  {
    assert [-5, 3][..1] == [-5] && [3, -5][..1] == [3];
    assert [-5][..0] == [] && [3][..0] == [];
  }

  lemma {:induction false} RunAppend(start: U64, a: seq<I64>, b: seq<I64>)
    ensures Run(start, a + b) == Run(Run(start, a), b)
  {
    if b == [] {
      assert a + b == a;
    } else {
      assert (a + b)[..|a + b| - 1] == a + b[..|b| - 1];
      RunAppend(start, a, b[..|b| - 1]);
    }
  }

  // ---------------------------------------------------------------------------------------------
  // When the order of the amounts matters

  /** The sum of the positive amounts. */
  ghost function Ups(amounts: seq<I64>): nat
  {
    if amounts == [] then 0 else Ups(amounts[..|amounts| - 1]) + Gain(amounts[|amounts| - 1])
  }

  /** The sum of the negative amounts, without their sign. */
  ghost function Downs(amounts: seq<I64>): nat
  {
    if amounts == [] then 0 else Downs(amounts[..|amounts| - 1]) + Loss(amounts[|amounts| - 1])
  }

  ghost function Gain(amount: int): nat { if amount > 0 then amount else 0 }

  ghost function Loss(amount: int): nat { if amount < 0 then -amount else 0 }

  /** Neither end of the counter is in reach of any order, or all amounts go one way. */
  ghost predicate Commutes(start: U64, amounts: seq<I64>)
  {
    && (start >= Downs(amounts) || Ups(amounts) == 0)
    && (start + Ups(amounts) <= MAX_U64 || Downs(amounts) == 0)
  }

  ghost function Cut(n: int): U64 { Clamp(n, 0, MAX_U64) }

  lemma {:induction false} RunWithoutDowns(start: U64, amounts: seq<I64>)
    requires Downs(amounts) == 0
    ensures Run(start, amounts) == Cut(start + Ups(amounts))
  {
    if amounts != [] {
      RunWithoutDowns(start, amounts[..|amounts| - 1]);
    }
  }

  lemma {:induction false} RunWithoutUps(start: U64, amounts: seq<I64>)
    requires Ups(amounts) == 0
    ensures Run(start, amounts) == Cut(start - Downs(amounts))
  {
    if amounts != [] {
      RunWithoutUps(start, amounts[..|amounts| - 1]);
    }
  }

  lemma {:induction false} RunInReach(start: U64, amounts: seq<I64>)
    requires start >= Downs(amounts) && start + Ups(amounts) <= MAX_U64
    ensures Run(start, amounts) == start + Ups(amounts) - Downs(amounts)
  {
    if amounts != [] {
      RunInReach(start, amounts[..|amounts| - 1]);
    }
  }

  lemma CommutingRun(start: U64, amounts: seq<I64>)
    requires Commutes(start, amounts)
    ensures Run(start, amounts) == Cut(start + Ups(amounts) - Downs(amounts))
  {
    if Downs(amounts) == 0 {
      RunWithoutDowns(start, amounts);
    } else if Ups(amounts) == 0 {
      RunWithoutUps(start, amounts);
    } else {
      RunInReach(start, amounts);
    }
  }

  lemma {:induction false} GainsWithout(s: seq<I64>, i: nat)
    requires i < |s|
    ensures Ups(s) == Ups(Others(s, i)) + Gain(s[i]) && Downs(s) == Downs(Others(s, i)) + Loss(s[i])
  {
    if i == |s| - 1 {
      assert Others(s, i) == s[..i];
    } else {
      GainsWithout(s[..|s| - 1], i);
      OthersSnoc(s, i);
    }
  }

  lemma {:induction false} GainsIgnoreOrder(p: seq<I64>, q: seq<I64>)
    requires multiset(p) == multiset(q)
    ensures Ups(p) == Ups(q) && Downs(p) == Downs(q)
    decreases |p|
  {
    if p == [] {
      assert |multiset(q)| == 0;
    } else {
      var i := Counterpart(p, q);
      GainsIgnoreOrder(Others(p, 0), Others(q, i));
      GainsWithout(p, 0);
      GainsWithout(q, i);
    }
  }

  lemma {:induction false} GainsAppend(a: seq<I64>, b: seq<I64>)
    ensures Ups(a + b) == Ups(a) + Ups(b) && Downs(a + b) == Downs(a) + Downs(b)
  {
    if b == [] {
      assert a + b == a;
    } else {
      assert (a + b)[..|a + b| - 1] == a + b[..|b| - 1];
      GainsAppend(a, b[..|b| - 1]);
    }
  }

  /** All that rises first, or all that falls first: the two extremes agree only if the amounts commute. */
  lemma ExtremesDiffer(start: U64, rising: seq<I64>, falling: seq<I64>)
    requires Downs(rising) == 0 && Ups(falling) == 0 && !Commutes(start, rising + falling)
    ensures Run(start, rising + falling) != Run(start, falling + rising)
  {
    GainsAppend(rising, falling);
    RunAppend(start, rising, falling);
    RunAppend(start, falling, rising);
    RunWithoutDowns(start, rising);
    RunWithoutUps(start, falling);
    RunWithoutUps(Run(start, rising), falling);
    RunWithoutDowns(Run(start, falling), rising);
  }

  lemma {:induction false} Sorted(amounts: seq<I64>) returns (rising: seq<I64>, falling: seq<I64>)
    ensures Downs(rising) == 0 && Ups(falling) == 0
    ensures multiset(rising + falling) == multiset(amounts) == multiset(falling + rising)
  {
    if amounts == [] {
      rising, falling := [], [];
    } else {
      var front, last := amounts[..|amounts| - 1], amounts[|amounts| - 1];
      rising, falling := Sorted(front);
      assert amounts == front + [last];
      if last >= 0 {
        rising := rising + [last];
      } else {
        falling := falling + [last];
      }
    }
  }

  /** Every order of the amounts ends alike if and only if they commute. */
  lemma OrderIsImmaterialExactly(start: U64, amounts: seq<I64>)
    ensures (forall p: seq<I64> | multiset(p) == multiset(amounts) :: Run(start, p) == Run(start, amounts)) <==> Commutes(start, amounts)
  {
    if Commutes(start, amounts) {
      forall p: seq<I64> | multiset(p) == multiset(amounts) ensures Run(start, p) == Run(start, amounts) {
        GainsIgnoreOrder(p, amounts);
        CommutingRun(start, p);
        CommutingRun(start, amounts);
      }
    } else {
      var rising, falling := Sorted(amounts);
      GainsIgnoreOrder(rising + falling, amounts);
      ExtremesDiffer(start, rising, falling);
    }
  }

  /** Every order ends at the true sum if and only if neither end of the counter is in reach. */
  lemma TrueSumExactly(start: U64, amounts: seq<I64>)
    ensures (forall p: seq<I64> | multiset(p) == multiset(amounts) :: Run(start, p) == start + Ups(amounts) - Downs(amounts))
            <==> start >= Downs(amounts) && start + Ups(amounts) <= MAX_U64
  {
    if start >= Downs(amounts) && start + Ups(amounts) <= MAX_U64 {
      forall p: seq<I64> | multiset(p) == multiset(amounts) ensures Run(start, p) == start + Ups(amounts) - Downs(amounts) {
        GainsIgnoreOrder(p, amounts);
        RunInReach(start, p);
      }
    } else if Commutes(start, amounts) {
      CommutingRun(start, amounts);
    } else {
      OrderIsImmaterialExactly(start, amounts);
    }
  }

  // ---------------------------------------------------------------------------------------------
  // The ledger as a value

  datatype Ledger = Ledger(requests: U64, billableRequests: U64, models: seq<ModelTokens>)

  datatype Tier = Input | Output | CacheRead | CacheWrite

  /** Everything a ledger counts. */
  datatype Counter = Requests | Billable | Tokens(model: string, tier: Tier)

  function Count(t: TierTokens, tier: Tier): U64
  {
    match tier case Input => t.input case Output => t.output case CacheRead => t.cacheRead case CacheWrite => t.cacheWrite
  }

  function Change(t: TierTokensDelta, tier: Tier): I64
  {
    match tier case Input => t.input case Output => t.output case CacheRead => t.cacheRead case CacheWrite => t.cacheWrite
  }

  function Plus(t: TierTokens, d: TierTokensDelta): (r: TierTokens)
    ensures forall tier :: Count(r, tier) == SaturatingAddSigned(Count(t, tier), Change(d, tier))
  {
    TierTokens(SaturatingAddSigned(t.input, d.input), SaturatingAddSigned(t.output, d.output),
               SaturatingAddSigned(t.cacheRead, d.cacheRead), SaturatingAddSigned(t.cacheWrite, d.cacheWrite))
  }

  /** The first row of the model, or the end. */
  function Find(models: seq<ModelTokens>, model: string): (at: nat)
    ensures at <= |models| && (at < |models| ==> models[at].model == model)
    ensures forall j | 0 <= j < at :: models[j].model != model
  {
    if models == [] || models[0].model == model then 0 else 1 + Find(models[1..], model)
  }

  /** `tokens_for` */
  function TokensFor(models: seq<ModelTokens>, model: string): Option<TierTokens>
  {
    var at := Find(models, model);
    if at < |models| then Some(models[at].tokens) else None
  }

  function Read(models: seq<ModelTokens>, model: string): TierTokens
  {
    match TokensFor(models, model) case Some(t) => t case None => TierTokens(0, 0, 0, 0)
  }

  ghost predicate Unique(models: seq<ModelTokens>)
  {
    forall i, j | 0 <= i < j < |models| :: models[i].model != models[j].model
  }

  ghost function Names(models: seq<ModelTokens>): set<string>
  {
    set i | 0 <= i < |models| :: models[i].model
  }

  ghost function Value(l: Ledger, c: Counter): U64
  {
    match c
    case Requests => l.requests
    case Billable => l.billableRequests
    case Tokens(model, tier) => Count(Read(l.models, model), tier)
  }

  /** One row's delta: the model's row is raised in place, or appended. */
  ghost function AddRow(models: seq<ModelTokens>, d: ModelTokensDelta): seq<ModelTokens>
  {
    var at := Find(models, d.model);
    var row := ModelTokens(d.model, Plus(Read(models, d.model), d.tokens));
    if at < |models| then models[at := row] else models + [row]
  }

  ghost function AddRows(models: seq<ModelTokens>, ds: seq<ModelTokensDelta>): seq<ModelTokens>
  {
    if ds == [] then models else AddRow(AddRows(models, ds[..|ds| - 1]), ds[|ds| - 1])
  }

  ghost function Apply(l: Ledger, d: UsageDelta): Ledger
  {
    Ledger(SaturatingAddSigned(l.requests, d.requests), SaturatingAddSigned(l.billableRequests, d.billableRequests),
           AddRows(l.models, d.models))
  }

  ghost function ApplyAll(l: Ledger, ds: seq<UsageDelta>): Ledger
  {
    if ds == [] then l else Apply(ApplyAll(l, ds[..|ds| - 1]), ds[|ds| - 1])
  }

  lemma FindIs(models: seq<ModelTokens>, model: string, at: nat)
    requires at <= |models| && (at < |models| ==> models[at].model == model)
    requires forall j | 0 <= j < at :: models[j].model != model
    ensures Find(models, model) == at
  {
  }

  lemma RowAdds(models: seq<ModelTokens>, d: ModelTokensDelta, model: string)
    ensures Read(AddRow(models, d), model) == if model == d.model then Plus(Read(models, model), d.tokens) else Read(models, model)
  {
    var after, at := AddRow(models, d), Find(models, model);
    if model != d.model && at == |models| {
      FindIs(after, model, |after|);
    } else {
      FindIs(after, model, at);
    }
  }

  lemma NamesOfUpdate(models: seq<ModelTokens>, at: nat, row: ModelTokens)
    requires at < |models| && models[at].model == row.model
    ensures Names(models[at := row]) == Names(models)
    ensures Unique(models) ==> Unique(models[at := row])
  {
    var after := models[at := row];
    forall i | 0 <= i < |models| ensures after[i].model == models[i].model {
    }
    forall n | n in Names(models) ensures n in Names(after) {
      var i :| 0 <= i < |models| && models[i].model == n;
      assert after[i].model == n;
    }
  }

  lemma NamesOfAppend(models: seq<ModelTokens>, row: ModelTokens)
    ensures Names(models + [row]) == Names(models) + {row.model}
    ensures Unique(models) && row.model !in Names(models) ==> Unique(models + [row])
  {
    var after := models + [row];
    forall n | n in Names(models) + {row.model} ensures n in Names(after) {
      assert after[|models|].model == row.model;
      if n in Names(models) {
        var i :| 0 <= i < |models| && models[i].model == n;
        assert after[i].model == n;
      }
    }
  }

  lemma RowKeepsUnique(models: seq<ModelTokens>, d: ModelTokensDelta)
    ensures Unique(models) ==> Unique(AddRow(models, d))
    ensures Names(AddRow(models, d)) == Names(models) + {d.model}
  {
    var at := Find(models, d.model);
    var row := ModelTokens(d.model, Plus(Read(models, d.model), d.tokens));
    if at < |models| {
      NamesOfUpdate(models, at, row);
      assert models[at].model in Names(models);
    } else {
      NamesOfAppend(models, row);
    }
  }

  ghost function NamesIn(ds: seq<ModelTokensDelta>): set<string>
  {
    if ds == [] then {} else NamesIn(ds[..|ds| - 1]) + {ds[|ds| - 1].model}
  }

  lemma {:induction false} RowsKeepUnique(models: seq<ModelTokens>, ds: seq<ModelTokensDelta>)
    ensures Unique(models) ==> Unique(AddRows(models, ds))
    ensures Names(AddRows(models, ds)) == Names(models) + NamesIn(ds)
  {
    if ds != [] {
      RowsKeepUnique(models, ds[..|ds| - 1]);
      RowKeepsUnique(AddRows(models, ds[..|ds| - 1]), ds[|ds| - 1]);
    }
  }

  // ---------------------------------------------------------------------------------------------
  // Every counter runs on its own

  ghost function RowAmounts(ds: seq<ModelTokensDelta>, model: string, tier: Tier): seq<I64>
  {
    if ds == [] then []
    else
      var last := ds[|ds| - 1];
      RowAmounts(ds[..|ds| - 1], model, tier) + if last.model == model then [Change(last.tokens, tier)] else []
  }

  /** What one delta adds to the counter, in order. */
  ghost function Amounts(d: UsageDelta, c: Counter): seq<I64>
  {
    match c
    case Requests => [d.requests]
    case Billable => [d.billableRequests]
    case Tokens(model, tier) => RowAmounts(d.models, model, tier)
  }

  ghost function AllAmounts(ds: seq<UsageDelta>, c: Counter): seq<I64>
  {
    if ds == [] then [] else AllAmounts(ds[..|ds| - 1], c) + Amounts(ds[|ds| - 1], c)
  }

  lemma RunOne(start: U64, amount: I64)
    ensures Run(start, [amount]) == SaturatingAddSigned(start, amount)
  {
    assert [amount][..0] == [];
  }

  lemma {:induction false} RowsRun(models: seq<ModelTokens>, ds: seq<ModelTokensDelta>, model: string, tier: Tier)
    ensures Count(Read(AddRows(models, ds), model), tier) == Run(Count(Read(models, model), tier), RowAmounts(ds, model, tier))
  {
    if ds != [] {
      var front, last := ds[..|ds| - 1], ds[|ds| - 1];
      var start := Count(Read(models, model), tier);
      RowsRun(models, front, model, tier);
      RowAdds(AddRows(models, front), last, model);
      RunOne(Run(start, RowAmounts(front, model, tier)), Change(last.tokens, tier));
      RunAppend(start, RowAmounts(front, model, tier), [Change(last.tokens, tier)]);
      assert RowAmounts(front, model, tier) + [] == RowAmounts(front, model, tier);
    }
  }

  lemma DeltaRuns(l: Ledger, d: UsageDelta, c: Counter)
    ensures Value(Apply(l, d), c) == Run(Value(l, c), Amounts(d, c))
  {
    match c {
      case Requests => RunOne(l.requests, d.requests);
      case Billable => RunOne(l.billableRequests, d.billableRequests);
      case Tokens(model, tier) => RowsRun(l.models, d.models, model, tier);
    }
  }

  /** After any deltas, every counter is a floored counter that ran over its own amounts. */
  lemma {:induction false} LedgerRuns(l: Ledger, ds: seq<UsageDelta>, c: Counter)
    ensures Value(ApplyAll(l, ds), c) == Run(Value(l, c), AllAmounts(ds, c))
  {
    if ds != [] {
      var front, last := ds[..|ds| - 1], ds[|ds| - 1];
      LedgerRuns(l, front, c);
      DeltaRuns(ApplyAll(l, front), last, c);
      RunAppend(Value(l, c), AllAmounts(front, c), Amounts(last, c));
    }
  }

  ghost function AllNames(ds: seq<UsageDelta>): set<string>
  {
    set i | 0 <= i < |ds|, n | n in NamesIn(ds[i].models) :: n
  }

  /** Rows stay unique throughout, and there is a row for every model that was ever named. */
  lemma {:induction false} LedgerKeepsUnique(l: Ledger, ds: seq<UsageDelta>)
    ensures Unique(l.models) ==> Unique(ApplyAll(l, ds).models)
    ensures Names(ApplyAll(l, ds).models) == Names(l.models) + AllNames(ds)
  {
    if ds != [] {
      var front, last := ds[..|ds| - 1], ds[|ds| - 1];
      LedgerKeepsUnique(l, front);
      RowsKeepUnique(ApplyAll(l, front).models, last.models);
      AllNamesSnoc(front, last);
      assert ds == front + [last];
    }
  }

  lemma AllNamesSnoc(ds: seq<UsageDelta>, d: UsageDelta)
    ensures AllNames(ds + [d]) == AllNames(ds) + NamesIn(d.models)
  {
    var longer := ds + [d];
    assert longer[|ds|] == d;
    forall i | 0 <= i < |ds| ensures longer[i] == ds[i] {
    }
  }

  // ---------------------------------------------------------------------------------------------
  // The fleet's total

  lemma {:induction false} AmountsWithout(ds: seq<UsageDelta>, i: nat, c: Counter)
    requires i < |ds|
    ensures multiset(AllAmounts(ds, c)) == multiset(AllAmounts(Others(ds, i), c)) + multiset(Amounts(ds[i], c))
  {
    if i == |ds| - 1 {
      assert Others(ds, i) == ds[..i];
    } else {
      AmountsWithout(ds[..|ds| - 1], i, c);
      OthersSnoc(ds, i);
    }
  }

  lemma OthersSnoc<T>(s: seq<T>, i: nat)
    requires i < |s| - 1
    ensures Others(s, i)[..|s| - 2] == Others(s[..|s| - 1], i) && Others(s, i)[|s| - 2] == s[|s| - 1]
  {
  }

  lemma {:induction false} AmountsIgnoreOrder(p: seq<UsageDelta>, q: seq<UsageDelta>, c: Counter)
    requires multiset(p) == multiset(q)
    ensures multiset(AllAmounts(p, c)) == multiset(AllAmounts(q, c))
    decreases |p|
  {
    if p == [] {
      assert |multiset(q)| == 0;
    } else {
      var i := Counterpart(p, q);
      AmountsIgnoreOrder(Others(p, 0), Others(q, i), c);
      AmountsWithout(p, 0, c);
      AmountsWithout(q, i, c);
    }
  }

  /** Every counter starts high enough for all that the deltas take, and low enough for all that they give. */
  ghost predicate AllCommute(l: Ledger, ds: seq<UsageDelta>)
  {
    forall c :: Commutes(Value(l, c), AllAmounts(ds, c))
  }

  /** Two ledgers have the same rows and the same counters. */
  ghost predicate Same(a: Ledger, b: Ledger)
  {
    (forall c :: Value(a, c) == Value(b, c)) && Names(a.models) == Names(b.models)
  }

  /** Nodes may flush deltas that commute in any order: the fleet's ledger is the same. */
  lemma InterleavingIsImmaterial(l: Ledger, p: seq<UsageDelta>, q: seq<UsageDelta>)
    requires multiset(p) == multiset(q) && AllCommute(l, p)
    ensures Same(ApplyAll(l, p), ApplyAll(l, q))
  {
    forall c ensures Value(ApplyAll(l, p), c) == Value(ApplyAll(l, q), c) {
      AmountsIgnoreOrder(p, q, c);
      OrderIsImmaterialExactly(Value(l, c), AllAmounts(p, c));
      LedgerRuns(l, p, c);
      LedgerRuns(l, q, c);
    }
    LedgerKeepsUnique(l, p);
    LedgerKeepsUnique(l, q);
    SameNames(p, q);
    SameNames(q, p);
  }

  /** Every delta has one row for each model in it. */
  ghost predicate RowsOnce(ds: seq<UsageDelta>)
  {
    forall d, c | d in ds :: |Amounts(d, c)| <= 1
  }

  /** The deltas with those that raise the counter first, and those that lower it. */
  lemma {:induction false} SortedDeltas(ds: seq<UsageDelta>, c: Counter) returns (rising: seq<UsageDelta>, falling: seq<UsageDelta>)
    requires RowsOnce(ds)
    ensures Downs(AllAmounts(rising, c)) == 0 && Ups(AllAmounts(falling, c)) == 0
    ensures multiset(rising + falling) == multiset(ds) == multiset(falling + rising)
  {
    if ds == [] {
      rising, falling := [], [];
    } else {
      var front, last := ds[..|ds| - 1], ds[|ds| - 1];
      assert ds == front + [last];
      var up, down := SortedDeltas(front, c);
      Placed(up, down, front, last);
      OneAmount(Amounts(last, c));
      if Downs(Amounts(last, c)) == 0 {
        AmountsSnoc(up, last, c);
        rising, falling := up + [last], down;
      } else {
        AmountsSnoc(down, last, c);
        rising, falling := up, down + [last];
      }
    }
  }

  lemma Placed<T>(a: seq<T>, b: seq<T>, s: seq<T>, x: T)
    requires multiset(a + b) == multiset(s)
    ensures multiset((a + [x]) + b) == multiset(a + (b + [x])) == multiset(s + [x])
    ensures multiset(b + (a + [x])) == multiset((b + [x]) + a) == multiset(s + [x])
  {
  }

  lemma OneAmount(amounts: seq<I64>)
    requires |amounts| <= 1
    ensures Downs(amounts) == 0 || Ups(amounts) == 0
  {
    if amounts != [] {
      assert amounts[..0] == [];
    }
  }

  lemma AmountsSnoc(ds: seq<UsageDelta>, d: UsageDelta, c: Counter)
    ensures Ups(AllAmounts(ds + [d], c)) == Ups(AllAmounts(ds, c)) + Ups(Amounts(d, c))
    ensures Downs(AllAmounts(ds + [d], c)) == Downs(AllAmounts(ds, c)) + Downs(Amounts(d, c))
  {
    assert (ds + [d])[..|ds|] == ds;
    GainsAppend(AllAmounts(ds, c), Amounts(d, c));
  }

  lemma {:induction false} AllAmountsAppend(p: seq<UsageDelta>, q: seq<UsageDelta>, c: Counter)
    ensures AllAmounts(p + q, c) == AllAmounts(p, c) + AllAmounts(q, c)
  {
    if q == [] {
      assert p + q == p;
    } else {
      assert (p + q)[..|p + q| - 1] == p + q[..|q| - 1];
      AllAmountsAppend(p, q[..|q| - 1], c);
      Associative(AllAmounts(p, c), AllAmounts(q[..|q| - 1], c), Amounts(q[|q| - 1], c));
    }
  }

  /** The order of flushes matters if and only if some counter's amounts do not commute. */
  lemma InterleavingIsImmaterialExactly(l: Ledger, ds: seq<UsageDelta>)
    requires RowsOnce(ds)
    ensures (forall q: seq<UsageDelta> | multiset(q) == multiset(ds) :: Same(ApplyAll(l, ds), ApplyAll(l, q))) <==> AllCommute(l, ds)
  {
    if AllCommute(l, ds) {
      forall q: seq<UsageDelta> | multiset(q) == multiset(ds) ensures Same(ApplyAll(l, ds), ApplyAll(l, q)) {
        InterleavingIsImmaterial(l, ds, q);
      }
    } else {
      var c :| !Commutes(Value(l, c), AllAmounts(ds, c));
      var p, q := OrdersDiffer(l, ds, c);
      assert !(Same(ApplyAll(l, ds), ApplyAll(l, p)) && Same(ApplyAll(l, ds), ApplyAll(l, q)));
    }
  }

  lemma OrdersDiffer(l: Ledger, ds: seq<UsageDelta>, c: Counter) returns (p: seq<UsageDelta>, q: seq<UsageDelta>)
    requires RowsOnce(ds) && !Commutes(Value(l, c), AllAmounts(ds, c))
    ensures multiset(p) == multiset(ds) == multiset(q)
    ensures Value(ApplyAll(l, p), c) != Value(ApplyAll(l, q), c)
  {
    var rising, falling := SortedDeltas(ds, c);
    p, q := rising + falling, falling + rising;
    AllAmountsAppend(rising, falling, c);
    AllAmountsAppend(falling, rising, c);
    AmountsIgnoreOrder(p, ds, c);
    GainsIgnoreOrder(AllAmounts(p, c), AllAmounts(ds, c));
    ExtremesDiffer(Value(l, c), AllAmounts(rising, c), AllAmounts(falling, c));
    LedgerRuns(l, p, c);
    LedgerRuns(l, q, c);
  }

  lemma SameNames(p: seq<UsageDelta>, q: seq<UsageDelta>)
    requires multiset(p) == multiset(q)
    ensures AllNames(p) <= AllNames(q)
  {
    forall i | 0 <= i < |p| ensures NamesIn(p[i].models) <= AllNames(q) {
      assert p[i] in multiset(q);
      var j :| 0 <= j < |q| && q[j] == p[i];
    }
  }

  // ---------------------------------------------------------------------------------------------
  // Totals

  function SaturatingTotal(t: TierTokens): U64
  {
    SaturatingAddU64(SaturatingAddU64(SaturatingAddU64(t.input, t.output), t.cacheRead), t.cacheWrite)
  }

  ghost function TrueTotal(models: seq<ModelTokens>): nat
  {
    if models == [] then 0
    else
      var t := models[|models| - 1].tokens;
      TrueTotal(models[..|models| - 1]) + (t.input + t.output + t.cacheRead + t.cacheWrite)
  }

  /** `UsageLedger`, updated in place. */
  class UsageLedger {
    var requests: U64
    var billableRequests: U64
    var models: seq<ModelTokens>

    ghost function View(): Ledger
      reads this
    {
      Ledger(requests, billableRequests, models)
    }

    constructor (l: Ledger)
      ensures View() == l
    {
      requests, billableRequests, models := l.requests, l.billableRequests, l.models;
    }

    /** The saturating fold is the true total, cut once. */
    method TotalTokens() returns (total: U64)
      ensures total == Clamp(TrueTotal(models), 0, MAX_U64)
    {
      total := 0;
      for i := 0 to |models|
        invariant total == Clamp(TrueTotal(models[..i]), 0, MAX_U64)
      {
        assert models[..i + 1][..i] == models[..i];
        total := SaturatingAddU64(total, SaturatingTotal(models[i].tokens));
      }
      assert models[..|models|] == models;
    }

    method ApplyModelDelta(delta: ModelTokensDelta)
      modifies this
      ensures View() == old(View()).(models := AddRow(old(models), delta))
    {
      var at := 0;
      while at < |models| && models[at].model != delta.model
        invariant at <= |models| && forall j | 0 <= j < at :: models[j].model != delta.model
      {
        at := at + 1;
      }
      FindIs(models, delta.model, at);
      if at == |models| {
        models := models + [ModelTokens(delta.model, TierTokens(0, 0, 0, 0))];
      }
      var t := models[at].tokens;
      t := t.(input := SaturatingAddSigned(t.input, delta.tokens.input));
      t := t.(output := SaturatingAddSigned(t.output, delta.tokens.output));
      t := t.(cacheRead := SaturatingAddSigned(t.cacheRead, delta.tokens.cacheRead));
      t := t.(cacheWrite := SaturatingAddSigned(t.cacheWrite, delta.tokens.cacheWrite));
      models := models[at := ModelTokens(delta.model, t)];
    }

    method ApplyDelta(delta: UsageDelta)
      modifies this
      ensures View() == Apply(old(View()), delta)
    {
      requests := SaturatingAddSigned(requests, delta.requests);
      billableRequests := SaturatingAddSigned(billableRequests, delta.billableRequests);
      for i := 0 to |delta.models|
        invariant models == AddRows(old(models), delta.models[..i])
        invariant requests == SaturatingAddSigned(old(requests), delta.requests)
        invariant billableRequests == SaturatingAddSigned(old(billableRequests), delta.billableRequests)
      {
        assert delta.models[..i + 1][..i] == delta.models[..i];
        ApplyModelDelta(delta.models[i]);
      }
      assert delta.models[..|delta.models|] == delta.models;
    }
  }

  // ---------------------------------------------------------------------------------------------
  // A store that accumulates by reading and writing back

  /** The ledger rows of a store, by bucket id and window start. */
  type Rows = map<(string, nat), Ledger>

  datatype StoreResult<T> = Ok(value: T) | Failed(error: string)

  function Usage(rows: Rows, bucketId: string, windowStart: nat): Ledger
  {
    if (bucketId, windowStart) in rows then rows[(bucketId, windowStart)] else Ledger(0, 0, [])
  }

  class Store {
    var rows: Rows

    constructor ()
      ensures rows == map[]
    {
      rows := map[];
    }

    /** `fault` stands for whatever the backend may report. */
    method GetUsage(bucketId: string, windowStart: nat, fault: Option<string>) returns (r: StoreResult<Ledger>)
      ensures r == if fault.Some? then Failed(fault.value) else Ok(Usage(rows, bucketId, windowStart))
    {
      r := if fault.Some? then Failed(fault.value) else Ok(Usage(rows, bucketId, windowStart));
    }

    method PutUsage(bucketId: string, windowStart: nat, ledger: Ledger, fault: Option<string>) returns (r: StoreResult<()>)
      modifies this
      ensures fault.Some? ==> r == Failed(fault.value) && rows == old(rows)
      ensures fault.None? ==> r == Ok(()) && rows == old(rows)[(bucketId, windowStart) := ledger]
    {
      if fault.Some? {
        return Failed(fault.value);
      }
      rows := rows[(bucketId, windowStart) := ledger];
      r := Ok(());
    }

    /** Flushes in a row accumulate on the row that the store had, and touch no other row. */
    method AddAll(bucketId: string, windowStart: nat, deltas: seq<UsageDelta>)
      modifies this
      ensures forall key | key != (bucketId, windowStart) ::
                (key in rows <==> key in old(rows)) && (key in rows ==> rows[key] == old(rows)[key])
      ensures deltas != [] ==>
                && (bucketId, windowStart) in rows
                && rows[(bucketId, windowStart)] ==
                   ApplyAll(if (bucketId, windowStart) in old(rows) then old(rows)[(bucketId, windowStart)] else Ledger(0, 0, []), deltas)
    {
      ghost var first := if (bucketId, windowStart) in rows then rows[(bucketId, windowStart)] else Ledger(0, 0, []);
      for i := 0 to |deltas|
        invariant forall key | key != (bucketId, windowStart) ::
                    (key in rows <==> key in old(rows)) && (key in rows ==> rows[key] == old(rows)[key])
        invariant Usage(rows, bucketId, windowStart) == ApplyAll(first, deltas[..i])
        invariant i > 0 ==> (bucketId, windowStart) in rows
      {
        assert deltas[..i + 1][..i] == deltas[..i];
        var _ := AddUsage(bucketId, windowStart, deltas[i], None, None);
      }
      assert deltas[..|deltas|] == deltas;
    }

    /** The default `add_usage`: all of the delta, or an error and none of it. */
    method AddUsage(bucketId: string, windowStart: nat, delta: UsageDelta, getFault: Option<string>, putFault: Option<string>)
      returns (r: StoreResult<()>)
      modifies this
      ensures r.Ok? <==> getFault.None? && putFault.None?
      ensures r.Ok? ==> rows == old(rows)[(bucketId, windowStart) := Apply(Usage(old(rows), bucketId, windowStart), delta)]
      ensures r.Failed? ==> rows == old(rows)
    {
      var got := GetUsage(bucketId, windowStart, getFault);
      if got.Failed? {
        return Failed(got.error);
      }
      var current := new UsageLedger(got.value);
      current.ApplyDelta(delta);
      r := PutUsage(bucketId, windowStart, Ledger(current.requests, current.billableRequests, current.models), putFault);
    }
  }
}
