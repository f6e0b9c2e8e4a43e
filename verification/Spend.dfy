// Deriving spend from the token ledger and the rate card.

module Spend {
  import opened Wrappers
  import opened Sequences
  import opened Integers
  import opened UsageLedgers

  const NANOS_PER_CENT: nat := 10_000_000
  const NANOS_PER_MICRO: nat := 1_000

  /** Nano-units per token. */
  datatype Rates = Rates(input: U64, output: U64, cacheRead: U64, cacheWrite: U64)

  /** No card prices every model at zero; a card prices exactly the models it lists. */
  datatype CostModel = CostModel(card: Option<map<string, Rates>>, pricePerRequestCents: I64)
  {
    ghost predicate Valid() { pricePerRequestCents >= 0 }

    function RateFor(model: string): Option<Rates>
    {
      match card
      case None => Some(Rates(0, 0, 0, 0))
      case Some(table) => if model in table then Some(table[model]) else None
    }
  }

  /** An unchecked `+` of a release build. */
  function WrappingAdd(a: U128, b: U128): U128
  {
    (a + b) % TWO_TO_128
  }

  function Product(a: U64, b: U64): (p: U128)
    ensures p == a * b
  {
    ProductFits(a, b);
    a * b
  }

  lemma ProductFits(a: U64, b: U64)
    ensures 0 <= a * b <= MAX_U64 * MAX_U64
  {
    ProductGrows(a, MAX_U64, b, MAX_U64);
  }

  lemma ProductGrows(a: nat, b: nat, x: nat, y: nat)
    requires a <= b && x <= y
    ensures 0 <= a * x <= b * y
  {
    assert a * x <= b * x <= b * y;
  }

  /** `cost_nanos` */
  function CostNanos(r: Rates, t: TierTokens): U128
  {
    WrappingAdd(
      WrappingAdd(
        WrappingAdd(Product(t.input, r.input), Product(t.output, r.output)),
        Product(t.cacheRead, r.cacheRead)),
      Product(t.cacheWrite, r.cacheWrite))
  }

  ghost function TrueCost(r: Rates, t: TierTokens): (c: nat)
  {
    ProductFits(t.input, r.input);
    ProductFits(t.output, r.output);
    ProductFits(t.cacheRead, r.cacheRead);
    ProductFits(t.cacheWrite, r.cacheWrite);
    t.input * r.input + t.output * r.output + t.cacheRead * r.cacheRead + t.cacheWrite * r.cacheWrite
  }

  /** The rates of the four tiers together leave room for any token count. */
  predicate Safe(r: Rates)
  {
    r.input + r.output + r.cacheRead + r.cacheWrite <= TWO_TO_64 + 1
  }

  lemma CostWraps(r: Rates, t: TierTokens)
    ensures CostNanos(r, t) == TrueCost(r, t) % TWO_TO_128
  {
    SumWraps(Product(t.input, r.input), Product(t.output, r.output),
             Product(t.cacheRead, r.cacheRead), Product(t.cacheWrite, r.cacheWrite));
  }

  lemma SumWraps(a: U128, b: U128, c: U128, d: U128)
    ensures WrappingAdd(WrappingAdd(WrappingAdd(a, b), c), d) == (a + b + c + d) % TWO_TO_128
  {
    ModAdds(a + b, c);
    ModAdds(a + b + c, d);
  }

  lemma ModAdds(a: int, b: int)
    ensures (a % TWO_TO_128 + b) % TWO_TO_128 == (a + b) % TWO_TO_128
  {
    var q := a / TWO_TO_128;
    assert a % TWO_TO_128 + b == a + b - q * TWO_TO_128;
    ModShift(a + b, -q);
  }

  lemma {:induction false} ModShift(a: int, k: int)
    ensures (a + k * TWO_TO_128) % TWO_TO_128 == a % TWO_TO_128
  {
    var q, m := a / TWO_TO_128, a % TWO_TO_128;
    assert a + k * TWO_TO_128 == (q + k) * TWO_TO_128 + m;
  }

  lemma CostBound(r: Rates, t: TierTokens)
    requires Safe(r)
    ensures TrueCost(r, t) < TWO_TO_128
  {
    ProductGrows(t.input, MAX_U64, r.input, r.input);
    ProductGrows(t.output, MAX_U64, r.output, r.output);
    ProductGrows(t.cacheRead, MAX_U64, r.cacheRead, r.cacheRead);
    ProductGrows(t.cacheWrite, MAX_U64, r.cacheWrite, r.cacheWrite);
    var sum := r.input + r.output + r.cacheRead + r.cacheWrite;
    assert TrueCost(r, t) <= MAX_U64 * sum;
    ProductGrows(MAX_U64, MAX_U64, sum, TWO_TO_64 + 1);
  }

  /** The sum never wraps exactly when the four rates add up to at most 2^64 + 1. */
  lemma CostIsExact(r: Rates)
    ensures Safe(r) <==> forall t :: CostNanos(r, t) == TrueCost(r, t)
  {
    if Safe(r) {
      forall t ensures CostNanos(r, t) == TrueCost(r, t) {
        CostWraps(r, t);
        CostBound(r, t);
      }
    } else {
      FullLedgerWraps(r);
    }
  }

  lemma FullLedgerWraps(r: Rates)
    requires !Safe(r)
    ensures var full := TierTokens(MAX_U64, MAX_U64, MAX_U64, MAX_U64); CostNanos(r, full) < TrueCost(r, full)
  {
    var full := TierTokens(MAX_U64, MAX_U64, MAX_U64, MAX_U64);
    var sum := r.input + r.output + r.cacheRead + r.cacheWrite;
    assert TrueCost(r, full) == MAX_U64 * sum;
    ProductGrows(MAX_U64, MAX_U64, TWO_TO_64 + 2, sum);
  }

  // ---------------------------------------------------------------------------------------------
  // Spend

  /** The nano-units of the whole ledger, as `cost_nanos` computes each row; an unpriced row costs nothing. */
  ghost function Nanos(m: CostModel, rows: seq<ModelTokens>): nat
  {
    if rows == [] then 0 else Nanos(m, rows[..|rows| - 1]) + RowNanos(m, rows[|rows| - 1])
  }

  function RowNanos(m: CostModel, row: ModelTokens): U128
  {
    match m.RateFor(row.model) case None => 0 case Some(r) => CostNanos(r, row.tokens)
  }

  /** The nano-units of the whole ledger in exact arithmetic. */
  ghost function TrueNanos(m: CostModel, rows: seq<ModelTokens>): nat
  {
    if rows == [] then 0 else TrueNanos(m, rows[..|rows| - 1]) + TrueRow(m, rows[|rows| - 1])
  }

  ghost function TrueRow(m: CostModel, row: ModelTokens): nat
  {
    match m.RateFor(row.model) case None => 0 case Some(r) => TrueCost(r, row.tokens)
  }

  predicate SafeCard(m: CostModel)
  {
    m.card.Some? ==> forall model | model in m.card.value :: Safe(m.card.value[model])
  }

  /**
   * What the rows cost by the card itself: tokens times rate in each of the four tiers, for the models that it lists.
   * Any other model, and every model without a card, costs nothing.
   */
  ghost function Priced(card: Option<map<string, Rates>>, rows: seq<ModelTokens>): int
  {
    if rows == [] then 0
    else
      var row := rows[|rows| - 1];
      Priced(card, rows[..|rows| - 1]) +
      if card.Some? && row.model in card.value then
        var rate := card.value[row.model];
        row.tokens.input * rate.input + row.tokens.output * rate.output
        + row.tokens.cacheRead * rate.cacheRead + row.tokens.cacheWrite * rate.cacheWrite
      else 0
  }

  lemma {:induction false} TrueNanosArePriced(m: CostModel, rows: seq<ModelTokens>)
    ensures TrueNanos(m, rows) == Priced(m.card, rows)
  {
    if rows != [] {
      TrueNanosArePriced(m, rows[..|rows| - 1]);
    }
  }

  /** With no four rates above 2^64 + 1 in all, the derived nano-units are the price by the card. */
  lemma NanosArePriced(m: CostModel, rows: seq<ModelTokens>)
    requires m.card.Some? ==> forall model | model in m.card.value ::
               var r := m.card.value[model]; r.input + r.output + r.cacheRead + r.cacheWrite <= 0x1_0000_0000_0000_0001
    ensures Nanos(m, rows) == Priced(m.card, rows)
  {
    assert SafeCard(m);
    SafeNanos(m, rows);
    TrueNanosArePriced(m, rows);
  }

  /** The accumulator loop of both derivations. */
  method Accumulate(m: CostModel, rows: seq<ModelTokens>) returns (nanos: U128)
    ensures nanos == Clamp(Nanos(m, rows), 0, TWO_TO_128 - 1)
  {
    nanos := 0;
    for i := 0 to |rows|
      invariant nanos == Clamp(Nanos(m, rows[..i]), 0, TWO_TO_128 - 1)
    {
      assert rows[..i + 1][..i] == rows[..i];
      match m.RateFor(rows[i].model) {
        case None =>
        case Some(rate) =>
          nanos := SaturatingAddU128(nanos, CostNanos(rate, rows[i].tokens));
      }
    }
    assert rows[..|rows|] == rows;
  }

  /** A fee is owed per billable request. */
  function Fee(price: nat, requests: nat): nat { price * requests }

  lemma FeeSaturates(price: I64, requests: U64)
    requires price >= 0
    ensures SaturatingMulI64(price, ToI64(requests)) == Clamp(Fee(price, requests), 0, MAX_I64)
  {
    if requests > MAX_I64 && price > 0 {
      ProductGrows(1, price, MAX_I64, requests);
      ProductGrows(1, price, MAX_I64, MAX_I64);
    }
  }

  /** Saturating early changes nothing: what is cut is over the range of the result. */
  lemma CutIsHarmless(nanos: nat, unit: nat)
    requires 0 < unit <= NANOS_PER_CENT
    ensures ToI64(Clamp(nanos, 0, TWO_TO_128 - 1) / unit) == ToI64(nanos / unit)
  {
    if nanos >= TWO_TO_128 {
      QuotientGrows(TWO_TO_128 - 1, nanos, unit);
      QuotientGrows(MAX_I64 * unit, TWO_TO_128 - 1, unit);
      assert MAX_I64 * unit / unit == MAX_I64;
    }
  }

  lemma QuotientGrows(a: nat, b: nat, unit: nat)
    requires a <= b && unit > 0
    ensures a / unit <= b / unit
  {
    if a / unit > b / unit {
      ProductGrows(b / unit + 1, a / unit, unit, unit);
    }
  }

  function Max(a: I64, b: I64): I64 { if a < b then b else a }

  /** `derive_spend_cents`: exact up to one saturation at the top. */
  method DeriveSpendCents(m: CostModel, rows: seq<ModelTokens>, feeRequests: U64, includeRequestFee: bool) returns (cents: I64)
    requires m.Valid()
    ensures cents == ToI64(Nanos(m, rows) / NANOS_PER_CENT + if includeRequestFee then Fee(m.pricePerRequestCents, feeRequests) else 0)
    ensures SafeCard(m) ==>
              var exact := Priced(m.card, rows) / 10_000_000 + if includeRequestFee then m.pricePerRequestCents * feeRequests else 0;
              cents == if exact > MAX_I64 then MAX_I64 else exact
  {
    if SafeCard(m) {
      NanosArePriced(m, rows);
    }
    var nanos := Accumulate(m, rows);
    CutIsHarmless(Nanos(m, rows), NANOS_PER_CENT);
    cents := ToI64(nanos / NANOS_PER_CENT);
    if includeRequestFee {
      FeeSaturates(m.pricePerRequestCents, feeRequests);
      var fee := SaturatingMulI64(m.pricePerRequestCents, ToI64(feeRequests));
      cents := SaturatingAddI64(cents, fee);
    }
    cents := Max(cents, 0);
  }

  /** `derive_spend_micros` */
  method DeriveSpendMicros(m: CostModel, rows: seq<ModelTokens>, feeRequests: U64, includeRequestFee: bool) returns (micros: I64)
    requires m.Valid()
    ensures micros == ToI64(Nanos(m, rows) / NANOS_PER_MICRO + if includeRequestFee then Fee(10_000 * m.pricePerRequestCents, feeRequests) else 0)
    ensures SafeCard(m) ==>
              var exact := Priced(m.card, rows) / 1_000 + if includeRequestFee then 10_000 * m.pricePerRequestCents * feeRequests else 0;
              micros == if exact > MAX_I64 then MAX_I64 else exact
  {
    if SafeCard(m) {
      NanosArePriced(m, rows);
    }
    var nanos := Accumulate(m, rows);
    CutIsHarmless(Nanos(m, rows), NANOS_PER_MICRO);
    micros := ToI64(nanos / NANOS_PER_MICRO);
    if includeRequestFee {
      var price := SaturatingMulI64(m.pricePerRequestCents, 10_000);
      PriceSaturates(m.pricePerRequestCents, feeRequests);
      FeeSaturates(price, feeRequests);
      var fee := SaturatingMulI64(price, ToI64(feeRequests));
      micros := SaturatingAddI64(micros, fee);
    }
  }

  lemma PriceSaturates(price: I64, requests: U64)
    requires price >= 0
    ensures Clamp(Fee(Clamp(10_000 * price, 0, MAX_I64), requests), 0, MAX_I64) == Clamp(Fee(10_000 * price, requests), 0, MAX_I64)
  {
    if requests > 0 && 10_000 * price > MAX_I64 {
      ProductGrows(MAX_I64, 10_000 * price, 1, requests);
      ProductGrows(MAX_I64, MAX_I64, 1, requests);
    }
  }

  // ---------------------------------------------------------------------------------------------
  // What the spend depends on

  /** On every ledger the derived nano-units are the exact ones if and only if every rate is safe. */
  lemma NanosAreExact(m: CostModel)
    ensures SafeCard(m) <==> forall rows :: Nanos(m, rows) == TrueNanos(m, rows)
  {
    if SafeCard(m) {
      forall rows ensures Nanos(m, rows) == TrueNanos(m, rows) {
        SafeNanos(m, rows);
      }
    } else {
      var model :| model in m.card.value && !Safe(m.card.value[model]);
      UnsafeRateShows(m, model);
    }
  }

  lemma UnsafeRateShows(m: CostModel, model: string)
    requires m.card.Some? && model in m.card.value && !Safe(m.card.value[model])
    ensures exists rows :: Nanos(m, rows) != TrueNanos(m, rows)
  {
    var rate := m.card.value[model];
    CostIsExact(rate);
    var t :| CostNanos(rate, t) != TrueCost(rate, t);
    OneRow(m, ModelTokens(model, t));
  }

  lemma OneRow(m: CostModel, row: ModelTokens)
    ensures Nanos(m, [row]) == RowNanos(m, row) && TrueNanos(m, [row]) == TrueRow(m, row)
  {
    assert [row][..0] == [];
  }

  lemma {:induction false} SafeNanos(m: CostModel, rows: seq<ModelTokens>)
    requires SafeCard(m)
    ensures Nanos(m, rows) == TrueNanos(m, rows)
  {
    if rows != [] {
      var last := rows[|rows| - 1];
      SafeNanos(m, rows[..|rows| - 1]);
      if m.RateFor(last.model).Some? {
        CostIsExact(m.RateFor(last.model).value);
      }
    }
  }

  lemma {:induction false} NanosWithout(m: CostModel, rows: seq<ModelTokens>, i: nat)
    requires i < |rows|
    ensures Nanos(m, rows) == Nanos(m, Others(rows, i)) + RowNanos(m, rows[i])
  {
    var last := |rows| - 1;
    var rest := Others(rows, i);
    if i == last {
      assert rest == rows[..last];
    } else {
      NanosWithout(m, rows[..last], i);
      assert Others(rows[..last], i) == rest[..last - 1];
      assert rest[last - 1] == rows[last];
    }
  }

  /** The rows may come in any order. */
  lemma {:induction false} NanosIgnoreOrder(m: CostModel, p: seq<ModelTokens>, q: seq<ModelTokens>)
    requires multiset(p) == multiset(q)
    ensures Nanos(m, p) == Nanos(m, q)
    decreases |p|
  {
    if p == [] {
      assert |multiset(q)| == 0;
    } else {
      var i := Counterpart(p, q);
      NanosIgnoreOrder(m, Others(p, 0), Others(q, i));
      NanosWithout(m, p, 0);
      NanosWithout(m, q, i);
    }
  }

  predicate NoMore(a: TierTokens, b: TierTokens)
  {
    a.input <= b.input && a.output <= b.output && a.cacheRead <= b.cacheRead && a.cacheWrite <= b.cacheWrite
  }

  lemma CostGrows(r: Rates, a: TierTokens, b: TierTokens)
    requires NoMore(a, b)
    ensures TrueCost(r, a) <= TrueCost(r, b)
  {
    ProductGrows(a.input, b.input, r.input, r.input);
    ProductGrows(a.output, b.output, r.output, r.output);
    ProductGrows(a.cacheRead, b.cacheRead, r.cacheRead, r.cacheRead);
    ProductGrows(a.cacheWrite, b.cacheWrite, r.cacheWrite, r.cacheWrite);
  }

  /** The ledger only grew: rows gained tokens, and new rows may have come after them. */
  predicate Grew(p: seq<ModelTokens>, q: seq<ModelTokens>)
  {
    |p| <= |q| && forall i | 0 <= i < |p| :: p[i].model == q[i].model && NoMore(p[i].tokens, q[i].tokens)
  }

  lemma {:induction false} NanosGrow(m: CostModel, p: seq<ModelTokens>, q: seq<ModelTokens>)
    requires SafeCard(m) && Grew(p, q)
    ensures Nanos(m, p) <= Nanos(m, q)
    decreases |q|
  {
    if q != [] {
      var last := |q| - 1;
      if |p| == |q| {
        NanosGrow(m, p[..last], q[..last]);
        if m.RateFor(p[last].model).Some? {
          var rate := m.RateFor(p[last].model).value;
          CostIsExact(rate);
          CostGrows(rate, p[last].tokens, q[last].tokens);
        }
      } else {
        NanosGrow(m, p, q[..last]);
      }
    }
  }

  /** What the derivation yields, as a function of the ledger. */
  ghost function Cents(m: CostModel, rows: seq<ModelTokens>, requests: U64): I64
    requires m.Valid()
  {
    ToI64(Nanos(m, rows) / NANOS_PER_CENT + Fee(m.pricePerRequestCents, requests))
  }

  ghost function Micros(m: CostModel, rows: seq<ModelTokens>, requests: U64): I64
    requires m.Valid()
  {
    ToI64(Nanos(m, rows) / NANOS_PER_MICRO + Fee(10_000 * m.pricePerRequestCents, requests))
  }

  /** With safe rates, more tokens or more requests never cost less. */
  lemma SpendGrows(m: CostModel, p: seq<ModelTokens>, q: seq<ModelTokens>, few: U64, many: U64)
    requires m.Valid() && SafeCard(m) && Grew(p, q) && few <= many
    ensures Cents(m, p, few) <= Cents(m, q, many)
    ensures Micros(m, p, few) <= Micros(m, q, many)
  {
    NanosGrow(m, p, q);
    QuotientGrows(Nanos(m, p), Nanos(m, q), NANOS_PER_CENT);
    QuotientGrows(Nanos(m, p), Nanos(m, q), NANOS_PER_MICRO);
    ProductGrows(m.pricePerRequestCents, m.pricePerRequestCents, few, many);
    ProductGrows(10_000 * m.pricePerRequestCents, 10_000 * m.pricePerRequestCents, few, many);
  }

  /** Unsaturated micro-units round down to the cents. */
  lemma MicrosRefineCents(m: CostModel, rows: seq<ModelTokens>, requests: U64)
    requires m.Valid() && Micros(m, rows, requests) < MAX_I64
    ensures Micros(m, rows, requests) / 10_000 == Cents(m, rows, requests)
  {
    var nanos, fee := Nanos(m, rows), Fee(m.pricePerRequestCents, requests);
    FeeScales(m.pricePerRequestCents, requests);
    assert (nanos / NANOS_PER_MICRO + 10_000 * fee) / 10_000 == nanos / NANOS_PER_MICRO / 10_000 + fee;
    assert nanos / NANOS_PER_MICRO / 10_000 == nanos / NANOS_PER_CENT;
  }

  lemma FeeScales(price: nat, requests: nat)
    ensures Fee(10_000 * price, requests) == 10_000 * Fee(price, requests)
  {
    assert (10_000 * price) * requests == 10_000 * (price * requests);
  }

  /** Two tiers at the highest rate wrap: a full ledger of them derives less than half of what it cost. */
  lemma UnsafeRateUndercharges()
    ensures var rates, full := Rates(MAX_U64, MAX_U64, 0, 0), TierTokens(MAX_U64, MAX_U64, 0, 0);
            CostNanos(rates, full) == TrueCost(rates, full) - TWO_TO_128 && 2 * CostNanos(rates, full) < TrueCost(rates, full)
  {
    var rates, full := Rates(MAX_U64, MAX_U64, 0, 0), TierTokens(MAX_U64, MAX_U64, 0, 0);
    CostWraps(rates, full);
    assert TrueCost(rates, full) == 2 * (MAX_U64 * MAX_U64);
  }
}
