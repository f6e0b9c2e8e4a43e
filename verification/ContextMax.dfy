// One context window per model, resolved from pools that are walked in no particular order.

module ContextMax {
  import opened Wrappers

  /** A pool member: the model it lists, and the context window it declares for it, if any. */
  datatype Member = Member(model: string, contextMax: Option<nat>)

  type Pool = seq<Member>

  datatype Resolution =
    | Resolved(contextMax: map<string, Option<nat>>)
    | Conflict(model: string, existing: nat, other: nat)

  /** Every member of every pool, with no order left. */
  ghost function Members(pools: seq<Pool>): set<Member>
  {
    set i, j | 0 <= i < |pools| && 0 <= j < |pools[i]| :: pools[i][j]
  }

  /** No model is given two different explicit limits. */
  ghost predicate Consistent(ms: set<Member>)
  {
    forall a, b | a in ms && b in ms && a.model == b.model && a.contextMax.Some? && b.contextMax.Some? ::
      a.contextMax == b.contextMax
  }

  /** Exactly the listed models are resolved: to an explicit limit of theirs, or to None if they have none. */
  ghost predicate Resolves(ms: set<Member>, resolved: map<string, Option<nat>>)
  {
    && (forall a | a in ms :: a.model in resolved && (a.contextMax.Some? ==> resolved[a.model] == a.contextMax))
    && (forall model | model in resolved :: Member(model, resolved[model]) in ms)
  }

  /** What a resolution of `ms` may answer. */
  ghost predicate Answers(ms: set<Member>, r: Resolution)
  {
    match r
    case Resolved(table) => Consistent(ms) && Resolves(ms, table)
    case Conflict(model, existing, other) =>
      existing != other && Member(model, Some(existing)) in ms && Member(model, Some(other)) in ms
  }

  lemma OneMore(ps: seq<Pool>, pool: Pool, j: nat)
    requires j < |pool|
    ensures Members(ps + [pool[..j + 1]]) == Members(ps + [pool[..j]]) + {pool[j]}
  {
    var before, after := ps + [pool[..j]], ps + [pool[..j + 1]];
    forall i, k | 0 <= i < |after| && 0 <= k < |after[i]| ensures after[i][k] in Members(before) + {pool[j]} {
      if i == |ps| && k == j {
      } else {
        assert before[i][k] == after[i][k];
      }
    }
    forall i, k | 0 <= i < |before| && 0 <= k < |before[i]| ensures before[i][k] in Members(after) {
      assert after[i][k] == before[i][k];
    }
    assert after[|ps|][j] == pool[j];
  }

  lemma PoolStarts(ps: seq<Pool>, pool: Pool)
    ensures Members(ps + [pool[..0]]) == Members(ps)
  {
    var longer := ps + [pool[..0]];
    forall i, k | 0 <= i < |ps| && 0 <= k < |ps[i]| ensures ps[i][k] in Members(longer) {
      assert longer[i][k] == ps[i][k];
    }
  }

  lemma PoolEnds(pools: seq<Pool>, i: nat)
    requires i < |pools|
    ensures pools[..i + 1] == pools[..i] + [pools[i][..|pools[i]|]]
  {
    assert pools[i][..|pools[i]|] == pools[i];
  }

  lemma SeenIsListed(pools: seq<Pool>, i: nat, j: nat)
    requires i < |pools| && j <= |pools[i]|
    ensures Members(pools[..i] + [pools[i][..j]]) <= Members(pools)
  {
    var part := pools[..i] + [pools[i][..j]];
    forall a, b | 0 <= a < |part| && 0 <= b < |part[a]| ensures part[a][b] in Members(pools) {
      assert pools[a][b] == part[a][b];
    }
  }

  /** A member refines what is known of its model, unless both are explicit and differ. */
  lemma Refines(seen: set<Member>, resolved: map<string, Option<nat>>, m: Member)
    requires Resolves(seen, resolved)
    ensures m.model !in resolved || resolved[m.model] == None ==> Resolves(seen + {m}, resolved[m.model := m.contextMax])
    ensures m.model in resolved && (m.contextMax == None || m.contextMax == resolved[m.model]) ==> Resolves(seen + {m}, resolved)
  {
  }

  /** `resolve_model_context_max`, for the order in which the pools happen to be iterated. */
  method ResolveModelContextMax(pools: seq<Pool>) returns (r: Resolution)
    ensures Answers(Members(pools), r)
  {
    var resolved: map<string, Option<nat>> := map[];
    ghost var seen: set<Member> := {};
    for i := 0 to |pools|
      invariant seen == Members(pools[..i]) && Resolves(seen, resolved)
    {
      var pool := pools[i];
      PoolStarts(pools[..i], pool);
      for j := 0 to |pool|
        invariant seen == Members(pools[..i] + [pool[..j]]) && Resolves(seen, resolved)
      {
        var m := pool[j];
        OneMore(pools[..i], pool, j);
        Refines(seen, resolved, m);
        if m.model !in resolved {
          resolved := resolved[m.model := m.contextMax];
        } else {
          match resolved[m.model] {
            case None =>
              resolved := resolved[m.model := m.contextMax];
            case Some(existing) =>
              if m.contextMax.Some? && m.contextMax.value != existing {
                SeenIsListed(pools, i, j + 1);
                return Conflict(m.model, existing, m.contextMax.value);
              }
          }
        }
        seen := seen + {m};
      }
      PoolEnds(pools, i);
    }
    assert pools[..|pools|] == pools;
    r := Resolved(resolved);
  }

  /** A resolution is determined by the members alone. */
  lemma ResolutionIsUnique(ms: set<Member>, a: map<string, Option<nat>>, b: map<string, Option<nat>>)
    requires Resolves(ms, a) && Resolves(ms, b)
    ensures a == b
  {
    forall model ensures model in a <==> model in b {
      if model in a {
        assert Member(model, a[model]) in ms;
      }
      if model in b {
        assert Member(model, b[model]) in ms;
      }
    }
    forall model | model in a ensures a[model] == b[model] {
      assert Member(model, a[model]) in ms && Member(model, b[model]) in ms;
    }
  }

  /** Pools come out of a hash map in any order; the members do not depend on it. */
  lemma MembersIgnoreOrder(p: seq<Pool>, q: seq<Pool>)
    requires multiset(p) == multiset(q)
    ensures Members(p) == Members(q)
  {
    SomePoolHasIt(p, q);
    SomePoolHasIt(q, p);
  }

  lemma SomePoolHasIt(p: seq<Pool>, q: seq<Pool>)
    requires multiset(p) == multiset(q)
    ensures Members(p) <= Members(q)
  {
    forall i, j | 0 <= i < |p| && 0 <= j < |p[i]| ensures p[i][j] in Members(q) {
      assert p[i] in multiset(q);
      var k :| 0 <= k < |q| && q[k] == p[i];
      assert q[k][j] in Members(q);
    }
  }

  /** Two iteration orders of the same pools both fail, or both resolve to the same table. */
  lemma OrderIsImmaterial(p: seq<Pool>, q: seq<Pool>, r: Resolution, s: Resolution)
    requires multiset(p) == multiset(q)
    requires Answers(Members(p), r) && Answers(Members(q), s)
    ensures r.Resolved? <==> s.Resolved?
    ensures r.Resolved? ==> r == s
  {
    MembersIgnoreOrder(p, q);
    if r.Resolved? && s.Resolved? {
      ResolutionIsUnique(Members(p), r.contextMax, s.contextMax);
    }
  }
}
