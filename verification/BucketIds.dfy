// The ledger row of an enforcement bucket: how its id is spelled, and which group an id belongs to.

module BucketIds {
  import opened Wrappers
  import opened Sequences

  datatype Window = Minute | Hour | Day | Month | Total

  datatype Scope = Scope(kind: string, value: string)

  const GROUP_BUCKET_PREFIX := "group:"

  function Word(w: Window): string
  {
    match w
    case Minute => "minute"
    case Hour => "hour"
    case Day => "day"
    case Month => "month"
    case Total => "total"
  }

  function Suffix(scope: Option<Scope>): string
  {
    match scope case None => "" case Some(s) => "#" + (s.kind + (":" + s.value))
  }

  function Id(group: string, tail: string): string
  {
    GROUP_BUCKET_PREFIX + (group + ("@" + tail))
  }

  function BucketId(group: string, w: Window, scope: Option<Scope>): string
  {
    Id(group, Word(w) + Suffix(scope))
  }

  /** The id of a group-wide bucket, letter by letter. */
  lemma IdIsSpelled(group: string)
    ensures BucketId(group, Minute, None) == "group:" + (group + "@minute")
    ensures BucketId(group, Hour, None) == "group:" + (group + "@hour")
    ensures BucketId(group, Day, None) == "group:" + (group + "@day")
    ensures BucketId(group, Month, None) == "group:" + (group + "@month")
    ensures BucketId(group, Total, None) == "group:" + (group + "@total")
  {
    forall w ensures Word(w) + Suffix(None) == Word(w) {
    }
    Spelled(group, "minute", "@minute");
    Spelled(group, "hour", "@hour");
    Spelled(group, "day", "@day");
    Spelled(group, "month", "@month");
    Spelled(group, "total", "@total");
  }

  lemma Spelled(group: string, word: string, tail: string)
    requires "@" + word == tail
    ensures Id(group, word) == "group:" + (group + tail)
  {
  }

  /** A pool's bucket has the id of the group-wide one, with the pool after it. */
  lemma PoolIsSpelled(group: string, w: Window, pool: string)
    ensures BucketId(group, w, Some(Scope("pool", pool))) == BucketId(group, w, None) + ("#pool:" + pool)
  {
    var suffix := "#pool:" + pool;
    PoolSuffix(pool);
    assert Word(w) + Suffix(None) == Word(w);
    IdGoesOn(group, Word(w), suffix);
  }

  lemma PoolSuffix(pool: string)
    ensures Suffix(Some(Scope("pool", pool))) == "#pool:" + pool
  {
    Associative("pool", ":", pool);
    Associative("#", "pool:", pool);
    assert "pool" + ":" == "pool:" && "#" + "pool:" == "#pool:";
  }

  lemma IdGoesOn(group: string, tail: string, more: string)
    ensures Id(group, tail + more) == Id(group, tail) + more
  {
    Associative("@", tail, more);
    Associative(group, "@" + tail, more);
    Associative(GROUP_BUCKET_PREFIX, group + ("@" + tail), more);
  }

  // ---------------------------------------------------------------------------------------------
  // Reading an id

  /** `text.split('#').next()` */
  function BeforeHash(text: string): (r: string)
    ensures r <= text && '#' !in r
    ensures |r| < |text| ==> text[|r|] == '#'
  {
    if text == "" || text[0] == '#' then "" else [text[0]] + BeforeHash(text[1..])
  }

  function StripPrefix(text: string, prefix: string): (r: Option<string>)
    ensures r.Some? ==> text == prefix + r.value
  {
    if prefix <= text then Some(text[|prefix|..]) else None
  }

  function TailFor(id: string, group: string): (r: Option<string>)
    ensures r.Some? ==> id == Id(group, r.value)
  {
    match StripPrefix(id, GROUP_BUCKET_PREFIX)
    case None => None
    case Some(rest) =>
      match StripPrefix(rest, group)
      case None => None
      case Some(t) => StripPrefix(t, "@")
  }

  function IsWindow(text: string): bool
  {
    text in [Word(Minute), Word(Hour), Word(Day), Word(Month), Word(Total)]
  }

  function IsBucketOfGroup(id: string, group: string): bool
  {
    match TailFor(id, group) case None => false case Some(tail) => IsWindow(BeforeHash(tail))
  }

  lemma StripOf(prefix: string, rest: string)
    ensures StripPrefix(prefix + rest, prefix) == Some(rest)
  {
  }

  lemma TailOfId(group: string, tail: string)
    ensures TailFor(Id(group, tail), group) == Some(tail)
  {
    StripOf(GROUP_BUCKET_PREFIX, group + ("@" + tail));
    StripOf(group, "@" + tail);
    StripOf("@", tail);
  }

  lemma WindowWords(text: string)
    ensures IsWindow(text) <==> exists w :: Word(w) == text
  {
    if IsWindow(text) {
      assert Word(Minute) == text || Word(Hour) == text || Word(Day) == text || Word(Month) == text || Word(Total) == text;
    }
    if w :| Word(w) == text {
      assert IsWindow(Word(w)) by { match w { case Minute => case Hour => case Day => case Month => case Total => } }
    }
  }

  lemma WordsHaveNoDelimiter(w: Window)
    ensures '#' !in Word(w) && '@' !in Word(w)
  {
    match w { case Minute => case Hour => case Day => case Month => case Total => }
  }

  lemma WordIsInjective(v: Window, w: Window)
    requires Word(v) == Word(w)
    ensures v == w
  {
    assert Word(v)[0] == Word(w)[0] && |Word(v)| == |Word(w)|;
    match v { case Minute => case Hour => case Day => case Month => case Total => }
  }

  /** Text that ends, or goes on with a `#`. */
  predicate Scoped(text: string)
  {
    text == "" || text[0] == '#'
  }

  lemma {:induction false} BeforeHashOf(word: string, rest: string)
    requires '#' !in word && Scoped(rest)
    ensures BeforeHash(word + rest) == word
  {
    if word == "" {
      assert word + rest == rest;
    } else {
      assert (word + rest)[1..] == word[1..] + rest;
      BeforeHashOf(word[1..], rest);
    }
  }

  predicate StartsWithWindow(tail: string, w: Window)
  {
    Word(w) <= tail && Scoped(tail[|Word(w)|..])
  }

  /** A window word, and nothing or a scope after it. */
  ghost predicate WindowThenScope(tail: string)
  {
    exists w :: StartsWithWindow(tail, w)
  }

  lemma TailOfBucket(w: Window, scope: Option<Scope>)
    ensures WindowThenScope(Word(w) + Suffix(scope))
  {
    assert StartsWithWindow(Word(w) + Suffix(scope), w);
  }

  lemma ReadsWindow(tail: string)
    ensures IsWindow(BeforeHash(tail)) <==> WindowThenScope(tail)
  {
    var head := BeforeHash(tail);
    WindowWords(head);
    if IsWindow(head) {
      var w :| Word(w) == head;
      assert StartsWithWindow(tail, w);
    }
    if w :| StartsWithWindow(tail, w) {
      WordsHaveNoDelimiter(w);
      BeforeHashOf(Word(w), tail[|Word(w)|..]);
      assert tail == Word(w) + tail[|Word(w)|..];
    }
  }

  /** The match is structural: the name verbatim, a window word, and nothing or a `#` after it. */
  lemma BelongsExactly(id: string, group: string)
    ensures IsBucketOfGroup(id, group) <==> exists tail :: id == Id(group, tail) && WindowThenScope(tail)
  {
    if IsBucketOfGroup(id, group) {
      ReadsWindow(TailFor(id, group).value);
    }
    if tail :| id == Id(group, tail) && WindowThenScope(tail) {
      TailOfId(group, tail);
      ReadsWindow(tail);
    }
  }

  /** Every bucket belongs to the group it was made for. */
  lemma OwnBucket(group: string, w: Window, scope: Option<Scope>)
    ensures IsBucketOfGroup(BucketId(group, w, scope), group)
  {
    TailOfBucket(w, scope);
    BelongsExactly(BucketId(group, w, scope), group);
  }

  // ---------------------------------------------------------------------------------------------
  // Which names can be confused

  /** The scopes that a limit can be configured with: none, or a pool. */
  predicate Configured(scope: Option<Scope>)
  {
    scope.Some? ==> scope.value.kind == "pool"
  }

  function Pool(name: string): Option<Scope> { Some(Scope("pool", name)) }

  /** `longer` is `<shorter>@<window>#...`. */
  ghost predicate GoesOn(shorter: string, longer: string)
  {
    exists w, more :: longer == shorter + ("@" + (Word(w) + ("#" + more)))
  }

  /** `longer` is `<shorter>@<window>#pool:...`. */
  ghost predicate GoesOnAsPool(shorter: string, longer: string)
  {
    exists w, more :: longer == shorter + ("@" + (Word(w) + ("#" + ("pool:" + more))))
  }

  /** Of two names with a common spelling of their ids, the longer has an `@` and part of the shorter's tail. */
  lemma LongerName(n: string, tail: string, g: string, other: string) returns (x: string)
    requires |n| < |g| && n + ("@" + tail) == g + ("@" + other)
    ensures g == n + ("@" + x) && tail == x + ("@" + other)
  {
    Overhang(n, "@" + tail, g, "@" + other);
    var left := g[|n|..];
    x := left[1..];
    assert left[0] == ("@" + tail)[0] == '@';
    assert left == "@" + x;
    Associative("@", x, "@" + other);
    SplitEqual("@", tail, "@", x + ("@" + other));
  }

  /** Text without an `@` lies wholly before the first one. */
  lemma LiesBefore(head: string, rest: string, x: string, y: string)
    requires '@' !in head && head + rest == x + ("@" + y)
    ensures |head| <= |x| && x == head + x[|head|..] && rest == x[|head|..] + ("@" + y)
  {
    assert (x + ("@" + y))[|x|] == '@';
    if |x| < |head| {
      assert false;
    }
    Overhang(head, rest, x, "@" + y);
  }

  lemma WindowAndRest(tail: string) returns (w: Window, rest: string)
    requires WindowThenScope(tail)
    ensures tail == Word(w) + rest && Scoped(rest)
  {
    w :| StartsWithWindow(tail, w);
    rest := tail[|Word(w)|..];
  }

  lemma StartsWithHash(left: string, other: string)
    requires Scoped(left + ("@" + other))
    ensures left != "" && left == "#" + left[1..]
  {
    assert (left + ("@" + other))[0] == if left == "" then '@' else left[0];
  }

  lemma NameGoesOn(n: string, tail: string, g: string, other: string)
    requires |n| < |g| && WindowThenScope(tail)
    requires n + ("@" + tail) == g + ("@" + other)
    ensures GoesOn(n, g)
  {
    var x := LongerName(n, tail, g, other);
    var w, rest := WindowAndRest(tail);
    WordsHaveNoDelimiter(w);
    LiesBefore(Word(w), rest, x, other);
    var left := x[|Word(w)|..];
    StartsWithHash(left, other);
    assert g == n + ("@" + (Word(w) + ("#" + left[1..])));
  }

  lemma NameGoesOnAsPool(n: string, w: Window, scope: Option<Scope>, g: string, other: string)
    requires |n| < |g| && Configured(scope)
    requires n + ("@" + (Word(w) + Suffix(scope))) == g + ("@" + other)
    ensures GoesOnAsPool(n, g)
  {
    var x := LongerName(n, Word(w) + Suffix(scope), g, other);
    WordsHaveNoDelimiter(w);
    LiesBefore(Word(w), Suffix(scope), x, other);
    var left := x[|Word(w)|..];
    assert |Suffix(scope)| == |left + ("@" + other)|;
    assert scope.Some?;
    var v := scope.value.value;
    Associative("#", "pool", ":" + v);
    Associative("#" + "pool", ":", v);
    LiesBefore("#" + "pool" + ":", v, left, other);
    var more := left[6..];
    Associative("#", "pool:", more);
    assert "#" + "pool" + ":" == "#" + "pool:";
    assert g == n + ("@" + (Word(w) + ("#" + ("pool:" + more))));
  }

  lemma Nested(a: string, b: string, c: string, d: string, e: string, rest: string)
    ensures (a + (b + (c + (d + e)))) + rest == a + (b + (c + (d + (e + rest))))
  {
    Associative(d, e, rest);
    Associative(c, d + e, rest);
    Associative(b, c + (d + e), rest);
    Associative(a, b + (c + (d + e)), rest);
  }

  /** A name that goes on from another as a pool of it shares an id with it. */
  lemma GoingOnCollides(shorter: string, longer: string, v: Window)
    requires GoesOnAsPool(shorter, longer)
    ensures exists w, pool :: BucketId(shorter, w, Pool(pool)) == BucketId(longer, v, None)
  {
    var w, more :| longer == shorter + ("@" + (Word(w) + ("#" + ("pool:" + more))));
    var rest := "@" + Word(v);
    Nested(shorter, "@", Word(w), "#", "pool:" + more, rest);
    Associative("pool:", more, rest);
    Associative("pool", ":", more + rest);
    assert "pool" + ":" == "pool:";
    assert Word(v) + Suffix(None) == Word(v);
    assert BucketId(shorter, w, Pool(more + rest)) == BucketId(longer, v, None);
  }

  lemma HashIsScope(w: Window, more: string)
    ensures IsWindow(BeforeHash(Word(w) + ("#" + more)))
  {
    assert StartsWithWindow(Word(w) + ("#" + more), w);
    ReadsWindow(Word(w) + ("#" + more));
  }

  /** Every bucket of a name that goes on from another is taken for the other's. */
  lemma LongerIsMistaken(shorter: string, longer: string, v: Window, scope: Option<Scope>)
    requires GoesOn(shorter, longer)
    ensures IsBucketOfGroup(BucketId(longer, v, scope), shorter)
  {
    var w, more :| longer == shorter + ("@" + (Word(w) + ("#" + more)));
    var rest := "@" + (Word(v) + Suffix(scope));
    Nested(shorter, "@", Word(w), "#", more, rest);
    HashIsScope(w, more + rest);
    TailOfId(shorter, Word(w) + ("#" + (more + rest)));
  }

  /** Some bucket of group `n` is taken for a bucket of group `g`. */
  ghost predicate Mistaken(n: string, g: string)
  {
    exists w, scope :: Configured(scope) && IsBucketOfGroup(BucketId(n, w, scope), g)
  }

  lemma MistakenGoesOn(n: string, w: Window, scope: Option<Scope>, g: string)
    requires n != g && Configured(scope) && IsBucketOfGroup(BucketId(n, w, scope), g)
    ensures GoesOn(g, n) || GoesOnAsPool(n, g)
  {
    BelongsExactly(BucketId(n, w, scope), g);
    var other :| BucketId(n, w, scope) == Id(g, other) && WindowThenScope(other);
    var tail := Word(w) + Suffix(scope);
    SplitEqual(GROUP_BUCKET_PREFIX, n + ("@" + tail), GROUP_BUCKET_PREFIX, g + ("@" + other));
    if |n| < |g| {
      NameGoesOnAsPool(n, w, scope, g, other);
    } else if |g| < |n| {
      NameGoesOn(g, other, n, tail);
    } else {
      SplitEqual(n, "@" + tail, g, "@" + other);
    }
  }

  /** Reclaiming `g` takes a bucket of `n` with it exactly if `n` goes on from `g`, or `g` goes on from `n` as a pool. */
  lemma MistakenExactly(n: string, g: string)
    requires n != g
    ensures Mistaken(n, g) <==> GoesOn(g, n) || GoesOnAsPool(n, g)
  {
    if w, scope :| Configured(scope) && IsBucketOfGroup(BucketId(n, w, scope), g) {
      MistakenGoesOn(n, w, scope, g);
    }
    if GoesOn(g, n) {
      LongerIsMistaken(g, n, Total, None);
      assert Configured(None);
    }
    if GoesOnAsPool(n, g) {
      GoingOnCollides(n, g, Total);
      var w, pool :| BucketId(n, w, Pool(pool)) == BucketId(g, Total, None);
      OwnBucket(g, Total, None);
      assert Configured(Pool(pool));
    }
  }

  /** The confusion can have one direction: deleting `a` reclaims `a@day#x`, and not the reverse. */
  lemma MistakenHasDirection()
    ensures Mistaken("a@day#x", "a") && !Mistaken("a", "a@day#x")
  {
    assert "a@day#x" == "a" + ("@" + (Word(Day) + ("#" + "x")));
    MistakenExactly("a@day#x", "a");
    MistakenExactly("a", "a@day#x");
    LongerByMuch("a", "a@day#x");
    LongerByMuch("a@day#x", "a");
  }

  lemma LongerByMuch(shorter: string, longer: string)
    ensures GoesOn(shorter, longer) ==> |longer| > |shorter| + 2
    ensures GoesOnAsPool(shorter, longer) ==> |longer| > |shorter| + 7
  {
  }

  /** Names without `#` are told apart: an `@` in a name (an email address) is harmless. */
  lemma HashlessNamesAreSafe(n: string, g: string)
    requires n != g && '#' !in n && '#' !in g
    ensures !Mistaken(n, g)
  {
    MistakenExactly(n, g);
    if GoesOnAsPool(n, g) {
      PoolGoesOn(n, g);
      HashAfterWindow(n, g);
    }
    if GoesOn(g, n) {
      HashAfterWindow(g, n);
    }
  }

  lemma PoolGoesOn(shorter: string, longer: string)
    requires GoesOnAsPool(shorter, longer)
    ensures GoesOn(shorter, longer)
  {
    var w, more :| longer == shorter + ("@" + (Word(w) + ("#" + ("pool:" + more))));
    assert longer == shorter + ("@" + (Word(w) + ("#" + ("pool:" + more))));
  }

  lemma HashAfterWindow(shorter: string, longer: string)
    requires GoesOn(shorter, longer)
    ensures '#' in longer
  {
    var w, more :| longer == shorter + ("@" + (Word(w) + ("#" + more)));
    assert longer[|shorter| + 1 + |Word(w)|] == '#';
  }

  // ---------------------------------------------------------------------------------------------
  // Which cells share a ledger row

  /** Two groups have a ledger row in common. */
  ghost predicate ShareRow(n: string, g: string)
  {
    exists w, s, v, t :: Configured(s) && Configured(t) && BucketId(n, w, s) == BucketId(g, v, t)
  }

  lemma SharedRowGoesOn(n: string, w: Window, s: Option<Scope>, g: string, v: Window, t: Option<Scope>)
    requires n != g && Configured(s) && Configured(t) && BucketId(n, w, s) == BucketId(g, v, t)
    ensures GoesOnAsPool(n, g) || GoesOnAsPool(g, n)
  {
    var mine, yours := Word(w) + Suffix(s), Word(v) + Suffix(t);
    SplitEqual(GROUP_BUCKET_PREFIX, n + ("@" + mine), GROUP_BUCKET_PREFIX, g + ("@" + yours));
    if |n| < |g| {
      NameGoesOnAsPool(n, w, s, g, yours);
    } else if |g| < |n| {
      NameGoesOnAsPool(g, v, t, n, mine);
    } else {
      SplitEqual(n, "@" + mine, g, "@" + yours);
    }
  }

  /** Two groups share a ledger row exactly if one name goes on from the other as a pool of it. */
  lemma ShareRowExactly(n: string, g: string)
    requires n != g
    ensures ShareRow(n, g) <==> GoesOnAsPool(n, g) || GoesOnAsPool(g, n)
  {
    if w, s, v, t :| Configured(s) && Configured(t) && BucketId(n, w, s) == BucketId(g, v, t) {
      SharedRowGoesOn(n, w, s, g, v, t);
    }
    assert Configured(None) && forall p :: Configured(Pool(p));
    if GoesOnAsPool(n, g) {
      GoingOnCollides(n, g, Total);
    }
    if GoesOnAsPool(g, n) {
      GoingOnCollides(g, n, Total);
    }
  }

  lemma SuffixIsInjective(s: Option<Scope>, t: Option<Scope>)
    requires Configured(s) && Configured(t) && Suffix(s) == Suffix(t)
    ensures s == t
  {
    if s.Some? {
      assert Suffix(s)[0] == '#';
      SplitEqual("#", "pool" + (":" + s.value.value), "#", "pool" + (":" + t.value.value));
      SplitEqual("pool", ":" + s.value.value, "pool", ":" + t.value.value);
      SplitEqual(":", s.value.value, ":", t.value.value);
    }
  }

  /** Groups that share no row have a row of their own for every cell. */
  lemma BucketIdIsInjective(n: string, w: Window, s: Option<Scope>, g: string, v: Window, t: Option<Scope>)
    requires Configured(s) && Configured(t) && !GoesOnAsPool(n, g) && !GoesOnAsPool(g, n)
    requires BucketId(n, w, s) == BucketId(g, v, t)
    ensures n == g && w == v && s == t
  {
    var mine, yours := Word(w) + Suffix(s), Word(v) + Suffix(t);
    if n != g {
      SharedRowGoesOn(n, w, s, g, v, t);
    }
    TailOfId(n, mine);
    TailOfId(g, yours);
    WordsHaveNoDelimiter(w);
    WordsHaveNoDelimiter(v);
    BeforeHashOf(Word(w), Suffix(s));
    BeforeHashOf(Word(v), Suffix(t));
    WordIsInjective(w, v);
    SplitEqual(Word(w), Suffix(s), Word(v), Suffix(t));
    SuffixIsInjective(s, t);
  }
}
