// The credential cache: bounded, expiring, and raced by slow authentications and flushes.

module CredentialCaches {
  import opened Wrappers
  import opened Integers

  const DEFAULT_IDENTIFY_TTL_SECS: nat := 300
  const MAX_IDENTIFY_TTL_SECS: nat := 3600
  const PASS_TTL_SECS: nat := 5
  const MAX_ENTRIES: nat := 4096

  /** A hexadecimal SHA-256. */
  type Digest = s: string | |s| == 64 witness seq(64, _ => '0')

  datatype Principal = Principal(id: string, ttlSecs: Option<U64>)

  datatype Outcome = Identify(principal: Principal) | Pass | Reject

  datatype Entry = Entry(expiresAt: U64, insertedSeq: nat, verdict: Outcome)

  datatype Key = Key(moduleName: string, hash: Digest)

  type Entries = map<Key, Entry>

  datatype Cache = Cache(entries: Entries, seqNo: nat, flushGen: nat)

  // ---------------------------------------------------------------------------------------------
  // The operations on values

  /** How long a verdict is kept. */
  function Ttl(o: Outcome, hash: Digest): (ttl: nat)
    ensures ttl <= MAX_IDENTIFY_TTL_SECS
  {
    match o
    case Identify(p) =>
      var suggested := if p.ttlSecs.Some? then p.ttlSecs.value else DEFAULT_IDENTIFY_TTL_SECS;
      if suggested < MAX_IDENTIFY_TTL_SECS then suggested else MAX_IDENTIFY_TTL_SECS
    case Pass => PASS_TTL_SECS + (hash[0] as int) % 3
    case Reject => 0
  }

  function Expiry(o: Outcome, hash: Digest, now: U64): U64
  {
    (now + Ttl(o, hash)) % TWO_TO_64
  }

  function Lookup(c: Cache, k: Key, now: U64): Option<Outcome>
  {
    if k in c.entries && c.entries[k].expiresAt > now then Some(c.entries[k].verdict) else None
  }

  function AfterGet(c: Cache, k: Key, now: U64): Cache
  {
    if k in c.entries && c.entries[k].expiresAt <= now then c.(entries := c.entries - {k}) else c
  }

  function Live(entries: Entries, now: U64): Entries
  {
    map k | k in entries && entries[k].expiresAt > now :: entries[k]
  }

  ghost predicate IsOldest(entries: Entries, k: Key)
  {
    k in entries && forall j | j in entries :: entries[k].insertedSeq <= entries[j].insertedSeq
  }

  /** Room for one more: expired entries go first, then the oldest one. */
  ghost predicate MakesRoom(entries: Entries, now: U64, left: Entries)
  {
    if |entries| < MAX_ENTRIES then left == entries
    else if |Live(entries, now)| < MAX_ENTRIES then left == Live(entries, now)
    else exists k :: IsOldest(Live(entries, now), k) && left == Live(entries, now) - {k}
  }

  predicate Accepts(c: Cache, o: Outcome, gen: nat)
  {
    !o.Reject? && c.flushGen == gen
  }

  ghost predicate AfterPut(c: Cache, k: Key, o: Outcome, now: U64, gen: nat, d: Cache)
  {
    if !Accepts(c, o, gen) then d == c
    else
      && d.seqNo == c.seqNo + 1 && d.flushGen == c.flushGen
      && exists left :: MakesRoom(c.entries, now, left) && d.entries == left[k := Entry(Expiry(o, k.hash, now), d.seqNo, o)]
  }

  function Without(entries: Entries, m: string): Entries
  {
    map k | k in entries && k.moduleName != m :: entries[k]
  }

  function AfterFlushModule(c: Cache, m: string): Cache
  {
    c.(flushGen := c.flushGen + 1, entries := Without(c.entries, m))
  }

  function AfterFlushAll(c: Cache): Cache
  {
    c.(flushGen := c.flushGen + 1, entries := map[])
  }

  // ---------------------------------------------------------------------------------------------
  // What every operation keeps

  ghost predicate Valid(c: Cache)
  {
    && |c.entries| <= MAX_ENTRIES
    && (forall k | k in c.entries :: c.entries[k].insertedSeq <= c.seqNo && !c.entries[k].verdict.Reject?)
    && (forall j, k | j in c.entries && k in c.entries && j != k :: c.entries[j].insertedSeq != c.entries[k].insertedSeq)
  }

  lemma SubmapSize(a: Entries, b: Entries)
    requires a.Keys <= b.Keys
    ensures |a| <= |b|
    decreases |a|
  {
    SubsetSize(a.Keys, b.Keys);
    assert |a.Keys| == |a| && |b.Keys| == |b|;
  }

  lemma {:induction false} SubsetSize<T>(a: set<T>, b: set<T>)
    requires a <= b
    ensures |a| <= |b|
  {
    if a != {} {
      var x :| x in a;
      SubsetSize(a - {x}, b - {x});
    }
  }

  lemma MissingIsSmaller(a: Entries, b: Entries, k: Key)
    requires a.Keys <= b.Keys && k in b && k !in a
    ensures |a| < |b|
  {
    SubsetSize(a.Keys, b.Keys - {k});
    assert |a.Keys| == |a| && |b.Keys| == |b|;
  }

  lemma RoomIsRoom(entries: Entries, now: U64, left: Entries)
    requires |entries| <= MAX_ENTRIES && MakesRoom(entries, now, left)
    ensures |left| < MAX_ENTRIES
    ensures forall k | k in left :: k in entries && left[k] == entries[k]
  {
    SubmapSize(Live(entries, now), entries);
    if |entries| >= MAX_ENTRIES && |Live(entries, now)| >= MAX_ENTRIES {
      var k :| IsOldest(Live(entries, now), k) && left == Live(entries, now) - {k};
      assert left.Keys == Live(entries, now).Keys - {k};
      assert |left.Keys| == |left| && |Live(entries, now).Keys| == |Live(entries, now)|;
    }
  }

  lemma AddedSize(left: Entries, k: Key, e: Entry)
    ensures |left[k := e]| <= |left| + 1
  {
    assert left[k := e].Keys == left.Keys + {k};
    assert |left.Keys| == |left| && |left[k := e].Keys| == |left[k := e]|;
  }

  lemma AddKeepsValid(c: Cache, left: Entries, k: Key, e: Entry)
    requires Valid(c) && |left| < MAX_ENTRIES && forall j | j in left :: j in c.entries && left[j] == c.entries[j]
    requires e.insertedSeq == c.seqNo + 1 && !e.verdict.Reject?
    ensures Valid(Cache(left[k := e], c.seqNo + 1, c.flushGen))
  {
    AddedSize(left, k, e);
  }

  lemma PutKeepsValid(c: Cache, k: Key, o: Outcome, now: U64, gen: nat, d: Cache)
    requires Valid(c) && AfterPut(c, k, o, now, gen, d)
    ensures Valid(d)
  {
    if Accepts(c, o, gen) {
      var left :| MakesRoom(c.entries, now, left) && d.entries == left[k := Entry(Expiry(o, k.hash, now), d.seqNo, o)];
      RoomIsRoom(c.entries, now, left);
      AddKeepsValid(c, left, k, d.entries[k]);
    }
  }

  lemma PutIsTaken(c: Cache, left: Entries, k: Key, o: Outcome, now: U64, gen: nat, d: Cache)
    requires Valid(c) && Accepts(c, o, gen) && MakesRoom(c.entries, now, left)
    requires d == Cache(left[k := Entry(Expiry(o, k.hash, now), c.seqNo + 1, o)], c.seqNo + 1, c.flushGen)
    ensures AfterPut(c, k, o, now, gen, d) && Valid(d)
  {
    PutKeepsValid(c, k, o, now, gen, d);
  }

  lemma OthersKeepValid(c: Cache, k: Key, now: U64, m: string)
    requires Valid(c)
    ensures Valid(AfterGet(c, k, now)) && Valid(AfterFlushModule(c, m)) && Valid(AfterFlushAll(c))
  {
    SubmapSize(AfterGet(c, k, now).entries, c.entries);
    SubmapSize(AfterFlushModule(c, m).entries, c.entries);
  }

  /** The victim is the same in whatever order the map is walked. */
  lemma EvictionIsDetermined(c: Cache, k: Key, o: Outcome, now: U64, gen: nat, d: Cache, e: Cache)
    requires Valid(c) && AfterPut(c, k, o, now, gen, d) && AfterPut(c, k, o, now, gen, e)
    ensures d == e
  {
    if Accepts(c, o, gen) {
      var entry := Entry(Expiry(o, k.hash, now), d.seqNo, o);
      var p :| MakesRoom(c.entries, now, p) && d.entries == p[k := entry];
      var q :| MakesRoom(c.entries, now, q) && e.entries == q[k := entry];
      RoomIsDetermined(c, now, p, q);
    }
  }

  lemma RoomIsDetermined(c: Cache, now: U64, p: Entries, q: Entries)
    requires Valid(c) && MakesRoom(c.entries, now, p) && MakesRoom(c.entries, now, q)
    ensures p == q
  {
    var live := Live(c.entries, now);
    if |c.entries| >= MAX_ENTRIES && |live| >= MAX_ENTRIES {
      var i :| IsOldest(live, i) && p == live - {i};
      var j :| IsOldest(live, j) && q == live - {j};
      assert live[i].insertedSeq == live[j].insertedSeq;
      assert i == j;
    }
  }

  /**
   * How long a verdict that the cache took is found, while the clock does not wrap: an identity for what its module
   * suggests, or 300 seconds, and never over 3600; a pass for 5 seconds and up to 2 more, by the first digit of the hash.
   */
  lemma FoundExactlyWhile(c: Cache, k: Key, o: Outcome, now: U64, gen: nat, d: Cache, later: U64)
    requires !o.Reject? && c.flushGen == gen && AfterPut(c, k, o, now, gen, d) && now + 3600 < 0x1_0000_0000_0000_0000
    ensures match o
            case Identify(p) =>
              var suggested := if p.ttlSecs.Some? then p.ttlSecs.value else 300;
              var seconds := if suggested < 3600 then suggested else 3600;
              Lookup(d, k, later) == if later < now + seconds then Some(o) else None
            case Pass =>
              Lookup(d, k, later) == if later < now + 5 + (k.hash[0] as int) % 3 then Some(o) else None
            case Reject => true
  {
  }

  /** Below capacity nothing is taken out. At capacity all that has expired is, and a live entry only as the oldest one. */
  lemma RoomTakes(entries: Entries, now: U64, left: Entries, j: Key)
    requires |entries| <= 4096 && MakesRoom(entries, now, left) && j in entries
    ensures |entries| < 4096 ==> j in left
    ensures |entries| >= 4096 && j in left ==> entries[j].expiresAt > now
    ensures entries[j].expiresAt > now && j !in left ==>
              4096 <= |entries| <= |Live(entries, now)| && IsOldest(Live(entries, now), j) && left == Live(entries, now) - {j}
  {
    if |entries| >= MAX_ENTRIES && |Live(entries, now)| >= MAX_ENTRIES {
      var k :| IsOldest(Live(entries, now), k) && left == Live(entries, now) - {k};
    }
  }

  lemma PutLeaves(c: Cache, k: Key, o: Outcome, now: U64, gen: nat, d: Cache) returns (left: Entries)
    requires Valid(c) && Accepts(c, o, gen) && AfterPut(c, k, o, now, gen, d)
    ensures MakesRoom(c.entries, now, left)
    ensures forall j | j != k :: j in d.entries <==> j in left
    ensures forall j | j != k && j in left :: j in c.entries && d.entries[j] == c.entries[j]
  {
    left :| MakesRoom(c.entries, now, left) && d.entries == left[k := Entry(Expiry(o, k.hash, now), d.seqNo, o)];
    RoomIsRoom(c.entries, now, left);
  }

  /**
   * What a put takes from another key: nothing below capacity. At capacity every expired entry goes, and a live one
   * only if nothing had expired and it was the oldest; then no other entry goes.
   */
  lemma RoomIsExact(c: Cache, k: Key, o: Outcome, now: U64, gen: nat, d: Cache, j: Key)
    requires Valid(c) && !o.Reject? && c.flushGen == gen && AfterPut(c, k, o, now, gen, d) && j != k
    ensures j in d.entries ==> j in c.entries && d.entries[j] == c.entries[j]
    ensures j in d.entries && |c.entries| >= 4096 ==> c.entries[j].expiresAt > now
    ensures j in c.entries && j !in d.entries ==> |c.entries| >= 4096
    ensures j in c.entries && c.entries[j].expiresAt > now && j !in d.entries ==>
              forall i | i in c.entries && i != j ::
                c.entries[i].expiresAt > now && c.entries[j].insertedSeq <= c.entries[i].insertedSeq && i in d.entries
  {
    var left := PutLeaves(c, k, o, now, gen, d);
    if j in c.entries {
      RoomTakes(c.entries, now, left, j);
      if c.entries[j].expiresAt > now && j !in d.entries {
        forall i | i in c.entries && i != j ensures
          c.entries[i].expiresAt > now && c.entries[j].insertedSeq <= c.entries[i].insertedSeq && i in left
        {
          OnlyOldestGoes(c.entries, now, left, j, i);
        }
      }
    }
  }

  lemma OnlyOldestGoes(entries: Entries, now: U64, left: Entries, j: Key, i: Key)
    requires |entries| <= |Live(entries, now)| && i in entries && i != j
    requires IsOldest(Live(entries, now), j) && left == Live(entries, now) - {j}
    ensures entries[i].expiresAt > now && entries[j].insertedSeq <= entries[i].insertedSeq && i in left
  {
    var live := Live(entries, now);
    if i !in live {
      MissingIsSmaller(live, entries, i);
    }
  }

  /** What was put is found until it expires. */
  lemma PutThenGet(c: Cache, k: Key, o: Outcome, now: U64, gen: nat, d: Cache, later: U64)
    requires Accepts(c, o, gen) && AfterPut(c, k, o, now, gen, d)
    ensures Lookup(d, k, later) == if later < Expiry(o, k.hash, now) then Some(o) else None
  {
  }

  /** A lookup never answers with a rejection, and takes at most the expired entry out. */
  lemma GetIsSound(c: Cache, k: Key, now: U64)
    requires Valid(c)
    ensures Lookup(c, k, now) != Some(Reject) && Valid(AfterGet(c, k, now))
  {
    OthersKeepValid(c, k, now, "");
  }

  /** The keys of one module. */
  function Filed(entries: Entries, moduleName: string): set<Key>
  {
    set k | k in entries && k.moduleName == moduleName
  }

  lemma FlushedSize(entries: Entries, moduleName: string)
    ensures |entries| - |Without(entries, moduleName)| == |Filed(entries, moduleName)|
  {
    var left := Without(entries, moduleName);
    assert left.Keys == entries.Keys - Filed(entries, moduleName);
    assert |entries.Keys| == |entries| && |left.Keys| == |left|;
  }

  // ---------------------------------------------------------------------------------------------
  // The cache, behind its mutex

  class CredentialCache {
    const sha: string -> Digest
    var entries: Entries
    var seqNo: nat
    var flushGen: nat

    ghost function View(): Cache
      reads this
    {
      Cache(entries, seqNo, flushGen)
    }

    constructor (sha: string -> Digest)
      ensures this.sha == sha && View() == Cache(map[], 0, 0) && Valid(View())
    {
      this.sha := sha;
      entries, seqNo, flushGen := map[], 0, 0;
    }

    method Generation() returns (gen: nat)
      ensures gen == flushGen
    {
      gen := flushGen;
    }

    method Get(moduleName: string, credential: string, now: U64) returns (r: Option<Outcome>)
      requires Valid(View())
      modifies this
      ensures r == Lookup(old(View()), Key(moduleName, sha(credential)), now) && r != Some(Reject)
      ensures View() == AfterGet(old(View()), Key(moduleName, sha(credential)), now) && Valid(View())
      ensures seqNo == old(seqNo) && flushGen == old(flushGen)
      ensures var key := Key(moduleName, sha(credential));
              if key in old(entries) && old(entries)[key].expiresAt > now
              then r == Some(old(entries)[key].verdict) && entries == old(entries)
              else r == None && entries == old(entries) - {key}
    {
      var key := Key(moduleName, sha(credential));
      GetIsSound(View(), key, now);
      if key !in entries {
        return None;
      }
      if entries[key].expiresAt > now {
        return Some(entries[key].verdict);
      }
      entries := entries - {key};
      r := None;
    }

    method Put(moduleName: string, credential: string, outcome: Outcome, now: U64, gen: nat)
      requires Valid(View())
      modifies this
      ensures AfterPut(old(View()), Key(moduleName, sha(credential)), outcome, now, gen, View()) && Valid(View())
      ensures outcome.Reject? || gen != old(flushGen) ==> View() == old(View())
      ensures !outcome.Reject? && gen == old(flushGen) ==>
                var key := Key(moduleName, sha(credential));
                key in entries && entries[key].verdict == outcome && entries[key].insertedSeq == seqNo == old(seqNo) + 1
    {
      var key := Key(moduleName, sha(credential));
      if outcome.Reject? || flushGen != gen {
        return;
      }
      ghost var before := View();
      var left := MakeRoom(entries, now);
      seqNo := seqNo + 1;
      entries := left[key := Entry(Expiry(outcome, key.hash, now), seqNo, outcome)];
      PutIsTaken(before, left, key, outcome, now, gen, View());
    }

    method MakeRoom(from: Entries, now: U64) returns (left: Entries)
      ensures MakesRoom(from, now, left)
    {
      left := from;
      if |left| >= MAX_ENTRIES {
        left := Live(left, now);
        if |left| >= MAX_ENTRIES {
          var victim := OldestInserted(left);
          left := left - {victim};
        }
      }
    }

    /** `min_by_key`, over a map that is walked in no particular order. */
    method OldestInserted(from: Entries) returns (k: Key)
      requires from != map[]
      ensures IsOldest(from, k)
    {
      k :| k in from;
      var rest := from.Keys - {k};
      while rest != {}
        invariant k in from && rest <= from.Keys
        invariant forall j | j in from && j !in rest :: from[k].insertedSeq <= from[j].insertedSeq
      {
        var j :| j in rest;
        if from[j].insertedSeq < from[k].insertedSeq {
          k := j;
        }
        rest := rest - {j};
      }
    }

    method FlushModule(moduleName: string) returns (flushed: nat)
      requires Valid(View())
      modifies this
      ensures View() == AfterFlushModule(old(View()), moduleName) && Valid(View())
      ensures flushGen == old(flushGen) + 1 && seqNo == old(seqNo)
      ensures forall k :: k in entries <==> k in old(entries) && k.moduleName != moduleName
      ensures forall k | k in entries :: entries[k] == old(entries)[k]
      ensures flushed == |Filed(old(entries), moduleName)|
    {
      OthersKeepValid(View(), Key(moduleName, sha("")), 0, moduleName);
      flushGen := flushGen + 1;
      FlushedSize(entries, moduleName);
      var before := |entries|;
      entries := Without(entries, moduleName);
      flushed := before - |entries|;
    }

    method FlushAll() returns (flushed: nat)
      requires Valid(View())
      modifies this
      ensures View() == AfterFlushAll(old(View())) && Valid(View())
      ensures flushGen == old(flushGen) + 1 && seqNo == old(seqNo) && entries == map[]
      ensures flushed == |old(entries)|
    {
      flushGen := flushGen + 1;
      flushed := |entries|;
      entries := map[];
    }
  }

  // ---------------------------------------------------------------------------------------------
  // Histories

  /** What clients and operators do to one cache, each under its lock. `client` is one authentication. */
  datatype Event =
    | Capture(client: nat)
    | Put(client: nat, key: Key, outcome: Outcome, now: U64)
    | Get(key: Key, now: U64)
    | FlushModule(moduleName: string)
    | FlushAll

  predicate Flushes(e: Event) { e.FlushModule? || e.FlushAll? }

  predicate Covers(e: Event, moduleName: string)
  {
    e.FlushAll? || e == FlushModule(moduleName)
  }

  /** The cache, and the generation that each client last captured. */
  datatype State = State(cache: Cache, tokens: map<nat, nat>)

  ghost predicate Happens(s: State, e: Event, t: State)
  {
    match e
    case Capture(client) => t == s.(tokens := s.tokens[client := s.cache.flushGen])
    case Put(client, key, outcome, now) =>
      && client in s.tokens && t.tokens == s.tokens
      && AfterPut(s.cache, key, outcome, now, s.tokens[client], t.cache)
    case Get(key, now) => t == s.(cache := AfterGet(s.cache, key, now))
    case FlushModule(m) => t == s.(cache := AfterFlushModule(s.cache, m))
    case FlushAll => t == s.(cache := AfterFlushAll(s.cache))
  }

  /** `states` is what the events lead through from the empty cache. */
  ghost predicate History(events: seq<Event>, states: seq<State>)
  {
    && |states| == |events| + 1
    && states[0] == State(Cache(map[], 0, 0), map[])
    && forall i | 0 <= i < |events| :: Happens(states[i], events[i], states[i + 1])
  }

  /** Event `p` is a put that the cache took. */
  ghost predicate Taken(events: seq<Event>, states: seq<State>, p: nat)
    requires History(events, states) && p < |events|
  {
    && events[p].Put? && events[p].client in states[p].tokens
    && Accepts(states[p].cache, events[p].outcome, states[p].tokens[events[p].client])
  }

  /** Client `c`'s token at time `n` was captured by event `g`. */
  ghost predicate CapturedAt(events: seq<Event>, client: nat, g: nat, n: nat)
    requires n <= |events|
  {
    && g < n && events[g] == Capture(client)
    && forall i | g < i < n :: events[i] != Capture(client)
  }

  /** The entry of `k` at time `n` is what event `p` put, with a generation captured by event `g`. */
  ghost predicate Backed(events: seq<Event>, states: seq<State>, k: Key, n: nat, g: nat, p: nat)
    requires History(events, states) && n <= |events|
  {
    && g < p < n && Taken(events, states, p) && events[p].key == k
    && CapturedAt(events, events[p].client, g, p)
    && (forall i | g < i < n :: !Covers(events[i], k.moduleName))
    && (forall i | p < i < n && events[i].Put? && events[i].key == k :: !Taken(events, states, i))
    && k in states[n].cache.entries
    && states[n].cache.entries[k].verdict == events[p].outcome
    && states[n].cache.entries[k].expiresAt == Expiry(events[p].outcome, k.hash, events[p].now)
  }

  lemma {:induction false} HistoryIsValid(events: seq<Event>, states: seq<State>, n: nat)
    requires History(events, states) && n <= |events|
    ensures Valid(states[n].cache)
  {
    if n > 0 {
      HistoryIsValid(events, states, n - 1);
      var c := states[n - 1].cache;
      assert Happens(states[n - 1], events[n - 1], states[n]);
      match events[n - 1] {
        case Capture(_) =>
        case Put(client, key, outcome, now) =>
          PutKeepsValid(c, key, outcome, now, states[n - 1].tokens[client], states[n].cache);
        case Get(key, now) => OthersKeepValid(c, key, now, "");
        case FlushModule(m) => OthersKeepValid(c, Key(m, seq(64, _ => '0')), 0, m);
        case FlushAll =>
      }
    }
  }

  /** The flush counter moves at every flush and never goes back. */
  lemma {:induction false} FlushesCount(events: seq<Event>, states: seq<State>, i: nat, n: nat)
    requires History(events, states) && i <= n <= |events|
    ensures states[i].cache.flushGen <= states[n].cache.flushGen
    ensures states[i].cache.flushGen == states[n].cache.flushGen ==> forall j | i <= j < n :: !Flushes(events[j])
    decreases n
  {
    if i < n {
      FlushesCount(events, states, i, n - 1);
      assert Happens(states[n - 1], events[n - 1], states[n]);
    }
  }

  /** A token is the flush counter at the moment of its capture. */
  lemma {:induction false} TokensAreCaptured(events: seq<Event>, states: seq<State>, n: nat, client: nat)
    requires History(events, states) && n <= |events| && client in states[n].tokens
    ensures exists g: nat :: CapturedAt(events, client, g, n) && states[n].tokens[client] == states[g].cache.flushGen
  {
    assert n > 0 ==> Happens(states[n - 1], events[n - 1], states[n]);
    if events[n - 1] == Capture(client) {
      assert CapturedAt(events, client, n - 1, n);
    } else {
      TokensAreCaptured(events, states, n - 1, client);
      var g: nat :| CapturedAt(events, client, g, n - 1) && states[n - 1].tokens[client] == states[g].cache.flushGen;
      assert CapturedAt(events, client, g, n);
    }
  }

  lemma FreshlyBacked(events: seq<Event>, states: seq<State>, k: Key, p: nat, n: nat)
    requires History(events, states) && p < |events| && Taken(events, states, p) && events[p].key == k && n == p + 1
    ensures exists g: nat :: Backed(events, states, k, n, g, p)
  {
    var client := events[p].client;
    assert Happens(states[p], events[p], states[p + 1]);
    TokensAreCaptured(events, states, p, client);
    var g: nat :| CapturedAt(events, client, g, p) && states[p].tokens[client] == states[g].cache.flushGen;
    FlushesCount(events, states, g, p);
    forall i | g < i < p + 1 ensures !Covers(events[i], k.moduleName) {
      assert i < p ==> !Flushes(events[i]);
    }
    assert Backed(events, states, k, n, g, p);
  }

  /** An event other than a taken put of the key leaves its entry alone, or removes it. */
  lemma EntryStays(s: State, e: Event, t: State, k: Key)
    requires Happens(s, e, t) && Valid(s.cache) && k in t.cache.entries
    requires !(e.Put? && e.key == k && Accepts(s.cache, e.outcome, s.tokens[e.client]))
    ensures k in s.cache.entries && s.cache.entries[k] == t.cache.entries[k] && !Covers(e, k.moduleName)
  {
    if e.Put? && Accepts(s.cache, e.outcome, s.tokens[e.client]) {
      var left :| MakesRoom(s.cache.entries, e.now, left) &&
                  t.cache.entries == left[e.key := Entry(Expiry(e.outcome, e.key.hash, e.now), t.cache.seqNo, e.outcome)];
      RoomIsRoom(s.cache.entries, e.now, left);
    }
  }

  lemma BackedStays(events: seq<Event>, states: seq<State>, k: Key, last: nat, n: nat, g: nat, p: nat)
    requires History(events, states) && n == last + 1 <= |events| && Backed(events, states, k, last, g, p)
    requires !Covers(events[last], k.moduleName) && !(events[last].Put? && events[last].key == k && Taken(events, states, last))
    requires k in states[n].cache.entries && states[n].cache.entries[k] == states[last].cache.entries[k]
    ensures Backed(events, states, k, n, g, p)
  {
  }

  /** Every entry is that of the last taken put of its key, and no flush of its module came after the capture. */
  lemma {:induction false} EntriesAreBacked(events: seq<Event>, states: seq<State>, k: Key, n: nat)
    requires History(events, states) && n <= |events| && k in states[n].cache.entries
    ensures exists g: nat, p: nat :: Backed(events, states, k, n, g, p)
  {
    var last := n - 1;
    assert Happens(states[last], events[last], states[n]);
    HistoryIsValid(events, states, last);
    if events[last].Put? && events[last].key == k && Taken(events, states, last) {
      FreshlyBacked(events, states, k, last, n);
    } else {
      EntryStays(states[last], events[last], states[n], k);
      EntriesAreBacked(events, states, k, last);
      var g: nat, p: nat :| Backed(events, states, k, last, g, p);
      BackedStays(events, states, k, last, n, g, p);
    }
  }

  /** A flush cannot be undone: whatever the cache holds for the module was captured after it. */
  lemma FlushCannotBeUndone(events: seq<Event>, states: seq<State>, k: Key, f: nat)
    requires History(events, states) && k in states[|events|].cache.entries
    requires f < |events| && Covers(events[f], k.moduleName)
    ensures exists g: nat, p: nat :: f < g && Backed(events, states, k, |events|, g, p)
  {
    EntriesAreBacked(events, states, k, |events|);
  }

  /** A lookup answers with the last taken put of the key, within an hour of it, and never with a rejection. */
  lemma LookupIsLastPut(events: seq<Event>, states: seq<State>, k: Key, now: U64)
    requires History(events, states) && Lookup(states[|events|].cache, k, now).Some?
    ensures exists g: nat, p: nat :: Backed(events, states, k, |events|, g, p)
              && Lookup(states[|events|].cache, k, now) == Some(events[p].outcome)
              && now < events[p].now + MAX_IDENTIFY_TTL_SECS
    ensures Lookup(states[|events|].cache, k, now) != Some(Reject)
  {
    EntriesAreBacked(events, states, k, |events|);
    var g: nat, p: nat :| Backed(events, states, k, |events|, g, p);
    HistoryIsValid(events, states, |events|);
  }
}
