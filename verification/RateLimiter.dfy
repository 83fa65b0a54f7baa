/** The per-peer rate limiter: a bounded, evicting table of fixed windows. */
module RateLimiting {
  const MAX_ENTRIES: nat := 100_000

  type Peer = seq<char>

  datatype Config = Config(enabled: bool, requests: nat, windowSecs: nat, banSecs: nat)

  datatype Decision = Allow | Deny(retryAfterSecs: nat)

  /** `bannedUntil == 0` means that no ban was imposed in this window. */
  datatype Entry = Entry(windowStart: nat, count: nat, bannedUntil: nat)

  type Table = map<Peer, Entry>

  function SaturatingSub(a: nat, b: nat): nat {
    if a >= b then a - b else 0
  }

  // ----- one request of one peer -----

  function Started(now: nat): Entry {
    Entry(now, 0, 0)
  }

  function Tick(e: Entry, config: Config, now: nat): (Entry, Decision) {
    if now < e.bannedUntil then (e, Deny(e.bannedUntil - now))
    else
      var w := if e.bannedUntil != 0 || SaturatingSub(now, e.windowStart) >= config.windowSecs then Started(now) else e;
      var counted := w.(count := w.count + 1);
      if counted.count > config.requests
      then (counted.(bannedUntil := now + config.banSecs), Deny(config.banSecs))
      else (counted, Allow)
  }

  /** Entries that eviction may remove. */
  predicate Stale(e: Entry, config: Config, now: nat) {
    now >= e.bannedUntil && SaturatingSub(now, e.windowStart) >= config.windowSecs
  }

  // ----- one check, on values -----

  datatype Limiter = Limiter(entries: Table, lastEvict: nat)

  function EvictedTable(entries: Table, config: Config, now: nat): Table {
    map p | p in entries && !Stale(entries[p], config, now) :: entries[p]
  }

  function Evicted(s: Limiter, config: Config, now: nat): Limiter {
    if now <= s.lastEvict then s else Limiter(EvictedTable(s.entries, config, now), now)
  }

  /** Where a check of a new peer starts from: the table with room made if it is full. */
  function WithRoom(s: Limiter, config: Config, peer: Peer, now: nat): Limiter {
    if peer !in s.entries && |s.entries| >= MAX_ENTRIES then Evicted(s, config, now) else s
  }

  /** The branch that lets an untracked peer pass because the table stays full. */
  predicate FailsOpen(s: Limiter, config: Config, peer: Peer, now: nat) {
    config.enabled && peer !in s.entries && |WithRoom(s, config, peer, now).entries| >= MAX_ENTRIES
  }

  /** The check of a table that has room. */
  function Record(entries: Table, config: Config, peer: Peer, now: nat): (Table, Decision) {
    var e := if peer in entries then entries[peer] else Started(now);
    var (ticked, decision) := Tick(e, config, now);
    (entries[peer := ticked], decision)
  }

  function Check(s: Limiter, config: Config, peer: Peer, now: nat): (Limiter, Decision) {
    if !config.enabled then (s, Allow)
    else
      var room := WithRoom(s, config, peer, now);
      if FailsOpen(s, config, peer, now) then (room, Allow)
      else
        var (entries, decision) := Record(room.entries, config, peer, now);
        (room.(entries := entries), decision)
  }

  // ----- the limiter object -----

  class RateLimiter {
    const config: Config
    var entries: Table
    var lastEvict: nat

    constructor (config: Config)
      ensures this.config == config && Model() == Limiter(map[], 0)
    {
      this.config := config;
      entries := map[];
      lastEvict := 0;
    }

    ghost function Model(): Limiter
      reads this
    {
      Limiter(entries, lastEvict)
    }

    /** Decides and records one request; the table never outgrows its bound. */
    method CheckPeer(peer: Peer, now: nat) returns (decision: Decision)
      modifies this
      ensures Model() == Check(old(Model()), config, peer, now).0
      ensures decision == Check(old(Model()), config, peer, now).1
      ensures |old(entries)| <= MAX_ENTRIES ==> |entries| <= MAX_ENTRIES
    {
      if !config.enabled {
        return Allow;
      }
      if peer in entries {
        var (ticked, d) := Tick(entries[peer], config, now);
        RecordKeepsSize(entries, peer, ticked);
        entries := entries[peer := ticked];
        return d;
      }
      if |entries| >= MAX_ENTRIES {
        EvictExpired(now);
        if |entries| >= MAX_ENTRIES {
          return Allow;
        }
      }
      var (ticked, d) := Tick(Started(now), config, now);
      RecordKeepsSize(entries, peer, ticked);
      entries := entries[peer := ticked];
      return d;
    }

    /** Removes the stale entries, at most once per second. */
    method EvictExpired(now: nat)
      modifies this
      ensures Model() == Evicted(old(Model()), config, now)
      ensures |entries| <= |old(entries)|
    {
      if now <= lastEvict {
        return;
      }
      lastEvict := now;
      ghost var before := entries;
      var stale := set p | p in entries && Stale(entries[p], config, now);
      while stale != {}
        invariant stale <= entries.Keys && |entries| <= |before|
        invariant forall p :: p in entries ==> p in before && entries[p] == before[p]
        invariant forall p :: p in entries && p !in stale ==> !Stale(entries[p], config, now)
        invariant forall p :: p in stale ==> Stale(entries[p], config, now)
        invariant forall p :: p in before && !Stale(before[p], config, now) ==> p in entries
        invariant lastEvict == now
        decreases stale
      {
        var p :| p in stale;
        RemovalShrinks(entries, p);
        entries := map q | q in entries && q != p :: entries[q];
        stale := stale - {p};
      }
      assert entries == EvictedTable(before, config, now);
    }
  }

  lemma RecordKeepsSize(entries: Table, peer: Peer, e: Entry)
    ensures |entries[peer := e]| == if peer in entries then |entries| else |entries| + 1
  {
    assert entries[peer := e].Keys == entries.Keys + {peer};
  }

  lemma RemovalShrinks(entries: Table, p: Peer)
    requires p in entries
    ensures |map q | q in entries && q != p :: entries[q]| == |entries| - 1
  {
    var smaller := map q | q in entries && q != p :: entries[q];
    assert smaller.Keys == entries.Keys - {p};
  }

  lemma EvictionShrinks(entries: Table, config: Config, now: nat)
    ensures |EvictedTable(entries, config, now)| <= |entries|
  {
    var kept := EvictedTable(entries, config, now);
    assert kept.Keys <= entries.Keys;
    SubsetIsSmaller(kept.Keys, entries.Keys);
  }

  lemma {:induction false} SubsetIsSmaller(a: set<Peer>, b: set<Peer>)
    requires a <= b
    ensures |a| <= |b|
  {
    if a != {} {
      var x :| x in a;
      SubsetIsSmaller(a - {x}, b - {x});
    }
  }

  // ----- runs -----

  datatype Hit = Hit(peer: Peer, now: nat)

  function Run(s: Limiter, config: Config, hits: seq<Hit>): seq<Decision>
    decreases |hits|
  {
    if hits == [] then []
    else
      var (next, decision) := Check(s, config, hits[0].peer, hits[0].now);
      [decision] + Run(next, config, hits[1..])
  }

  function After(s: Limiter, config: Config, hits: seq<Hit>): Limiter
    decreases |hits|
  {
    if hits == [] then s
    else After(Check(s, config, hits[0].peer, hits[0].now).0, config, hits[1..])
  }

  /** The reference: a limiter that tracks every peer and never evicts. */
  function RunUnbounded(entries: Table, config: Config, hits: seq<Hit>): seq<Decision>
    decreases |hits|
  {
    if hits == [] then []
    else if !config.enabled then [Allow] + RunUnbounded(entries, config, hits[1..])
    else
      var (next, decision) := Record(entries, config, hits[0].peer, hits[0].now);
      [decision] + RunUnbounded(next, config, hits[1..])
  }

  ghost predicate Chronological(hits: seq<Hit>, from: nat) {
    (hits != [] ==> from <= hits[0].now) && forall i, j :: 0 <= i < j < |hits| ==> hits[i].now <= hits[j].now
  }

  predicate NeverFailsOpen(s: Limiter, config: Config, hits: seq<Hit>)
    decreases |hits|
  {
    hits == [] ||
    (!FailsOpen(s, config, hits[0].peer, hits[0].now)
     && NeverFailsOpen(Check(s, config, hits[0].peer, hits[0].now).0, config, hits[1..]))
  }

  /** In every run the table stays within its bound. */
  lemma {:induction false} TableIsBounded(s: Limiter, config: Config, hits: seq<Hit>)
    requires |s.entries| <= MAX_ENTRIES
    ensures |After(s, config, hits).entries| <= MAX_ENTRIES
    decreases |hits|
  {
    if hits != [] {
      var hit := hits[0];
      var room := WithRoom(s, config, hit.peer, hit.now);
      EvictionShrinks(s.entries, config, hit.now);
      var e := if hit.peer in room.entries then room.entries[hit.peer] else Started(hit.now);
      RecordKeepsSize(room.entries, hit.peer, Tick(e, config, hit.now).0);
      TableIsBounded(Check(s, config, hit.peer, hit.now).0, config, hits[1..]);
    }
  }

  // ----- eviction is invisible -----

  lemma StaleStays(e: Entry, config: Config, now: nat, later: nat)
    requires Stale(e, config, now) && now <= later
    ensures Stale(e, config, later)
  {
  }

  /** A stale entry answers like a new one. */
  lemma StaleTicksLikeNew(e: Entry, config: Config, now: nat)
    requires Stale(e, config, now)
    ensures Tick(e, config, now) == Tick(Started(now), config, now)
  {
  }

  /** The bounded table holds what the unbounded one does, short of entries that
      are stale by now. */
  ghost predicate Represents(bounded: Table, unbounded: Table, config: Config, now: nat) {
    && (forall p :: p in bounded ==> p in unbounded && unbounded[p] == bounded[p])
    && (forall p :: p in unbounded && p !in bounded ==> Stale(unbounded[p], config, now))
  }

  lemma StepRepresents(s: Limiter, unbounded: Table, config: Config, peer: Peer, before: nat, now: nat)
    requires Represents(s.entries, unbounded, config, before) && before <= now
    requires config.enabled && !FailsOpen(s, config, peer, now)
    ensures var (next, decision) := Check(s, config, peer, now);
            var (other, otherDecision) := Record(unbounded, config, peer, now);
            decision == otherDecision && Represents(next.entries, other, config, now)
  {
    hide Tick;
    var room := WithRoom(s, config, peer, now).entries;
    forall p | p in unbounded && p !in room ensures Stale(unbounded[p], config, now) {
      if p !in s.entries {
        StaleStays(unbounded[p], config, before, now);
      }
    }
    if peer in unbounded && peer !in room {
      StaleTicksLikeNew(unbounded[peer], config, now);
    }
  }

  /** With a clock that never goes back, as long as the table never stays full of
      active peers, the bounded limiter decides exactly as an unbounded one. */
  lemma {:induction false} EvictionIsInvisible(s: Limiter, unbounded: Table, config: Config, hits: seq<Hit>, now: nat)
    requires Represents(s.entries, unbounded, config, now) && Chronological(hits, now)
    requires NeverFailsOpen(s, config, hits)
    ensures Run(s, config, hits) == RunUnbounded(unbounded, config, hits)
    decreases |hits|
  {
    hide Represents; hide FailsOpen; hide Record;
    if hits != [] {
      var hit := hits[0];
      var (next, decision) := Check(s, config, hit.peer, hit.now);
      if config.enabled {
        StepRepresents(s, unbounded, config, hit.peer, now, hit.now);
        EvictionIsInvisible(next, Record(unbounded, config, hit.peer, hit.now).0, config, hits[1..], hit.now);
      } else {
        EvictionIsInvisible(next, unbounded, config, hits[1..], now) by {
          assert hits[1..] == [] || hits[0].now <= hits[1].now;
        }
      }
    }
  }

  // ----- failing open is visible -----

  function Repeated(hit: Hit, n: nat): seq<Hit> {
    seq(n, _ => hit)
  }

  lemma {:induction false} FailingOpenAllows(s: Limiter, config: Config, peer: Peer, now: nat, n: nat)
    requires FailsOpen(s, config, peer, now)
    ensures Run(s, config, Repeated(Hit(peer, now), n)) == seq(n, _ => Allow)
    decreases n
  {
    var hits := Repeated(Hit(peer, now), n);
    if n > 0 {
      var next := Check(s, config, peer, now).0;
      assert hits[1..] == Repeated(Hit(peer, now), n - 1);
      FailingOpenAllows(next, config, peer, now, n - 1);
    }
  }

  lemma {:induction false} RepeatedHitsAreDenied(entries: Table, config: Config, peer: Peer, now: nat, n: nat)
    requires config.enabled && config.windowSecs >= 1
    requires peer in entries && entries[peer].windowStart == now && entries[peer].bannedUntil == 0
    requires entries[peer].count <= config.requests && n == config.requests + 1 - entries[peer].count
    ensures RunUnbounded(entries, config, Repeated(Hit(peer, now), n)) != seq(n, _ => Allow)
    decreases n
  {
    var hits := Repeated(Hit(peer, now), n);
    var run := RunUnbounded(entries, config, hits);
    var (next, decision) := Record(entries, config, peer, now);
    assert hits[1..] == Repeated(Hit(peer, now), n - 1);
    assert run[0] == decision && run[1..] == RunUnbounded(next, config, hits[1..]);
    assert seq(n, _ => Allow)[1..] == seq(n - 1, _ => Allow);
    if decision == Allow {
      RepeatedHitsAreDenied(next, config, peer, now, n - 1);
    }
  }

  /** Wherever the limiter fails open, repeating that request tells it apart from
      one that never evicts. */
  lemma FailingOpenIsVisible(s: Limiter, unbounded: Table, config: Config, peer: Peer, now: nat)
    requires Represents(s.entries, unbounded, config, now) && FailsOpen(s, config, peer, now)
    requires CanDeny(config)
    ensures var hits := Repeated(Hit(peer, now), config.requests + 1);
            Run(s, config, hits) != RunUnbounded(unbounded, config, hits)
  {
    var n := config.requests + 1;
    var hits := Repeated(Hit(peer, now), n);
    FailingOpenAllows(s, config, peer, now, n);
    if peer in unbounded {
      StaleTicksLikeNew(unbounded[peer], config, now);
    }
    var (next, decision) := Record(unbounded, config, peer, now);
    var run := RunUnbounded(unbounded, config, hits);
    assert hits[1..] == Repeated(Hit(peer, now), n - 1);
    assert run[0] == decision && run[1..] == RunUnbounded(next, config, hits[1..]);
    assert seq(n, _ => Allow)[1..] == seq(n - 1, _ => Allow);
    if decision == Allow {
      RepeatedHitsAreDenied(next, config, peer, now, n - 1);
    }
  }

  /** Configurations under which some peer can be denied at all: without a window
      every count starts again at each request. */
  predicate CanDeny(config: Config) {
    config.windowSecs >= 1 || config.requests == 0
  }

  predicate NobodyBanned(entries: Table) {
    forall p :: p in entries ==> entries[p].bannedUntil == 0
  }

  /** Under any other configuration nobody is ever denied, by either limiter. */
  lemma {:induction false} NobodyIsDenied(s: Limiter, unbounded: Table, config: Config, hits: seq<Hit>)
    requires !CanDeny(config) && NobodyBanned(s.entries) && NobodyBanned(unbounded)
    ensures Run(s, config, hits) == seq(|hits|, _ => Allow) == RunUnbounded(unbounded, config, hits)
    decreases |hits|
  {
    if hits != [] {
      var hit := hits[0];
      var next := Check(s, config, hit.peer, hit.now).0;
      var other := if config.enabled then Record(unbounded, config, hit.peer, hit.now).0 else unbounded;
      assert seq(|hits|, _ => Allow)[1..] == seq(|hits| - 1, _ => Allow);
      NobodyIsDenied(next, other, config, hits[1..]);
    }
  }

  // ----- exactly when eviction is invisible -----

  function AfterUnbounded(entries: Table, config: Config, hits: seq<Hit>): Table
    decreases |hits|
  {
    if hits == [] then entries
    else AfterUnbounded(Record(entries, config, hits[0].peer, hits[0].now).0, config, hits[1..])
  }

  /** A run that never fails open leaves related tables. */
  lemma {:induction false} RunsTogether(s: Limiter, unbounded: Table, config: Config, hits: seq<Hit>, now: nat)
    requires config.enabled && Represents(s.entries, unbounded, config, now) && Chronological(hits, now)
    requires NeverFailsOpen(s, config, hits)
    ensures Represents(After(s, config, hits).entries, AfterUnbounded(unbounded, config, hits), config,
                       if hits == [] then now else hits[|hits| - 1].now)
    decreases |hits|
  {
    hide Represents; hide FailsOpen; hide Record; hide Check;
    if hits != [] {
      var hit := hits[0];
      var next := Check(s, config, hit.peer, hit.now).0;
      var other := Record(unbounded, config, hit.peer, hit.now).0;
      StepRepresents(s, unbounded, config, hit.peer, now, hit.now);
      RunsTogether(next, other, config, hits[1..], hit.now);
    }
  }

  lemma {:induction false} RunSplits(s: Limiter, config: Config, hits: seq<Hit>, rest: seq<Hit>)
    ensures Run(s, config, hits + rest) == Run(s, config, hits) + Run(After(s, config, hits), config, rest)
    decreases |hits|
  {
    hide Check;
    if hits == [] {
      assert hits + rest == rest;
    } else {
      assert (hits + rest)[1..] == hits[1..] + rest;
      RunSplits(Check(s, config, hits[0].peer, hits[0].now).0, config, hits[1..], rest);
    }
  }

  lemma {:induction false} UnboundedSplits(entries: Table, config: Config, hits: seq<Hit>, rest: seq<Hit>)
    requires config.enabled
    ensures RunUnbounded(entries, config, hits + rest)
            == RunUnbounded(entries, config, hits) + RunUnbounded(AfterUnbounded(entries, config, hits), config, rest)
    decreases |hits|
  {
    hide Record;
    if hits == [] {
      assert hits + rest == rest;
    } else {
      assert (hits + rest)[1..] == hits[1..] + rest;
      UnboundedSplits(Record(entries, config, hits[0].peer, hits[0].now).0, config, hits[1..], rest);
    }
  }

  /** A run that fails open somewhere does so first at some request. */
  lemma {:induction false} FirstFailure(s: Limiter, config: Config, hits: seq<Hit>) returns (k: nat)
    requires !NeverFailsOpen(s, config, hits)
    ensures k < |hits| && NeverFailsOpen(s, config, hits[..k])
    ensures FailsOpen(After(s, config, hits[..k]), config, hits[k].peer, hits[k].now)
    decreases |hits|
  {
    hide FailsOpen; hide Check;
    if FailsOpen(s, config, hits[0].peer, hits[0].now) {
      k := 0;
      assert hits[..0] == [];
    } else {
      var next := Check(s, config, hits[0].peer, hits[0].now).0;
      var j := FirstFailure(next, config, hits[1..]);
      k := j + 1;
      assert hits[..k][1..] == hits[1..][..j];
    }
  }

  /** A front of a run, with its last request repeated. */
  function Insisting(hits: seq<Hit>, k: nat, n: nat): seq<Hit>
    requires k < |hits|
  {
    hits[..k] + Repeated(hits[k], n)
  }

  lemma InsistingIsChronological(hits: seq<Hit>, k: nat, n: nat, now: nat)
    requires k < |hits| && Chronological(hits, now)
    ensures Chronological(Insisting(hits, k, n), now) && Chronological(hits[..k], now)
    ensures (if k == 0 then now else hits[k - 1].now) <= hits[k].now
  {
  }

  lemma {:induction false} StaleLater(bounded: Table, unbounded: Table, config: Config, now: nat, later: nat)
    requires Represents(bounded, unbounded, config, now) && now <= later
    ensures Represents(bounded, unbounded, config, later)
  {
    forall p | p in unbounded && p !in bounded ensures Stale(unbounded[p], config, later) {
      StaleStays(unbounded[p], config, now, later);
    }
  }

  /** A run that fails open is told apart by insisting on the request that did. */
  lemma FailureShows(s: Limiter, unbounded: Table, config: Config, hits: seq<Hit>, now: nat) returns (k: nat)
    requires config.enabled && CanDeny(config) && Represents(s.entries, unbounded, config, now)
             && Chronological(hits, now)
    requires !NeverFailsOpen(s, config, hits)
    ensures k < |hits|
    ensures var again := Insisting(hits, k, config.requests + 1);
            Run(s, config, again) != RunUnbounded(unbounded, config, again)
  {
    hide Represents; hide FailsOpen; hide Record; hide Run; hide RunUnbounded; hide Repeated; hide Check;
    hide Chronological; hide After;
    hide AfterUnbounded; hide NeverFailsOpen;
    k := FirstFailure(s, config, hits);
    var hit := hits[k];
    InsistingIsChronological(hits, k, config.requests + 1, now);
    var front, again := hits[..k], Repeated(hit, config.requests + 1);
    RunsTogether(s, unbounded, config, front, now);
    RunSplits(s, config, front, again);
    UnboundedSplits(unbounded, config, front, again);
    EvictionIsInvisible(s, unbounded, config, front, now);
    var later, other := After(s, config, front), AfterUnbounded(unbounded, config, front);
    StaleLater(later.entries, other, config, if k == 0 then now else hits[k - 1].now, hit.now);
    FailingOpenIsVisible(later, other, config, hit.peer, hit.now);
    var same := Run(s, config, front);
    assert (same + Run(later, config, again))[|same|..] == Run(later, config, again);
    assert (same + RunUnbounded(other, config, again))[|same|..] == RunUnbounded(other, config, again);
  }

  /** After a request that did not fail open the peer is tracked, and insisting on it
      never fails open. */
  lemma {:induction false} InsistingIsTracked(s: Limiter, config: Config, hit: Hit, n: nat)
    requires config.enabled && hit.peer in s.entries
    ensures NeverFailsOpen(s, config, Repeated(hit, n))
    decreases n
  {
    hide Tick;
    var hits := Repeated(hit, n);
    if n > 0 {
      assert hits[1..] == Repeated(hit, n - 1);
      InsistingIsTracked(Check(s, config, hit.peer, hit.now).0, config, hit, n - 1);
    }
  }

  lemma {:induction false} InsistingNeverFails(s: Limiter, config: Config, hits: seq<Hit>, k: nat, n: nat)
    requires config.enabled && k < |hits| && NeverFailsOpen(s, config, hits)
    ensures NeverFailsOpen(s, config, Insisting(hits, k, n))
    decreases k
  {
    hide Tick;
    var all := Insisting(hits, k, n);
    var hit := hits[0];
    var next := Check(s, config, hit.peer, hit.now).0;
    if k == 0 {
      assert all == Repeated(hit, n);
      if n > 0 {
        assert all[1..] == Repeated(hit, n - 1);
        InsistingIsTracked(next, config, hit, n - 1);
      }
    } else {
      assert all[0] == hit && all[1..] == Insisting(hits[1..], k - 1, n);
      InsistingNeverFails(next, config, hits[1..], k - 1, n);
    }
  }

  /** Run by run, exactly: a chronological run never fails open if and only if no
      front of it, with its last request repeated any number of times, is decided
      otherwise than by a limiter that never evicts. */
  lemma VisibleExactlyByFailing(s: Limiter, unbounded: Table, config: Config, hits: seq<Hit>, now: nat)
    requires config.enabled && CanDeny(config)
    requires Represents(s.entries, unbounded, config, now) && Chronological(hits, now)
    ensures NeverFailsOpen(s, config, hits) <==>
            forall k: nat, n: nat | k < |hits| ::
              Run(s, config, Insisting(hits, k, n)) == RunUnbounded(unbounded, config, Insisting(hits, k, n))
  {
    hide *;
    if NeverFailsOpen(s, config, hits) {
      forall k: nat, n: nat | k < |hits|
        ensures Run(s, config, Insisting(hits, k, n)) == RunUnbounded(unbounded, config, Insisting(hits, k, n))
      {
        InsistingNeverFails(s, config, hits, k, n);
        InsistingIsChronological(hits, k, n, now);
        EvictionIsInvisible(s, unbounded, config, Insisting(hits, k, n), now);
      }
    } else {
      var k := FailureShows(s, unbounded, config, hits, now);
    }
  }

  /** Over all continuations: none is decided otherwise if and only if none fails
      open. */
  lemma InvisibleExactlyIfNoneFails(s: Limiter, unbounded: Table, config: Config, now: nat)
    requires config.enabled && CanDeny(config) && Represents(s.entries, unbounded, config, now)
    ensures (forall hits :: Chronological(hits, now) ==> Run(s, config, hits) == RunUnbounded(unbounded, config, hits))
            <==> (forall hits :: Chronological(hits, now) ==> NeverFailsOpen(s, config, hits))
  {
    hide *;
    if forall hits :: Chronological(hits, now) ==> NeverFailsOpen(s, config, hits) {
      forall hits | Chronological(hits, now) ensures Run(s, config, hits) == RunUnbounded(unbounded, config, hits) {
        EvictionIsInvisible(s, unbounded, config, hits, now);
      }
    } else {
      var hits :| Chronological(hits, now) && !NeverFailsOpen(s, config, hits);
      var k := FailureShows(s, unbounded, config, hits, now);
      InsistingIsChronological(hits, k, config.requests + 1, now);
    }
  }

  // ----- failing open is reachable -----

  /** The `i`th of a family of different peers. */
  function PeerOf(i: nat): Peer {
    seq(i, _ => 'p')
  }

  /** One request of each of the first peers, all at one time. */
  function Crowd(n: nat, now: nat): seq<Hit> {
    seq(n, i requires 0 <= i < n => Hit(PeerOf(i), now))
  }

  predicate Crowded(s: Limiter, n: nat, now: nat) {
    && |s.entries| == n
    && (forall p :: p in s.entries ==> exists i: nat :: i < n && p == PeerOf(i))
    && (forall p :: p in s.entries ==> s.entries[p].windowStart == now)
  }

  lemma {:induction false} AfterLast(s: Limiter, config: Config, hits: seq<Hit>, hit: Hit)
    ensures After(s, config, hits + [hit]) == Check(After(s, config, hits), config, hit.peer, hit.now).0
    decreases |hits|
  {
    hide Check;
    if hits == [] {
      assert hits + [hit] == [hit] && [hit][1..] == [];
    } else {
      assert (hits + [hit])[1..] == hits[1..] + [hit];
      AfterLast(Check(s, config, hits[0].peer, hits[0].now).0, config, hits[1..], hit);
    }
  }

  lemma {:induction false} CrowdFills(config: Config, n: nat, now: nat)
    requires config.enabled && n <= MAX_ENTRIES
    ensures Crowded(After(Limiter(map[], 0), config, Crowd(n, now)), n, now)
    decreases n
  {
    if n > 0 {
      CrowdFills(config, n - 1, now);
      var s := After(Limiter(map[], 0), config, Crowd(n - 1, now));
      var hit := Hit(PeerOf(n - 1), now);
      assert Crowd(n, now) == Crowd(n - 1, now) + [hit];
      AfterLast(Limiter(map[], 0), config, Crowd(n - 1, now), hit);
      CrowdGrows(s, config, n, now);
    }
  }

  lemma CrowdGrows(s: Limiter, config: Config, n: nat, now: nat)
    requires config.enabled && 1 <= n <= MAX_ENTRIES && Crowded(s, n - 1, now)
    ensures Crowded(Check(s, config, PeerOf(n - 1), now).0, n, now)
  {
    var peer := PeerOf(n - 1);
    assert |peer| == n - 1;
    forall i: nat | i < n - 1 ensures PeerOf(i) != peer {
      assert |PeerOf(i)| == i;
    }
    assert peer !in s.entries;
    var ticked := Tick(Started(now), config, now).0;
    RecordKeepsSize(s.entries, peer, ticked);
    var next := Check(s, config, peer, now).0;
    assert next.entries == s.entries[peer := ticked];
    forall p | p in next.entries ensures exists i: nat :: i < n && p == PeerOf(i) {
      if p in s.entries {
        var i: nat :| i < n - 1 && p == PeerOf(i);
      }
    }
  }

  /** As many different peers as the table holds, and one more, all at one time, make
      a new limiter fail open, whatever its limits are. */
  lemma FailingOpenIsReachable(config: Config, now: nat)
    requires config.enabled && config.windowSecs >= 1
    ensures FailsOpen(After(Limiter(map[], 0), config, Crowd(100_000, now)), config, PeerOf(100_000), now)
  {
    hide Tick; hide After; hide Crowd;
    CrowdFills(config, MAX_ENTRIES, now);
    var s := After(Limiter(map[], 0), config, Crowd(MAX_ENTRIES, now));
    var peer := PeerOf(MAX_ENTRIES);
    assert |peer| == MAX_ENTRIES;
    forall i: nat | i < MAX_ENTRIES ensures PeerOf(i) != peer {
      assert |PeerOf(i)| == i;
    }
    assert forall p :: p in s.entries ==> !Stale(s.entries[p], config, now);
    assert EvictedTable(s.entries, config, now) == s.entries;
  }

  // ----- a condition to check before a run -----

  function PeersOf(hits: seq<Hit>): set<Peer> {
    set i | 0 <= i < |hits| :: hits[i].peer
  }

  /** With no more peers than the table holds, no request fails open. */
  lemma {:induction false} FewPeersNeverFailOpen(s: Limiter, config: Config, hits: seq<Hit>, peers: set<Peer>)
    requires s.entries.Keys <= peers && PeersOf(hits) <= peers && |peers| <= MAX_ENTRIES
    ensures NeverFailsOpen(s, config, hits)
    decreases |hits|
  {
    hide Tick;
    if hits != [] {
      var hit := hits[0];
      assert hit.peer in PeersOf(hits);
      assert PeersOf(hits[1..]) <= PeersOf(hits) by {
        forall p | p in PeersOf(hits[1..]) ensures p in PeersOf(hits) {
          var i :| 0 <= i < |hits[1..]| && hits[1..][i].peer == p;
          assert hits[i + 1].peer == p;
        }
      }
      if hit.peer !in s.entries {
        SubsetIsSmaller(s.entries.Keys, peers - {hit.peer});
      }
      FewPeersNeverFailOpen(Check(s, config, hit.peer, hit.now).0, config, hits[1..], peers);
    }
  }

  /** Eviction is invisible in every chronological run of at most as many peers as
      the table holds. */
  lemma EvictionIsInvisibleToFew(config: Config, hits: seq<Hit>)
    requires Chronological(hits, 0) && |PeersOf(hits)| <= 100_000
    ensures Run(Limiter(map[], 0), config, hits) == RunUnbounded(map[], config, hits)
  {
    hide Run; hide RunUnbounded; hide NeverFailsOpen; hide PeersOf;
    FewPeersNeverFailOpen(Limiter(map[], 0), config, hits, PeersOf(hits));
    EvictionIsInvisible(Limiter(map[], 0), map[], config, hits, 0);
  }
}
