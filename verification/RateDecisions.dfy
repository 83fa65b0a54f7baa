/** What the limiter decides about each request of a peer, from the times of that peer's
    requests alone. */
module RateDecisions {
  import opened RateLimiting

  // ----- the rule -----

  /** How many of the times, from the front on, come before `end`. */
  function Before(times: seq<nat>, end: nat): (n: nat)
    ensures n <= |times|
  {
    if times != [] && times[0] < end then 1 + Before(times[1..], end) else 0
  }

  /** The requests of the window that the first one opens: itself, and those after it
      within the length of a window. */
  function WindowSize(times: seq<nat>, config: Config): (n: nat)
    requires times != []
    ensures 1 <= n <= |times|
  {
    1 + if config.windowSecs == 0 then 0 else Before(times[1..], times[0] + config.windowSecs)
  }

  function Allowed(n: nat): seq<Decision> {
    seq(n, _ => Allow)
  }

  /** A request in a ban is told how long the ban still lasts. */
  function Waits(times: seq<nat>, end: nat): (d: seq<Decision>)
    requires forall i :: 0 <= i < |times| ==> times[i] < end
    ensures |d| == |times|
  {
    seq(|times|, i requires 0 <= i < |times| => Deny(end - times[i]))
  }

  lemma {:induction false} BeforeIsBefore(times: seq<nat>, end: nat)
    ensures forall i :: 0 <= i < Before(times, end) ==> times[i] < end
    ensures Before(times, end) < |times| ==> times[Before(times, end)] >= end
  {
    if times != [] && times[0] < end {
      BeforeIsBefore(times[1..], end);
    }
  }

  /** The decisions on the requests of a peer that is new, or that starts anew: a window
      grants the first `requests` of its requests. */
  function Decided(times: seq<nat>, config: Config): (d: seq<Decision>)
    ensures |d| == |times|
    decreases |times|, 1
  {
    if times == [] then []
    else
      var n := WindowSize(times, config);
      if n <= config.requests then Allowed(n) + Decided(times[n..], config)
      else Allowed(config.requests) + Denied(times[config.requests..], times[0] + config.windowSecs, config)
  }

  /** The decisions from the first request over the quota on: it starts a ban, the
      requests of the ban wait for its end, and the one after starts anew. A ban that
      would end at time 0 is none; then the window goes on, without anything to grant. */
  function Denied(times: seq<nat>, windowEnd: nat, config: Config): (d: seq<Decision>)
    requires times != []
    ensures |d| == |times|
    decreases |times|, 0
  {
    var end := times[0] + config.banSecs;
    var rest := times[1..];
    var n := Before(rest, end);
    BeforeIsBefore(rest, end);
    [Deny(config.banSecs)] + Waits(rest[..n], end)
    + (if end == 0 && rest != [] && config.windowSecs > 0 && rest[0] < windowEnd
       then Denied(rest, windowEnd, config) else Decided(rest[n..], config))
  }

  // ----- the entries of one peer -----

  /** The decisions of one entry. */
  function EntryRun(e: Entry, config: Config, times: seq<nat>): (d: seq<Decision>)
    ensures |d| == |times|
    decreases |times|
  {
    if times == [] then []
    else
      var (next, decision) := Tick(e, config, times[0]);
      [decision] + EntryRun(next, config, times[1..])
  }

  /** The entry counts on: within its window, not over its quota, and not banned. */
  lemma {:induction false} Counting(e: Entry, config: Config, times: seq<nat>, n: nat)
    requires e.bannedUntil == 0 && e.count + n <= config.requests && n <= |times|
    requires config.windowSecs > 0 && forall i :: 0 <= i < n ==> times[i] < e.windowStart + config.windowSecs
    ensures EntryRun(e, config, times) == Allowed(n) + EntryRun(e.(count := e.count + n), config, times[n..])
    decreases n
  {
    if n == 0 {
      assert times[0..] == times && Allowed(0) + EntryRun(e, config, times) == EntryRun(e, config, times);
    } else {
      var next := e.(count := e.count + 1);
      Counting(next, config, times[1..], n - 1);
      assert times[1..][n - 1..] == times[n..];
      assert Allowed(n) == [Allow] + Allowed(n - 1);
    }
  }

  /** The entry waits for the end of its ban. */
  lemma {:induction false} Waiting(e: Entry, config: Config, times: seq<nat>, n: nat)
    requires n <= |times| && forall i :: 0 <= i < n ==> times[i] < e.bannedUntil
    ensures EntryRun(e, config, times) == Waits(times[..n], e.bannedUntil) + EntryRun(e, config, times[n..])
    decreases n
  {
    if n == 0 {
      assert times[0..] == times && Waits(times[..0], e.bannedUntil) == [];
    } else {
      Waiting(e, config, times[1..], n - 1);
      assert times[1..][n - 1..] == times[n..];
      assert Waits(times[..n], e.bannedUntil)
          == [Deny(e.bannedUntil - times[0])] + Waits(times[1..][..n - 1], e.bannedUntil);
    }
  }

  /** An entry that answers the next request as a new one does. */
  predicate StartsAnew(e: Entry, config: Config, times: seq<nat>) {
    times == [] || Tick(e, config, times[0]) == Tick(Started(times[0]), config, times[0])
  }

  lemma NewEntryRun(e: Entry, config: Config, times: seq<nat>)
    requires times != [] && StartsAnew(e, config, times)
    ensures EntryRun(e, config, times) == EntryRun(Started(times[0]), config, times)
  {
    hide Tick;
  }

  lemma {:induction false} EntryDecides(e: Entry, config: Config, times: seq<nat>)
    requires StartsAnew(e, config, times)
    ensures EntryRun(e, config, times) == Decided(times, config)
    decreases |times|, 1
  {
    hide Denied; hide Tick;
    if times != [] {
      NewEntryRun(e, config, times);
      var start, n := Started(times[0]), WindowSize(times, config);
      WindowIsBefore(times, config);
      if config.windowSecs == 0 {
        NoWindow(config, times);
      } else if n <= config.requests {
        Counting(start, config, times, n);
        WindowIsOver(start.(count := n), config, times, n);
        EntryDecides(start.(count := n), config, times[n..]);
      } else {
        var q := config.requests;
        Counting(start, config, times, q);
        assert times[q..][0] == times[q];
        OverQuota(start.(count := q), config, times[q..]);
      }
    }
  }

  lemma WindowIsBefore(times: seq<nat>, config: Config)
    requires times != []
    ensures var n := WindowSize(times, config);
            && (config.windowSecs > 0 ==> forall i :: 0 <= i < n ==> times[i] < times[0] + config.windowSecs)
            && (n < |times| && config.windowSecs > 0 ==> times[n] >= times[0] + config.windowSecs)
  {
    BeforeIsBefore(times[1..], times[0] + config.windowSecs);
  }

  lemma WindowIsOver(e: Entry, config: Config, times: seq<nat>, n: nat)
    requires n <= |times| && e.bannedUntil == 0
    requires n < |times| ==> times[n] >= e.windowStart + config.windowSecs
    ensures StartsAnew(e, config, times[n..])
  {
  }

  /** Without a window every request starts anew. */
  lemma {:induction false} NoWindow(config: Config, times: seq<nat>)
    requires times != [] && config.windowSecs == 0
    ensures EntryRun(Started(times[0]), config, times) == Decided(times, config)
    decreases |times|, 0
  {
    var t, rest := times[0], times[1..];
    var (next, decision) := Tick(Started(t), config, t);
    if config.requests >= 1 {
      assert StartsAnew(next, config, rest);
      EntryDecides(next, config, rest);
      assert Allowed(1) == [Allow];
    } else {
      assert times[0..] == times;
      assert Allowed(0) == [];
      BanRuns(next, config, times, t);
      assert Allowed(0) + Denied(times, t, config) == Denied(times, t, config);
    }
  }

  /** A full entry denies and starts a ban. */
  lemma {:induction false} OverQuota(e: Entry, config: Config, times: seq<nat>)
    requires times != [] && e.bannedUntil == 0 && e.count >= config.requests && config.windowSecs > 0
    requires times[0] < e.windowStart + config.windowSecs
    ensures EntryRun(e, config, times) == Denied(times, e.windowStart + config.windowSecs, config)
    decreases |times|, 0
  {
    var next := e.(count := e.count + 1, bannedUntil := times[0] + config.banSecs);
    assert Tick(e, config, times[0]) == (next, Deny(config.banSecs));
    BanRuns(next, config, times, e.windowStart + config.windowSecs);
  }

  /** What follows the request that started a ban. */
  lemma {:induction false} BanRuns(next: Entry, config: Config, times: seq<nat>, windowEnd: nat)
    requires times != [] && next.bannedUntil == times[0] + config.banSecs && next.count > config.requests
    requires windowEnd == next.windowStart + config.windowSecs
    ensures [Deny(config.banSecs)] + EntryRun(next, config, times[1..]) == Denied(times, windowEnd, config)
    decreases |times| - 1, 2
  {
    hide Denied; hide Decided; hide Tick; hide EntryRun; hide StartsAnew;
    var end, rest := times[0] + config.banSecs, times[1..];
    var n := Before(rest, end);
    BeforeIsBefore(rest, end);
    Waiting(next, config, rest, n);
    DeniedIs(times, windowEnd, config);
    if end == 0 && rest != [] && config.windowSecs > 0 && rest[0] < windowEnd {
      assert n == 0 && rest[0..] == rest;
      OverQuota(next, config, rest);
    } else {
      AfterBan(next, config, rest[n..]);
      EntryDecides(next, config, rest[n..]);
    }
  }

  lemma DeniedIs(times: seq<nat>, windowEnd: nat, config: Config)
    requires times != []
    ensures var end, rest := times[0] + config.banSecs, times[1..];
            var n := Before(rest, end);
            && (forall i :: 0 <= i < |rest[..n]| ==> rest[..n][i] < end)
            && Denied(times, windowEnd, config) ==
               [Deny(config.banSecs)]
               + (Waits(rest[..n], end)
                  + (if end == 0 && rest != [] && config.windowSecs > 0 && rest[0] < windowEnd
                     then Denied(rest, windowEnd, config) else Decided(rest[n..], config)))
  {
    hide Decided; hide Waits;
    BeforeIsBefore(times[1..], times[0] + config.banSecs);
  }

  lemma AfterBan(e: Entry, config: Config, times: seq<nat>)
    requires times == [] || times[0] >= e.bannedUntil
    requires e.bannedUntil != 0 || times == [] || config.windowSecs == 0
             || times[0] >= e.windowStart + config.windowSecs
    ensures StartsAnew(e, config, times)
  {
  }

  // ----- runs -----

  /** The times of a peer's requests, and the decisions on them. */
  function TimesOf(hits: seq<Hit>, peer: Peer): seq<nat> {
    if hits == [] then []
    else (if hits[0].peer == peer then [hits[0].now] else []) + TimesOf(hits[1..], peer)
  }

  function DecisionsOf(hits: seq<Hit>, decisions: seq<Decision>, peer: Peer): seq<Decision>
    requires |hits| == |decisions|
  {
    if hits == [] then []
    else (if hits[0].peer == peer then [decisions[0]] else []) + DecisionsOf(hits[1..], decisions[1..], peer)
  }

  lemma {:induction false} RunLength(entries: Table, config: Config, hits: seq<Hit>)
    ensures |RunUnbounded(entries, config, hits)| == |hits|
    decreases |hits|
  {
    hide Record;
    if hits != [] {
      RunLength(if config.enabled then Record(entries, config, hits[0].peer, hits[0].now).0 else entries,
                config, hits[1..]);
    }
  }

  /** Without eviction a peer's decisions are those of its own entry. */
  lemma {:induction false} PeerAlone(entries: Table, config: Config, hits: seq<Hit>, peer: Peer)
    requires config.enabled && peer in entries && |RunUnbounded(entries, config, hits)| == |hits|
    ensures DecisionsOf(hits, RunUnbounded(entries, config, hits), peer)
            == EntryRun(entries[peer], config, TimesOf(hits, peer))
    decreases |hits|
  {
    hide Tick;
    if hits != [] {
      var (next, decision) := Record(entries, config, hits[0].peer, hits[0].now);
      RunLength(next, config, hits[1..]);
      PeerAlone(next, config, hits[1..], peer);
      var times := TimesOf(hits[1..], peer);
      assert RunUnbounded(entries, config, hits)[1..] == RunUnbounded(next, config, hits[1..]);
      if hits[0].peer == peer {
        assert TimesOf(hits, peer)[1..] == times;
      } else {
        assert TimesOf(hits, peer) == times;
      }
    }
  }

  lemma {:induction false} NewPeerAlone(entries: Table, config: Config, hits: seq<Hit>, peer: Peer)
    requires config.enabled && peer !in entries && |RunUnbounded(entries, config, hits)| == |hits|
    ensures DecisionsOf(hits, RunUnbounded(entries, config, hits), peer) == Decided(TimesOf(hits, peer), config)
    decreases |hits|
  {
    hide Tick; hide Decided;
    if hits == [] {
      NothingDecided(config);
    } else {
      var (next, decision) := Record(entries, config, hits[0].peer, hits[0].now);
      var times := TimesOf(hits, peer);
      RunLength(next, config, hits[1..]);
      assert RunUnbounded(entries, config, hits)[1..] == RunUnbounded(next, config, hits[1..]);
      if hits[0].peer == peer {
        PeerAlone(next, config, hits[1..], peer);
        assert times[1..] == TimesOf(hits[1..], peer);
        EntryDecides(Started(times[0]), config, times);
      } else {
        NewPeerAlone(next, config, hits[1..], peer);
        assert times == TimesOf(hits[1..], peer);
      }
    }
  }

  lemma NothingDecided(config: Config)
    ensures Decided([], config) == []
  {
  }

  /** In every chronological run of a new limiter in which no request fails open, each
      peer is decided by the times of its own requests, whatever the others do. */
  lemma DecisionsAreTheRule(config: Config, hits: seq<Hit>, peer: Peer)
    requires config.enabled && Chronological(hits, 0) && NeverFailsOpen(Limiter(map[], 0), config, hits)
    ensures var decisions := Run(Limiter(map[], 0), config, hits);
            |decisions| == |hits| && DecisionsOf(hits, decisions, peer) == Decided(TimesOf(hits, peer), config)
  {
    hide Run; hide RunUnbounded; hide NeverFailsOpen; hide Decided; hide TimesOf; hide DecisionsOf;
    EvictionIsInvisible(Limiter(map[], 0), map[], config, hits, 0);
    RunLength(map[], config, hits);
    NewPeerAlone(map[], config, hits, peer);
  }

  /** Switched off, it allows everything. */
  lemma {:induction false} DisabledAllows(s: Limiter, config: Config, hits: seq<Hit>)
    requires !config.enabled
    ensures Run(s, config, hits) == Allowed(|hits|)
    decreases |hits|
  {
    if hits != [] {
      DisabledAllows(s, config, hits[1..]);
      assert Allowed(|hits|) == [Allow] + Allowed(|hits| - 1);
    }
  }

  // ----- the rule, read off -----

  /** The first requests of a window, up to the quota, are allowed; the next one is denied
      for the length of a ban, and every further one before the ban is over for what is
      left of it. */
  lemma FirstWindow(times: seq<nat>, config: Config, i: nat)
    requires i < |times| && forall k :: 0 <= k <= i && k <= config.requests ==> times[k] < times[0] + config.windowSecs
    ensures i < config.requests ==> Decided(times, config)[i] == Allow
    ensures i == config.requests ==> Decided(times, config)[i] == Deny(config.banSecs)
    ensures i > config.requests && (forall k :: config.requests < k <= i ==>
              times[k] < times[config.requests] + config.banSecs) ==>
            Decided(times, config)[i] == Deny(times[config.requests] + config.banSecs - times[i])
  {
    hide Decided; hide Denied; hide WindowSize; hide Before;
    var q := config.requests;
    FirstInWindow(times, config, if i < q then i else q);
    OneWindow(times, config);
    if i >= q {
      var windowEnd := times[0] + config.windowSecs;
      assert Decided(times, config)[i] == Denied(times[q..], windowEnd, config)[i - q];
      BanAt(times[q..], windowEnd, config, i - q);
    }
  }

  lemma BanAt(times: seq<nat>, windowEnd: nat, config: Config, i: nat)
    requires i < |times|
    ensures i == 0 ==> Denied(times, windowEnd, config)[i] == Deny(config.banSecs)
    ensures i > 0 && (forall k :: 0 < k <= i ==> times[k] < times[0] + config.banSecs) ==>
              Denied(times, windowEnd, config)[i] == Deny(times[0] + config.banSecs - times[i])
  {
    hide Denied; hide Before;
    OneBan(times, windowEnd, config);
    if i > 0 && forall k :: 0 < k <= i ==> times[k] < times[0] + config.banSecs {
      assert forall k :: 0 <= k <= i - 1 ==> times[1..][k] == times[k + 1];
      FirstBefore(times[1..], times[0] + config.banSecs, i - 1);
    }
  }

  lemma OneWindow(times: seq<nat>, config: Config)
    requires times != []
    ensures var n := WindowSize(times, config);
            Decided(times, config) ==
            if n <= config.requests then Allowed(n) + Decided(times[n..], config)
            else Allowed(config.requests) + Denied(times[config.requests..], times[0] + config.windowSecs, config)
  {
    hide Denied; hide WindowSize;
  }

  lemma OneBan(times: seq<nat>, windowEnd: nat, config: Config)
    requires times != []
    ensures var end, rest := times[0] + config.banSecs, times[1..];
            var n := Before(rest, end);
            && Denied(times, windowEnd, config)[0] == Deny(config.banSecs)
            && forall i :: 0 < i <= n ==>
                 times[i] < end && Denied(times, windowEnd, config)[i] == Deny(end - times[i])
  {
    hide Decided;
    BeforeIsBefore(times[1..], times[0] + config.banSecs);
  }

  lemma {:induction false} FirstBefore(times: seq<nat>, end: nat, i: nat)
    requires i < |times| && forall k :: 0 <= k <= i ==> times[k] < end
    ensures Before(times, end) > i
    decreases i
  {
    if i > 0 {
      assert forall k :: 0 <= k < i ==> times[1..][k] == times[k + 1];
      FirstBefore(times[1..], end, i - 1);
    }
  }

  lemma FirstInWindow(times: seq<nat>, config: Config, i: nat)
    requires i < |times| && forall k :: 0 <= k <= i ==> times[k] < times[0] + config.windowSecs
    ensures WindowSize(times, config) > i
  {
    if i > 0 {
      assert forall k :: 0 <= k < i ==> times[1..][k] == times[k + 1];
      FirstBefore(times[1..], times[0] + config.windowSecs, i - 1);
    }
  }

  /** The first request after a window that stayed within its quota starts a new count. */
  lemma NewWindow(times: seq<nat>, config: Config, n: nat)
    requires 0 < n <= |times| && n <= config.requests && config.windowSecs > 0
    requires forall k :: 0 <= k < n ==> times[k] < times[0] + config.windowSecs
    requires n < |times| ==> times[n] >= times[0] + config.windowSecs
    ensures Decided(times, config)[n..] == Decided(times[n..], config)
  {
    hide Denied;
    FirstInWindow(times, config, n - 1);
    WindowIsBefore(times, config);
    assert WindowSize(times, config) == n;
  }

  /** So does the first one after a ban. */
  lemma NewCountAfterBan(times: seq<nat>, config: Config, n: nat)
    requires config.requests < n <= |times|
    requires forall k :: 0 <= k <= config.requests ==> times[k] < times[0] + config.windowSecs
    requires var end := times[config.requests] + config.banSecs;
             && end > 0 && (forall k :: config.requests < k < n ==> times[k] < end) && (n < |times| ==> times[n] >= end)
    ensures Decided(times, config)[n..] == Decided(times[n..], config)
  {
    hide Decided; hide WindowSize;
    var q := config.requests;
    var late, windowEnd := times[q..], times[0] + config.windowSecs;
    FirstInWindow(times, config, q);
    OneWindow(times, config);
    var m := n - q - 1;
    BanEnds(late, windowEnd, config, m);
    assert late[1..][m..] == times[n..];
    assert Decided(times, config)[n..] == Denied(late, windowEnd, config)[m + 1..];
  }

  lemma BanEnds(times: seq<nat>, windowEnd: nat, config: Config, m: nat)
    requires times != [] && m < |times| && times[0] + config.banSecs > 0
    requires var rest := times[1..]; var end := times[0] + config.banSecs;
             (forall k :: 0 <= k < m ==> rest[k] < end) && (m < |rest| ==> rest[m] >= end)
    ensures Denied(times, windowEnd, config)[m + 1..] == Decided(times[1..][m..], config)
  {
    hide Decided;
    var rest, end := times[1..], times[0] + config.banSecs;
    BeforeIsBefore(rest, end);
    if m > 0 {
      FirstBefore(rest, end, m - 1);
    }
    assert Before(rest, end) == m;
  }

  // ----- eviction -----

  /** Which entries an eviction keeps: those of a ban or a window that is not over. */
  lemma EvictionKeeps(s: Limiter, config: Config, now: nat, peer: Peer)
    ensures peer in Evicted(s, config, now).entries <==>
            peer in s.entries
            && (now <= s.lastEvict || now < s.entries[peer].bannedUntil
                || (config.windowSecs > 0 && now < s.entries[peer].windowStart + config.windowSecs))
    ensures peer in Evicted(s, config, now).entries ==> Evicted(s, config, now).entries[peer] == s.entries[peer]
  {
  }
}
