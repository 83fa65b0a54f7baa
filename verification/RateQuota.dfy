/** How many requests a peer can get through in any interval of time. */
module RateQuota {
  import opened RateLimiting

  /** Allows granted to `peer` at times from `from` to `to`. */
  function AllowsIn(hits: seq<Hit>, decisions: seq<Decision>, peer: Peer, from: nat, to: nat): nat
    requires |hits| == |decisions|
  {
    if hits == [] then 0
    else
      (if hits[0].peer == peer && from <= hits[0].now <= to && decisions[0] == Allow then 1 else 0)
      + AllowsIn(hits[1..], decisions[1..], peer, from, to)
  }

  /** The shortest time between two window starts of a peer. */
  function Spacing(config: Config): nat {
    if config.windowSecs <= config.banSecs then config.windowSecs else config.banSecs
  }

  /** How many windows can start from `start` to `to`, `gap` apart. */
  function Windows(start: nat, to: nat, gap: nat): nat
    requires gap >= 1
    decreases if start <= to then to - start + 1 else 0
  {
    if start > to then 0 else 1 + Windows(start + gap, to, gap)
  }

  lemma {:induction false} LaterStartFewerWindows(start: nat, later: nat, to: nat, gap: nat)
    requires gap >= 1 && start <= later
    ensures Windows(later, to, gap) <= Windows(start, to, gap)
    decreases if later <= to then to - later + 1 else 0
  {
    if later <= to {
      LaterStartFewerWindows(start + gap, later + gap, to, gap);
    }
  }

  lemma {:induction false} WindowsInInterval(from: nat, length: nat, gap: nat)
    requires gap >= 1
    ensures Windows(from, from + length, gap) == length / gap + 1
    decreases length
  {
    if length < gap {
      assert length / gap == 0;
    } else {
      WindowsFrom(from + gap, from + length, gap);
      WindowsInInterval(from, length - gap, gap);
      WindowsShift(from, from + gap, length - gap, gap);
      QuotientStep(length, gap);
    }
  }

  lemma WindowsFrom(start: nat, to: nat, gap: nat)
    requires gap >= 1 && start <= to
    ensures Windows(start, to, gap) == 1 + Windows(start + gap, to, gap)
  {
  }

  lemma {:induction false} WindowsShift(a: nat, b: nat, length: nat, gap: nat)
    requires gap >= 1
    ensures Windows(a, a + length, gap) == Windows(b, b + length, gap)
    decreases length
  {
    if length >= gap {
      WindowsShift(a + gap, b + gap, length - gap, gap);
    }
  }

  lemma QuotientStep(length: nat, gap: nat)
    requires gap >= 1 && length >= gap
    ensures length / gap == (length - gap) / gap + 1
  {
    var q, r := (length - gap) / gap, (length - gap) % gap;
    assert length == gap * (q + 1) + r;
    QuotientIs(length, gap, q + 1, r);
  }

  lemma QuotientIs(length: nat, gap: nat, q: nat, r: nat)
    requires gap >= 1 && length == gap * q + r && r < gap
    ensures length / gap == q
  {
    var k := length / gap;
    assert length == gap * k + length % gap;
    assert (k - q) * gap == r - length % gap;
    SmallMultiple(k - q, gap);
  }

  lemma SmallMultiple(x: int, gap: int)
    requires 0 < gap && -gap < x * gap < gap
    ensures x == 0
  {
  }

  // ----- one entry's allowance -----

  /** Entries as the limiter leaves them: their window is not in the future, and
      a ban outlasts its window's start by the ban time. */
  predicate Sound(e: Entry, config: Config, now: nat) {
    e.windowStart <= now && (e.bannedUntil != 0 ==> e.bannedUntil >= e.windowStart + config.banSecs)
  }

  predicate SoundTable(entries: Table, config: Config, now: nat) {
    forall p :: p in entries ==> Sound(entries[p], config, now)
  }

  function Later(a: nat, b: nat): nat {
    if a >= b then a else b
  }

  /** Allows that are left in the open window of a peer. */
  function Left(entries: Table, config: Config, peer: Peer): nat {
    if peer in entries && entries[peer].bannedUntil == 0 && entries[peer].count < config.requests
    then config.requests - entries[peer].count else 0
  }

  /** The earliest time, from `now` on, at which a new window of the peer can start. */
  function NextWindow(entries: Table, config: Config, peer: Peer, now: nat): nat {
    if peer in entries then Later(entries[peer].windowStart + Spacing(config), now) else now
  }

  /** Allows that a peer can still get from `now` to `to`. */
  function Allowance(entries: Table, config: Config, peer: Peer, now: nat, to: nat): nat
    requires Spacing(config) >= 1
  {
    Left(entries, config, peer)
    + config.requests * Windows(NextWindow(entries, config, peer, now), to, Spacing(config))
  }

  lemma TimesGrows(a: nat, b: nat, c: nat)
    requires a <= b
    ensures c * a <= c * b
  {
  }

  lemma AllowanceShrinks(entries: Table, config: Config, peer: Peer, now: nat, later: nat, to: nat)
    requires Spacing(config) >= 1 && now <= later
    ensures Allowance(entries, config, peer, later, to) <= Allowance(entries, config, peer, now, to)
  {
    var a, b := NextWindow(entries, config, peer, now), NextWindow(entries, config, peer, later);
    LaterStartFewerWindows(a, b, to, Spacing(config));
    TimesGrows(Windows(b, to, Spacing(config)), Windows(a, to, Spacing(config)), config.requests);
  }

  /** A window that starts now takes one of the windows still possible. */
  lemma WindowStarts(config: Config, next: nat, now: nat, to: nat)
    requires Spacing(config) >= 1 && next <= now <= to
    ensures config.requests + config.requests * Windows(now + Spacing(config), to, Spacing(config))
            <= config.requests * Windows(next, to, Spacing(config))
  {
    var gap := Spacing(config);
    LaterStartFewerWindows(next, now, to, gap);
    TimesGrows(Windows(now, to, gap), Windows(next, to, gap), config.requests);
    assert config.requests * Windows(now, to, gap)
        == config.requests * 1 + config.requests * Windows(now + gap, to, gap);
  }

  /** An allowed request uses up part of the allowance. */
  lemma RecordUsesAllowance(entries: Table, config: Config, peer: Peer, now: nat, to: nat)
    requires Spacing(config) >= 1 && SoundTable(entries, config, now) && now <= to
    ensures var (next, decision) := Record(entries, config, peer, now);
            && SoundTable(next, config, now)
            && (if decision == Allow then 1 else 0) + Allowance(next, config, peer, now, to)
               <= Allowance(entries, config, peer, now, to)
  {
    hide Windows;
    var gap := Spacing(config);
    var (next, decision) := Record(entries, config, peer, now);
    var start := NextWindow(entries, config, peer, now);
    if next[peer].windowStart == now && next[peer].count == 1 {
      if peer !in entries || start == now {
        WindowStarts(config, start, now, to);
      }
    }
  }

  lemma OthersKeepAllowance(entries: Table, config: Config, peer: Peer, other: Peer, now: nat, to: nat)
    requires Spacing(config) >= 1 && SoundTable(entries, config, now) && other != peer
    ensures var next := Record(entries, config, other, now).0;
            SoundTable(next, config, now)
            && Allowance(next, config, peer, now, to) == Allowance(entries, config, peer, now, to)
  {
  }

  lemma SoundLater(entries: Table, config: Config, now: nat, later: nat)
    requires SoundTable(entries, config, now) && now <= later
    ensures SoundTable(entries, config, later)
  {
  }

  lemma {:induction false} NothingAfter(hits: seq<Hit>, decisions: seq<Decision>, peer: Peer, from: nat, to: nat)
    requires |hits| == |decisions| && forall h :: h in hits ==> h.now > to
    ensures AllowsIn(hits, decisions, peer, from, to) == 0
  {
    if hits != [] {
      NothingAfter(hits[1..], decisions[1..], peer, from, to);
    }
  }

  lemma {:induction false} UnboundedLength(entries: Table, config: Config, hits: seq<Hit>)
    ensures |RunUnbounded(entries, config, hits)| == |hits|
    decreases |hits|
  {
    hide Record;
    if hits != [] {
      if config.enabled {
        UnboundedLength(Record(entries, config, hits[0].peer, hits[0].now).0, config, hits[1..]);
      } else {
        UnboundedLength(entries, config, hits[1..]);
      }
    }
  }

  /** From any point of a run on, a peer gets no more than its allowance. */
  lemma {:induction false} AllowsWithinAllowance(
    entries: Table, config: Config, hits: seq<Hit>, peer: Peer, from: nat, now: nat, to: nat)
    requires config.enabled && Spacing(config) >= 1
    requires SoundTable(entries, config, now) && Chronological(hits, now)
             && |RunUnbounded(entries, config, hits)| == |hits|
    ensures AllowsIn(hits, RunUnbounded(entries, config, hits), peer, from, to) <=
            Allowance(entries, config, peer, now, to)
    decreases |hits|
  {
    hide Record; hide Allowance; hide SoundTable; hide Spacing;
    if hits != [] {
      var hit := hits[0];
      var (next, decision) := Record(entries, config, hit.peer, hit.now);
      var decisions := RunUnbounded(entries, config, hits);
      if hit.now > to {
        forall h | h in hits ensures h.now > to {
          var i :| 0 <= i < |hits| && hits[i] == h;
        }
        NothingAfter(hits, decisions, peer, from, to);
      } else {
        SoundLater(entries, config, now, hit.now);
        AllowanceShrinks(entries, config, peer, now, hit.now, to);
        if hit.peer == peer {
          RecordUsesAllowance(entries, config, peer, hit.now, to);
        } else {
          OthersKeepAllowance(entries, config, peer, hit.peer, hit.now, to);
        }
        UnboundedLength(next, config, hits[1..]);
        assert decisions[1..] == RunUnbounded(next, config, hits[1..]);
        AllowsWithinAllowance(next, config, hits[1..], peer, from, hit.now, to);
      }
    }
  }

  /** What can be granted from `from` on, before anything is: one open window and
      every window that can start. */
  lemma AllowanceAtStart(entries: Table, config: Config, peer: Peer, from: nat, length: nat)
    requires Spacing(config) >= 1
    ensures Allowance(entries, config, peer, from, from + length) <= (length / Spacing(config) + 2) * config.requests
  {
    hide Windows;
    var gap, to := Spacing(config), from + length;
    var start := NextWindow(entries, config, peer, from);
    LaterStartFewerWindows(from, start, to, gap);
    WindowsInInterval(from, length, gap);
    var windows := length / gap + 1;
    TimesGrows(Windows(start, to, gap), windows, config.requests);
    assert config.requests + config.requests * windows == (windows + 1) * config.requests;
  }

  lemma {:induction false} QuotaFrom(
    entries: Table, config: Config, hits: seq<Hit>, peer: Peer, now: nat, from: nat, length: nat)
    requires config.enabled && Spacing(config) >= 1
    requires SoundTable(entries, config, now) && Chronological(hits, now)
             && |RunUnbounded(entries, config, hits)| == |hits|
    ensures AllowsIn(hits, RunUnbounded(entries, config, hits), peer, from, from + length)
            <= (length / Spacing(config) + 2) * config.requests
    decreases |hits|
  {
    hide Record; hide Allowance; hide SoundTable; hide Spacing;
    if hits != [] {
      var hit := hits[0];
      if hit.now >= from {
        SoundLater(entries, config, now, Later(now, from));
        AllowsWithinAllowance(entries, config, hits, peer, from, Later(now, from), from + length);
        AllowanceShrinks(entries, config, peer, from, Later(now, from), from + length);
        AllowanceAtStart(entries, config, peer, from, length);
      } else {
        var (next, decision) := Record(entries, config, hit.peer, hit.now);
        SoundLater(entries, config, now, hit.now);
        RecordUsesAllowance(entries, config, hit.peer, hit.now, hit.now);
        UnboundedLength(next, config, hits[1..]);
        assert RunUnbounded(entries, config, hits)[1..] == RunUnbounded(next, config, hits[1..]);
        QuotaFrom(next, config, hits[1..], peer, hit.now, from, length);
      }
    } else {
      NonNegative(length / Spacing(config) + 2, config.requests);
    }
  }

  lemma NonNegative(a: nat, b: nat)
    ensures a * b >= 0
  {
  }

  /** The quota over time: with a clock that never goes back and a table that
      never stays full, any interval of `length` seconds grants a peer at most
      this many requests, although an expired ban restarts a window early. */
  lemma RateIsBounded(config: Config, hits: seq<Hit>, peer: Peer, from: nat, length: nat)
    requires config.enabled && config.windowSecs >= 1 && config.banSecs >= 1
    requires Chronological(hits, 0) && NeverFailsOpen(Limiter(map[], 0), config, hits)
    ensures var decisions := Run(Limiter(map[], 0), config, hits);
            && |decisions| == |hits|
            && AllowsIn(hits, decisions, peer, from, from + length)
               <= (length / Spacing(config) + 2) * config.requests
  {
    hide Run; hide RunUnbounded; hide NeverFailsOpen; hide AllowsIn;
    EvictionIsInvisible(Limiter(map[], 0), map[], config, hits, 0);
    UnboundedLength(map[], config, hits);
    QuotaFrom(map[], config, hits, peer, 0, from, length);
  }
}
