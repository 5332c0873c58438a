/** What a cache contains after any run of operations, in terms of the learn history alone. */
module CacheHistory {
  import opened NetTypes
  import opened Cache

  datatype CacheOp =
    | Learn(ip: Ipv4Addr, mac: MacAddress, now: nat)
    | Lookup(ip: Ipv4Addr, now: nat)
    | Purge(now: nat)

  /** `evicted` is the live address that a learn pushed out, if any. */
  datatype CacheReply = Learned(stored: bool, evicted: Option<Ipv4Addr>) | Answer(mac: Option<MacAddress>) | Purged

  function Apply(s: CacheState, op: CacheOp): CacheState {
    match op
    case Learn(ip, mac, now) => AfterLearn(s, ip, mac, now)
    case Lookup(_, now) => AfterPurge(s, now)
    case Purge(now) => AfterPurge(s, now)
  }

  function ReplyTo(s: CacheState, op: CacheOp): CacheReply {
    match op
    case Learn(ip, _, now) =>
      var live := Unexpired(s.entries, s.ttl, now);
      Learned(s.maxEntries > 0, if MustEvict(live, s.maxEntries, ip) then Some(Oldest(live)) else None)
    case Lookup(ip, now) => Answer(Found(Unexpired(s.entries, s.ttl, now), ip))
    case Purge(_) => Purged
  }

  function Last(run: seq<CacheOp>): CacheOp
    requires |run| > 0
  {
    run[|run| - 1]
  }

  function ButLast(run: seq<CacheOp>): seq<CacheOp>
    requires |run| > 0
  {
    run[..|run| - 1]
  }

  /** The state after a run that starts with an empty cache. */
  function Run(run: seq<CacheOp>, maxEntries: nat, ttl: nat): CacheState
    decreases |run|
  {
    if run == [] then CacheState(map[], maxEntries, ttl)
    else Apply(Run(ButLast(run), maxEntries, ttl), Last(run))
  }

  /** For every address ever learned, what it was last learned as: without any bound or expiry. */
  function LastLearned(run: seq<CacheOp>): Entries
    decreases |run|
  {
    if run == [] then map[]
    else
      var before := LastLearned(ButLast(run));
      match Last(run)
      case Learn(ip, mac, now) => before[ip := CacheEntry(mac, now)]
      case _ => before
  }

  /** The clock never runs backwards. */
  ghost predicate Clocked(run: seq<CacheOp>) {
    forall i, j | 0 <= i < j < |run| :: run[i].now <= run[j].now
  }

  /** Lessons of one instant come by ascending address. */
  ghost predicate Ascending(run: seq<CacheOp>) {
    forall i, j | 0 <= i < j < |run| && run[i].Learn? && run[j].Learn? && run[i].now == run[j].now ::
      !run[j].ip.Less(run[i].ip)
  }

  /** The addresses learned after `x`; within one instant the larger address counts as the later one. */
  function Newer(learned: Entries, x: Ipv4Addr): set<Ipv4Addr>
    requires x in learned
  {
    set y | y in learned && Precedes(x, learned[x], y, learned[y])
  }

  /** At `now` the address is not expired, or it is the one just learned. */
  predicate IsLive(learned: Entries, ttl: nat, now: nat, justLearned: Option<Ipv4Addr>, ip: Ipv4Addr)
    requires ip in learned
  {
    IsFresh(learned[ip].learnedAt, ttl, now) || justLearned == Some(ip)
  }

  /** The live addresses with fewer than `maxEntries` more recently learned ones, with their last entries. */
  function MostRecentLive(learned: Entries, maxEntries: nat, ttl: nat, now: nat,
      justLearned: Option<Ipv4Addr>): Entries {
    map ip | ip in learned && IsLive(learned, ttl, now, justLearned, ip) && |Newer(learned, ip)| < maxEntries
      :: learned[ip]
  }

  function JustLearned(run: seq<CacheOp>): Option<Ipv4Addr> {
    if run != [] && Last(run).Learn? then Some(Last(run).ip) else None
  }

  function Clock(run: seq<CacheOp>): nat {
    if run == [] then 0 else Last(run).now
  }

  /** Nothing was learned after `now`. */
  ghost predicate Dated(learned: Entries, now: nat) {
    forall ip | ip in learned :: learned[ip].learnedAt <= now
  }

  /** A lesson about `ip` at `now` is the most recent one. */
  ghost predicate IsLatest(learned: Entries, ip: Ipv4Addr, now: nat) {
    forall y | y in learned && y != ip ::
      learned[y].learnedAt < now || (learned[y].learnedAt == now && y.Less(ip))
  }

  lemma SubsetCardinality<T>(x: set<T>, y: set<T>)
    requires x <= y
    ensures |x| <= |y| && (x != y ==> |x| < |y|)
  {
    assert y == x + (y - x);
    if x != y {
      var z :| z in y - x;
    }
  }

  /** The more recently an address was learned, the fewer are newer. */
  lemma NewerMonotone(learned: Entries, x: Ipv4Addr, y: Ipv4Addr)
    requires x in learned && y in Newer(learned, x)
    ensures |Newer(learned, y)| < |Newer(learned, x)|
  {
    assert Newer(learned, y) < Newer(learned, x) by {
      assert y !in Newer(learned, y);
    }
    SubsetCardinality(Newer(learned, y), Newer(learned, x));
  }

  lemma PurgeKeeps(learned: Entries, maxEntries: nat, ttl: nat, before: nat, justLearned: Option<Ipv4Addr>, now: nat)
    requires before <= now && Dated(learned, before)
    ensures Unexpired(MostRecentLive(learned, maxEntries, ttl, before, justLearned), ttl, now)
            == MostRecentLive(learned, maxEntries, ttl, now, None)
  {
  }

  /** An address newer than a kept one is kept as well. */
  lemma KeptIsUpwardClosed(learned: Entries, maxEntries: nat, ttl: nat, now: nat, x: Ipv4Addr, y: Ipv4Addr)
    requires x in MostRecentLive(learned, maxEntries, ttl, now, None)
    requires y in Newer(learned, x)
    ensures y in MostRecentLive(learned, maxEntries, ttl, now, None)
  {
    NewerMonotone(learned, x, y);
  }

  /** How the most recent lesson moves the other addresses back. */
  lemma NewerAfterLearn(learned: Entries, ip: Ipv4Addr, mac: MacAddress, now: nat, x: Ipv4Addr)
    requires x in learned && x != ip && IsLatest(learned, ip, now)
    ensures Newer(learned[ip := CacheEntry(mac, now)], x) == Newer(learned, x) + {ip}
    ensures |Newer(learned[ip := CacheEntry(mac, now)], x)|
            == |Newer(learned, x)| + if ip in Newer(learned, x) then 0 else 1
  {
    var newer := Newer(learned, x);
    assert Newer(learned[ip := CacheEntry(mac, now)], x) == newer + {ip};
    assert ip in newer ==> newer + {ip} == newer;
  }

  /** An address other than the one learned is kept exactly if it was kept and is not the one evicted. */
  lemma KeptAcrossLearn(learned: Entries, maxEntries: nat, ttl: nat, now: nat, ip: Ipv4Addr, mac: MacAddress,
      x: Ipv4Addr)
    requires maxEntries > 0 && x in learned && x != ip && IsLatest(learned, ip, now)
    ensures var live := MostRecentLive(learned, maxEntries, ttl, now, None);
            var learned' := learned[ip := CacheEntry(mac, now)];
            x in MostRecentLive(learned', maxEntries, ttl, now, Some(ip))
            <==> x in live && !(MustEvict(live, maxEntries, ip) && x == Oldest(live))
  {
    var live := MostRecentLive(learned, maxEntries, ttl, now, None);
    NewerAfterLearn(learned, ip, mac, now, x);
    if x in live {
      var newer := Newer(learned, x);
      assert newer <= live.Keys - {x} by {
        forall y | y in newer ensures y in live {
          KeptIsUpwardClosed(learned, maxEntries, ttl, now, x, y);
        }
      }
      SubsetCardinality(newer, live.Keys - {x});
      if ip in live {
        if ip !in newer {
          PrecedesIsTotal(x, learned[x], ip, learned[ip]);
          NewerMonotone(learned, ip, x);
        }
      } else if MustEvict(live, maxEntries, ip) {
        var o := Oldest(live);
        if x == o {
          assert newer == live.Keys - {x};
        } else {
          assert Precedes(o, live[o], x, live[x]);
          NewerMonotone(learned, o, x);
        }
      }
    }
  }

  lemma LearnKeeps(learned: Entries, maxEntries: nat, ttl: nat, now: nat, ip: Ipv4Addr, mac: MacAddress)
    requires maxEntries > 0 && Dated(learned, now) && IsLatest(learned, ip, now)
    ensures Admit(MostRecentLive(learned, maxEntries, ttl, now, None), maxEntries, ip, CacheEntry(mac, now))
            == MostRecentLive(learned[ip := CacheEntry(mac, now)], maxEntries, ttl, now, Some(ip))
  {
    var learned' := learned[ip := CacheEntry(mac, now)];
    var live := MostRecentLive(learned, maxEntries, ttl, now, None);
    var after := Admit(live, maxEntries, ip, CacheEntry(mac, now));
    var kept := MostRecentLive(learned', maxEntries, ttl, now, Some(ip));
    assert ip in after && ip in kept by {
      assert Newer(learned', ip) == {};
    }
    forall x | x != ip
      ensures x in after <==> x in kept
    {
      if x in learned {
        KeptAcrossLearn(learned, maxEntries, ttl, now, ip, mac, x);
      }
    }
    assert after.Keys == kept.Keys;
    assert forall x | x in kept :: after[x] == learned'[x] == kept[x];
  }

  ghost predicate IsLesson(op: CacheOp, ip: Ipv4Addr, at: nat) {
    op.Learn? && op.ip == ip && op.now == at
  }

  /** Everything learned goes back to a lesson of the run. */
  lemma {:induction false} LearnedFromRun(run: seq<CacheOp>, ip: Ipv4Addr)
    requires ip in LastLearned(run)
    ensures exists i :: 0 <= i < |run| && IsLesson(run[i], ip, LastLearned(run)[ip].learnedAt)
    decreases |run|
  {
    if Last(run).Learn? && Last(run).ip == ip {
      assert IsLesson(run[|run| - 1], ip, LastLearned(run)[ip].learnedAt);
    } else {
      LearnedFromRun(ButLast(run), ip);
      var i :| 0 <= i < |run| - 1 && IsLesson(ButLast(run)[i], ip, LastLearned(run)[ip].learnedAt);
      assert IsLesson(run[i], ip, LastLearned(run)[ip].learnedAt);
    }
  }

  /** Nothing learned before the last operation is later than it, and its own lesson, if any, is the latest. */
  lemma LearnedBefore(run: seq<CacheOp>)
    requires run != [] && Clocked(run)
    ensures Dated(LastLearned(ButLast(run)), Clock(ButLast(run)))
    ensures Clock(ButLast(run)) <= Last(run).now
    ensures Last(run).Learn? && Ascending(run) ==> IsLatest(LastLearned(ButLast(run)), Last(run).ip, Last(run).now)
  {
    var learned := LastLearned(ButLast(run));
    forall y | y in learned
      ensures learned[y].learnedAt <= Clock(ButLast(run))
      ensures Last(run).Learn? && Ascending(run) && y != Last(run).ip && learned[y].learnedAt == Last(run).now
              ==> y.Less(Last(run).ip)
    {
      LearnedFromRun(ButLast(run), y);
      var i :| 0 <= i < |run| - 1 && IsLesson(ButLast(run)[i], y, learned[y].learnedAt);
      assert run[i] == ButLast(run)[i] && run[|run| - 2] == Last(ButLast(run));
    }
  }

  /**
   Refinement: after any run whose lessons come by instant and address, the cache holds exactly the `maxEntries`
   most recently learned addresses that are live at the last operation, each with what it was last learned as.
   */
  lemma {:induction false} CacheIsMostRecentLive(run: seq<CacheOp>, maxEntries: nat, ttl: nat)
    requires Clocked(run) && Ascending(run)
    ensures Run(run, maxEntries, ttl)
            == CacheState(MostRecentLive(LastLearned(run), maxEntries, ttl, Clock(run), JustLearned(run)),
                maxEntries, ttl)
    decreases |run|
  {
    if run == [] {
      assert LastLearned(run) == map[];
    } else {
      var prefix := ButLast(run);
      assert forall i | 0 <= i < |prefix| :: prefix[i] == run[i];
      CacheIsMostRecentLive(prefix, maxEntries, ttl);
      LearnedBefore(run);
      var learned, now := LastLearned(prefix), Last(run).now;
      PurgeKeeps(learned, maxEntries, ttl, Clock(prefix), JustLearned(prefix), now);
      match Last(run) {
        case Learn(ip, mac, _) =>
          if maxEntries > 0 {
            LearnKeeps(learned, maxEntries, ttl, now, ip, mac);
          }
        case _ =>
      }
    }
  }

  /** The conclusion of the refinement, for one run. */
  ghost predicate HoldsMostRecent(run: seq<CacheOp>, maxEntries: nat, ttl: nat) {
    Run(run, maxEntries, ttl).entries
    == MostRecentLive(LastLearned(run), maxEntries, ttl, Clock(run), JustLearned(run))
  }

  lemma {:induction false} LearnedSince(run: seq<CacheOp>, i: nat)
    requires Clocked(run) && i < |run| && run[i].Learn?
    ensures run[i].ip in LastLearned(run) && run[i].now <= LastLearned(run)[run[i].ip].learnedAt
    decreases |run|
  {
    if i == |run| - 1 {
      assert LastLearned(run)[run[i].ip].learnedAt == run[i].now;
    } else {
      assert ButLast(run)[i] == run[i];
      LearnedSince(ButLast(run), i);
    }
  }

  /** A lesson that comes out of order shows in a cache for one entry. */
  lemma OutOfOrderShows(run: seq<CacheOp>, i: nat, ttl: nat)
    requires Clocked(run) && i < |run| - 1 && run[i].Learn? && Last(run).Learn?
    requires run[i].now == Last(run).now && Last(run).ip.Less(run[i].ip)
    ensures !HoldsMostRecent(run, 1, ttl)
  {
    var prefix, ip := ButLast(run), Last(run).ip;
    LearnedBefore(run);
    assert prefix[i] == run[i];
    LearnedSince(prefix, i);
    assert run[i].ip in Newer(LastLearned(run), ip);
    EntriesAreLastLearned(prefix, 1, ttl);
    assert ip in Run(run, 1, ttl).entries;
  }

  /**
   The order of the lessons is exactly what the refinement needs: it holds after every part of a run, for every
   capacity, if and only if the lessons of one instant come by ascending address.
   */
  lemma RecencyIffAscending(run: seq<CacheOp>, ttl: nat)
    requires Clocked(run)
    ensures Ascending(run) <==>
            forall n: nat, maxEntries: nat | n <= |run| :: HoldsMostRecent(run[..n], maxEntries, ttl)
  {
    if Ascending(run) {
      forall n: nat, maxEntries: nat | n <= |run| ensures HoldsMostRecent(run[..n], maxEntries, ttl) {
        CacheIsMostRecentLive(run[..n], maxEntries, ttl);
      }
    } else {
      var i, j :| 0 <= i < j < |run| && run[i].Learn? && run[j].Learn? && run[i].now == run[j].now
                  && run[j].ip.Less(run[i].ip);
      OutOfOrderShows(run[..j + 1], i, ttl);
    }
  }

  lemma SmallestGoes(a: Ipv4Addr, b: Ipv4Addr, c: Ipv4Addr, e: CacheEntry)
    requires a.Less(c) && a != b && b != c
    ensures Admit(map[c := e][a := e], 2, b, e) == map[c := e][b := e]
  {
    var two := map[c := e][a := e];
    assert |two.Keys| == |{a, c}| == 2;
    PrecedesIsTotal(a, e, c, e);
    assert IsOldest(two, Oldest(two));
  }

  lemma RunOfThree(x: CacheOp, y: CacheOp, z: CacheOp, maxEntries: nat, ttl: nat)
    ensures Run([x, y, z], maxEntries, ttl) == Apply(Apply(Apply(CacheState(map[], maxEntries, ttl), x), y), z)
  {
    assert ButLast([x, y, z]) == [x, y] && ButLast([x, y]) == [x] && ButLast([x]) == [];
    assert Run([x], maxEntries, ttl) == Apply(CacheState(map[], maxEntries, ttl), x);
    assert Run([x, y], maxEntries, ttl) == Apply(Run([x], maxEntries, ttl), y);
  }

  /** Lessons at one instant in a cache for two: all of them stay until a third address comes. */
  lemma TwoLessons(a: Ipv4Addr, c: Ipv4Addr, mac: MacAddress, now: nat, ttl: nat)
    requires a != c && ttl > 0
    ensures var e := CacheEntry(mac, now);
            AfterLearn(AfterLearn(CacheState(map[], 2, ttl), c, mac, now), a, mac, now)
            == CacheState(map[c := e][a := e], 2, ttl)
  {
    var e := CacheEntry(mac, now);
    assert AfterLearn(CacheState(map[], 2, ttl), c, mac, now) == CacheState(map[c := e], 2, ttl);
    assert |map[c := e]| == 1 && Unexpired(map[c := e], ttl, now) == map[c := e];
  }

  lemma ThirdLesson(a: Ipv4Addr, b: Ipv4Addr, c: Ipv4Addr, mac: MacAddress, now: nat, ttl: nat)
    requires a.Less(c) && a != b && b != c && ttl > 0
    ensures var e := CacheEntry(mac, now);
            AfterLearn(CacheState(map[c := e][a := e], 2, ttl), b, mac, now) == CacheState(map[b := e, c := e], 2, ttl)
  {
    var e := CacheEntry(mac, now);
    assert Unexpired(map[c := e][a := e], ttl, now) == map[c := e][a := e];
    SmallestGoes(a, b, c, e);
  }

  /**
   An input that shows it: in a cache for two, lessons of one instant about c, then the smallest address a, then b
   leave c and b, not the two addresses learned last.
   */
  lemma OneInstantEvictsByAddress(a: Ipv4Addr, b: Ipv4Addr, c: Ipv4Addr, mac: MacAddress, now: nat, ttl: nat)
    requires a.Less(b) && a.Less(c) && b != c && ttl > 0
    ensures var e := CacheEntry(mac, now);
            Run([Learn(c, mac, now), Learn(a, mac, now), Learn(b, mac, now)], 2, ttl).entries == map[b := e, c := e]
  {
    RunOfThree(Learn(c, mac, now), Learn(a, mac, now), Learn(b, mac, now), 2, ttl);
    TwoLessons(a, c, mac, now, ttl);
    ThirdLesson(a, b, c, mac, now, ttl);
  }

  /** For any clock whatever: entries are what was last learned, and there are never more than allowed. */
  lemma {:induction false} EntriesAreLastLearned(run: seq<CacheOp>, maxEntries: nat, ttl: nat)
    ensures var s := Run(run, maxEntries, ttl);
            && s.maxEntries == maxEntries && s.ttl == ttl && |s.entries| <= maxEntries
            && forall ip | ip in s.entries :: ip in LastLearned(run) && s.entries[ip] == LastLearned(run)[ip]
    decreases |run|
  {
    if run == [] {
    } else {
      EntriesAreLastLearned(ButLast(run), maxEntries, ttl);
      var before := Run(ButLast(run), maxEntries, ttl);
      var live := Unexpired(before.entries, ttl, Last(run).now);
      SubsetCardinality(live.Keys, before.entries.Keys);
    }
  }

  /** Soundness of hits for any clock: the last learned address, at a saturating age below the TTL. */
  lemma LookupIsSound(run: seq<CacheOp>, maxEntries: nat, ttl: nat, ip: Ipv4Addr, now: nat)
    ensures match ReplyTo(Run(run, maxEntries, ttl), Lookup(ip, now)).mac
            case None => true
            case Some(mac) =>
              && ip in LastLearned(run) && mac == LastLearned(run)[ip].mac
              && ttl > 0 && now < LastLearned(run)[ip].learnedAt + ttl
  {
    EntriesAreLastLearned(run, maxEntries, ttl);
  }

  /** Under the refinement's clock the hits are complete too. */
  lemma LookupIsExact(run: seq<CacheOp>, maxEntries: nat, ttl: nat, ip: Ipv4Addr, now: nat)
    requires Clocked(run + [Lookup(ip, now)]) && Ascending(run)
    ensures var learned := LastLearned(run);
            ReplyTo(Run(run, maxEntries, ttl), Lookup(ip, now))
            == Answer(if ip in learned && ttl > 0 && now < learned[ip].learnedAt + ttl
                         && |Newer(learned, ip)| < maxEntries
                      then Some(learned[ip].mac) else None)
  {
    var longer := run + [Lookup(ip, now)];
    assert ButLast(longer) == run;
    CacheIsMostRecentLive(longer, maxEntries, ttl);
  }

  /**
   A learn evicts only if every entry left is live and the cache is full of them: expired entries go
   first. It evicts one that no other entry precedes.
   */
  lemma EvictionIsLastResort(run: seq<CacheOp>, maxEntries: nat, ttl: nat, ip: Ipv4Addr, mac: MacAddress, now: nat,
                             victim: Ipv4Addr)
    requires ReplyTo(Run(run, maxEntries, ttl), Learn(ip, mac, now)) == Learned(true, Some(victim))
    ensures var live := Unexpired(Run(run, maxEntries, ttl).entries, ttl, now);
            && |live| == maxEntries && ip !in live && IsOldest(live, victim)
            && Apply(Run(run, maxEntries, ttl), Learn(ip, mac, now)).entries
               == (live - {victim})[ip := CacheEntry(mac, now)]
  {
    EntriesAreLastLearned(run, maxEntries, ttl);
    var before := Run(run, maxEntries, ttl).entries;
    SubsetCardinality(Unexpired(before, ttl, now).Keys, before.Keys);
  }

  /** An operation of a run; `extra` marks a lookup or purge that might as well not have happened. */
  datatype Event = Event(op: CacheOp, extra: bool)

  ghost predicate OnlyReadsAreExtra(events: seq<Event>) {
    forall i | 0 <= i < |events| && events[i].extra :: !events[i].op.Learn?
  }

  ghost predicate NonDecreasing(events: seq<Event>, from: nat) {
    && (forall i | 0 <= i < |events| :: from <= events[i].op.now)
    && (forall i, j | 0 <= i < j < |events| :: events[i].op.now <= events[j].op.now)
  }

  /** The replies to the operations that are not extra, in a run with the extra ones. */
  function RepliesAmongExtras(s: CacheState, events: seq<Event>): seq<CacheReply>
    decreases |events|
  {
    if events == [] then []
    else
      (if events[0].extra then [] else [ReplyTo(s, events[0].op)])
      + RepliesAmongExtras(Apply(s, events[0].op), events[1..])
  }

  /** The replies to the same operations in the run without the extra ones. */
  function RepliesAlone(s: CacheState, events: seq<Event>): seq<CacheReply>
    decreases |events|
  {
    if events == [] then []
    else if events[0].extra then RepliesAlone(s, events[1..])
    else [ReplyTo(s, events[0].op)] + RepliesAlone(Apply(s, events[0].op), events[1..])
  }

  /** States that agree on everything still alive at `now`. */
  predicate AgreeFrom(s: CacheState, t: CacheState, now: nat) {
    s.maxEntries == t.maxEntries && s.ttl == t.ttl && AfterPurge(s, now) == AfterPurge(t, now)
  }

  lemma PurgeAbsorbs(entries: Entries, ttl: nat, early: nat, late: nat)
    requires early <= late
    ensures Unexpired(Unexpired(entries, ttl, early), ttl, late) == Unexpired(entries, ttl, late)
  {
  }

  lemma AgreementPersists(s: CacheState, t: CacheState, now: nat, op: CacheOp)
    requires AgreeFrom(s, t, now) && now <= op.now
    ensures AgreeFrom(s, t, op.now)
    ensures ReplyTo(s, op) == ReplyTo(t, op) && AgreeFrom(Apply(s, op), Apply(t, op), op.now)
    ensures !op.Learn? ==> AgreeFrom(Apply(s, op), t, op.now)
  {
    PurgeAbsorbs(s.entries, s.ttl, now, op.now);
    PurgeAbsorbs(t.entries, t.ttl, now, op.now);
    PurgeAbsorbs(s.entries, s.ttl, op.now, op.now);
  }

  /**
   Non-interference: while the clock does not run backwards, extra lookups and purges, however many and
   wherever they happen, change no answer of a lookup and no eviction.
   */
  lemma {:induction false} ExtraReadsAreInvisible(s: CacheState, t: CacheState, now: nat, events: seq<Event>)
    requires AgreeFrom(s, t, now) && OnlyReadsAreExtra(events) && NonDecreasing(events, now)
    ensures RepliesAmongExtras(s, events) == RepliesAlone(t, events)
    decreases |events|
  {
    if events == [] {
    } else {
      var op, rest := events[0].op, events[1..];
      AgreementPersists(s, t, now, op);
      assert forall i | 0 <= i < |rest| :: rest[i] == events[i + 1];
      ExtraReadsAreInvisible(Apply(s, op), if events[0].extra then t else Apply(t, op), op.now, rest);
    }
  }

  /** The 32-bit number that an address denotes. */
  function AddressNumber(x: Ipv4Addr): nat {
    var a: nat, b: nat, c: nat, d: nat := x.a, x.b, x.c, x.d;
    ((a * 0x100 + b) * 0x100 + c) * 0x100 + d
  }

  /** Ties are broken by the number of the address, so one instant evicts the smallest. */
  lemma TieBreakIsNumeric(x: Ipv4Addr, ex: CacheEntry, y: Ipv4Addr, ey: CacheEntry)
    ensures x.Less(y) <==> AddressNumber(x) < AddressNumber(y)
    ensures Precedes(x, ex, y, ey) <==>
            ex.learnedAt < ey.learnedAt || (ex.learnedAt == ey.learnedAt && AddressNumber(x) < AddressNumber(y))
  {
  }
}
