/** Safety and timing of the resolver over whole runs. */
module ResolverHistory {
  import opened NetTypes
  import opened Arp
  import opened Cache
  import opened CacheHistory
  import opened Resolver

  datatype ResolverOp =
    | Resolve(target: Ipv4Addr, now: nat)
    | Observe(packet: ArpPacket, now: nat)
    | CachedMac(ip: Ipv4Addr, now: nat)

  function Step(s: ResolverState, op: ResolverOp): ResolverState {
    match op
    case Resolve(target, now) => AfterResolve(s, target, now)
    case Observe(packet, now) => AfterObserve(s, packet, now)
    case CachedMac(_, now) => s.(cache := AfterPurge(s.cache, now))
  }

  /** A fresh resolver has nothing pending; the cache it is given may hold anything. */
  predicate IsInitial(s: ResolverState) {
    s.pending == map[]
  }

  function RunFrom(s: ResolverState, run: seq<ResolverOp>): ResolverState
    decreases |run|
  {
    if run == [] then s else Step(RunFrom(s, run[..|run| - 1]), run[|run| - 1])
  }

  /** The invariant that holds whatever the clock does. */
  ghost predicate Inv(s: ResolverState) {
    && s.pending.Keys !! s.cache.entries.Keys
    && (forall ip | ip in s.pending :: 1 <= s.pending[ip].attemptsSent <= s.maxAttempts)
  }

  lemma StepKeepsInv(s: ResolverState, op: ResolverOp)
    requires Inv(s)
    ensures Inv(Step(s, op))
  {
  }

  lemma {:induction false} InvHolds(s: ResolverState, run: seq<ResolverOp>)
    requires IsInitial(s)
    ensures Inv(RunFrom(s, run))
    ensures s.maxAttempts == 0 ==> RunFrom(s, run).pending == map[]
    decreases |run|
  {
    if run == [] {
    } else {
      InvHolds(s, run[..|run| - 1]);
      StepKeepsInv(RunFrom(s, run[..|run| - 1]), run[|run| - 1]);
    }
    ConfigurationFixed(s, run);
  }

  lemma {:induction false} ConfigurationFixed(s: ResolverState, run: seq<ResolverOp>)
    ensures var t := RunFrom(s, run);
            && t.maxAttempts == s.maxAttempts && t.retryInterval == s.retryInterval && t.lastInstant == s.lastInstant
            && t.localMac == s.localMac && t.localIp == s.localIp
            && t.cache.maxEntries == s.cache.maxEntries && t.cache.ttl == s.cache.ttl
    decreases |run|
  {
    if run == [] {
    } else {
      ConfigurationFixed(s, run[..|run| - 1]);
    }
  }

  /** The two clean-up removals of `resolve`, on a hit and without attempts, never find anything. */
  lemma CleanUpRemovesNothing(s: ResolverState, run: seq<ResolverOp>, target: Ipv4Addr, now: nat)
    requires IsInitial(s)
    requires OutcomeOf(RunFrom(s, run), target, now).Resolved? || s.maxAttempts == 0
    ensures target !in RunFrom(s, run).pending
    ensures AfterResolve(RunFrom(s, run), target, now).pending == RunFrom(s, run).pending
  {
    InvHolds(s, run);
    ConfigurationFixed(s, run);
    var pending := RunFrom(s, run).pending;
    assert target !in pending ==> pending - {target} == pending;
  }

  /**
   What an observed packet does: a request or reply, to a cache with room for any entry, makes the sender known and no
   longer pending, and leaves all other targets pending as they were. Anything else changes nothing.
   */
  lemma ObserveEffect(s: ResolverState, packet: ArpPacket, now: nat)
    ensures var t := AfterObserve(s, packet, now);
            if (packet.operation == Request || packet.operation == Reply) && s.cache.maxEntries > 0
            then
              && packet.senderIp in t.cache.entries
              && t.cache.entries[packet.senderIp] == CacheEntry(packet.senderMac, now)
              && packet.senderIp !in t.pending
              && (forall ip | ip != packet.senderIp ::
                    (ip in t.pending <==> ip in s.pending) && (ip in s.pending ==> t.pending[ip] == s.pending[ip]))
            else t == s
  {
  }

  /** How one operation changes the requests of the current episode of a target. */
  function EpisodeStep(s: ResolverState, op: ResolverOp, target: Ipv4Addr, sent: seq<nat>): seq<nat> {
    match op
    case Resolve(ip, now) =>
      if ip != target then sent
      else
        (match OutcomeOf(s, ip, now)
         case SendRequest(_) => sent + [now]
         case Pending => sent
         case _ => [])
    case Observe(packet, _) => if Teaches(s, packet) && packet.senderIp == target then [] else sent
    case CachedMac(_, _) => sent
  }

  /** The instants of the requests for `target` since its last resolution, failure or lesson. */
  function Episode(s: ResolverState, run: seq<ResolverOp>, target: Ipv4Addr): seq<nat>
    decreases |run|
  {
    if run == [] then []
    else
      var prefix := run[..|run| - 1];
      EpisodeStep(RunFrom(s, prefix), run[|run| - 1], target, Episode(s, prefix, target))
  }

  /** The pending entry of a target says how many requests its episode has and when the next is due. */
  ghost predicate Summarises(s: ResolverState, target: Ipv4Addr, sent: seq<nat>) {
    && (target in s.pending <==> sent != [])
    && (target in s.pending ==>
          s.pending[target] == PendingResolution(|sent|, s.NextRetryAt(sent[|sent| - 1])))
  }

  /** The retry instants that follow the given ones are all within what the clock can represent. */
  ghost predicate Representable(s: ResolverState, instants: seq<nat>) {
    forall i | 0 <= i < |instants| :: instants[i] + s.retryInterval <= s.lastInstant
  }

  ghost predicate Spaced(instants: seq<nat>, interval: nat) {
    forall i | 0 < i < |instants| :: instants[i - 1] + interval <= instants[i]
  }

  lemma SummaryStep(s: ResolverState, op: ResolverOp, target: Ipv4Addr, sent: seq<nat>)
    requires Summarises(s, target, sent)
    ensures Summarises(Step(s, op), target, EpisodeStep(s, op, target, sent))
  {
  }

  /** The pending entry of a target is a summary of its episode. */
  lemma {:induction false} PendingSummarisesEpisode(s: ResolverState, run: seq<ResolverOp>, target: Ipv4Addr)
    requires IsInitial(s)
    ensures Summarises(RunFrom(s, run), target, Episode(s, run, target))
    decreases |run|
  {
    if run == [] {
    } else {
      var prefix := run[..|run| - 1];
      var before, op, sent := RunFrom(s, prefix), run[|run| - 1], Episode(s, prefix, target);
      PendingSummarisesEpisode(s, prefix, target);
      SummaryStep(before, op, target, sent);
      assert RunFrom(s, run) == Step(before, op) && Episode(s, run, target) == EpisodeStep(before, op, target, sent);
    }
  }

  /** No request is sent before the retry instant that the request before it set. */
  ghost predicate RespectsRetries(s: ResolverState, sent: seq<nat>) {
    forall i | 0 < i < |sent| :: s.NextRetryAt(sent[i - 1]) <= sent[i]
  }

  lemma RetriesStep(s: ResolverState, op: ResolverOp, target: Ipv4Addr, sent: seq<nat>)
    requires Summarises(s, target, sent) && RespectsRetries(s, sent)
    ensures RespectsRetries(s, EpisodeStep(s, op, target, sent))
  {
  }

  lemma {:induction false} EpisodeRespectsRetries(s: ResolverState, run: seq<ResolverOp>, target: Ipv4Addr)
    requires IsInitial(s)
    ensures RespectsRetries(s, Episode(s, run, target))
    decreases |run|
  {
    if run == [] {
    } else {
      var prefix := run[..|run| - 1];
      var before, op, sent := RunFrom(s, prefix), run[|run| - 1], Episode(s, prefix, target);
      EpisodeRespectsRetries(s, prefix, target);
      PendingSummarisesEpisode(s, prefix, target);
      ConfigurationFixed(s, prefix);
      assert RespectsRetries(before, sent);
      RetriesStep(before, op, target, sent);
      assert Episode(s, run, target) == EpisodeStep(before, op, target, sent);
    }
  }

  lemma {:induction false} SpacedSpan(instants: seq<nat>, interval: nat, deadline: nat)
    requires instants != [] && Spaced(instants, interval)
    requires instants[|instants| - 1] + interval <= deadline
    ensures instants[0] + |instants| * interval <= deadline
    decreases |instants|
  {
    var n := |instants|;
    if n == 1 {
    } else {
      var prefix := instants[..n - 1];
      SpacedSpan(prefix, interval, instants[n - 1]);
      assert n * interval == |prefix| * interval + interval;
    }
  }

  lemma FailedIsFull(s: ResolverState, target: Ipv4Addr, now: nat, sent: seq<nat>)
    requires Summarises(s, target, sent) && Inv(s) && s.maxAttempts > 0
    requires OutcomeOf(s, target, now) == Failed
    ensures |sent| == s.maxAttempts && s.NextRetryAt(sent[|sent| - 1]) <= now
  {
  }

  /** What a failure says about the episode it ends. */
  lemma FailureEndsFullEpisode(s: ResolverState, run: seq<ResolverOp>, target: Ipv4Addr, now: nat)
    requires IsInitial(s) && s.maxAttempts > 0
    requires OutcomeOf(RunFrom(s, run), target, now) == Failed
    ensures var sent := Episode(s, run, target);
            |sent| == s.maxAttempts && s.NextRetryAt(sent[|sent| - 1]) <= now
  {
    PendingSummarisesEpisode(s, run, target);
    InvHolds(s, run);
    ConfigurationFixed(s, run);
    FailedIsFull(RunFrom(s, run), target, now, Episode(s, run, target));
  }

  /** None of the operations sends a request for `target`. */
  ghost predicate Unasked(s: ResolverState, ops: seq<ResolverOp>, target: Ipv4Addr) {
    forall i | 0 <= i < |ops| && ops[i].Resolve? && ops[i].target == target ::
      !OutcomeOf(RunFrom(s, ops[..i]), target, ops[i].now).SendRequest?
  }

  lemma {:induction false} UnaskedStaysIdle(s: ResolverState, ops: seq<ResolverOp>, target: Ipv4Addr)
    requires target !in s.pending && Unasked(s, ops, target)
    ensures target !in RunFrom(s, ops).pending
    decreases |ops|
  {
    if ops == [] {
      assert RunFrom(s, ops) == s;
    } else {
      var prefix := ops[..|ops| - 1];
      assert forall i | 0 <= i < |prefix| :: prefix[i] == ops[i] && prefix[..i] == ops[..i];
      UnaskedStaysIdle(s, prefix, target);
    }
  }

  /**
   The episode is over after the failure: the target is no longer pending, and its next request, however many
   operations later, counts as the first.
   */
  lemma FailureStartsOver(s: ResolverState, run: seq<ResolverOp>, target: Ipv4Addr, now: nat, ops: seq<ResolverOp>,
                          later: nat)
    requires OutcomeOf(RunFrom(s, run), target, now) == Failed
    requires Unasked(AfterResolve(RunFrom(s, run), target, now), ops, target)
    ensures Episode(s, run + [Resolve(target, now)], target) == []
    ensures var t := RunFrom(AfterResolve(RunFrom(s, run), target, now), ops);
            && target !in t.pending
            && (OutcomeOf(t, target, later).SendRequest? ==>
                  var u := AfterResolve(t, target, later);
                  target in u.pending && u.pending[target] == PendingResolution(1, s.NextRetryAt(later)))
  {
    var longer := run + [Resolve(target, now)];
    assert longer[..|longer| - 1] == run;
    var failed := AfterResolve(RunFrom(s, run), target, now);
    UnaskedStaysIdle(failed, ops, target);
    ConfigurationFixed(s, run);
    ConfigurationFixed(failed, ops);
  }

  lemma {:induction false} SpacedBound(instants: seq<nat>, interval: nat, i: nat)
    requires Spaced(instants, interval) && i < |instants|
    ensures instants[i] <= instants[|instants| - 1]
    decreases |instants| - i
  {
    if i == |instants| - 1 {
    } else {
      assert instants[i] + interval <= instants[i + 1];
      SpacedBound(instants, interval, i + 1);
    }
  }

  lemma RepresentableIsSpaced(s: ResolverState, sent: seq<nat>, now: nat)
    requires sent != [] && RespectsRetries(s, sent) && Representable(s, sent)
    requires s.NextRetryAt(sent[|sent| - 1]) <= now
    ensures Spaced(sent + [now], s.retryInterval) && sent[0] + |sent| * s.retryInterval <= now
  {
    assert forall i | 0 <= i < |sent| :: s.NextRetryAt(sent[i]) == sent[i] + s.retryInterval;
    SpacedSpan(sent, s.retryInterval, now);
  }

  lemma SpacedIsRepresentable(s: ResolverState, sent: seq<nat>, now: nat)
    requires now <= s.lastInstant && Spaced(sent + [now], s.retryInterval)
    ensures Representable(s, sent)
  {
    forall i | 0 <= i < |sent| ensures sent[i] + s.retryInterval <= s.lastInstant {
      assert (sent + [now])[i] + s.retryInterval <= (sent + [now])[i + 1];
      SpacedBound(sent + [now], s.retryInterval, i + 1);
    }
  }

  /**
   Attempts and timing: a failure ends an episode of exactly `maxAttempts` requests. If no retry instant of the
   episode overflows the clock, each request comes at least the retry interval after the one before, and the
   failure at least `maxAttempts` intervals after the first; and the spacing holds only then.
   */
  lemma FailureAfterAllAttempts(s: ResolverState, run: seq<ResolverOp>, target: Ipv4Addr, now: nat)
    requires IsInitial(s) && s.maxAttempts > 0
    requires OutcomeOf(RunFrom(s, run), target, now) == Failed
    ensures var sent := Episode(s, run, target);
            && |sent| == s.maxAttempts
            && (Representable(s, sent) ==>
                  Spaced(sent + [now], s.retryInterval) && sent[0] + s.maxAttempts * s.retryInterval <= now)
            && (now <= s.lastInstant ==> (Spaced(sent + [now], s.retryInterval) <==> Representable(s, sent)))
  {
    var sent := Episode(s, run, target);
    FailureEndsFullEpisode(s, run, target, now);
    EpisodeRespectsRetries(s, run, target);
    if Representable(s, sent) {
      RepresentableIsSpaced(s, sent, now);
    }
    if now <= s.lastInstant && Spaced(sent + [now], s.retryInterval) {
      SpacedIsRepresentable(s, sent, now);
    }
  }

  /**
   The spacing of one request: asking again before the retry interval is over never sends another, exactly if the
   clock can represent the retry instant.
   */
  lemma PendingUntilRetry(s: ResolverState, target: Ipv4Addr, now: nat)
    requires now <= s.lastInstant && OutcomeOf(s, target, now).SendRequest?
    ensures (forall later: nat | now <= later <= s.lastInstant && later < now + s.retryInterval ::
               OutcomeOf(AfterResolve(s, target, now), target, later) == Pending)
            <==> s.retryInterval == 0 || now + s.retryInterval <= s.lastInstant
  {
    assert forall later: nat | now <= later ::
        OutcomeOf(AfterResolve(s, target, now), target, later) == Pending
        <==> later < s.NextRetryAt(now);
    if now + s.retryInterval > s.lastInstant {
      assert OutcomeOf(AfterResolve(s, target, now), target, now) != Pending;
    }
  }

  /** Without it the spacing is lost altogether: asking twice at one instant sends two requests. */
  lemma OverflowRetriesAtOnce(s: ResolverState, target: Ipv4Addr, now: nat)
    requires IsInitial(s) && s.maxAttempts >= 2 && s.cache.entries == map[] && now <= s.lastInstant
    ensures Episode(s, [Resolve(target, now), Resolve(target, now)], target)
            == if s.retryInterval == 0 || now + s.retryInterval > s.lastInstant then [now, now] else [now]
  {
    var one, two := [Resolve(target, now)], [Resolve(target, now), Resolve(target, now)];
    assert one[..0] == [] && two[..1] == one;
    assert RunFrom(s, []) == s;
    assert RunFrom(s, one) == AfterResolve(s, target, now);
    assert Episode(s, one, target) == [] + [now];
  }

  /**
   The right outcome for a target whose episode consists of the requests at the instants `sent`: a cached target is
   resolved. Otherwise the first request is sent at once, the target is pending exactly until the retry instant of the
   last request, and from then on the next request is sent, or the resolution fails if all attempts have been made.
   */
  ghost predicate IsAnswer(s: ResolverState, target: Ipv4Addr, sent: seq<nat>, now: nat, outcome: ResolveOutcome) {
    var request := ArpPacket(6, 4, Request, s.localMac, s.localIp, MacAddress(0, 0, 0, 0, 0, 0), target, []);
    if target in s.cache.entries && s.cache.ttl > 0 && now < s.cache.entries[target].learnedAt + s.cache.ttl
    then outcome == Resolved(s.cache.entries[target].mac)
    else if s.maxAttempts == 0 then outcome == Failed
    else if sent == [] then outcome == SendRequest(request)
    else
      var last := sent[|sent| - 1];
      if now < (if last + s.retryInterval <= s.lastInstant then last + s.retryInterval else last)
      then outcome == Pending
      else if |sent| < s.maxAttempts then outcome == SendRequest(request)
      else outcome == Failed
  }

  lemma AnswerBySummary(s: ResolverState, target: Ipv4Addr, sent: seq<nat>, now: nat)
    requires Summarises(s, target, sent)
    ensures IsAnswer(s, target, sent, now, OutcomeOf(s, target, now))
  {
  }

  /** What is answered at any time after any run, from the history of the requests. */
  lemma ResolveByEpisode(s: ResolverState, run: seq<ResolverOp>, target: Ipv4Addr, now: nat)
    requires IsInitial(s)
    ensures |Episode(s, run, target)| <= s.maxAttempts
    ensures IsAnswer(RunFrom(s, run), target, Episode(s, run, target), now, OutcomeOf(RunFrom(s, run), target, now))
    ensures RunFrom(s, run).(cache := s.cache, pending := s.pending) == s && RunFrom(s, run).cache.ttl == s.cache.ttl
  {
    PendingSummarisesEpisode(s, run, target);
    InvHolds(s, run);
    ConfigurationFixed(s, run);
    AnswerBySummary(RunFrom(s, run), target, Episode(s, run, target), now);
  }

  /** The operations that concern a target: its own resolutions, and every observed packet. */
  function Concerning(ops: seq<ResolverOp>, target: Ipv4Addr): seq<ResolverOp> {
    if ops == [] then []
    else
      var rest := Concerning(ops[1..], target);
      if ops[0].Observe? || (ops[0].Resolve? && ops[0].target == target) then [ops[0]] + rest else rest
  }

  /** The outcomes of the resolutions of one target. */
  function OutcomesFor(s: ResolverState, ops: seq<ResolverOp>, target: Ipv4Addr): seq<ResolveOutcome>
    decreases |ops|
  {
    if ops == [] then []
    else
      (if ops[0].Resolve? && ops[0].target == target then [OutcomeOf(s, target, ops[0].now)] else [])
      + OutcomesFor(Step(s, ops[0]), ops[1..], target)
  }

  ghost predicate NonDecreasingOps(ops: seq<ResolverOp>, from: nat) {
    && (forall i | 0 <= i < |ops| :: from <= ops[i].now)
    && (forall i, j | 0 <= i < j < |ops| :: ops[i].now <= ops[j].now)
  }

  /** States that treat `target` alike from `now` on. */
  predicate AgreeOn(s: ResolverState, t: ResolverState, target: Ipv4Addr, now: nat) {
    && AgreeFrom(s.cache, t.cache, now)
    && (target in s.pending <==> target in t.pending)
    && (target in s.pending ==> s.pending[target] == t.pending[target])
    && t.(cache := s.cache, pending := s.pending) == s
  }

  /** What an operation asks of the cache. */
  function CacheOpOf(op: ResolverOp): CacheOp {
    match op
    case Resolve(target, now) => Lookup(target, now)
    case Observe(packet, now) =>
      if packet.operation.Unknown? then Purge(now) else Learn(packet.senderIp, packet.senderMac, now)
    case CachedMac(ip, now) => Lookup(ip, now)
  }

  lemma ConcernedAgree(s: ResolverState, t: ResolverState, target: Ipv4Addr, now: nat, op: ResolverOp)
    requires AgreeOn(s, t, target, now) && now <= op.now
    requires op.Observe? || (op.Resolve? && op.target == target)
    ensures op.Resolve? ==> OutcomeOf(s, target, op.now) == OutcomeOf(t, target, op.now)
    ensures AgreeOn(Step(s, op), Step(t, op), target, op.now)
  {
    AgreementPersists(s.cache, t.cache, now, CacheOpOf(op));
  }

  lemma UnconcernedAgree(s: ResolverState, t: ResolverState, target: Ipv4Addr, now: nat, op: ResolverOp)
    requires AgreeOn(s, t, target, now) && now <= op.now
    requires op.CachedMac? || (op.Resolve? && op.target != target)
    ensures AgreeOn(Step(s, op), t, target, op.now)
  {
    AgreementPersists(s.cache, t.cache, now, CacheOpOf(op));
  }

  /**
   Non-interference: while the clock does not run backwards, resolving other targets and asking the cache,
   interleaved in any way, changes no outcome for a target.
   */
  lemma {:induction false} OtherTargetsDoNotInterfere(
    s: ResolverState, t: ResolverState, target: Ipv4Addr, now: nat, ops: seq<ResolverOp>)
    requires AgreeOn(s, t, target, now) && NonDecreasingOps(ops, now)
    ensures OutcomesFor(s, ops, target) == OutcomesFor(t, Concerning(ops, target), target)
    decreases |ops|
  {
    if ops == [] {
    } else {
      var op, rest := ops[0], ops[1..];
      assert forall i | 0 <= i < |rest| :: rest[i] == ops[i + 1];
      if op.Observe? || (op.Resolve? && op.target == target) {
        ConcernedAgree(s, t, target, now, op);
        OtherTargetsDoNotInterfere(Step(s, op), Step(t, op), target, op.now, rest);
        assert Concerning(ops, target)[1..] == Concerning(rest, target);
      } else {
        UnconcernedAgree(s, t, target, now, op);
        OtherTargetsDoNotInterfere(Step(s, op), t, target, op.now, rest);
      }
    }
  }
}
