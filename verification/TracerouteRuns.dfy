/** What holds of the path diagnostics after every run of calls. */
module TracerouteRuns {
  import opened Bytes
  import opened EventQueue
  import opened Diagnostics
  import opened Traceroute

  // ---------- the probes of a run ----------

  /** One result filed under a hop that exists; a loss takes no time. */
  datatype Probe = Probe(hop: nat, success: bool, lat: u32)

  /** What a caller files with `traceroute_record_hop`; hops out of range file nothing. */
  function External(c: Call): seq<Probe> {
    if c.RecordHop? && InRange(c.hop) then [Probe(c.hop, c.success, c.lat)] else []
  }

  /** What the context itself files: an answer heard, or a timeout noticed, under the hop of the last request. */
  function Own(s: State, c: Call): seq<Probe> {
    if c.FeedInput? && IsAnswer(c.d) && s.role.Requester?
    then [Probe(HopOf(s.lastSeq), true, Latency(if c.ts != 0 then c.ts else s.sendTs, c.ts))]
    else if c.ProcessAt? && Overdue(s.waiting, s.sendTs, c.ts) then [Probe(HopOf(s.lastSeq), false, 0)]
    else []
  }

  /** The probes filed since the last reset. */
  function Probes(role: Role, size: nat, calls: seq<Call>): seq<Probe>
    decreases |calls|
  {
    if calls == [] then []
    else
      var before, c := calls[..|calls| - 1], calls[|calls| - 1];
      if c.Reset? then [] else Probes(role, size, before) + (Own(Run(role, size, before), c) + External(c))
  }

  /** Those among them that callers filed. */
  function Externals(calls: seq<Call>): seq<Probe>
    decreases |calls|
  {
    if calls == [] then []
    else
      var before, c := calls[..|calls| - 1], calls[|calls| - 1];
      if c.Reset? then [] else Externals(before) + External(c)
  }

  function Hits(ps: seq<Probe>, hop: nat, success: bool): nat
    decreases |ps|
  {
    if ps == [] then 0
    else
      var p := ps[|ps| - 1];
      Hits(ps[..|ps| - 1], hop, success) + if p.hop == hop && p.success == success then 1 else 0
  }

  /** What the successes filed under a hop took together. */
  function TimeOf(ps: seq<Probe>, hop: nat): nat
    decreases |ps|
  {
    if ps == [] then 0
    else
      var p := ps[|ps| - 1];
      TimeOf(ps[..|ps| - 1], hop) + if p.hop == hop && p.success then p.lat else 0
  }

  /** All probes with this outcome, whatever their hop. */
  function Outcomes(ps: seq<Probe>, success: bool): nat
    decreases |ps|
  {
    if ps == [] then 0
    else Outcomes(ps[..|ps| - 1], success) + if ps[|ps| - 1].success == success then 1 else 0
  }

  function SumHits(ps: seq<Probe>, n: nat, success: bool): nat {
    if n == 0 then 0 else SumHits(ps, n - 1, success) + Hits(ps, n - 1, success)
  }

  /** The sum of the first `n` counters. */
  function Sum(row: Row, n: nat): nat
    requires n <= MAX_HOPS
  {
    if n == 0 then 0 else Sum(row, n - 1) + row[n - 1]
  }

  function Total(row: Row): nat {
    Sum(row, |row|)
  }

  predicate AllInRange(ps: seq<Probe>) {
    forall p :: p in ps ==> InRange(p.hop)
  }

  lemma SumHitsSnoc(ps: seq<Probe>, p: Probe, n: nat, success: bool)
    ensures SumHits(ps + [p], n, success)
         == SumHits(ps, n, success) + if p.success == success && p.hop < n then 1 else 0
  {
    if n > 0 {
      SumHitsSnoc(ps, p, n - 1, success);
      assert (ps + [p])[..|ps|] == ps;
    }
  }

  /** Every probe is filed under exactly one hop. */
  lemma {:induction false} HitsAddUp(ps: seq<Probe>, success: bool)
    requires AllInRange(ps)
    ensures SumHits(ps, MAX_HOPS, success) == Outcomes(ps, success)
    decreases |ps|
  {
    if ps == [] {
      NoHits(MAX_HOPS, success);
    } else {
      var init, p := ps[..|ps| - 1], ps[|ps| - 1];
      assert p in ps;
      HitsAddUp(init, success);
      SumHitsSnoc(init, p, MAX_HOPS, success);
      assert init + [p] == ps;
    }
  }

  lemma NoHits(n: nat, success: bool)
    ensures SumHits([], n, success) == 0
  {
  }

  // ---------- the hop tables ----------

  /** Each table counts, in 32 bits, the probes filed under each hop. */
  predicate CountHits(h: Hops, ps: seq<Probe>) {
    forall i :: 0 <= i < MAX_HOPS ==>
      && h.replies[i] == h.count[i] == Hits(ps, i, true) % TWO32
      && h.timeouts[i] == Hits(ps, i, false) % TWO32
      && h.sumLat[i] == TimeOf(ps, i) % TWO32
  }

  lemma RecordedCounts(h: Hops, ps: seq<Probe>, p: Probe)
    requires CountHits(h, ps) && InRange(p.hop)
    ensures CountHits(Recorded(h, p.hop, p.success, p.lat), ps + [p])
  {
    assert (ps + [p])[..|ps|] == ps;
    CountOneMore(Hits(ps, p.hop, p.success));
    CountMore(TimeOf(ps, p.hop), p.lat);
  }

  /** A step other than a reset files no probe, or the one probe by which the hop tables change. */
  lemma StepFilesOne(s: State, c: Call)
    requires !c.Reset?
    ensures var filed, before, after := Own(s, c) + External(c), s.hops, Step(s, c).hops;
            FilesOne(before, after, filed)
  {
  }

  predicate FilesOne(before: Hops, after: Hops, filed: seq<Probe>) {
    || (filed == [] && after == before)
    || (|filed| == 1 && InRange(filed[0].hop)
        && after == Recorded(before, filed[0].hop, filed[0].success, filed[0].lat))
  }

  lemma StepCountsHits(s: State, c: Call, ps: seq<Probe>)
    requires CountHits(s.hops, ps) && AllInRange(ps)
    ensures var more := if c.Reset? then [] else ps + (Own(s, c) + External(c));
            CountHits(Step(s, c).hops, more) && AllInRange(more)
  {
    if !c.Reset? {
      StepFilesOne(s, c);
      Filed(s.hops, Step(s, c).hops, ps, Own(s, c) + External(c));
    }
  }

  lemma Filed(before: Hops, after: Hops, ps: seq<Probe>, filed: seq<Probe>)
    requires CountHits(before, ps) && AllInRange(ps) && FilesOne(before, after, filed)
    ensures CountHits(after, ps + filed) && AllInRange(ps + filed)
  {
    if filed == [] {
      assert ps + filed == ps;
    } else {
      assert filed == [filed[0]];
      RecordedCounts(before, ps, filed[0]);
    }
  }

  /** In every reachable state the hop tables count the probes filed since the last reset. */
  lemma {:induction false} HopTablesCountProbes(role: Role, size: nat, calls: seq<Call>)
    ensures CountHits(Run(role, size, calls).hops, Probes(role, size, calls))
    ensures AllInRange(Probes(role, size, calls))
    decreases |calls|
  {
    if calls != [] {
      var before, c := calls[..|calls| - 1], calls[|calls| - 1];
      HopTablesCountProbes(role, size, before);
      StepCountsHits(Run(role, size, before), c, Probes(role, size, before));
    }
  }

  // ---------- the ledger ----------

  predicate IsReplyEvent(e: Event) { !e.timedOut }

  predicate IsTimeout(e: Event) { e.timedOut }

  /** The global counters against the events pushed. */
  predicate Balanced(s: State) {
    && s.counters.replies == Seen(s.books, IsReplyEvent) % TWO32
    && s.counters.timeouts == Seen(s.books, IsTimeout) % TWO32
  }

  lemma EventSeen(cap: nat, b: Books<Event>, e: Event)
    ensures var t := Enter(cap, b, Op<Event>.Push(e));
            && Seen(t, IsReplyEvent) == Seen(b, IsReplyEvent) + (if e.timedOut then 0 else 1)
            && Seen(t, IsTimeout) == Seen(b, IsTimeout) + (if e.timedOut then 1 else 0)
  {
    SeenPush(cap, b, e, IsReplyEvent);
    SeenPush(cap, b, e, IsTimeout);
  }

  lemma AnswerBalances(s: State, ts: u64)
    requires Balanced(s)
    ensures var t := HearAnswer(s, ts);
            && Balanced(t)
            && Seen(t.books, IsReplyEvent) == Seen(s.books, IsReplyEvent) + 1
            && Seen(t.books, IsTimeout) == Seen(s.books, IsTimeout)
  {
    var e := Hop(s.lastSeq, Latency(s.sendTs, ts), false);
    EventSeen(s.cap, s.books, e);
    CountOneMore(Seen(s.books, IsReplyEvent));
  }

  lemma TimeoutBalances(s: State)
    requires Balanced(s)
    ensures var t := TimeOut(s);
            && Balanced(t)
            && Seen(t.books, IsReplyEvent) == Seen(s.books, IsReplyEvent)
            && Seen(t.books, IsTimeout) == Seen(s.books, IsTimeout) + 1
  {
    var e := Hop(s.lastSeq, 0, true);
    EventSeen(s.cap, s.books, e);
    CountOneMore(Seen(s.books, IsTimeout));
  }

  lemma OneOutcome(p: Probe)
    ensures Outcomes([p], p.success) == 1 && Outcomes([p], !p.success) == 0
  {
  }

  /** A step pushes one event for each probe that the context itself files. */
  lemma StepBalances(s: State, c: Call)
    requires Balanced(s)
    ensures var t := Step(s, c);
            && Balanced(t)
            && (!c.Reset? ==>
                && Seen(t.books, IsReplyEvent) == Seen(s.books, IsReplyEvent) + Outcomes(Own(s, c), true)
                && Seen(t.books, IsTimeout) == Seen(s.books, IsTimeout) + Outcomes(Own(s, c), false))
  {
    if Own(s, c) != [] {
      OneOutcome(Own(s, c)[0]);
    }
    match c
    case FeedInput(d, ts) =>
      if IsAnswer(d) && s.role.Requester? {
        AnswerBalances(s.(sendTs := if ts != 0 then ts else s.sendTs), ts);
      }
    case ProcessAt(ts) =>
      if Overdue(s.waiting, s.sendTs, ts) {
        TimeoutBalances(s);
      }
    case _ =>
  }

  lemma {:induction false} OutcomesAppend(ps: seq<Probe>, qs: seq<Probe>, success: bool)
    ensures Outcomes(ps + qs, success) == Outcomes(ps, success) + Outcomes(qs, success)
    decreases |qs|
  {
    if qs == [] {
      assert ps + qs == ps;
    } else {
      OutcomesAppend(ps, qs[..|qs| - 1], success);
      assert (ps + qs)[..|ps + qs| - 1] == ps + qs[..|qs| - 1];
    }
  }

  /** Since the last reset: each probe filed is an event pushed by the context, or was filed by a caller. */
  lemma {:induction false} ProbesAreOwnOrExternal(role: Role, size: nat, calls: seq<Call>)
    ensures var s := Run(role, size, calls);
            var ps, es := Probes(role, size, calls), Externals(calls);
            && Outcomes(ps, true) == Seen(s.books, IsReplyEvent) + Outcomes(es, true)
            && Outcomes(ps, false) == Seen(s.books, IsTimeout) + Outcomes(es, false)
    decreases |calls|
  {
    if calls != [] {
      var before, c := calls[..|calls| - 1], calls[|calls| - 1];
      ProbesAreOwnOrExternal(role, size, before);
      RunsBalance(role, size, before);
      var s := Run(role, size, before);
      StepBalances(s, c);
      OutcomesSplit(Probes(role, size, before), Externals(before), Own(s, c), External(c), true);
      OutcomesSplit(Probes(role, size, before), Externals(before), Own(s, c), External(c), false);
    }
  }

  lemma OutcomesSplit(ps: seq<Probe>, es: seq<Probe>, own: seq<Probe>, external: seq<Probe>, success: bool)
    ensures Outcomes(ps + (own + external), success) ==
            Outcomes(ps, success) + Outcomes(own, success) + Outcomes(external, success)
    ensures Outcomes(es + external, success) == Outcomes(es, success) + Outcomes(external, success)
  {
    OutcomesAppend(ps, own + external, success);
    OutcomesAppend(own, external, success);
    OutcomesAppend(es, external, success);
  }

  lemma AddModulo(a: nat, b: nat)
    ensures (a % TWO32 + b) % TWO32 == (a + b) % TWO32
  {
  }

  lemma {:induction false} SumIsHits(row: Row, ps: seq<Probe>, success: bool, n: nat)
    requires n <= MAX_HOPS
    requires forall i :: 0 <= i < n ==> row[i] == Hits(ps, i, success) % TWO32
    ensures Sum(row, n) % TWO32 == SumHits(ps, n, success) % TWO32
  {
    if n > 0 {
      SumIsHits(row, ps, success, n - 1);
      var sum, hits, more := Sum(row, n - 1), SumHits(ps, n - 1, success), Hits(ps, n - 1, success);
      AddModulo(sum, more % TWO32);
      AddModulo(hits, more % TWO32);
      AddModulo(more, hits);
    }
  }

  /** In 32-bit arithmetic, the hop tables sum up to the global counters plus the external probes. */
  predicate Conserves(s: State, external: seq<Probe>) {
    && AddsUp(s.hops.replies, s.counters.replies, Outcomes(external, true))
    && AddsUp(s.hops.timeouts, s.counters.timeouts, Outcomes(external, false))
    && s.hops.count == s.hops.replies
  }

  predicate AddsUp(row: Row, counter: u32, external: nat) {
    Total(row) % TWO32 == (counter + external) % TWO32
  }

  /** Conservation over every run, against what callers filed under hops in range since the last reset. */
  lemma HopTablesConserve(role: Role, size: nat, calls: seq<Call>)
    ensures Conserves(Run(role, size, calls), Externals(calls))
  {
    HopTablesCountProbes(role, size, calls);
    RunsBalance(role, size, calls);
    ProbesAreOwnOrExternal(role, size, calls);
    StateConserves(Run(role, size, calls), Probes(role, size, calls), Externals(calls));
  }

  lemma StateConserves(s: State, ps: seq<Probe>, external: seq<Probe>)
    requires CountHits(s.hops, ps) && AllInRange(ps) && Balanced(s)
    requires Outcomes(ps, true) == Seen(s.books, IsReplyEvent) + Outcomes(external, true)
    requires Outcomes(ps, false) == Seen(s.books, IsTimeout) + Outcomes(external, false)
    ensures Conserves(s, external)
  {
    RepliesAreCounted(s.hops, ps);
    RowConserves(s.hops.replies, ps, true, s.counters.replies, Seen(s.books, IsReplyEvent), Outcomes(external, true));
    RowConserves(s.hops.timeouts, ps, false, s.counters.timeouts, Seen(s.books, IsTimeout), Outcomes(external, false));
  }

  lemma RepliesAreCounted(h: Hops, ps: seq<Probe>)
    requires CountHits(h, ps)
    ensures h.count == h.replies
    ensures forall i :: 0 <= i < MAX_HOPS ==> h.replies[i] == Hits(ps, i, true) % TWO32
    ensures forall i :: 0 <= i < MAX_HOPS ==> h.timeouts[i] == Hits(ps, i, false) % TWO32
  {
  }

  lemma RowConserves(row: Row, ps: seq<Probe>, success: bool, counter: u32, own: nat, external: nat)
    requires AllInRange(ps) && Outcomes(ps, success) == own + external && counter == own % TWO32
    requires forall i :: 0 <= i < MAX_HOPS ==> row[i] == Hits(ps, i, success) % TWO32
    ensures AddsUp(row, counter, external)
  {
    SumIsHits(row, ps, success, MAX_HOPS);
    HitsAddUp(ps, success);
    AddModulo(own, external);
  }

  // ---------- roles and requests ----------

  /** In every reachable state the global counters count, in 32 bits, the events pushed since the last reset. */
  lemma {:induction false} RunsBalance(role: Role, size: nat, calls: seq<Call>)
    ensures Balanced(Run(role, size, calls))
    decreases |calls|
  {
    if calls != [] {
      var before, c := calls[..|calls| - 1], calls[|calls| - 1];
      RunsBalance(role, size, before);
      StepBalances(Run(role, size, before), c);
    }
  }

  function Requests(role: Role, calls: seq<Call>): nat
    decreases |calls|
  {
    if calls == [] then 0
    else
      var before, c := Requests(role, calls[..|calls| - 1]), calls[|calls| - 1];
      if c.Reset? then 0
      else if c.FeedInput? && IsRequest(c.d) && role.Responder? then before + 1
      else before
  }

  /** A requester has no request to wait for; a responder hears no answers. */
  predicate SidesApart(s: State) {
    if s.role.Requester?
    then !s.waiting && s.lastSeq == 0 && s.counters.dups == 0 && s.counters.timeouts == 0 == Seen(s.books, IsTimeout)
    else s.counters == NoCounters().(timeouts := s.counters.timeouts) && Seen(s.books, IsReplyEvent) == 0
  }

  lemma {:induction false} RolesKeepTheirSide(role: Role, size: nat, calls: seq<Call>)
    ensures Run(role, size, calls).role == role && SidesApart(Run(role, size, calls))
    decreases |calls|
  {
    if calls != [] {
      var before, c := calls[..|calls| - 1], calls[|calls| - 1];
      RolesKeepTheirSide(role, size, before);
      RunsBalance(role, size, before);
      StepKeepsSide(Run(role, size, before), c);
    }
  }

  lemma StepKeepsSide(s: State, c: Call)
    requires SidesApart(s) && Balanced(s)
    ensures SidesApart(Step(s, c))
  {
    StepBalances(s, c);
  }

  /** Timeouts since the last reset, and the one that may be pending, each had a request of their own. */
  lemma {:induction false} TimeoutsWithinRequests(role: Role, size: nat, calls: seq<Call>)
    ensures var s := Run(role, size, calls);
            && Pending(s) <= Requests(role, calls)
            && (Requests(role, calls) < TWO32 ==>
                s.counters.timeouts + (if s.waiting then 1 else 0) <= Requests(role, calls))
    decreases |calls|
  {
    if calls != [] {
      var before, c := calls[..|calls| - 1], calls[|calls| - 1];
      TimeoutsWithinRequests(role, size, before);
      RolesKeepTheirSide(role, size, before);
      RunsBalance(role, size, before);
      StepWithinRequests(Run(role, size, before), c);
    }
    RunsBalance(role, size, calls);
  }

  /** Timeouts noticed, and the one that may still be. */
  function Pending(s: State): nat {
    Seen(s.books, IsTimeout) + if s.waiting then 1 else 0
  }

  lemma StepWithinRequests(s: State, c: Call)
    requires Balanced(s)
    ensures Pending(Step(s, c)) <=
            if c.Reset? then 0
            else if c.FeedInput? && IsRequest(c.d) && s.role.Responder? then Pending(s) + 1
            else Pending(s)
  {
    StepBalances(s, c);
  }

  lemma {:induction false} HitsAppend(ps: seq<Probe>, qs: seq<Probe>, hop: nat, success: bool)
    ensures Hits(ps + qs, hop, success) == Hits(ps, hop, success) + Hits(qs, hop, success)
    decreases |qs|
  {
    if qs == [] {
      assert ps + qs == ps;
    } else {
      HitsAppend(ps, qs[..|qs| - 1], hop, success);
      assert (ps + qs)[..|ps + qs| - 1] == ps + qs[..|qs| - 1];
    }
  }

  lemma HitsSplit(ps: seq<Probe>, es: seq<Probe>, own: seq<Probe>, external: seq<Probe>, hop: nat, success: bool)
    ensures Hits(ps + (own + external), hop, success) ==
            Hits(ps, hop, success) + Hits(own, hop, success) + Hits(external, hop, success)
    ensures Hits(es + external, hop, success) == Hits(es, hop, success) + Hits(external, hop, success)
  {
    HitsAppend(ps, own + external, hop, success);
    HitsAppend(own, external, hop, success);
    HitsAppend(es, external, hop, success);
  }

  /** Of the probes `ps` with `es` among them, `own` answers and nothing else were filed by the context, under hop 0. */
  predicate UnderHopZero(ps: seq<Probe>, es: seq<Probe>, own: nat, hop: nat) {
    && Hits(ps, hop, true) == Hits(es, hop, true) + (if hop == 0 then own else 0)
    && Hits(ps, hop, false) == Hits(es, hop, false)
  }

  lemma StepUnderHopZero(s: State, c: Call, ps: seq<Probe>, es: seq<Probe>, hop: nat)
    requires LearnsNoNumber(s) && !c.Reset?
    requires UnderHopZero(ps, es, Seen(s.books, IsReplyEvent), hop)
    ensures UnderHopZero(ps + (Own(s, c) + External(c)), es + External(c), Seen(Step(s, c).books, IsReplyEvent), hop)
  {
    OwnUnderHopZero(s, c, hop);
    HitsSplit(ps, es, Own(s, c), External(c), hop, true);
    HitsSplit(ps, es, Own(s, c), External(c), hop, false);
  }

  /** A requester never learns a sequence number: it files every answer under hop 0, and no timeout anywhere. */
  lemma {:induction false} RequesterFilesUnderHopZero(size: nat, calls: seq<Call>, hop: nat)
    ensures UnderHopZero(Probes(Requester, size, calls), Externals(calls),
                         Seen(Run(Requester, size, calls).books, IsReplyEvent), hop)
    decreases |calls|
  {
    if calls != [] {
      var before, c := calls[..|calls| - 1], calls[|calls| - 1];
      RequesterFilesUnderHopZero(size, before, hop);
      RequesterLearnsNoNumber(size, before);
      if !c.Reset? {
        StepUnderHopZero(Run(Requester, size, before), c, Probes(Requester, size, before), Externals(before), hop);
      }
    }
  }

  predicate LearnsNoNumber(s: State) {
    s.role.Requester? && !s.waiting && s.lastSeq == 0 && Balanced(s)
  }

  lemma RequesterLearnsNoNumber(size: nat, calls: seq<Call>)
    ensures LearnsNoNumber(Run(Requester, size, calls))
  {
    RolesKeepTheirSide(Requester, size, calls);
    RunsBalance(Requester, size, calls);
  }

  lemma OwnUnderHopZero(s: State, c: Call, hop: nat)
    requires LearnsNoNumber(s) && !c.Reset?
    ensures Hits(Own(s, c), hop, false) == 0
    ensures Seen(Step(s, c).books, IsReplyEvent) == Seen(s.books, IsReplyEvent) + Hits(Own(s, c), 0, true)
    ensures hop != 0 ==> Hits(Own(s, c), hop, true) == 0
  {
    StepBalances(s, c);
    if Own(s, c) != [] {
      OneOutcome(Own(s, c)[0]);
    }
  }

  // ---------- time ----------

  /** The last known time of any packet fed; a reset does not forget it. */
  function LastStamp(calls: seq<Call>): u64
    decreases |calls|
  {
    if calls == [] then 0
    else
      var before, c := LastStamp(calls[..|calls| - 1]), calls[|calls| - 1];
      if c.FeedInput? && |c.d| >= 20 && c.ts != 0 then c.ts else before
  }

  lemma {:induction false} StampIsLastPacket(role: Role, size: nat, calls: seq<Call>)
    ensures Run(role, size, calls).sendTs == LastStamp(calls)
    decreases |calls|
  {
    if calls != [] {
      StampIsLastPacket(role, size, calls[..|calls| - 1]);
    }
  }

  /**
   Processing at `ts` times the last request out iff one is still open and `ts` is behind the deadline of the last
   packet of any kind, which is a second after it unless 64 bits cannot hold that (OverdueMeansLateExactlyWhen).
   */
  lemma TimeoutExactlyWhenLate(role: Role, size: nat, calls: seq<Call>, ts: u64)
    ensures var s, t := Run(role, size, calls), Run(role, size, calls + [ProcessAt(ts)]);
            var last := LastStamp(calls);
            Seen(t.books, IsTimeout) ==
            Seen(s.books, IsTimeout) + if s.waiting && last != 0 && ts > Deadline(last) then 1 else 0
    ensures LastStamp(calls) + TIMEOUT_MS < TWO64 ==> Deadline(LastStamp(calls)) == LastStamp(calls) + TIMEOUT_MS
  {
    StampIsLastPacket(role, size, calls);
    RunSnoc(role, size, calls, ProcessAt(ts));
    var s := Run(role, size, calls);
    SeenPush(s.cap, s.books, Hop(s.lastSeq, 0, true), IsTimeout);
  }

  // ---------- statistics ----------

  /** The answers a requester has heard since the last reset: those that came with a time, or those without. */
  function Answers(role: Role, calls: seq<Call>, stamped: bool): nat
    decreases |calls|
  {
    if calls == [] then 0
    else
      var before, c := Answers(role, calls[..|calls| - 1], stamped), calls[|calls| - 1];
      if c.Reset? then 0
      else if c.FeedInput? && IsAnswer(c.d) && role.Requester? && (c.ts != 0) == stamped then before + 1
      else before
  }

  predicate IsInstant(e: Event) { !e.timedOut && e.latency == 0 }

  predicate IsDefault(e: Event) { !e.timedOut && e.latency == DEFAULT_LATENCY }

  /** `instant` replies without any latency and `usual` ones with the default latency, and no others. */
  predicate Latencies(s: State, instant: nat, usual: nat) {
    && Seen(s.books, IsInstant) == instant && Seen(s.books, IsDefault) == usual
    && Seen(s.books, IsReplyEvent) == instant + usual
    && s.counters.sumLat == (DEFAULT_LATENCY * usual) % TWO32 && s.counters.countLat == (instant + usual) % TWO32
    && s.counters.maxLat == (if usual > 0 then DEFAULT_LATENCY else 0)
    && s.counters.minLat == (if instant > 0 then 0 else if usual > 0 then DEFAULT_LATENCY else NO_LATENCY)
  }

  lemma SumOneMore(n: nat)
    ensures Add32((DEFAULT_LATENCY * n) % TWO32, DEFAULT_LATENCY) == (DEFAULT_LATENCY * (n + 1)) % TWO32
  {
    CountMore(DEFAULT_LATENCY * n, DEFAULT_LATENCY);
  }

  /** What one more event adds to the counts of replies by latency. */
  lemma LatencySeen(cap: nat, b: Books<Event>, e: Event)
    ensures var t := Enter(cap, b, Op<Event>.Push(e));
            && Seen(t, IsInstant) == Seen(b, IsInstant) + (if IsInstant(e) then 1 else 0)
            && Seen(t, IsDefault) == Seen(b, IsDefault) + (if IsDefault(e) then 1 else 0)
            && Seen(t, IsReplyEvent) == Seen(b, IsReplyEvent) + (if IsReplyEvent(e) then 1 else 0)
  {
    SeenPush(cap, b, e, IsInstant);
    SeenPush(cap, b, e, IsDefault);
    SeenPush(cap, b, e, IsReplyEvent);
  }

  /** The stamp of an answer is kept before its latency is taken: a stamped answer takes no time at all. */
  lemma AnswerLatency(s: State, ts: u64, instant: nat, usual: nat)
    requires Latencies(s, instant, usual) && (ts != 0 ==> s.sendTs == ts)
    ensures Latencies(HearAnswer(s, ts), if ts != 0 then instant + 1 else instant, if ts != 0 then usual else usual + 1)
  {
    var e := Hop(s.lastSeq, Latency(s.sendTs, ts), false);
    LatencySeen(s.cap, s.books, e);
    SumOneMore(usual);
    CountOneMore(instant + usual);
  }

  lemma TimeoutLatency(s: State, instant: nat, usual: nat)
    requires Latencies(s, instant, usual)
    ensures Latencies(TimeOut(s), instant, usual)
  {
    var e := Hop(s.lastSeq, 0, true);
    LatencySeen(s.cap, s.books, e);
  }

  lemma StepLatency(s: State, c: Call, instant: nat, usual: nat)
    requires Latencies(s, instant, usual) && !c.Reset?
    ensures var heard := c.FeedInput? && IsAnswer(c.d) && s.role.Requester?;
            Latencies(Step(s, c), if heard && c.ts != 0 then instant + 1 else instant,
                      if heard && c.ts == 0 then usual + 1 else usual)
  {
    match c
    case FeedInput(d, ts) =>
      if IsAnswer(d) && s.role.Requester? {
        AnswerLatency(s.(sendTs := if ts != 0 then ts else s.sendTs), ts, instant, usual);
      }
    case ProcessAt(ts) =>
      if Overdue(s.waiting, s.sendTs, ts) {
        TimeoutLatency(s, instant, usual);
      }
    case _ =>
  }

  /** Whatever the times, each stamped answer since the last reset took 0, and each other one the default latency. */
  lemma {:induction false} LatenciesAreFlat(role: Role, size: nat, calls: seq<Call>)
    ensures Latencies(Run(role, size, calls), Answers(role, calls, true), Answers(role, calls, false))
    decreases |calls|
  {
    if calls != [] {
      var before, c := calls[..|calls| - 1], calls[|calls| - 1];
      LatenciesAreFlat(role, size, before);
      RolesKeepTheirSide(role, size, before);
      if !c.Reset? {
        StepLatency(Run(role, size, before), c, Answers(role, before, true), Answers(role, before, false));
      }
    }
  }

  /** The average of default latencies and of zeros is exact, rounded down, iff the sum fits 32 bits. */
  predicate AverageIsExactWhenSumFits(average: u32, instant: nat, usual: nat)
    requires instant + usual > 0
  {
    average == 5 * usual / (instant + usual) <==> 5 * usual < TWO32
  }

  lemma AverageOf(sum: nat, count: u32)
    requires count > 0
    ensures Average(sum % TWO32, count) == sum / count <==> sum < TWO32
  {
    if sum >= TWO32 {
      Quotient(sum, count);
      BelowQuotient(sum % TWO32, count, sum / count);
      Remains(sum);
    }
  }

  lemma Remains(n: nat)
    requires n >= TWO32
    ensures n % TWO32 <= n - TWO32
  {
  }

  lemma MeasuredAverage(s: State, instant: nat, usual: nat)
    requires Latencies(s, instant, usual) && 0 < instant + usual < TWO32
    ensures AverageIsExactWhenSumFits(AverageLatency(s.counters), instant, usual)
  {
    Fits(instant + usual);
    AverageOf(DEFAULT_LATENCY * usual, instant + usual);
  }

  /** After every run in which fewer than 2^32 answers were heard since the last reset. */
  lemma AverageExactlyWhen(role: Role, size: nat, calls: seq<Call>)
    requires 0 < Answers(role, calls, true) + Answers(role, calls, false) < TWO32
    ensures AverageIsExactWhenSumFits(AverageLatency(Run(role, size, calls).counters),
                                      Answers(role, calls, true), Answers(role, calls, false))
  {
    LatenciesAreFlat(role, size, calls);
    MeasuredAverage(Run(role, size, calls), Answers(role, calls, true), Answers(role, calls, false));
  }

  /** A time-exceeded answer on the wire. */
  function AnswerPacket(): seq<byte> {
    Zeros(20) + [TIME_EXCEEDED]
  }

  function Unstamped(n: nat): seq<Call> {
    if n == 0 then [] else Unstamped(n - 1) + [FeedInput(AnswerPacket(), 0)]
  }

  lemma {:induction false} UnstampedAnswers(n: nat)
    ensures Answers(Requester, Unstamped(n), true) == 0 && Answers(Requester, Unstamped(n), false) == n
  {
    if n > 0 {
      UnstampedAnswers(n - 1);
      assert IsAnswer(AnswerPacket());
      assert Unstamped(n)[..|Unstamped(n)| - 1] == Unstamped(n - 1);
    }
  }

  /** A requester that heard 858993460 answers, all of the default latency, reports an average of 0. */
  lemma AverageBeyond(size: nat) returns (calls: seq<Call>)
    ensures Answers(Requester, calls, true) == 0 && Answers(Requester, calls, false) == 858993460
    ensures AverageLatency(Run(Requester, size, calls).counters) == 0
  {
    calls := WithAnswers(size, 858993460);
    SumWraps(Run(Requester, size, calls));
  }

  lemma SumWraps(s: State)
    requires Latencies(s, 0, 858993460)
    ensures AverageLatency(s.counters) == 0
  {
  }

  lemma WithAnswers(size: nat, n: nat) returns (calls: seq<Call>)
    ensures Answers(Requester, calls, true) == 0 && Answers(Requester, calls, false) == n
    ensures Latencies(Run(Requester, size, calls), 0, n)
  {
    calls := Unstamped(n);
    UnstampedAnswers(n);
    LatenciesAreFlat(Requester, size, calls);
  }

  /** The loss of a hop is a percentage, and it is the share of lost probes iff 100 times the lost ones fit 32 bits. */
  predicate LossIsShare(h: Hops, hop: nat, lost: nat, total: nat)
    requires InRange(hop) && total > 0
  {
    && 0 <= HopLossPct(h, hop) <= 100
    && (HopLossPct(h, hop) == lost * 100 / total <==> lost <= MAX_SCALABLE)
  }

  lemma LossOfCounts(h: Hops, hop: nat, lost: u32, total: u32)
    requires InRange(hop) && lost <= total && total > 0
    requires h.timeouts[hop] == lost && h.replies[hop] == total - lost
    ensures LossIsShare(h, hop, lost, total)
  {
    PercentExactlyWhen(lost, total);
  }

  /** So it is for every hop whose probes fit 32 bits. */
  ghost predicate LossesAreShares(h: Hops, ps: seq<Probe>) {
    forall hop :: InRange(hop) ==>
      var lost, total := Hits(ps, hop, false), Hits(ps, hop, true) + Hits(ps, hop, false);
      0 < total < TWO32 ==> LossIsShare(h, hop, lost, total)
  }

  lemma CountedLossesAreShares(h: Hops, ps: seq<Probe>)
    requires CountHits(h, ps)
    ensures LossesAreShares(h, ps)
  {
    forall hop | InRange(hop) && 0 < Hits(ps, hop, true) + Hits(ps, hop, false) < TWO32
      ensures LossIsShare(h, hop, Hits(ps, hop, false), Hits(ps, hop, true) + Hits(ps, hop, false))
    {
      Fits(Hits(ps, hop, false));
      Fits(Hits(ps, hop, true));
      LossOfCounts(h, hop, Hits(ps, hop, false), Hits(ps, hop, true) + Hits(ps, hop, false));
    }
  }

  lemma Fits(n: nat)
    ensures n < TWO32 ==> n % TWO32 == n
  {
  }

  /** After every run, with the probes filed since the last reset. */
  lemma HopLossExactlyWhen(role: Role, size: nat, calls: seq<Call>)
    ensures LossesAreShares(Run(role, size, calls).hops, Probes(role, size, calls))
  {
    HopTablesCountProbes(role, size, calls);
    CountedLossesAreShares(Run(role, size, calls).hops, Probes(role, size, calls));
  }

  /** What makes the loss of a hop a percentage, read off its two counters. */
  predicate Proportionate(replies: u32, timeouts: u32) {
    replies + timeouts <= TWO32 || (timeouts * 100) % TWO32 < 101 * (replies + timeouts - TWO32)
  }

  /** For any counters at all, the totals that wrap included. */
  lemma HopLossIsPercentageExactlyWhen(h: Hops, hop: nat)
    requires InRange(hop)
    ensures 0 <= HopLossPct(h, hop) <= 100 <==> Proportionate(h.replies[hop], h.timeouts[hop])
  {
    PercentIsAtMost100ExactlyWhen(h.timeouts[hop], h.replies[hop]);
  }

  /** `n` replies and then `m` losses that a caller files under hop 0. */
  function Results(n: nat, m: nat): seq<Call> {
    if m > 0 then Results(n, m - 1) + [RecordHop(0, false, 0)]
    else if n > 0 then Results(n - 1, 0) + [RecordHop(0, true, 0)]
    else []
  }

  lemma ProbesSnoc(role: Role, size: nat, calls: seq<Call>, success: bool, lat: u32)
    ensures Probes(role, size, calls + [RecordHop(0, success, lat)])
         == Probes(role, size, calls) + [Probe(0, success, lat)]
  {
    assert (calls + [RecordHop(0, success, lat)])[..|calls|] == calls;
  }

  lemma HitsSnoc(ps: seq<Probe>, p: Probe, hop: nat, success: bool)
    ensures Hits(ps + [p], hop, success)
         == Hits(ps, hop, success) + if p.hop == hop && p.success == success then 1 else 0
  {
    assert (ps + [p])[..|ps|] == ps;
  }

  lemma {:induction false} ResultsHits(role: Role, size: nat, n: nat, m: nat)
    ensures var ps := Probes(role, size, Results(n, m)); Hits(ps, 0, true) == n && Hits(ps, 0, false) == m
    decreases n + m
  {
    if n + m > 0 {
      var success := m == 0;
      var before := if success then Results(n - 1, 0) else Results(n, m - 1);
      ResultsHits(role, size, if success then n - 1 else n, if success then 0 else m - 1);
      ProbesSnoc(role, size, before, success, 0);
      var ps := Probes(role, size, before);
      HitsSnoc(ps, Probe(0, success, 0), 0, true);
      HitsSnoc(ps, Probe(0, success, 0), 0, false);
    }
  }

  /** Every pair of counters is reached by some run, of either role. */
  lemma CountersAreReached(role: Role, size: nat, replies: u32, timeouts: u32)
    ensures var h := Run(role, size, Results(replies, timeouts)).hops;
            h.replies[0] == replies && h.timeouts[0] == timeouts
  {
    ResultsHits(role, size, replies, timeouts);
    HopTablesCountProbes(role, size, Results(replies, timeouts));
    Fits(replies);
    Fits(timeouts);
  }

  /** So there are runs, of any context, after which the loss of a hop is 200, and runs after which it is negative. */
  lemma HopLossBeyond(role: Role, size: nat) returns (above: seq<Call>, below: seq<Call>)
    ensures HopLossPct(Run(role, size, above).hops, 0) == 200
    ensures HopLossPct(Run(role, size, below).hops, 0) == -2147483596
  {
    above := WithCounters(role, size, 0xFFFF_FFFF, 2);
    below := WithCounters(role, size, 4273492460, 21474837);
  }

  lemma WithCounters(role: Role, size: nat, replies: u32, timeouts: u32) returns (calls: seq<Call>)
    ensures var h := Run(role, size, calls).hops;
            HopLossPct(h, 0) == SignExtend32(Percent(timeouts, Add32(replies, timeouts)))
  {
    calls := Results(replies, timeouts);
    CountersAreReached(role, size, replies, timeouts);
  }
}
