/**
 What a traceroute context must be after any calls, read off the calls themselves: off the bytes of the packets and
 the times, in numbers, without the states in between.
 */
module TracerouteHistory {
  import opened Bytes
  import opened EventQueue
  import opened Diagnostics
  import opened Traceroute
  import opened TracerouteRuns

  // ---------- packets ----------

  /** An echo request. */
  predicate Asks(d: seq<byte>) {
    |d| >= 30 && d[20] == 8
  }

  function NumberIn(d: seq<byte>): u32
    requires Asks(d)
  {
    0x100 * d[28] as int + d[29] as int
  }

  /** Time exceeded, or destination unreachable. */
  predicate Replies(d: seq<byte>) {
    |d| >= 21 && (d[20] == 11 || d[20] == 3)
  }

  lemma OnWire(d: seq<byte>)
    ensures IsRequest(d) <==> Asks(d)
    ensures IsAnswer(d) <==> Replies(d)
    ensures Asks(d) ==> Rd16Be(d, 28) == NumberIn(d)
  {
  }

  // ---------- what the calls say ----------

  /** The sequence number of the last echo request to a responder; a reset does not forget it. */
  function LastNumber(role: Role, calls: seq<Call>): u32
    decreases |calls|
  {
    if calls == [] then 0
    else
      var before, c := LastNumber(role, calls[..|calls| - 1]), calls[|calls| - 1];
      if c.FeedInput? && Asks(c.d) && role.Responder? then NumberIn(c.d) else before
  }

  /** An echo request to a responder was heard since the last reset, and has not expired since. */
  predicate Open(role: Role, calls: seq<Call>)
    decreases |calls|
  {
    if calls == [] then false
    else
      var before, c := calls[..|calls| - 1], calls[|calls| - 1];
      if c.Reset? then false
      else if c.FeedInput? && Asks(c.d) && role.Responder? then true
      else if c.ProcessAt? && Expires(Open(role, before), LastStamp(before), c.ts) then false
      else Open(role, before)
  }

  /** The requests that have expired since the last reset. */
  function Expired(role: Role, calls: seq<Call>): nat
    decreases |calls|
  {
    if calls == [] then 0
    else
      var before, c := calls[..|calls| - 1], calls[|calls| - 1];
      if c.Reset? then 0
      else if c.ProcessAt? && Expires(Open(role, before), LastStamp(before), c.ts) then Expired(role, before) + 1
      else Expired(role, before)
  }

  /** What one call does to the queue. */
  function QueueOps(role: Role, open: bool, stamp: u64, number: u32, c: Call): seq<Op<Event>> {
    if c.FeedInput? && Replies(c.d) && role.Requester?
    then [Op<Event>.Push(Hop(number, if c.ts == 0 then 5 else 0, false))]
    else if c.ProcessAt? && Expires(open, stamp, c.ts) then [Op<Event>.Push(Hop(number, 0, true))]
    else if c.NextEvent? then [Op<Event>.Pop]
    else []
  }

  /** What was done to the queue since the last reset. */
  function Ops(role: Role, calls: seq<Call>): seq<Op<Event>>
    decreases |calls|
  {
    if calls == [] then []
    else
      var before, c := calls[..|calls| - 1], calls[|calls| - 1];
      if c.Reset? then []
      else Ops(role, before) + QueueOps(role, Open(role, before), LastStamp(before), LastNumber(role, before), c)
  }

  /** What one call files under which of the 32 hops. */
  function Files(role: Role, open: bool, stamp: u64, number: u32, c: Call): seq<Probe> {
    if c.FeedInput? && Replies(c.d) && role.Requester? then [Probe(number % 32, true, if c.ts == 0 then 5 else 0)]
    else if c.ProcessAt? && Expires(open, stamp, c.ts) then [Probe(number % 32, false, 0)]
    else if c.RecordHop? && 0 <= c.hop < 32 then [Probe(c.hop, c.success, c.lat)]
    else []
  }

  function Filings(role: Role, calls: seq<Call>): seq<Probe>
    decreases |calls|
  {
    if calls == [] then []
    else
      var before, c := calls[..|calls| - 1], calls[|calls| - 1];
      if c.Reset? then []
      else Filings(role, before) + Files(role, Open(role, before), LastStamp(before), LastNumber(role, before), c)
  }

  // ---------- and the context follows ----------

  /** A state that a context may be in, whatever its counters and tables. */
  predicate Agrees(s: State, stamp: u64, open: bool, number: u32, ops: seq<Op<Event>>) {
    s.sendTs == stamp && s.waiting == open && s.lastSeq == number && s.books == Replay(s.cap, ops)
  }

  /** A requester never waits. */
  predicate Idle(s: State) {
    s.role.Requester? ==> !s.waiting
  }

  lemma FeedAgrees(s: State, d: seq<byte>, ts: u64, number: u32, ops: seq<Op<Event>>, open: bool)
    requires Agrees(s, s.sendTs, open, number, ops) && Idle(s)
    ensures Idle(Feed(s, d, ts))
    ensures Agrees(Feed(s, d, ts), if |d| >= 20 && ts != 0 then ts else s.sendTs,
                   (Asks(d) && s.role.Responder?) || open,
                   if Asks(d) && s.role.Responder? then NumberIn(d) else number,
                   ops + QueueOps(s.role, open, s.sendTs, number, FeedInput(d, ts)))
  {
    OnWire(d);
    if IsAnswer(d) && s.role.Requester? {
      ReplaySnoc(s.cap, ops, Op<Event>.Push(Hop(number, if ts == 0 then 5 else 0, false)));
      AnswerTime(if ts != 0 then ts else s.sendTs, ts);
    } else {
      assert ops + [] == ops;
    }
  }

  lemma AnswerTime(stamp: u64, ts: u64)
    requires ts != 0 ==> stamp == ts
    ensures Latency(stamp, ts) == if ts == 0 then 5 else 0
  {
  }

  lemma ProcessAgrees(s: State, ts: u64, stamp: u64, open: bool, number: u32, ops: seq<Op<Event>>)
    requires Agrees(s, stamp, open, number, ops) && Idle(s)
    ensures Idle(Process(s, ts))
    ensures Agrees(Process(s, ts), stamp, open && !Expires(open, stamp, ts), number,
                   ops + QueueOps(s.role, open, stamp, number, ProcessAt(ts)))
  {
    ExpiresIsOverdue(open, stamp, ts);
    if Expires(open, stamp, ts) {
      ReplaySnoc(s.cap, ops, Op<Event>.Push(Hop(number, 0, true)));
    } else {
      assert ops + [] == ops;
    }
  }

  /** After every run: the stamp, the wait, the sequence number, and the whole history of the queue. */
  lemma {:induction false} StateFollowsCalls(role: Role, size: nat, calls: seq<Call>)
    ensures var s := Run(role, size, calls);
            && s.role == role && s.cap == (if size == 0 then 8 else if size > 32 then 32 else size)
            && Idle(s) && Agrees(s, LastStamp(calls), Open(role, calls), LastNumber(role, calls), Ops(role, calls))
    decreases |calls|
  {
    if calls != [] {
      var before, c := calls[..|calls| - 1], calls[|calls| - 1];
      StateFollowsCalls(role, size, before);
      StepFollows(Run(role, size, before), c, LastStamp(before), Open(role, before), LastNumber(role, before),
                  Ops(role, before));
    }
  }

  lemma StepFollows(s: State, c: Call, stamp: u64, open: bool, number: u32, ops: seq<Op<Event>>)
    requires Agrees(s, stamp, open, number, ops) && Idle(s)
    ensures Step(s, c).role == s.role && Step(s, c).cap == s.cap && Idle(Step(s, c))
    ensures var asked := c.FeedInput? && Asks(c.d) && s.role.Responder?;
            Agrees(Step(s, c), if c.FeedInput? && |c.d| >= 20 && c.ts != 0 then c.ts else stamp,
                   if c.Reset? then false else if asked then true
                   else if c.ProcessAt? && Expires(open, stamp, c.ts) then false else open,
                   if asked then NumberIn(c.d) else number,
                   if c.Reset? then [] else ops + QueueOps(s.role, open, stamp, number, c))
  {
    match c
    case FeedInput(d, ts) => FeedAgrees(s, d, ts, number, ops, open);
    case ProcessAt(ts) => ProcessAgrees(s, ts, stamp, open, number, ops);
    case NextEvent => ReplaySnoc(s.cap, ops, Op<Event>.Pop);
    case RecordHop(_, _, _) => assert ops + [] == ops;
    case Reset =>
  }

  lemma FilesAreProbes(s: State, c: Call)
    requires !c.Reset?
    ensures Files(s.role, s.waiting, s.sendTs, s.lastSeq, c) == Own(s, c) + External(c)
  {
    match c
    case FeedInput(d, ts) =>
      OnWire(d);
      AnswerTime(if ts != 0 then ts else s.sendTs, ts);
    case ProcessAt(ts) => ExpiresIsOverdue(s.waiting, s.sendTs, ts);
    case _ =>
  }

  lemma {:induction false} FilingsAreProbes(role: Role, size: nat, calls: seq<Call>)
    ensures Probes(role, size, calls) == Filings(role, calls)
    decreases |calls|
  {
    if calls != [] {
      var before, c := calls[..|calls| - 1], calls[|calls| - 1];
      FilingsAreProbes(role, size, before);
      StateFollowsCalls(role, size, before);
      if !c.Reset? {
        FilesAreProbes(Run(role, size, before), c);
      }
    }
  }

  /** After every run: each hop table counts, in 32 bits, what the calls since the last reset file under each hop. */
  lemma HopTablesFollowCalls(role: Role, size: nat, calls: seq<Call>)
    ensures CountHits(Run(role, size, calls).hops, Filings(role, calls))
  {
    FilingsAreProbes(role, size, calls);
    HopTablesCountProbes(role, size, calls);
  }

  lemma StepExpires(s: State, c: Call)
    requires Balanced(s) && !c.Reset?
    ensures Seen(Step(s, c).books, IsTimeout)
         == Seen(s.books, IsTimeout) + if c.ProcessAt? && Expires(s.waiting, s.sendTs, c.ts) then 1 else 0
  {
    StepBalances(s, c);
    if Own(s, c) != [] {
      OneOutcome(Own(s, c)[0]);
    }
    if c.ProcessAt? {
      ExpiresIsOverdue(s.waiting, s.sendTs, c.ts);
    }
  }

  lemma {:induction false} TimeoutsAreExpired(role: Role, size: nat, calls: seq<Call>)
    ensures Seen(Run(role, size, calls).books, IsTimeout) == Expired(role, calls)
    decreases |calls|
  {
    if calls != [] {
      var before, c := calls[..|calls| - 1], calls[|calls| - 1];
      TimeoutsAreExpired(role, size, before);
      StateFollowsCalls(role, size, before);
      RunsBalance(role, size, before);
      if !c.Reset? {
        StepExpires(Run(role, size, before), c);
      }
    }
  }

  /** After every run: the counters reported are the answers heard and the requests expired since the last reset. */
  lemma CountersFollowCalls(role: Role, size: nat, calls: seq<Call>)
    ensures var c := Run(role, size, calls).counters;
            && c.replies == (Answers(role, calls, true) + Answers(role, calls, false)) % TWO32
            && c.timeouts == Expired(role, calls) % TWO32
            && c.dups == 0
  {
    RunsBalance(role, size, calls);
    LatenciesAreFlat(role, size, calls);
    TimeoutsAreExpired(role, size, calls);
    RolesKeepTheirSide(role, size, calls);
  }

  /** What is reported after `instant` answers with a stamp, `usual` ones without, and `expired` requests. */
  predicate Reports(s: Stats, instant: nat, usual: nat, expired: nat) {
    && s.replies == (instant + usual) % TWO32 && s.timeouts == expired % TWO32
    && s.duplicates == s.lossPct == 0
    && s.maxLatency == (if usual > 0 then 5 else 0)
    && s.minLatency == (if instant > 0 then 0 else s.maxLatency)
    && (instant + usual == 0 ==> s.avgLatency == 0)
    && (0 < instant + usual < TWO32 ==> AverageIsExactWhenSumFits(s.avgLatency, instant, usual))
  }

  lemma StatsFollowCalls(role: Role, size: nat, calls: seq<Call>)
    ensures Reports(StatsOf(Run(role, size, calls).counters, 0),
                    Answers(role, calls, true), Answers(role, calls, false), Expired(role, calls))
  {
    CountersFollowCalls(role, size, calls);
    LatenciesAreFlat(role, size, calls);
    if 0 < Answers(role, calls, true) + Answers(role, calls, false) < TWO32 {
      AverageExactlyWhen(role, size, calls);
    }
  }

  // ---------- a request and then silence ----------

  /**
   A responder that hears an echo request at `sent` and nothing more until `ts`: one event with the number of the
   request, one timeout, and one loss under its hop, iff `ts` is more than a second later.
   */
  lemma RequestThenSilence(s: State, d: seq<byte>, sent: u64, ts: u64)
    requires s.role.Responder? && |d| >= 30 && d[20] == 8 && 0 < sent && sent + 1000 < TWO64
    ensures var number: u32 := 0x100 * d[28] as int + d[29] as int;
            var heard := s.(sendTs := sent, lastSeq := number, waiting := true);
            Process(Feed(s, d, sent), ts) ==
            if ts <= sent + 1000 then heard
            else heard.(
              waiting := false, books := Enter(s.cap, s.books, Op<Event>.Push(Hop(number, 0, true))),
              counters := s.counters.(timeouts := Add32(s.counters.timeouts, 1)),
              hops := s.hops.(timeouts := s.hops.timeouts[number % 32 := Add32(s.hops.timeouts[number % 32], 1)]))
  {
    OnWire(d);
  }

  /** The same after any calls, seen from outside. */
  lemma RequestThenSilenceInRun(size: nat, calls: seq<Call>, d: seq<byte>, sent: u64, ts: u64)
    requires |d| >= 30 && d[20] == 8 && 0 < sent && sent + 1000 < TWO64
    ensures var asked := calls + [FeedInput(d, sent)];
            && Expired(Responder, asked + [ProcessAt(ts)])
               == Expired(Responder, calls) + (if ts > sent + 1000 then 1 else 0)
            && Open(Responder, asked + [ProcessAt(ts)]) == (ts <= sent + 1000)
            && LastNumber(Responder, asked) == 0x100 * d[28] as int + d[29] as int
  {
    var asked := calls + [FeedInput(d, sent)];
    assert asked[..|calls|] == calls && (asked + [ProcessAt(ts)])[..|asked|] == asked;
    assert LastStamp(asked) == sent && Open(Responder, asked) && Expired(Responder, asked) == Expired(Responder, calls);
  }
}
