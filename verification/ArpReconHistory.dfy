/**
 What an ARP reconnaissance must be after any calls, read off the calls themselves: off the bytes of the frames and
 the times, in numbers, without the states in between.
 */
module ArpReconHistory {
  import opened Bytes
  import opened EventQueue
  import opened Diagnostics
  import opened ArpRecon
  import opened ArpReconPairs
  import opened ArpReconRuns

  // ---------- frames ----------

  /** EtherType 0x0806, operation 1. */
  predicate Asks(d: seq<byte>) {
    |d| >= 22 && d[12] == 0x08 && d[13] == 0x06 && d[20] == 0 && d[21] == 1
  }

  /** EtherType 0x0806, operation 2, and the sender's addresses. */
  predicate Tells(d: seq<byte>) {
    |d| >= 32 && d[12] == 0x08 && d[13] == 0x06 && d[20] == 0 && d[21] == 2
  }

  function Sender(d: seq<byte>): Neighbour
    requires Tells(d)
  {
    Neighbour(d[22..28],
              0x100_0000 * d[28] as int + 0x1_0000 * d[29] as int + 0x100 * d[30] as int + d[31] as int)
  }

  lemma OnWire(d: seq<byte>)
    ensures IsRequest(d) <==> Asks(d)
    ensures IsReply(d) <==> Tells(d)
    ensures Tells(d) ==> SenderOf(d) == Sender(d)
  {
  }

  // ---------- what the calls say ----------

  /** Who told a requester its addresses since the last reset, in order. */
  function Told(role: Role, calls: seq<Call>): seq<Neighbour>
    decreases |calls|
  {
    if calls == [] then []
    else
      var before, c := Told(role, calls[..|calls| - 1]), calls[|calls| - 1];
      if c.Reset? then []
      else if c.FeedInput? && Tells(c.d) && role.Requester? then before + [Sender(c.d)]
      else before
  }

  /** The last time of a request to a responder; a reset does not forget it. */
  function Stamp(role: Role, calls: seq<Call>): u64
    decreases |calls|
  {
    if calls == [] then 0
    else
      var before, c := Stamp(role, calls[..|calls| - 1]), calls[|calls| - 1];
      if c.FeedInput? && Asks(c.d) && role.Responder? && c.ts != 0 then c.ts else before
  }

  /** A request to a responder was heard since the last reset, and has not expired since. */
  predicate Open(role: Role, calls: seq<Call>)
    decreases |calls|
  {
    if calls == [] then false
    else
      var before, c := calls[..|calls| - 1], calls[|calls| - 1];
      if c.Reset? then false
      else if c.FeedInput? && Asks(c.d) && role.Responder? then true
      else if c.ProcessAt? && Expires(Open(role, before), Stamp(role, before), c.ts) then false
      else Open(role, before)
  }

  /** The requests that have expired since the last reset. */
  function Expired(role: Role, calls: seq<Call>): nat
    decreases |calls|
  {
    if calls == [] then 0
    else
      var before, c := calls[..|calls| - 1], calls[|calls| - 1];
      if c.Reset? then 0
      else if c.ProcessAt? && Expires(Open(role, before), Stamp(role, before), c.ts) then Expired(role, before) + 1
      else Expired(role, before)
  }

  function Spoofs(k: nat): seq<Op<Event>> {
    if k == 0 then [] else Spoofs(k - 1) + [Op<Event>.Push(ArpSpoof)]
  }

  /** How many of the neighbours told of before a newcomer is in conflict with; only the first 64 are compared. */
  function Found(told: seq<Neighbour>, n: Neighbour): nat {
    if |told| >= 64 then 0 else ConflictsWith(told, n)
  }

  /** What one call does to the queue: a reply comes before the spoofs it is found guilty of. */
  function QueueOps(role: Role, told: seq<Neighbour>, open: bool, stamp: u64, c: Call): seq<Op<Event>> {
    if c.FeedInput? && Tells(c.d) && role.Requester?
    then [Op<Event>.Push(ArpReply(c.d[22..28], 5))] + Spoofs(Found(told, Sender(c.d)))
    else if c.ProcessAt? && Expires(open, stamp, c.ts) then [Op<Event>.Push(ArpAnomaly)]
    else if c.NextEvent? then [Op<Event>.Pop]
    else []
  }

  /** What was done to the queue since the last reset. */
  function Ops(role: Role, calls: seq<Call>): seq<Op<Event>>
    decreases |calls|
  {
    if calls == [] then []
    else
      var before, c := calls[..|calls| - 1], calls[|calls| - 1];
      if c.Reset? then []
      else Ops(role, before) + QueueOps(role, Told(role, before), Open(role, before), Stamp(role, before), c)
  }

  lemma {:induction false} ToldIsReplies(role: Role, calls: seq<Call>)
    ensures Told(role, calls) == Replies(role, calls)
    decreases |calls|
  {
    if calls != [] {
      ToldIsReplies(role, calls[..|calls| - 1]);
      if calls[|calls| - 1].FeedInput? {
        OnWire(calls[|calls| - 1].d);
      }
    }
  }

  // ---------- and the context follows ----------

  lemma {:induction false} ScanReplays(s: State, i: nat, ops: seq<Op<Event>>)
    requires i < |s.neighbours| && s.books == Replay(s.cap, ops)
    ensures var k := ConflictsWith(s.neighbours[..i], s.neighbours[|s.neighbours| - 1]);
            Scan(s, i).books == Replay(s.cap, ops + Spoofs(k))
  {
    if i == 0 {
      assert ops + [] == ops;
    } else {
      ScanReplays(s, i - 1, ops);
      ScanTurn(s, i);
      OneMoreEntry(s.neighbours, i, s.neighbours[|s.neighbours| - 1]);
      OneMoreSpoof(s.cap, ops, ConflictsWith(s.neighbours[..i - 1], s.neighbours[|s.neighbours| - 1]));
    }
  }

  lemma OneMoreSpoof(cap: nat, ops: seq<Op<Event>>, k: nat)
    ensures Replay(cap, ops + Spoofs(k + 1)) == Enter(cap, Replay(cap, ops + Spoofs(k)), Op<Event>.Push(ArpSpoof))
  {
    ReplaySnoc(cap, ops + Spoofs(k), Op<Event>.Push(ArpSpoof));
    assert ops + Spoofs(k) + [Op<Event>.Push(ArpSpoof)] == ops + Spoofs(k + 1);
  }

  lemma ReplyReplays(s: State, n: Neighbour, ts: u64, ops: seq<Op<Event>>)
    requires s.books == Replay(s.cap, ops) && s.sendTs == 0
    ensures HearReply(s, n, ts).books
         == Replay(s.cap, ops + ([Op<Event>.Push(ArpReply(n.mac, 5))] + Spoofs(Found(s.neighbours, n))))
  {
    var push := Op<Event>.Push(ArpReply(n.mac, 5));
    ReplaySnoc(s.cap, ops, push);
    assert ops + ([push] + Spoofs(Found(s.neighbours, n))) == ops + [push] + Spoofs(Found(s.neighbours, n));
    if |s.neighbours| < 64 {
      var more := CountReply(s, n.mac, ts).(neighbours := s.neighbours + [n]);
      ScanReplays(more, |s.neighbours|, ops + [push]);
      assert more.neighbours[..|s.neighbours|] == s.neighbours;
    } else {
      assert ops + [push] + [] == ops + [push];
    }
  }

  /** A state that a context may be in, whatever its counters. */
  predicate Agrees(s: State, stamp: u64, open: bool, ops: seq<Op<Event>>) {
    s.sendTs == stamp && s.waiting == open && s.books == Replay(s.cap, ops)
  }

  lemma ReplyWaits(s: State, n: Neighbour, ts: u64)
    requires CountsPairs(s)
    ensures !HearReply(s, n, ts).waiting && HearReply(s, n, ts).sendTs == s.sendTs
    ensures HearReply(s, n, ts).cap == s.cap
  {
    ReplyShape(s, n, ts);
  }

  lemma FeedAgrees(s: State, d: seq<byte>, ts: u64, told: seq<Neighbour>, ops: seq<Op<Event>>, open: bool)
    requires Agrees(s, s.sendTs, open, ops) && SidesApart(s) && CountsPairs(s)
    requires s.role.Requester? ==> s.neighbours == FirstOf(told, 64)
    ensures Agrees(Feed(s, d, ts), if Asks(d) && s.role.Responder? && ts != 0 then ts else s.sendTs,
                   (Asks(d) && s.role.Responder?) || open,
                   ops + QueueOps(s.role, told, open, s.sendTs, FeedInput(d, ts)))
    ensures Feed(s, d, ts).cap == s.cap
  {
    OnWire(d);
    if IsReply(d) && s.role.Requester? {
      ReplyReplays(s, SenderOf(d), ts, ops);
      ReplyWaits(s, SenderOf(d), ts);
    } else {
      assert ops + [] == ops;
    }
  }

  lemma ProcessAgrees(s: State, ts: u64, told: seq<Neighbour>, stamp: u64, open: bool, ops: seq<Op<Event>>)
    requires Agrees(s, stamp, open, ops)
    ensures Agrees(Process(s, ts), stamp, open && !Expires(open, stamp, ts),
                   ops + QueueOps(s.role, told, open, stamp, ProcessAt(ts)))
  {
    ExpiresIsOverdue(open, stamp, ts);
    if Expires(open, stamp, ts) {
      ReplaySnoc(s.cap, ops, Op<Event>.Push(ArpAnomaly));
    } else {
      assert ops + [] == ops;
    }
  }

  /** After every run: the stamp, the wait, and the whole history of the queue. */
  lemma {:induction false} StateFollowsCalls(role: Role, size: nat, calls: seq<Call>)
    ensures var s := Run(role, size, calls);
            && s.role == role && s.cap == (if size == 0 then 8 else if size > 32 then 32 else size)
            && Agrees(s, Stamp(role, calls), Open(role, calls), Ops(role, calls))
    decreases |calls|
  {
    if calls != [] {
      var before, c := calls[..|calls| - 1], calls[|calls| - 1];
      StateFollowsCalls(role, size, before);
      RolesKeepTheirSide(role, size, before);
      SpoofsArePairs(role, size, before);
      NeighboursAreFirstReplies(role, size, before);
      ToldIsReplies(role, before);
      StepFollows(Run(role, size, before), c, Told(role, before), Stamp(role, before), Open(role, before),
                  Ops(role, before));
    }
  }

  lemma StepFollows(s: State, c: Call, told: seq<Neighbour>, stamp: u64, open: bool, ops: seq<Op<Event>>)
    requires Agrees(s, stamp, open, ops) && SidesApart(s) && CountsPairs(s)
    requires s.role.Requester? ==> s.neighbours == FirstOf(told, 64)
    ensures Step(s, c).role == s.role && Step(s, c).cap == s.cap
    ensures var asked := c.FeedInput? && Asks(c.d) && s.role.Responder?;
            Agrees(Step(s, c), if asked && c.ts != 0 then c.ts else stamp,
                   if c.Reset? then false else if asked then true
                   else if c.ProcessAt? && Expires(open, stamp, c.ts) then false else open,
                   if c.Reset? then [] else ops + QueueOps(s.role, told, open, stamp, c))
  {
    match c
    case FeedInput(d, ts) =>
      FeedAgrees(s, d, ts, told, ops, open);
      FeedKeepsRole(s, d, ts);
    case ProcessAt(ts) => ProcessAgrees(s, ts, told, stamp, open, ops);
    case NextEvent => ReplaySnoc(s.cap, ops, Op<Event>.Pop);
    case Reset =>
  }

  lemma FeedKeepsRole(s: State, d: seq<byte>, ts: u64)
    requires CountsPairs(s)
    ensures Feed(s, d, ts).role == s.role
  {
    if IsReply(d) && s.role.Requester? {
      ReplyShape(s, SenderOf(d), ts);
    }
  }

  lemma StepExpires(s: State, c: Call)
    requires CountsPairs(s) && !c.Reset?
    ensures Seen(Step(s, c).books, IsAnomaly)
         == Seen(s.books, IsAnomaly) + if c.ProcessAt? && Expires(s.waiting, s.sendTs, c.ts) then 1 else 0
  {
    match c
    case FeedInput(d, ts) =>
      if IsReply(d) && s.role.Requester? {
        ReplyPushes(s, SenderOf(d), ts, IsAnomaly);
      }
    case ProcessAt(ts) =>
      ExpiresIsOverdue(s.waiting, s.sendTs, ts);
      AnomalySeen(s.cap, s.books);
    case _ =>
  }

  lemma {:induction false} TimeoutsAreExpired(role: Role, size: nat, calls: seq<Call>)
    ensures Seen(Run(role, size, calls).books, IsAnomaly) == Expired(role, calls)
    decreases |calls|
  {
    if calls != [] {
      var before, c := calls[..|calls| - 1], calls[|calls| - 1];
      TimeoutsAreExpired(role, size, before);
      StateFollowsCalls(role, size, before);
      SpoofsArePairs(role, size, before);
      if !c.Reset? {
        StepExpires(Run(role, size, before), c);
      }
    }
  }

  /** After every run: the table, and the counters reported, are what was told and what has expired. */
  lemma CountersFollowCalls(role: Role, size: nat, calls: seq<Call>)
    ensures var s, told := Run(role, size, calls), Told(role, calls);
            && s.neighbours == (if |told| <= 64 then told else told[..64])
            && s.counters.replies == |told| % TWO32
            && s.counters.timeouts == Expired(role, calls) % TWO32
  {
    ToldIsReplies(role, calls);
    NeighboursAreFirstReplies(role, size, calls);
    RunsBalance(role, size, calls);
    TimeoutsAreExpired(role, size, calls);
  }

  /** The latencies reported: 5 for each address told, and an average that is 5 iff the sum fits 32 bits. */
  lemma LatenciesFollowCalls(role: Role, size: nat, calls: seq<Call>)
    ensures var c, told := Run(role, size, calls).counters, Told(role, calls);
            && c.maxLat == (if told == [] then 0 else 5)
            && c.minLat == (if told == [] then NO_LATENCY else 5)
            && (c.replies == 0 ==> AverageLatency(c) == 0)
            && (c.replies > 0 ==> (AverageLatency(c) == 5 <==> 5 * c.replies < TWO32))
  {
    ToldIsReplies(role, calls);
    RolesKeepTheirSide(role, size, calls);
    if role.Requester? {
      LatenciesAreDefault(size, calls);
      AverageExactlyWhen(size, calls);
    } else {
      ToldNothing(calls);
    }
  }

  lemma {:induction false} ToldNothing(calls: seq<Call>)
    ensures Told(Responder, calls) == []
    decreases |calls|
  {
    if calls != [] {
      ToldNothing(calls[..|calls| - 1]);
    }
  }
}
