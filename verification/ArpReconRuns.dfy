/** What holds of the ARP reconnaissance after every run of calls. */
module ArpReconRuns {
  import opened Bytes
  import opened EventQueue
  import opened Diagnostics
  import opened ArpRecon
  import opened ArpReconPairs

  // ---------- what a run was told since its last reset ----------

  function Replies(role: Role, calls: seq<Call>): seq<Neighbour>
    decreases |calls|
  {
    if calls == [] then []
    else
      var before, c := Replies(role, calls[..|calls| - 1]), calls[|calls| - 1];
      if c.Reset? then []
      else if c.FeedInput? && IsReply(c.d) && role.Requester? then before + [SenderOf(c.d)]
      else before
  }

  function Requests(role: Role, calls: seq<Call>): nat
    decreases |calls|
  {
    if calls == [] then 0
    else
      var before, c := Requests(role, calls[..|calls| - 1]), calls[|calls| - 1];
      if c.Reset? then 0
      else if c.FeedInput? && IsRequest(c.d) && role.Responder? then before + 1
      else before
  }

  /** The last known time of a request to a responder; a reset does not forget it. */
  function LastStamp(role: Role, calls: seq<Call>): u64
    decreases |calls|
  {
    if calls == [] then 0
    else
      var before, c := LastStamp(role, calls[..|calls| - 1]), calls[|calls| - 1];
      if c.FeedInput? && IsRequest(c.d) && role.Responder? && c.ts != 0 then c.ts else before
  }

  function FirstOf<T>(s: seq<T>, n: nat): seq<T> {
    if |s| <= n then s else s[..n]
  }

  // ---------- the spoof counter ----------

  predicate CountsPairs(s: State) {
    |s.neighbours| <= MAX_NEIGH && s.counters.dups == PairCount(s.neighbours)
  }

  lemma PairCountIsSmall(table: seq<Neighbour>)
    requires |table| <= MAX_NEIGH
    ensures PairCount(table) <= 2016
  {
    PairCountFits(table);
    PairsOfMost(|table|);
  }

  lemma PairsOfMost(n: nat)
    requires n <= 64
    ensures n * (n - 1) <= 64 * 63
  {
    assert (64 - n) * (n + 63) == 64 * 63 + n - n * n;
  }

  lemma ReplyShape(s: State, n: Neighbour, ts: u64)
    requires CountsPairs(s)
    ensures var t := HearReply(s, n, ts);
            && CountsPairs(t)
            && t.neighbours == (if |s.neighbours| >= MAX_NEIGH then s.neighbours else s.neighbours + [n])
            && t == s.(books := t.books, neighbours := t.neighbours, waiting := false,
                       counters := Replied(s.counters, Latency(s.sendTs, ts)).(dups := t.counters.dups))
  {
    if |s.neighbours| < MAX_NEIGH {
      var more := CountReply(s, n.mac, ts).(neighbours := s.neighbours + [n]);
      PairCountIsSmall(s.neighbours);
      ScanCounts(more, |s.neighbours|);
      assert more.neighbours[..|s.neighbours|] == s.neighbours;
    }
  }

  /** A reply pushes its own event, and a spoof event for each spoof that it makes the counter count. */
  lemma ReplyPushes(s: State, n: Neighbour, ts: u64, p: Event -> bool)
    requires CountsPairs(s)
    ensures var t := HearReply(s, n, ts);
            Seen(t.books, p) == Seen(s.books, p) + (if p(ArpReply(n.mac, Latency(s.sendTs, ts))) then 1 else 0)
                                + if p(ArpSpoof) then t.counters.dups - s.counters.dups else 0
  {
    SeenPush(s.cap, s.books, ArpReply(n.mac, Latency(s.sendTs, ts)), p);
    if |s.neighbours| < MAX_NEIGH {
      var more := CountReply(s, n.mac, ts).(neighbours := s.neighbours + [n]);
      PairCountIsSmall(s.neighbours);
      ScanCounts(more, |s.neighbours|);
      ScanPushes(more, |s.neighbours|, p);
    }
  }

  /** In every reachable state the counter is the number of conflicting pairs of the table. */
  lemma {:induction false} SpoofsArePairs(role: Role, size: nat, calls: seq<Call>)
    ensures var s := Run(role, size, calls);
            && CountsPairs(s)
            && s.counters.dups == |ConflictingPairs(s.neighbours)| <= 2016
            && (s.counters.dups == 0 <==> Functional(s.neighbours))
    decreases |calls|
  {
    if calls != [] {
      var before, c := calls[..|calls| - 1], calls[|calls| - 1];
      SpoofsArePairs(role, size, before);
      StepCountsPairs(Run(role, size, before), c);
    }
    var s := Run(role, size, calls);
    PairCountIsCardinality(s.neighbours);
    PairCountIsSmall(s.neighbours);
    NoPairsIffFunctional(s.neighbours);
  }

  lemma StepCountsPairs(s: State, c: Call)
    requires CountsPairs(s)
    ensures CountsPairs(Step(s, c))
  {
    if c.FeedInput? && IsReply(c.d) && s.role.Requester? {
      ReplyShape(s, SenderOf(c.d), c.ts);
    }
  }

  // ---------- the neighbour table ----------

  /** The table holds the first replies since the last reset, as many as it has room for. */
  lemma {:induction false} NeighboursAreFirstReplies(role: Role, size: nat, calls: seq<Call>)
    ensures Run(role, size, calls).role == role
    ensures Run(role, size, calls).neighbours == FirstOf(Replies(role, calls), 64)
    decreases |calls|
  {
    if calls != [] {
      var before, c := calls[..|calls| - 1], calls[|calls| - 1];
      NeighboursAreFirstReplies(role, size, before);
      SpoofsArePairs(role, size, before);
      StepTable(Run(role, size, before), c, Replies(role, before));
    }
  }

  lemma StepTable(s: State, c: Call, told: seq<Neighbour>)
    requires CountsPairs(s) && s.neighbours == FirstOf(told, 64)
    ensures Step(s, c).role == s.role
    ensures Step(s, c).neighbours
         == FirstOf(if c.Reset? then []
                    else if c.FeedInput? && IsReply(c.d) && s.role.Requester? then told + [SenderOf(c.d)]
                    else told, 64)
  {
    if c.FeedInput? && IsReply(c.d) && s.role.Requester? {
      ReplyShape(s, SenderOf(c.d), c.ts);
    }
  }

  /** Up to 64 replies, the counter depends on which replies came, not on their order or on anything else. */
  lemma SpoofsIgnoreOrder(role: Role, size: nat, size': nat, xs: seq<Call>, ys: seq<Call>)
    requires multiset(Replies(role, xs)) == multiset(Replies(role, ys))
    requires |Replies(role, xs)| <= 64
    ensures Run(role, size, xs).counters.dups == Run(role, size', ys).counters.dups
  {
    NeighboursAreFirstReplies(role, size, xs);
    NeighboursAreFirstReplies(role, size', ys);
    SpoofsArePairs(role, size, xs);
    SpoofsArePairs(role, size', ys);
    assert |Replies(role, xs)| == |multiset(Replies(role, ys))|;
    PairCountOrder(Replies(role, xs), Replies(role, ys));
  }

  /** The counter misses no pair of replies iff no reply behind the 64th conflicts with an earlier one. */
  lemma SpoofsAreCompleteExactlyWhen(role: Role, size: nat, calls: seq<Call>)
    ensures var told := Replies(role, calls);
            Run(role, size, calls).counters.dups == PairCount(told)
            <==> forall i, j :: 0 <= i < j < |told| && j >= 64 ==> !Conflict(told[i], told[j])
  {
    var told := Replies(role, calls);
    NeighboursAreFirstReplies(role, size, calls);
    SpoofsArePairs(role, size, calls);
    PairCountOfPrefix(told, if |told| <= MAX_NEIGH then |told| else MAX_NEIGH);
    assert told[..|told|] == told;
  }

  // ---------- the ledger ----------

  predicate SidesApart(s: State) {
    if s.role.Requester? then !s.waiting && s.sendTs == 0 && s.counters.timeouts == 0
    else s.neighbours == [] && s.counters == NoCounters().(timeouts := s.counters.timeouts)
  }

  /** A requester never waits or times out; a responder never counts a reply. */
  lemma {:induction false} RolesKeepTheirSide(role: Role, size: nat, calls: seq<Call>)
    ensures Run(role, size, calls).role == role && SidesApart(Run(role, size, calls))
    decreases |calls|
  {
    if calls != [] {
      var before, c := calls[..|calls| - 1], calls[|calls| - 1];
      RolesKeepTheirSide(role, size, before);
      SpoofsArePairs(role, size, before);
      var s := Run(role, size, before);
      if c.FeedInput? && IsReply(c.d) && role.Requester? {
        ReplyShape(s, SenderOf(c.d), c.ts);
      }
    }
  }

  /** The state against what it was told: `replies` replies and at most `requests` requests since the last reset. */
  predicate Balanced(s: State, replies: nat, requests: nat) {
    && CountsPairs(s)
    && Seen(s.books, IsReplyEvent) == replies
    && Seen(s.books, IsSpoof) == s.counters.dups
    && Seen(s.books, IsAnomaly) + (if s.waiting then 1 else 0) <= requests
    && s.counters.replies == replies % TWO32
    && s.counters.timeouts == Seen(s.books, IsAnomaly) % TWO32
  }

  lemma ReplyBalances(s: State, n: Neighbour, ts: u64, replies: nat, requests: nat)
    requires Balanced(s, replies, requests)
    ensures Balanced(HearReply(s, n, ts), replies + 1, requests)
  {
    CountOneMore(replies);
    ReplyShape(s, n, ts);
    ReplyPushes(s, n, ts, IsReplyEvent);
    ReplyPushes(s, n, ts, IsSpoof);
    ReplyPushes(s, n, ts, IsAnomaly);
  }

  lemma AnomalySeen(cap: nat, b: Books<Event>)
    ensures var t := Enter(cap, b, Op<Event>.Push(ArpAnomaly));
            && Seen(t, IsReplyEvent) == Seen(b, IsReplyEvent)
            && Seen(t, IsSpoof) == Seen(b, IsSpoof)
            && Seen(t, IsAnomaly) == Seen(b, IsAnomaly) + 1
  {
    SeenPush(cap, b, ArpAnomaly, IsReplyEvent);
    SeenPush(cap, b, ArpAnomaly, IsSpoof);
    SeenPush(cap, b, ArpAnomaly, IsAnomaly);
  }

  lemma TimeoutBalances(s: State, ts: u64, replies: nat, requests: nat)
    requires Balanced(s, replies, requests)
    ensures Balanced(Process(s, ts), replies, requests)
  {
    AnomalySeen(s.cap, s.books);
    CountOneMore(Seen(s.books, IsAnomaly));
  }

  /**
   In every reachable state: as many reply, spoof and anomaly events as the counters say were pushed since the
   last reset, one reply event for each reply heard, and no more timeouts than requests heard.
   */
  lemma {:induction false} RunsBalance(role: Role, size: nat, calls: seq<Call>)
    ensures Balanced(Run(role, size, calls), |Replies(role, calls)|, Requests(role, calls))
    decreases |calls|
  {
    if calls != [] {
      var before, c := calls[..|calls| - 1], calls[|calls| - 1];
      RunsBalance(role, size, before);
      RolesKeepTheirSide(role, size, before);
      StepBalances(Run(role, size, before), c, |Replies(role, before)|, Requests(role, before));
    }
  }

  lemma StepBalances(s: State, c: Call, replies: nat, requests: nat)
    requires Balanced(s, replies, requests)
    ensures Balanced(Step(s, c),
                     if c.Reset? then 0
                     else if c.FeedInput? && IsReply(c.d) && s.role.Requester? then replies + 1 else replies,
                     if c.Reset? then 0
                     else if c.FeedInput? && IsRequest(c.d) && s.role.Responder? then requests + 1 else requests)
  {
    match c
    case FeedInput(d, ts) =>
      if IsReply(d) && s.role.Requester? {
        ReplyBalances(s, SenderOf(d), ts, replies, requests);
      }
    case ProcessAt(ts) => TimeoutBalances(s, ts, replies, requests);
    case _ =>
  }

  // ---------- time ----------

  lemma {:induction false} StampIsLastRequest(role: Role, size: nat, calls: seq<Call>)
    ensures Run(role, size, calls).role == role
    ensures Run(role, size, calls).sendTs == LastStamp(role, calls)
    decreases |calls|
  {
    if calls != [] {
      var before, c := calls[..|calls| - 1], calls[|calls| - 1];
      StampIsLastRequest(role, size, before);
      SpoofsArePairs(role, size, before);
      var s := Run(role, size, before);
      if c.FeedInput? && IsReply(c.d) && role.Requester? {
        ReplyShape(s, SenderOf(c.d), c.ts);
      }
    }
  }

  /**
   Processing at `ts` times the last request out iff one is still open and `ts` is behind its deadline, which is a
   second after its time stamp unless 64 bits cannot hold that (OverdueMeansLateExactlyWhen).
   */
  lemma TimeoutExactlyWhenLate(role: Role, size: nat, calls: seq<Call>, ts: u64)
    ensures var s, t := Run(role, size, calls), Run(role, size, calls + [ProcessAt(ts)]);
            var sent := LastStamp(role, calls);
            Seen(t.books, IsAnomaly) ==
            Seen(s.books, IsAnomaly) + if s.waiting && sent != 0 && ts > Deadline(sent) then 1 else 0
    ensures LastStamp(role, calls) + TIMEOUT_MS < TWO64 ==>
              Deadline(LastStamp(role, calls)) == LastStamp(role, calls) + TIMEOUT_MS
  {
    StampIsLastRequest(role, size, calls);
    RunSnoc(role, size, calls, ProcessAt(ts));
    var s := Run(role, size, calls);
    SeenPush(s.cap, s.books, ArpAnomaly, IsAnomaly);
  }

  /** A responder that hears a request at `sent`, and nothing more, reports a timeout at `ts`. */
  ghost predicate TimesOutAt(size: nat, heard: seq<Call>, ts: u64) {
    Seen(Run(Responder, size, heard + [ProcessAt(ts)]).books, IsAnomaly)
    == Seen(Run(Responder, size, heard).books, IsAnomaly) + 1
  }

  lemma SilenceTimesOut(size: nat, calls: seq<Call>, d: seq<byte>, sent: u64, ts: u64)
    requires IsRequest(d) && 0 < sent
    ensures TimesOutAt(size, calls + [FeedInput(d, sent)], ts) <==> Overdue(true, sent, ts)
  {
    var heard := calls + [FeedInput(d, sent)];
    assert heard[..|calls|] == calls;
    RolesKeepTheirSide(Responder, size, calls);
    RunSnoc(Responder, size, calls, FeedInput(d, sent));
    TimeoutExactlyWhenLate(Responder, size, heard, ts);
  }

  /** A request and then silence time out at exactly the times over a second later, iff 64 bits hold the deadline. */
  lemma RequestThenSilence(size: nat, calls: seq<Call>, d: seq<byte>, sent: u64)
    requires IsRequest(d) && 0 < sent
    ensures (forall ts: u64 :: TimesOutAt(size, calls + [FeedInput(d, sent)], ts) <==> ts > sent + 1000)
            <==> sent + 1000 < TWO64
  {
    forall ts: u64
      ensures TimesOutAt(size, calls + [FeedInput(d, sent)], ts) <==> Overdue(true, sent, ts)
    {
      SilenceTimesOut(size, calls, d, sent, ts);
    }
    OverdueMeansLateExactlyWhen(sent);
  }

  // ---------- statistics ----------

  /** The loss of a requester is 0; that of a responder is 100 iff it timed out and 100 times the count fits 32 bits. */
  lemma LossIsAllOrNothing(role: Role, size: nat, calls: seq<Call>)
    ensures var c := Run(role, size, calls).counters;
            && (c.timeouts == 0 ==> LossPct(c) == 0)
            && (c.timeouts > 0 ==> (LossPct(c) == 100 <==> c.timeouts <= MAX_SCALABLE))
            && (role.Requester? ==> LossPct(c) == 0)
            && LossPct(c) <= 100
  {
    RolesKeepTheirSide(role, size, calls);
    var c := Run(role, size, calls).counters;
    if c.timeouts > 0 {
      PercentExactlyWhen(c.timeouts, c.timeouts);
      WholeShare(c.timeouts);
    } else {
      NoShare(c.replies);
    }
  }

  lemma WholeShare(n: u32)
    requires n > 0
    ensures n * 100 / n == 100
  {
    Quotient(n * 100, n);
    BelowQuotient(n * 100, n, 100);
    BelowQuotient(n * 100, n, 101);
  }

  lemma NoShare(total: u32)
    ensures Percent(0, total) == 0
  {
    if total > 0 {
      Quotient(0, total);
    }
  }

  /** All that a requester ever measures: `n` replies, each of the default latency. */
  predicate Measured(c: Counters, n: nat) {
    && c.replies == c.countLat == n % TWO32
    && c.sumLat == (DEFAULT_LATENCY * n) % TWO32
    && c.maxLat == (if n == 0 then 0 else DEFAULT_LATENCY)
    && c.minLat == (if n == 0 then NO_LATENCY else DEFAULT_LATENCY)
  }

  lemma MeasuredOneMore(c: Counters, n: nat)
    requires Measured(c, n)
    ensures Measured(Replied(c, DEFAULT_LATENCY), n + 1)
  {
    CountOneMore(n);
    CountMore(DEFAULT_LATENCY * n, DEFAULT_LATENCY);
  }

  /** No stamp is ever kept for a requester, so that every reply counts as the default latency. */
  lemma {:induction false} LatenciesAreDefault(size: nat, calls: seq<Call>)
    ensures Measured(Run(Requester, size, calls).counters, |Replies(Requester, calls)|)
    decreases |calls|
  {
    if calls != [] {
      var before, c := calls[..|calls| - 1], calls[|calls| - 1];
      LatenciesAreDefault(size, before);
      RolesKeepTheirSide(Requester, size, before);
      SpoofsArePairs(Requester, size, before);
      StepMeasures(Run(Requester, size, before), c, |Replies(Requester, before)|);
    }
  }

  lemma StepMeasures(s: State, c: Call, n: nat)
    requires Measured(s.counters, n) && s.role.Requester? && s.sendTs == 0 && !s.waiting && CountsPairs(s)
    ensures Measured(Step(s, c).counters,
                     if c.Reset? then 0 else if c.FeedInput? && IsReply(c.d) then n + 1 else n)
  {
    if c.FeedInput? && IsReply(c.d) {
      ReplyShape(s, SenderOf(c.d), c.ts);
      MeasuredOneMore(s.counters, n);
    }
  }

  /** The average is the one latency there is, iff the sum of as many latencies as are counted fits 32 bits. */
  predicate AverageIsExactWhenSumFits(c: Counters) {
    c.countLat > 0 ==> (AverageLatency(c) == 5 <==> 5 * c.countLat < TWO32)
  }

  lemma AverageExactlyWhen(size: nat, calls: seq<Call>)
    ensures AverageIsExactWhenSumFits(Run(Requester, size, calls).counters)
    ensures Run(Requester, size, calls).counters.countLat == |Replies(Requester, calls)| % TWO32
  {
    LatenciesAreDefault(size, calls);
    AverageOfDefaults(Run(Requester, size, calls).counters, |Replies(Requester, calls)|);
  }

  lemma AverageOfDefaults(c: Counters, n: nat)
    requires Measured(c, n)
    ensures AverageIsExactWhenSumFits(c)
  {
    SumOfDefaults(n);
    if c.countLat > 0 {
      AverageOfMany(c.countLat);
    }
  }

  lemma AverageOfMany(count: u32)
    requires count > 0
    ensures Average((DEFAULT_LATENCY * count) % TWO32, count) == DEFAULT_LATENCY <==> DEFAULT_LATENCY * count < TWO32
  {
    var sum := (DEFAULT_LATENCY * count) % TWO32;
    Quotient(sum, count);
    BelowQuotient(sum, count, DEFAULT_LATENCY);
    BelowQuotient(sum, count, DEFAULT_LATENCY + 1);
  }

  lemma SumOfDefaults(n: nat)
    ensures (DEFAULT_LATENCY * n) % TWO32 == (DEFAULT_LATENCY * (n % TWO32)) % TWO32
  {
    var q, r := n / TWO32, DEFAULT_LATENCY * (n % TWO32);
    var q', r' := r / TWO32, r % TWO32;
    Remainder(DEFAULT_LATENCY * q + q', r');
  }

  // ---------- a run that misses a spoof ----------

  /** An ARP reply on the wire. */
  function ReplyFrame(n: Neighbour): (d: seq<byte>)
    requires |n.mac| == 6
    ensures |d| == 32
  {
    Zeros(12) + [0x08, 0x06] + Zeros(6) + [0, 2] + n.mac + Be32(n.ip)
  }

  lemma ReplyFrameReads(n: Neighbour)
    requires |n.mac| == 6
    ensures IsReply(ReplyFrame(n)) && SenderOf(ReplyFrame(n)) == n
  {
    var d := ReplyFrame(n);
    assert d[22..28] == n.mac && d[28..32] == Be32(n.ip);
    ReadBe32At(d, 28, n.ip);
  }

  function Again(n: Neighbour, k: nat): seq<Call>
    requires |n.mac| == 6
  {
    if k == 0 then [] else Again(n, k - 1) + [FeedInput(ReplyFrame(n), 0)]
  }

  function Copies(n: Neighbour, k: nat): seq<Neighbour> {
    if k == 0 then [] else Copies(n, k - 1) + [n]
  }

  lemma RepliesSnoc(calls: seq<Call>, n: Neighbour)
    requires |n.mac| == 6
    ensures Replies(Requester, calls + [FeedInput(ReplyFrame(n), 0)]) == Replies(Requester, calls) + [n]
  {
    ReplyFrameReads(n);
    assert (calls + [FeedInput(ReplyFrame(n), 0)])[..|calls|] == calls;
  }

  lemma {:induction false} CopiesAre(n: Neighbour, k: nat)
    ensures |Copies(n, k)| == k && forall i :: 0 <= i < k ==> Copies(n, k)[i] == n
  {
    if k > 0 {
      CopiesAre(n, k - 1);
    }
  }

  lemma {:induction false} RepliesAgain(n: Neighbour, k: nat)
    requires |n.mac| == 6
    ensures Replies(Requester, Again(n, k)) == Copies(n, k)
  {
    if k > 0 {
      RepliesAgain(n, k - 1);
      RepliesSnoc(Again(n, k - 1), n);
    }
  }

  /** After 64 replies of any one station, a reply that gives its address to any other goes unnoticed. */
  lemma SpoofMissedAfter64(size: nat, a: Neighbour, b: Neighbour) returns (calls: seq<Call>)
    requires |a.mac| == |b.mac| == 6 && Conflict(a, b)
    ensures Replies(Requester, calls) == Copies(a, 64) + [b]
    ensures Run(Requester, size, calls).counters.dups == 0 < PairCount(Replies(Requester, calls))
  {
    var first := Again(a, 64);
    calls := first + [FeedInput(ReplyFrame(b), 0)];
    RepliesAgain(a, 64);
    CopiesAre(a, 64);
    RepliesSnoc(first, b);
    var told := Copies(a, 64) + [b];
    PairFound(told, 0, 64);
    NeighboursAreFirstReplies(Requester, size, calls);
    assert told[..64] == Copies(a, 64);
    SpoofsArePairs(Requester, size, calls);
    NoPairsIffFunctional(Copies(a, 64));
  }

  // ---------- runs whose statistics wrap ----------

  /** An ARP request on the wire. */
  function RequestFrame(): seq<byte> {
    Zeros(12) + [0x08, 0x06] + Zeros(6) + [0, 1]
  }

  /** `n` requests, each of them heard at 1 and timed out at 2000. */
  function Unanswered(n: nat): seq<Call> {
    if n == 0 then [] else Unanswered(n - 1) + [FeedInput(RequestFrame(), 1)] + [ProcessAt(2000)]
  }

  /** A responder with `n` timeouts and nothing else to count. */
  predicate Lost(s: State, n: nat) {
    s.role.Responder? && s.counters.replies == 0 && s.counters.timeouts == n % TWO32
  }

  lemma LostOneMore(s: State, n: nat)
    requires Lost(s, n)
    ensures Lost(Step(Step(s, FeedInput(RequestFrame(), 1)), ProcessAt(2000)), n + 1)
  {
    assert IsRequest(RequestFrame());
    CountOneMore(n);
  }

  lemma RunTwice(role: Role, size: nat, calls: seq<Call>, b: Call, c: Call)
    ensures Run(role, size, calls + [b] + [c]) == Step(Step(Run(role, size, calls), b), c)
  {
    RunSnoc(role, size, calls, b);
    RunSnoc(role, size, calls + [b], c);
  }

  lemma {:induction false} UnansweredTimeOut(size: nat, n: nat)
    ensures Lost(Run(Responder, size, Unanswered(n)), n)
  {
    if n > 0 {
      UnansweredTimeOut(size, n - 1);
      RunTwice(Responder, size, Unanswered(n - 1), FeedInput(RequestFrame(), 1), ProcessAt(2000));
      LostOneMore(Run(Responder, size, Unanswered(n - 1)), n - 1);
    }
  }

  /** A responder that never heard an answer to 42949673 requests reports no loss. */
  lemma LossBeyond(size: nat) returns (calls: seq<Call>)
    ensures var c := Run(Responder, size, calls).counters; c.timeouts == 42949673 && LossPct(c) == 0
  {
    calls := WithTimeouts(size, 42949673);
  }

  lemma WithTimeouts(size: nat, n: u32) returns (calls: seq<Call>)
    ensures var c := Run(Responder, size, calls).counters; c.timeouts == n && LossPct(c) == Percent(n, n)
  {
    calls := Unanswered(n);
    UnansweredTimeOut(size, n);
  }

  /** A requester that heard 858993460 replies, all of the default latency, reports an average of 0. */
  lemma AverageBeyond(size: nat, n: Neighbour) returns (calls: seq<Call>)
    requires |n.mac| == 6
    ensures |Replies(Requester, calls)| == 858993460
    ensures AverageLatency(Run(Requester, size, calls).counters) == 0
  {
    calls := WithReplies(size, n, 858993460);
    SumWraps(Run(Requester, size, calls).counters);
  }

  lemma SumWraps(c: Counters)
    requires Measured(c, 858993460)
    ensures AverageLatency(c) == 0
  {
  }

  lemma WithReplies(size: nat, n: Neighbour, k: nat) returns (calls: seq<Call>)
    requires |n.mac| == 6
    ensures |Replies(Requester, calls)| == k && Measured(Run(Requester, size, calls).counters, k)
  {
    calls := Again(n, k);
    RepliesAgain(n, k);
    CopiesAre(n, k);
    LatenciesAreDefault(size, calls);
  }
}
