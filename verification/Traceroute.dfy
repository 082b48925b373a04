/** The path diagnostics of traceroute.c: what one call does to its state, and runs of calls. */
module Traceroute {
  import opened Bytes
  import opened EventQueue
  import opened Diagnostics

  const MAX_HOPS: nat := 32

  const ECHO_REQUEST: byte := 8
  const TIME_EXCEEDED: byte := 11
  const UNREACHABLE: byte := 3

  /** A hop event; a timeout is told from a reply by its reason. */
  datatype Event = Hop(number: u32, latency: u32, timedOut: bool)

  /** An ICMP answer on the way back: time exceeded, or destination unreachable. */
  predicate IsAnswer(d: seq<byte>) {
    |d| >= 21 && (d[20] == TIME_EXCEEDED || d[20] == UNREACHABLE)
  }

  /** An echo request that has its sequence number. */
  predicate IsRequest(d: seq<byte>) {
    |d| >= 30 && d[20] == ECHO_REQUEST
  }

  /**
   The type of every packet of 20 bytes is read, and by a responder the sequence number of every echo request; the
   runs below ignore packets too short for that.
   */
  predicate Readable(role: Role, d: seq<byte>) {
    |d| >= 20 ==> |d| >= 21 && (role.Responder? && d[20] == ECHO_REQUEST ==> |d| >= 30)
  }

  /** One counter for each hop. */
  type Row = r: seq<u32> | |r| == MAX_HOPS witness seq(MAX_HOPS, _ => 0)

  datatype Hops = Hops(replies: Row, timeouts: Row, sumLat: Row, count: Row)

  function NoRow(): Row {
    seq(MAX_HOPS, _ => 0)
  }

  function NoHops(): Hops {
    Hops(NoRow(), NoRow(), NoRow(), NoRow())
  }

  function Bumped(r: Row, hop: nat, amount: u32): Row
    requires hop < MAX_HOPS
  {
    r[hop := Add32(r[hop], amount)]
  }

  predicate InRange(hop: int) {
    0 <= hop < MAX_HOPS
  }

  /** The hop tables after one probe result; hops out of range are ignored. */
  function Recorded(h: Hops, hop: int, success: bool, lat: u32): Hops {
    if !InRange(hop) then h
    else if success then
      h.(replies := Bumped(h.replies, hop, 1), sumLat := Bumped(h.sumLat, hop, lat), count := Bumped(h.count, hop, 1))
    else h.(timeouts := Bumped(h.timeouts, hop, 1))
  }

  function HopOf(number: u32): (hop: nat)
    ensures InRange(hop)
  {
    number % MAX_HOPS
  }

  datatype State = State(role: Role, cap: nat, books: Books<Event>, sendTs: u64, waiting: bool, lastSeq: u32,
                         counters: Counters, hops: Hops)

  function Initial(role: Role, size: nat): State {
    State(role, Clamp(size, DEFAULT_QUEUE), NewBooks(), 0, false, 0, NoCounters(), NoHops())
  }

  /** A reset forgets everything but the role, the capacity, the last time stamp and the last sequence number. */
  function Forget(s: State): State {
    s.(books := NewBooks(), waiting := false, counters := NoCounters(), hops := NoHops())
  }

  function Push(s: State, e: Event): State {
    s.(books := Enter(s.cap, s.books, Op<Event>.Push(e)))
  }

  function HearAnswer(s: State, ts: u64): State {
    var lat := Latency(s.sendTs, ts);
    Push(s, Hop(s.lastSeq, lat, false)).(counters := Replied(s.counters, lat), waiting := false,
                                         hops := Recorded(s.hops, HopOf(s.lastSeq), true, lat))
  }

  function Feed(s: State, d: seq<byte>, ts: u64): State {
    if |d| < 20 then s
    else
      var stamped := s.(sendTs := if ts != 0 then ts else s.sendTs);
      if IsAnswer(d) && s.role.Requester? then HearAnswer(stamped, ts)
      else if IsRequest(d) && s.role.Responder? then stamped.(lastSeq := Rd16Be(d, 28), waiting := true)
      else stamped
  }

  function TimeOut(s: State): State {
    Push(s, Hop(s.lastSeq, 0, true)).(counters := s.counters.(timeouts := Add32(s.counters.timeouts, 1)),
                                      waiting := false,
                                      hops := Recorded(s.hops, HopOf(s.lastSeq), false, 0))
  }

  function Process(s: State, ts: u64): State {
    if Overdue(s.waiting, s.sendTs, ts) then TimeOut(s) else s
  }

  datatype Call = FeedInput(d: seq<byte>, ts: u64) | ProcessAt(ts: u64)
                | RecordHop(hop: int, success: bool, lat: u32) | NextEvent | Reset

  function Step(s: State, c: Call): State {
    match c
    case FeedInput(d, ts) => Feed(s, d, ts)
    case ProcessAt(ts) => Process(s, ts)
    case RecordHop(hop, success, lat) => s.(hops := Recorded(s.hops, hop, success, lat))
    case NextEvent => s.(books := Enter(s.cap, s.books, Op<Event>.Pop))
    case Reset => Forget(s)
  }

  function Run(role: Role, size: nat, calls: seq<Call>): State
    decreases |calls|
  {
    if calls == [] then Initial(role, size)
    else Step(Run(role, size, calls[..|calls| - 1]), calls[|calls| - 1])
  }

  lemma RunSnoc(role: Role, size: nat, calls: seq<Call>, c: Call)
    ensures Run(role, size, calls + [c]) == Step(Run(role, size, calls), c)
  {
    assert (calls + [c])[..|calls|] == calls;
  }

  /** The loss of one hop in percent, -1 for no such hop; the 32-bit quotient is returned as a signed integer. */
  function HopLossPct(h: Hops, hop: int): int {
    if !InRange(hop) then -1 else SignExtend32(Percent(h.timeouts[hop], Add32(h.replies[hop], h.timeouts[hop])))
  }
}
