/** The passive ARP reconnaissance of arprecon.c: what one call does to its state, and runs of calls. */
module ArpRecon {
  import opened Bytes
  import opened EventQueue
  import opened Diagnostics

  const MAX_NEIGH: nat := 64

  datatype Event = ArpReply(mac: seq<byte>, latency: u32) | ArpSpoof | ArpAnomaly

  datatype Neighbour = Neighbour(mac: seq<byte>, ip: u32)

  predicate IsArp(d: seq<byte>) {
    |d| > 21 && d[12] == 0x08 && d[13] == 0x06
  }

  /** A reply that has its sender addresses. */
  predicate IsReply(d: seq<byte>) {
    IsArp(d) && Rd16Be(d, 20) == 2 && |d| >= 32
  }

  /** A requester reads the sender addresses of every reply; the runs below ignore a reply too short for them. */
  predicate Readable(role: Role, d: seq<byte>) {
    role.Requester? && IsArp(d) && Rd16Be(d, 20) == 2 ==> |d| >= 32
  }

  predicate IsRequest(d: seq<byte>) {
    IsArp(d) && Rd16Be(d, 20) == 1
  }

  function SenderOf(d: seq<byte>): Neighbour
    requires IsReply(d)
  {
    Neighbour(d[22..28], Rd32Be(d, 28))
  }

  datatype State = State(role: Role, cap: nat, books: Books<Event>, sendTs: u64, waiting: bool,
                         counters: Counters, neighbours: seq<Neighbour>)

  function Initial(role: Role, size: nat): State {
    State(role, Clamp(size, DEFAULT_QUEUE), NewBooks(), 0, false, NoCounters(), [])
  }

  /** A reset forgets everything but the role, the capacity and the time of the last request. */
  function Forget(s: State): State {
    State(s.role, s.cap, NewBooks(), s.sendTs, false, NoCounters(), [])
  }

  function Push(s: State, e: Event): State {
    s.(books := Enter(s.cap, s.books, Op<Event>.Push(e)))
  }

  /** Two entries that give one address to different stations. */
  predicate Conflict(x: Neighbour, y: Neighbour) {
    x.ip == y.ip && x.mac != y.mac
  }

  /** The scan of the newest entry against the first `i` entries. */
  function Scan(s: State, i: nat): State
    requires i < |s.neighbours|
  {
    if i == 0 then s
    else
      var t := Scan(s, i - 1);
      if Conflict(s.neighbours[i - 1], s.neighbours[|s.neighbours| - 1])
      then Push(t, ArpSpoof).(counters := t.counters.(dups := Add32(t.counters.dups, 1)))
      else t
  }

  function AddNeighbour(s: State, n: Neighbour): State {
    if |s.neighbours| >= MAX_NEIGH then s
    else Scan(s.(neighbours := s.neighbours + [n]), |s.neighbours|)
  }

  function CountReply(s: State, mac: seq<byte>, ts: u64): State {
    var lat := Latency(s.sendTs, ts);
    Push(s, ArpReply(mac, lat)).(counters := Replied(s.counters, lat), waiting := false)
  }

  function HearReply(s: State, n: Neighbour, ts: u64): State {
    AddNeighbour(CountReply(s, n.mac, ts), n)
  }

  function Feed(s: State, d: seq<byte>, ts: u64): State {
    if IsReply(d) && s.role.Requester? then HearReply(s, SenderOf(d), ts)
    else if IsRequest(d) && s.role.Responder? then s.(sendTs := if ts != 0 then ts else s.sendTs, waiting := true)
    else s
  }

  function Process(s: State, ts: u64): State {
    if Overdue(s.waiting, s.sendTs, ts)
    then Push(s, ArpAnomaly).(counters := s.counters.(timeouts := Add32(s.counters.timeouts, 1)), waiting := false)
    else s
  }

  datatype Call = FeedInput(d: seq<byte>, ts: u64) | ProcessAt(ts: u64) | NextEvent | Reset

  function Step(s: State, c: Call): State {
    match c
    case FeedInput(d, ts) => Feed(s, d, ts)
    case ProcessAt(ts) => Process(s, ts)
    case NextEvent => s.(books := Enter(s.cap, s.books, Op<Event>.Pop))
    case Reset => Forget(s)
  }

  function Run(role: Role, size: nat, calls: seq<Call>): State
    decreases |calls|
  {
    if calls == [] then Initial(role, size)
    else Step(Run(role, size, calls[..|calls| - 1]), calls[|calls| - 1])
  }

  lemma RunSnoc(role: Role, size: nat, calls: seq<Call>, c: Call)
    ensures Run(role, size, calls + [c]) == Step(Run(role, size, calls), c)
  {
    assert (calls + [c])[..|calls|] == calls;
  }

  function LossPct(c: Counters): u32 {
    Percent(c.timeouts, Add32(c.replies, c.timeouts))
  }
}
