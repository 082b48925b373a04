/** The context of arprecon.c: counters, neighbour table and ring, updated in place. */
module ArpReconContext {
  import opened Bytes
  import opened EventQueue
  import opened Diagnostics
  import opened ArpRecon
  import opened ArpReconPairs
  import opened ArpReconRuns
  import opened ArpReconHistory

  class ArpReconCtx {
    const role: Role
    const ring: Ring<Event>
    var sendTs: u64
    var waiting: bool
    var replies: u32
    var timeouts: u32
    var dups: u32
    var sumLat: u32
    var maxLat: u32
    var minLat: u32
    var countLat: u32
    const neighMacs: array<seq<byte>>
    const neighIps: array<u32>
    var neighCount: nat
    /** The used part of the neighbour table. */
    ghost var neighbours: seq<Neighbour>
    /** The configured queue size, and every call since the context was created. */
    ghost const size: nat
    ghost var history: seq<Call>

    ghost function Counts(): Counters
      reads this
    {
      Counters(replies, timeouts, dups, sumLat, maxLat, minLat, countLat)
    }

    ghost function State(): State
      reads this, ring
    {
      ArpRecon.State(role, ring.qsz, ring.books, sendTs, waiting, Counts(), neighbours)
    }

    ghost predicate Shape()
      reads this, ring, ring.q, neighMacs, neighIps
    {
      && ring.Valid()
      && neighMacs.Length == neighIps.Length == MAX_NEIGH
      && neighCount == |neighbours| <= MAX_NEIGH
      && forall i :: 0 <= i < neighCount ==> neighbours[i] == Neighbour(neighMacs[i], neighIps[i])
    }

    /** The fields are what the calls so far make of them. */
    ghost predicate Valid()
      reads this, ring, ring.q, neighMacs, neighIps
    {
      Shape() && State() == Run(role, size, history)
    }

    constructor (role: Role, size: nat)
      ensures Valid() && history == [] && this.role == role && this.size == size
      ensures fresh(ring) && fresh(ring.q) && fresh(neighMacs) && fresh(neighIps)
    {
      this.role := role;
      this.size := size;
      ring := new Ring(size, DEFAULT_QUEUE);
      sendTs, waiting := 0, false;
      replies, timeouts, dups, sumLat, maxLat, minLat, countLat := 0, 0, 0, 0, 0, NO_LATENCY, 0;
      neighMacs := new seq<byte>[MAX_NEIGH];
      neighIps := new u32[MAX_NEIGH];
      neighCount, neighbours, history := 0, [], [];
    }

    method ForgetAll()
      requires Shape()
      modifies this, ring
      ensures Shape() && history == old(history)
      ensures State() == Forget(old(State()))
    {
      ring.Reset(DEFAULT_QUEUE);
      waiting := false;
      ForgetCounts();
      neighCount, neighbours := 0, [];
    }

    method ForgetCounts()
      modifies this`replies, this`timeouts, this`dups, this`sumLat, this`maxLat, this`minLat, this`countLat
      ensures Counts() == NoCounters()
    {
      replies, timeouts, dups, sumLat, maxLat, countLat := 0, 0, 0, 0, 0, 0;
      minLat := NO_LATENCY;
    }

    method Reset()
      requires Valid()
      modifies this, ring
      ensures Valid() && history == old(history) + [Call.Reset]
    {
      RunSnoc(role, size, history, Call.Reset);
      history := history + [Call.Reset];
      ForgetAll();
    }

    method CountUp(lat: u32)
      modifies this`replies, this`sumLat, this`countLat, this`maxLat, this`minLat
      ensures Counts() == Replied(old(Counts()), lat)
    {
      replies := Add32(replies, 1);
      sumLat := Add32(sumLat, lat);
      countLat := Add32(countLat, 1);
      if lat > maxLat {
        maxLat := lat;
      }
      if lat < minLat {
        minLat := lat;
      }
    }

    method CountReply(mac: seq<byte>, ts: u64)
      requires Shape()
      modifies this, ring, ring.q
      ensures Shape() && history == old(history) && neighbours == old(neighbours)
      ensures State() == ArpRecon.CountReply(old(State()), mac, ts)
    {
      var lat := Latency(sendTs, ts);
      var _ := ring.Push(ArpReply(mac, lat));
      CountUp(lat);
      waiting := false;
    }

    method Append(n: Neighbour)
      requires Shape() && neighCount < MAX_NEIGH
      modifies this, neighMacs, neighIps
      ensures Shape() && history == old(history)
      ensures State() == old(State()).(neighbours := old(neighbours) + [n])
    {
      neighMacs[neighCount] := n.mac;
      neighIps[neighCount] := n.ip;
      neighbours := neighbours + [n];
      neighCount := neighCount + 1;
    }

    /** Compares the newest entry, sent by `mac`, with every older one. */
    method ScanForSpoofs(mac: seq<byte>)
      requires Shape() && neighCount > 0 && mac == neighbours[neighCount - 1].mac
      modifies this, ring, ring.q
      ensures Shape() && history == old(history)
      ensures State() == Scan(old(State()), old(neighCount) - 1)
    {
      ghost var start := State();
      ghost var calls := history;
      var i := 0;
      while i < neighCount - 1
        invariant 0 <= i <= neighCount - 1 && history == calls
        invariant Shape() && neighbours == start.neighbours
        invariant State() == Scan(start, i)
      {
        if neighIps[i] == neighIps[neighCount - 1] && neighMacs[i] != mac {
          var _ := ring.Push(ArpSpoof);
          dups := Add32(dups, 1);
        }
        i := i + 1;
      }
    }

    method FeedInput(d: seq<byte>, ts: u64) returns (code: int)
      requires Valid() && Readable(role, d)
      modifies this, ring, ring.q, neighMacs, neighIps
      ensures Valid() && history == old(history) + [Call.FeedInput(d, ts)]
      ensures code == if |d| < 14 then -1 else 0
    {
      RunSnoc(role, size, history, Call.FeedInput(d, ts));
      Absorb(d, ts);
      history := history + [Call.FeedInput(d, ts)];
      code := if |d| < 14 then -1 else 0;
    }

    method Absorb(d: seq<byte>, ts: u64)
      requires Shape() && Readable(role, d)
      modifies this, ring, ring.q, neighMacs, neighIps
      ensures Shape() && history == old(history)
      ensures State() == Feed(old(State()), d, ts)
    {
      if |d| > 21 && d[12] == 0x08 && d[13] == 0x06 {
        var op := 0x100 * d[20] as int + d[21] as int;
        if op == 2 && role == Requester {
          var sender := SenderOf(d);
          CountReply(sender.mac, ts);
          if neighCount < MAX_NEIGH {
            Append(sender);
            ScanForSpoofs(sender.mac);
          }
        } else if op == 1 && role == Responder {
          if ts != 0 {
            sendTs := ts;
          }
          waiting := true;
        }
      }
    }

    method Expire(ts: u64)
      requires Shape()
      modifies this, ring, ring.q
      ensures Shape() && history == old(history)
      ensures State() == ArpRecon.Process(old(State()), ts)
    {
      if waiting && sendTs != 0 && ts > (sendTs + 1000) % TWO64 {
        var _ := ring.Push(ArpAnomaly);
        timeouts := Add32(timeouts, 1);
        waiting := false;
      }
    }

    method Process(ts: u64)
      requires Valid()
      modifies this, ring, ring.q
      ensures Valid() && history == old(history) + [ProcessAt(ts)]
    {
      RunSnoc(role, size, history, ProcessAt(ts));
      Expire(ts);
      history := history + [ProcessAt(ts)];
    }

    method NextEvent() returns (r: Option<Event>)
      requires Valid()
      modifies this, ring
      ensures Valid() && history == old(history) + [Call.NextEvent]
      ensures var queued := old(ring.books).items; r == if queued == [] then None else Some(queued[0])
    {
      RunSnoc(role, size, history, Call.NextEvent);
      r := ring.Pop();
      history := history + [Call.NextEvent];
    }

    /** Each figure, read off the calls: what a requester was told, and which requests to a responder have expired. */
    method GetStats() returns (s: Stats)
      requires Valid()
      ensures s == StatsOf(Counts(), LossPct(Counts()))
      ensures s.replies == |Told(role, history)| % TWO32
      ensures s.timeouts == Expired(role, history) % TWO32
      ensures s.duplicates == |ConflictingPairs(FirstOf(Told(role, history), 64))|
      ensures s.timeouts <= 42949672 ==> s.lossPct == if s.timeouts == 0 then 0 else 100
      ensures s.maxLatency == s.minLatency == if Told(role, history) == [] then 0 else 5
      ensures s.replies == 0 ==> s.avgLatency == 0
      ensures s.replies > 0 ==> (s.avgLatency == 5 <==> 5 * s.replies < TWO32)
    {
      SpoofsArePairs(role, size, history);
      LossIsAllOrNothing(role, size, history);
      CountersFollowCalls(role, size, history);
      LatenciesFollowCalls(role, size, history);
      s := Stats(replies, timeouts, dups, Percent(timeouts, Add32(replies, timeouts)), Average(sumLat, countLat),
                 maxLat, if minLat == NO_LATENCY then 0 else minLat);
    }
  }
}
