/** The context of traceroute.c: global counters, four tables of hop counters and the ring, updated in place. */
module TracerouteContext {
  import opened Bytes
  import opened EventQueue
  import opened Diagnostics
  import opened Traceroute
  import opened TracerouteRuns
  import opened TracerouteHistory

  method NewRow() returns (row: array<u32>)
    ensures fresh(row) && row.Length == MAX_HOPS && row[..] == NoRow()
  {
    row := new u32[MAX_HOPS](_ => 0);
  }

  class TracerouteCtx {
    const role: Role
    const ring: Ring<Event>
    var lastSeq: u32
    var sendTs: u64
    var waiting: bool
    var replies: u32
    var timeouts: u32
    var dups: u32
    var sumLat: u32
    var maxLat: u32
    var minLat: u32
    var countLat: u32
    const hopReplies: array<u32>
    const hopTimeouts: array<u32>
    const hopSumLat: array<u32>
    const hopCount: array<u32>
    /** The configured queue size, and every call since the context was created. */
    ghost const size: nat
    ghost var history: seq<Call>

    ghost function Counts(): Counters
      reads this
    {
      Counters(replies, timeouts, dups, sumLat, maxLat, minLat, countLat)
    }

    predicate Tables() {
      && hopReplies.Length == hopTimeouts.Length == hopSumLat.Length == hopCount.Length == MAX_HOPS
      && hopReplies != hopTimeouts && hopReplies != hopSumLat && hopReplies != hopCount
      && hopTimeouts != hopSumLat && hopTimeouts != hopCount && hopSumLat != hopCount
    }

    ghost function HopTables(): Hops
      reads hopReplies, hopTimeouts, hopSumLat, hopCount
      requires Tables()
    {
      Hops(hopReplies[..], hopTimeouts[..], hopSumLat[..], hopCount[..])
    }

    ghost predicate Shape()
      reads this, ring, ring.q
    {
      ring.Valid() && Tables()
    }

    ghost function State(): State
      reads this, ring, ring.q, hopReplies, hopTimeouts, hopSumLat, hopCount
      requires Shape()
    {
      Traceroute.State(role, ring.qsz, ring.books, sendTs, waiting, lastSeq, Counts(), HopTables())
    }

    /** The fields are what the calls so far make of them. */
    ghost predicate Valid()
      reads this, ring, ring.q, hopReplies, hopTimeouts, hopSumLat, hopCount
    {
      Shape() && State() == Run(role, size, history)
    }

    constructor (role: Role, size: nat)
      ensures Valid() && history == [] && this.role == role && this.size == size
      ensures fresh(ring) && fresh(ring.q)
      ensures fresh(hopReplies) && fresh(hopTimeouts) && fresh(hopSumLat) && fresh(hopCount)
    {
      this.role := role;
      this.size := size;
      ring := new Ring(size, DEFAULT_QUEUE);
      lastSeq, sendTs, waiting := 0, 0, false;
      replies, timeouts, dups, sumLat, maxLat, minLat, countLat := 0, 0, 0, 0, 0, NO_LATENCY, 0;
      var row0 := NewRow();
      var row1 := NewRow();
      var row2 := NewRow();
      var row3 := NewRow();
      hopReplies, hopTimeouts, hopSumLat, hopCount := row0, row1, row2, row3;
      history := [];
    }

    /** `memset(row, 0, sizeof(row))`. */
    static method Clear(row: array<u32>)
      requires row.Length == MAX_HOPS
      modifies row
      ensures row[..] == NoRow()
    {
      forall i | 0 <= i < row.Length {
        row[i] := 0;
      }
    }

    method ForgetAll()
      requires Shape()
      modifies this, ring, hopReplies, hopTimeouts, hopSumLat, hopCount
      ensures Shape() && history == old(history)
      ensures State() == Forget(old(State()))
    {
      ring.Reset(DEFAULT_QUEUE);
      waiting := false;
      ForgetCounts();
      ForgetHops();
    }

    method ForgetCounts()
      modifies this`replies, this`timeouts, this`dups, this`sumLat, this`maxLat, this`minLat, this`countLat
      ensures Counts() == NoCounters()
    {
      replies, timeouts, dups, sumLat, maxLat, countLat := 0, 0, 0, 0, 0, 0;
      minLat := NO_LATENCY;
    }

    method ForgetHops()
      requires Tables()
      modifies hopReplies, hopTimeouts, hopSumLat, hopCount
      ensures HopTables() == NoHops()
    {
      Clear(hopReplies);
      Clear(hopTimeouts);
      Clear(hopSumLat);
      Clear(hopCount);
    }

    method Reset()
      requires Valid()
      modifies this, ring, hopReplies, hopTimeouts, hopSumLat, hopCount
      ensures Valid() && history == old(history) + [Call.Reset]
    {
      RunSnoc(role, size, history, Call.Reset);
      history := history + [Call.Reset];
      ForgetAll();
    }

    method CountUp(lat: u32)
      modifies this`replies, this`sumLat, this`countLat, this`maxLat, this`minLat
      ensures Counts() == Replied(old(Counts()), lat)
    {
      replies := Add32(replies, 1);
      sumLat := Add32(sumLat, lat);
      countLat := Add32(countLat, 1);
      if lat > maxLat {
        maxLat := lat;
      }
      if lat < minLat {
        minLat := lat;
      }
    }

    static method Bump(row: array<u32>, hop: nat, amount: u32)
      requires row.Length == MAX_HOPS && hop < MAX_HOPS
      modifies row
      ensures row[..] == Bumped(old(row[..]), hop, amount)
    {
      row[hop] := Add32(row[hop], amount);
    }

    method Record(hop: int, success: bool, lat: u32)
      requires Tables()
      modifies hopReplies, hopTimeouts, hopSumLat, hopCount
      ensures HopTables() == Recorded(old(HopTables()), hop, success, lat)
    {
      if hop < 0 || hop >= MAX_HOPS {
        return;
      }
      if success {
        Bump(hopReplies, hop, 1);
        Bump(hopSumLat, hop, lat);
        Bump(hopCount, hop, 1);
      } else {
        Bump(hopTimeouts, hop, 1);
      }
    }

    method RecordHop(hop: int, success: bool, lat: u32)
      requires Valid()
      modifies this`history, hopReplies, hopTimeouts, hopSumLat, hopCount
      ensures Valid() && history == old(history) + [Call.RecordHop(hop, success, lat)]
    {
      RunSnoc(role, size, history, Call.RecordHop(hop, success, lat));
      Record(hop, success, lat);
      history := history + [Call.RecordHop(hop, success, lat)];
    }

    method HearAnswer(ts: u64)
      requires Shape()
      modifies this, ring, ring.q, hopReplies, hopTimeouts, hopSumLat, hopCount
      ensures Shape() && history == old(history)
      ensures State() == Traceroute.HearAnswer(old(State()), ts)
    {
      var lat := Latency(sendTs, ts);
      var _ := ring.Push(Hop(lastSeq, lat, false));
      CountUp(lat);
      Record(HopOf(lastSeq), true, lat);
      waiting := false;
    }

    method Absorb(d: seq<byte>, ts: u64)
      requires Shape() && Readable(role, d)
      modifies this, ring, ring.q, hopReplies, hopTimeouts, hopSumLat, hopCount
      ensures Shape() && history == old(history)
      ensures State() == Feed(old(State()), d, ts)
    {
      if |d| < 20 {
        return;
      }
      if ts != 0 {
        sendTs := ts;
      }
      if (d[20] == TIME_EXCEEDED || d[20] == UNREACHABLE) && role == Requester {
        HearAnswer(ts);
      } else if d[20] == ECHO_REQUEST && role == Responder {
        lastSeq := Rd16Be(d, 28);
        if ts != 0 {
          sendTs := ts;
        }
        waiting := true;
      }
    }

    method FeedInput(d: seq<byte>, ts: u64) returns (code: int)
      requires Valid() && Readable(role, d)
      modifies this, ring, ring.q, hopReplies, hopTimeouts, hopSumLat, hopCount
      ensures Valid() && history == old(history) + [Call.FeedInput(d, ts)]
      ensures code == if |d| < 20 then -1 else 0
    {
      RunSnoc(role, size, history, Call.FeedInput(d, ts));
      Absorb(d, ts);
      history := history + [Call.FeedInput(d, ts)];
      code := if |d| < 20 then -1 else 0;
    }

    method Expire(ts: u64)
      requires Shape()
      modifies this, ring, ring.q, hopReplies, hopTimeouts, hopSumLat, hopCount
      ensures Shape() && history == old(history)
      ensures State() == Traceroute.Process(old(State()), ts)
    {
      if waiting && sendTs != 0 && ts > Deadline(sendTs) {
        var _ := ring.Push(Hop(lastSeq, 0, true));
        timeouts := Add32(timeouts, 1);
        Record(HopOf(lastSeq), false, 0);
        waiting := false;
      }
    }

    method Process(ts: u64)
      requires Valid()
      modifies this, ring, ring.q, hopReplies, hopTimeouts, hopSumLat, hopCount
      ensures Valid() && history == old(history) + [ProcessAt(ts)]
    {
      RunSnoc(role, size, history, ProcessAt(ts));
      Expire(ts);
      history := history + [ProcessAt(ts)];
    }

    method NextEvent() returns (r: Option<Event>)
      requires Valid()
      modifies this`history, ring
      ensures Valid() && history == old(history) + [Call.NextEvent]
      ensures var queued := old(ring.books).items; r == if queued == [] then None else Some(queued[0])
    {
      RunSnoc(role, size, history, Call.NextEvent);
      r := ring.Pop();
      history := history + [Call.NextEvent];
    }

    /** Each figure, read off the calls; no duplicates and no loss are ever reported. */
    method GetStats() returns (s: Stats)
      requires Valid()
      ensures s == StatsOf(Counts(), 0)
      ensures Reports(s, Answers(role, history, true), Answers(role, history, false), Expired(role, history))
    {
      StatsFollowCalls(role, size, history);
      s := Stats(replies, timeouts, dups, 0, Average(sumLat, countLat),
                 maxLat, if minLat == NO_LATENCY then 0 else minLat);
    }

    method HopLossPct(hop: int) returns (loss: int)
      requires Valid()
      ensures loss == Traceroute.HopLossPct(HopTables(), hop)
      ensures loss == -1 <==> !InRange(hop)
      ensures InRange(hop) ==> (0 <= loss <= 100 <==> Proportionate(hopReplies[hop], hopTimeouts[hop]))
    {
      if hop < 0 || hop >= MAX_HOPS {
        return -1;
      }
      HopLossIsPercentageExactlyWhen(HopTables(), hop);
      NeverMinusOne(hopTimeouts[hop], Add32(hopReplies[hop], hopTimeouts[hop]));
      loss := SignExtend32(Percent(hopTimeouts[hop], Add32(hopReplies[hop], hopTimeouts[hop])));
    }
  }
}
