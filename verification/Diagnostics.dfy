/** What the stateful diagnostics share: roles, counters, the latency of a reply, the timeout test, percentages. */
module Diagnostics {
  import opened Bytes
  import opened EventQueue

  datatype Role = Requester | Responder

  /** `~0U`: no reply has been measured yet. */
  const NO_LATENCY: u32 := 0xFFFF_FFFF
  const DEFAULT_LATENCY: u32 := 5
  const TIMEOUT_MS: u64 := 1000
  const DEFAULT_QUEUE: nat := 8

  datatype Counters = Counters(replies: u32, timeouts: u32, dups: u32, sumLat: u32, maxLat: u32, minLat: u32,
                               countLat: u32)

  datatype Stats = Stats(replies: u32, timeouts: u32, duplicates: u32, lossPct: u32,
                         avgLatency: u32, maxLatency: u32, minLatency: u32)

  function NoCounters(): Counters {
    Counters(0, 0, 0, 0, 0, NO_LATENCY, 0)
  }

  /** Counters after one more reply that took `lat`. */
  function Replied(c: Counters, lat: u32): Counters {
    c.(replies := Add32(c.replies, 1), sumLat := Add32(c.sumLat, lat), countLat := Add32(c.countLat, 1),
       maxLat := if lat > c.maxLat then lat else c.maxLat,
       minLat := if lat < c.minLat then lat else c.minLat)
  }

  function Latency(sendTs: u64, ts: u64): u32 {
    if sendTs == 0 || ts == 0 then DEFAULT_LATENCY
    else if ts > sendTs then (ts - sendTs) % TWO32 else 0
  }

  /** `send_ts + 1000` in 64-bit unsigned arithmetic. */
  function Deadline(sendTs: u64): u64 {
    if sendTs + TIMEOUT_MS < TWO64 then sendTs + TIMEOUT_MS else sendTs + TIMEOUT_MS - TWO64
  }

  predicate Overdue(waiting: bool, sendTs: u64, ts: u64) {
    waiting && sendTs != 0 && ts > Deadline(sendTs)
  }

  /** The timeout test in numbers: a request is open, it has a time, and at `ts` more than a second has passed. */
  predicate Expires(open: bool, stamp: u64, ts: u64) {
    open && stamp != 0 && ts > if stamp + 1000 < TWO64 then stamp + 1000 else stamp + 1000 - TWO64
  }

  lemma ExpiresIsOverdue(open: bool, stamp: u64, ts: u64)
    ensures Expires(open, stamp, ts) <==> Overdue(open, stamp, ts)
  {
  }

  /** A probe sent in the last second that 64 bits can count is overdue too early: its deadline wraps. */
  lemma OverdueMeansLateExactlyWhen(sendTs: u64)
    requires sendTs != 0
    ensures (forall ts: u64 :: Overdue(true, sendTs, ts) <==> ts > sendTs + TIMEOUT_MS)
            <==> sendTs + TIMEOUT_MS < TWO64
  {
    if sendTs + TIMEOUT_MS >= TWO64 {
      assert Overdue(true, sendTs, sendTs);
    }
  }

  /** `(part * 100) / total` in 32-bit unsigned arithmetic, 0 for no total. */
  function Percent(part: u32, total: u32): u32 {
    if total == 0 then 0
    else
      var scaled := (part * 100) % TWO32;
      Quotient(scaled, total);
      scaled / total
  }

  lemma Quotient(x: nat, y: nat)
    requires y > 0
    ensures y * (x / y) <= x < y * (x / y) + y
    ensures 0 <= x / y <= x
  {
    var q, r := x / y, x % y;
    assert x == y * q + r && 0 <= r < y;
    Times(y, q);
  }

  lemma Times(y: nat, q: int)
    requires y > 0
    ensures q >= 0 ==> y * q >= q
    ensures q < 0 ==> y * q + y <= 0
  {
    if q < 0 {
      assert y * (q + 1) <= 0;
    }
  }

  lemma BelowQuotient(x: nat, y: nat, q: nat)
    requires y > 0
    ensures x < y * q <==> x / y < q
  {
    Quotient(x, y);
    if x / y < q {
      assert y * (x / y + 1) <= y * q;
    } else {
      assert y * q <= y * (x / y);
    }
  }

  /** The largest count that the factor 100 does not wrap. */
  const MAX_SCALABLE: u32 := 42949672

  /** A share of a total that fits 32 bits stays within 0..100, and is the exact one iff the factor 100 fits as well. */
  lemma PercentExactlyWhen(part: u32, total: u32)
    requires part <= total && total > 0
    ensures 0 <= Percent(part, total) <= 100
    ensures Percent(part, total) == part * 100 / total <==> part <= MAX_SCALABLE
  {
    var whole := part * 100;
    var scaled := whole % TWO32;
    BelowQuotient(scaled, total, 101);
    if part > MAX_SCALABLE {
      Quotient(whole, total);
      BelowQuotient(scaled, total, whole / total);
      assert scaled <= whole - TWO32;
    }
  }

  /** Whatever the counters: the share is at most 100 iff their sum does not wrap to a total too small for it. */
  lemma PercentIsAtMost100ExactlyWhen(part: u32, rest: u32)
    ensures Percent(part, Add32(rest, part)) <= 100
            <==> rest + part <= TWO32 || (part * 100) % TWO32 < 101 * (rest + part - TWO32)
  {
    var total := Add32(rest, part);
    if total > 0 {
      BelowQuotient((part * 100) % TWO32, total, 101);
      if rest + part < TWO32 {
        PercentExactlyWhen(part, total);
      }
    }
  }

  /** A multiple of 100 stays even in 32 bits, so that no percentage is all ones. */
  lemma NeverMinusOne(part: u32, total: u32)
    ensures Percent(part, total) != 0xFFFF_FFFF
  {
    var half := HalfOfScaled(part);
    if total > 0 {
      Quotient((part * 100) % TWO32, total);
    }
  }

  lemma HalfOfScaled(part: u32) returns (half: int)
    ensures (part * 100) % TWO32 == 2 * half
  {
    half := part * 50 - part * 100 / TWO32 * 0x8000_0000;
  }

  function Average(sum: u32, count: u32): u32 {
    if count == 0 then 0
    else
      Quotient(sum, count);
      sum / count
  }

  function AverageLatency(c: Counters): u32 {
    Average(c.sumLat, c.countLat)
  }

  function StatsOf(c: Counters, lossPct: u32): Stats {
    Stats(c.replies, c.timeouts, c.dups, lossPct, AverageLatency(c),
          c.maxLat, if c.minLat == NO_LATENCY then 0 else c.minLat)
  }

  // ---------- counting the events of a run ----------

  function Tally<E>(es: seq<E>, p: E -> bool): nat
    decreases |es|
  {
    if es == [] then 0
    else Tally(es[..|es| - 1], p) + if p(es[|es| - 1]) then 1 else 0
  }

  lemma TallySnoc<E>(es: seq<E>, e: E, p: E -> bool)
    ensures Tally(es + [e], p) == Tally(es, p) + if p(e) then 1 else 0
  {
    assert (es + [e])[..|es|] == es;
  }

  /** How many of the events pushed since the last reset, whether accepted or dropped, satisfy `p`. */
  function Seen<E>(b: Books<E>, p: E -> bool): nat {
    Tally(b.accepted, p) + Tally(b.dropped, p)
  }

  lemma SeenPush<E>(cap: nat, b: Books<E>, e: E, p: E -> bool)
    ensures Seen(Enter(cap, b, Op.Push(e)), p) == Seen(b, p) + if p(e) then 1 else 0
  {
    TallySnoc(b.accepted, e, p);
    TallySnoc(b.dropped, e, p);
  }

  lemma CountOneMore(n: nat)
    ensures Add32(n % TWO32, 1) == (n + 1) % TWO32
  {
  }

  lemma CountMore(n: nat, more: u32)
    ensures Add32(n % TWO32, more) == (n + more) % TWO32
  {
    var q, r := n / TWO32, n % TWO32;
    if r + more < TWO32 {
      Remainder(q, r + more);
    } else {
      Remainder(q + 1, r + more - TWO32);
    }
  }

  lemma Remainder(q: nat, r: u32)
    ensures (TWO32 * q + r) % TWO32 == r
  {
  }
}
