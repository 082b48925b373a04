/** Whole runs of the nl80211 parser: any calls in any order, on a context of any capacity. */
module Nl80211Runs {
  import opened Bytes
  import opened Walk
  import opened FeedRuns
  import opened Netlink
  import opened Nl80211
  import opened Nl80211Streams
  import opened Nl80211Context

  /**
   Anywhere in any run, a framed buffer can be fed in two parts at the end of a whole message, if the second part by
   itself is neither a synthetic frame nor a bare stream.
   */
  lemma SplittingAFeedChangesNoRun(
    cap: nat, log: Log<Event>, xs: seq<Call>, a: seq<byte>, b: seq<byte>, ys: seq<Call>)
    requires Whole(MsgReader, a, 0) && !IsSynth(a) && !IsSynth(b) && !IsBare(b)
    ensures RunFrom(FedEvents, cap, log, xs + [Feed(a + b)] + ys)
         == RunFrom(FedEvents, cap, log, xs + [Feed(a), Feed(b)] + ys)
  {
    BatchingOffersTheSame(a, b);
    SplittingAFeed(FedEvents, cap, log, xs, a, b, ys);
  }

  /** A context that performs any calls that come to an end delivers and queues what the log of the run says. */
  method Perform(size: nat, calls: seq<Call>) returns (ctx: Nl80211Parse, delivered: seq<Event>)
    requires forall i :: 0 <= i < |calls| && calls[i].Feed? ==>
               IsSynth(calls[i].d) || IsBare(calls[i].d) || Halts(calls[i].d)
    ensures fresh(ctx) && ctx.Valid()
    ensures var log := RunFrom(FedEvents, ctx.ring.qsz, NewLog(), calls);
            delivered == log.delivered && ctx.Queued() == log.queued
  {
    ctx := new Nl80211Parse(size);
    delivered := [];
    ghost var cap := ctx.ring.qsz;
    ghost var log := NewLog();
    var k := 0;
    assert calls[0..] == calls;
    while k < |calls|
      invariant k <= |calls| && fresh(ctx) && fresh(ctx.ring) && fresh(ctx.ring.q)
      invariant ctx.Valid() && ctx.ring.qsz == cap && InOrder(cap, log)
      invariant delivered == log.delivered && ctx.Queued() == log.queued
      invariant RunFrom(FedEvents, cap, log, calls[k..]) == RunFrom(FedEvents, cap, NewLog(), calls)
    {
      assert calls[k..][0] == calls[k] && calls[k..][1..] == calls[k + 1..];
      ghost var next := After(FedEvents, cap, log, calls[k]);
      var more := PerformOne(ctx, calls[k], log);
      delivered := if calls[k].Reset? then [] else delivered + more;
      log := next;
      k := k + 1;
    }
  }

  method PerformOne(ctx: Nl80211Parse, c: Call, ghost log: Log<Event>) returns (more: seq<Event>)
    requires ctx.Valid() && ctx.Queued() == log.queued && InOrder(ctx.ring.qsz, log)
    requires c.Feed? ==> IsSynth(c.d) || IsBare(c.d) || Halts(c.d)
    modifies ctx.ring, ctx.ring.q
    ensures ctx.Valid() && ctx.ring.qsz == old(ctx.ring.qsz)
    ensures var next := After(FedEvents, ctx.ring.qsz, log, c);
            && ctx.Queued() == next.queued && InOrder(ctx.ring.qsz, next)
            && (if c.Reset? then next.delivered == [] else next.delivered == log.delivered + more)
  {
    more := [];
    match c {
      case Feed(d) =>
        OfferIsOfferedAll(ctx.ring.qsz, log, FedEvents(d));
        OfferKeepsOrder(ctx.ring.qsz, log, FedEvents(d));
        ghost var _, _ := ctx.FeedInput(d);
      case Next =>
        var r := ctx.NextEvent();
        if r.Some? {
          more := [r.value];
        }
      case Reset =>
        ctx.Reset();
    }
  }
}
