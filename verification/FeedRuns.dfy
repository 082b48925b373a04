/** Whole runs of a parser that offers what it decodes to a bounded queue: feeds, pops and resets in any order. */
module FeedRuns {
  import opened Bytes
  import opened Walk
  import opened EventQueue

  datatype Call = Feed(d: seq<byte>) | Next | Reset

  /** What became of the events since the last reset. */
  datatype Log<E> = Log(queued: seq<E>, kept: seq<E>, lost: seq<E>, delivered: seq<E>)

  function NewLog<E>(): Log<E> {
    Log([], [], [], [])
  }

  /** How many of `n` events a queue with `queued` events in it has room for. */
  function Room(cap: nat, queued: nat, n: nat): (room: nat)
    ensures room <= n
  {
    if cap <= queued then 0 else if n <= cap - queued then n else cap - queued
  }

  function Offer<E>(cap: nat, log: Log<E>, es: seq<E>): Log<E> {
    var n := Room(cap, |log.queued|, |es|);
    Log(log.queued + es[..n], log.kept + es[..n], log.lost + es[n..], log.delivered)
  }

  function After<E>(fed: seq<byte> -> seq<E>, cap: nat, log: Log<E>, c: Call): Log<E> {
    match c
    case Feed(d) => Offer(cap, log, fed(d))
    case Next =>
      if log.queued == [] then log
      else log.(queued := log.queued[1..], delivered := log.delivered + [log.queued[0]])
    case Reset => NewLog()
  }

  /** The log after more calls. */
  function RunFrom<E>(fed: seq<byte> -> seq<E>, cap: nat, log: Log<E>, calls: seq<Call>): Log<E>
    decreases |calls|
  {
    if calls == [] then log else RunFrom(fed, cap, After(fed, cap, log, calls[0]), calls[1..])
  }

  lemma {:induction false} RunFromAppend<E>(
    fed: seq<byte> -> seq<E>, cap: nat, log: Log<E>, xs: seq<Call>, ys: seq<Call>)
    ensures RunFrom(fed, cap, log, xs + ys) == RunFrom(fed, cap, RunFrom(fed, cap, log, xs), ys)
    decreases |xs|
  {
    if xs == [] {
      assert xs + ys == ys;
    } else {
      assert (xs + ys)[1..] == xs[1..] + ys;
      RunFromAppend(fed, cap, After(fed, cap, log, xs[0]), xs[1..], ys);
    }
  }

  // ---------- conservation ----------

  /** Events kept are delivered before those still queued, in the order in which they were kept. */
  ghost predicate InOrder<E>(cap: nat, log: Log<E>) {
    log.kept == log.delivered + log.queued && |log.queued| <= cap
  }

  lemma OfferKeepsOrder<E>(cap: nat, log: Log<E>, es: seq<E>)
    requires InOrder(cap, log)
    ensures InOrder(cap, Offer(cap, log, es))
  {
  }

  lemma {:induction false} RunsKeepOrder<E>(fed: seq<byte> -> seq<E>, cap: nat, log: Log<E>, calls: seq<Call>)
    requires InOrder(cap, log)
    ensures InOrder(cap, RunFrom(fed, cap, log, calls))
    decreases |calls|
  {
    if calls != [] {
      if calls[0].Feed? {
        OfferKeepsOrder(cap, log, fed(calls[0].d));
      }
      RunsKeepOrder(fed, cap, After(fed, cap, log, calls[0]), calls[1..]);
    }
  }

  /** All events decoded since the last reset, on top of `before`. */
  function Decoded<E>(fed: seq<byte> -> seq<E>, before: seq<E>, calls: seq<Call>): seq<E>
    decreases |calls|
  {
    if calls == [] then before
    else
      var now := match calls[0] case Feed(d) => before + fed(d) case Next => before case Reset => [];
      Decoded(fed, now, calls[1..])
  }

  ghost predicate Accounted<E>(log: Log<E>, decoded: seq<E>) {
    multiset(decoded) == multiset(log.kept) + multiset(log.lost)
  }

  lemma OfferAccounts<E>(cap: nat, log: Log<E>, decoded: seq<E>, es: seq<E>)
    requires Accounted(log, decoded)
    ensures Accounted(Offer(cap, log, es), decoded + es)
  {
    var n := Room(cap, |log.queued|, |es|);
    assert es == es[..n] + es[n..];
  }

  /** No run invents, duplicates or forgets an event: each one decoded was kept or is known to be lost. */
  lemma {:induction false} RunsAccount<E>(
    fed: seq<byte> -> seq<E>, cap: nat, log: Log<E>, decoded: seq<E>, calls: seq<Call>)
    requires Accounted(log, decoded)
    ensures Accounted(RunFrom(fed, cap, log, calls), Decoded(fed, decoded, calls))
    decreases |calls|
  {
    if calls != [] {
      match calls[0]
      case Feed(d) =>
        OfferAccounts(cap, log, decoded, fed(d));
        RunsAccount(fed, cap, Offer(cap, log, fed(d)), decoded + fed(d), calls[1..]);
      case Next => RunsAccount(fed, cap, After(fed, cap, log, calls[0]), decoded, calls[1..]);
      case Reset => RunsAccount(fed, cap, NewLog(), [], calls[1..]);
    }
  }

  /** From a new context on: every event decoded since the last reset was delivered, is queued, or was lost. */
  lemma RunsConserve<E>(fed: seq<byte> -> seq<E>, cap: nat, calls: seq<Call>)
    ensures var log := RunFrom(fed, cap, NewLog(), calls);
            && log.kept == log.delivered + log.queued && |log.queued| <= cap
            && multiset(Decoded(fed, [], calls)) == multiset(log.delivered) + multiset(log.queued) + multiset(log.lost)
  {
    RunsKeepOrder(fed, cap, NewLog(), calls);
    RunsAccount(fed, cap, NewLog(), [], calls);
  }

  // ---------- splitting a feed ----------

  lemma CutJoined<T>(xs: seq<T>, ys: seq<T>, n: nat)
    requires n <= |xs + ys|
    ensures n <= |xs| ==> (xs + ys)[..n] == xs[..n] && (xs + ys)[n..] == xs[n..] + ys
    ensures n >= |xs| ==> (xs + ys)[..n] == xs + ys[..n - |xs|] && (xs + ys)[n..] == ys[n - |xs|..]
  {
  }

  lemma OfferInTwo<E>(cap: nat, log: Log<E>, xs: seq<E>, ys: seq<E>)
    ensures Offer(cap, log, xs + ys) == Offer(cap, Offer(cap, log, xs), ys)
  {
    var n, m := Room(cap, |log.queued|, |xs|), Room(cap, |log.queued|, |xs + ys|);
    CutJoined(xs, ys, m);
    if n < |xs| {
      NothingFits(cap, Offer(cap, log, xs), ys);
      Associates(log.lost, xs[n..], ys);
    } else {
      Associates(log.queued, xs, ys[..m - n]);
      Associates(log.kept, xs, ys[..m - n]);
      assert log.lost + xs[n..] == log.lost;
    }
  }

  lemma NothingFits<E>(cap: nat, log: Log<E>, es: seq<E>)
    requires |log.queued| >= cap
    ensures Offer(cap, log, es) == log.(lost := log.lost + es)
  {
    assert es[..0] == [] && es[0..] == es;
  }

  lemma FeedOnce<E>(fed: seq<byte> -> seq<E>, cap: nat, log: Log<E>, d: seq<byte>)
    ensures RunFrom(fed, cap, log, [Feed(d)]) == Offer(cap, log, fed(d))
  {
    assert [Feed(d)][1..] == [];
  }

  lemma FeedTwice<E>(fed: seq<byte> -> seq<E>, cap: nat, log: Log<E>, a: seq<byte>, b: seq<byte>)
    ensures RunFrom(fed, cap, log, [Feed(a), Feed(b)]) == Offer(cap, Offer(cap, log, fed(a)), fed(b))
  {
    assert [Feed(a), Feed(b)][1..] == [Feed(b)];
    FeedOnce(fed, cap, Offer(cap, log, fed(a)), b);
  }

  lemma OfferIsOfferedAll<E>(cap: nat, log: Log<E>, es: seq<E>)
    requires |log.queued| <= cap
    ensures Offer(cap, log, es).queued == OfferedAll(cap, log.queued, es)
  {
    OfferedAllKeepsPrefix(cap, log.queued, es);
  }

  /** Where two feeds offer the events of one, anywhere in any run, nothing changes by splitting it, then or later. */
  lemma SplittingAFeed<E>(
    fed: seq<byte> -> seq<E>, cap: nat, log: Log<E>, xs: seq<Call>, a: seq<byte>, b: seq<byte>, ys: seq<Call>)
    requires fed(a + b) == fed(a) + fed(b)
    ensures RunFrom(fed, cap, log, xs + [Feed(a + b)] + ys) == RunFrom(fed, cap, log, xs + [Feed(a), Feed(b)] + ys)
  {
    var here := RunFrom(fed, cap, log, xs);
    OfferInTwo(cap, here, fed(a), fed(b));
    RunFromAppend(fed, cap, log, xs, [Feed(a + b)]);
    RunFromAppend(fed, cap, log, xs + [Feed(a + b)], ys);
    RunFromAppend(fed, cap, log, xs, [Feed(a), Feed(b)]);
    RunFromAppend(fed, cap, log, xs + [Feed(a), Feed(b)], ys);
    FeedOnce(fed, cap, here, a + b);
    FeedTwice(fed, cap, here, a, b);
  }
}
