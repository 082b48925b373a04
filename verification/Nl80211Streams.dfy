/** Framed nl80211 buffers as a stream: what cutting and joining them does to their events. */
module Nl80211Streams {
  import opened Bytes
  import opened Walk
  import opened Attributes
  import opened Netlink
  import opened Nl80211
  import opened Nl80211Meaning

  /** A buffer that is walked message by message. */
  predicate IsFramed(d: seq<byte>) {
    |d| >= 4 && !IsSynth(d) && !IsBare(d)
  }

  lemma {:induction false} OnlyStations(ms: seq<Msg>)
    ensures forall e :: e in Collect(MsgEvents, ms) ==> e.typ == Station
    decreases |ms|
  {
    if ms != [] {
      OnlyStations(ms[1..]);
      if |ms[0].bytes| >= 20 {
        DecodeMeaning(ms[0].bytes[20..]);
      }
    }
  }

  // ---------- dispatch, read off the bytes ----------

  /** A station is identified by a MAC (type 6), or by a signal (type 7) inside a STA_INFO nest (type 21). */
  lemma IdentifiedExactlyWhen(d: seq<byte>)
    ensures Identified(Decode(d)) <==>
              || (exists a :: a in Attrs(d) && a.typ == 6 && |a.payload| >= 6)
              || (exists a :: a in Inside(Attrs(d), 21) && a.typ == 7 && |a.payload| >= 1)
  {
    DecodeMeaning(d);
    LastNone(Attrs(d), 6, 6);
    LastNone(Inside(Attrs(d), 21), 7, 1);
  }

  /** The first four bytes, the lowest first. */
  function FirstWord(d: seq<byte>): nat
    requires |d| >= 4
  {
    d[0] as int + 0x100 * d[1] as int + 0x1_0000 * d[2] as int + 0x100_0000 * d[3] as int
  }

  lemma SynthOnWire(d: seq<byte>)
    ensures IsSynth(d) <==> |d| >= 20 && d[0] == 0x38 && d[1] == 0x32 && d[2] == 0x31 && d[3] == 0x31
  {
    if |d| >= 20 {
      MagicBigEndian(d);
    }
  }

  /**
   An ERROR is reported exactly for a buffer whose first word is no message length inside it, which does not start
   with the magic, and which identifies no station.
   */
  lemma ErrorExactlyWhen(d: seq<byte>)
    ensures (exists e :: e in FedEvents(d) && e.typ == Error) <==>
              && |d| >= 4 && (FirstWord(d) < 16 || FirstWord(d) > |d|)
              && !(|d| >= 20 && d[0] == 0x38 && d[1] == 0x32 && d[2] == 0x31 && d[3] == 0x31)
              && !Identified(Decode(d))
  {
    SynthOnWire(d);
    if IsSynth(d) {
      assert FedEvents(d) == [SynthEvent(d)];
    } else if IsBare(d) {
      DecodeMeaning(d);
      assert FedEvents(d) == BareEvents(d) && BareEvents(d)[0] in BareEvents(d);
    } else {
      OnlyStations(Messages(d));
    }
  }

  // ---------- cutting ----------

  lemma StartReads(d: seq<byte>, n: nat)
    requires 4 <= n <= |d|
    ensures Rd32Le(d[..n], 0) == Rd32Le(d, 0) && Rd32Be(d[..n], 0) == Rd32Be(d, 0)
    ensures Rd16Le(d[..n], 0) == Rd16Le(d, 0)
  {
  }

  /** A first message that is cut short is taken for a bare stream. */
  lemma CutMessageIsBare(d: seq<byte>, n: nat)
    requires IsFramed(d) && 4 <= n < Rd32Le(d, 0)
    ensures FedEvents(d[..n]) == BareEvents(d[..n])
  {
    StartReads(d, n);
  }

  /** If its head holds no attribute, it is one error. */
  lemma CutMessageIsOneError(d: seq<byte>, n: nat)
    requires IsFramed(d) && 4 <= n < Rd32Le(d, 0) && !HasAttrAt(d[..n], 0)
    ensures FedEvents(d[..n]) == [BLANK.(typ := Error, reason := WithoutMacOrSignal(n))]
  {
    CutMessageIsBare(d, n);
    assert Attrs(d[..n]) == [];
  }

  /** So it is below 64 KiB, where the length reads as that of an attribute longer than the head. */
  lemma ShortHeadsHoldNothing(d: seq<byte>, n: nat)
    requires 4 <= n <= |d| && n < Rd32Le(d, 0) < 0x1_0000
    ensures !HasAttrAt(d[..n], 0)
  {
    StartReads(d, n);
  }

  lemma CutBehindFirst(d: seq<byte>, n: nat)
    requires IsFramed(d) && Rd32Le(d, 0) <= n <= |d|
    ensures FedEvents(d[..n]) <= FedEvents(d)
  {
    StartReads(d, n);
    MessagesOfPrefix(d, n);
    CollectPrefix(MsgEvents, Messages(d[..n]), Messages(d));
  }

  /** The head of the first message, read as a bare stream, is the very station that the buffer reports first. */
  predicate HeadIsFirst(d: seq<byte>, n: nat)
    requires n <= |d|
  {
    Identified(Decode(d[..n])) && FedEvents(d) != [] && FedEvents(d)[0] == Decode(d[..n])
  }

  lemma CutInsideFirst(d: seq<byte>, n: nat)
    requires IsFramed(d) && 4 <= n < Rd32Le(d, 0) && n <= |d|
    ensures FedEvents(d[..n]) <= FedEvents(d) <==> HeadIsFirst(d, n)
  {
    CutMessageIsBare(d, n);
    OnlyStations(Messages(d));
    assert FedEvents(d) != [] ==> FedEvents(d)[0] in FedEvents(d);
  }

  /**
   A cut only loses the events at the end iff it leaves the whole first message, or too little for a length, or a
   head that happens to be read as the same station.
   */
  lemma TruncationLosesTheEndExactlyWhen(d: seq<byte>, n: nat)
    requires IsFramed(d) && n <= |d|
    ensures FedEvents(d[..n]) <= FedEvents(d) <==> n < 4 || n >= Rd32Le(d, 0) || HeadIsFirst(d, n)
  {
    if n < 4 {
      MessageTurn(MsgEvents, d[..n], 0);
    } else if n >= Rd32Le(d, 0) {
      CutBehindFirst(d, n);
    } else {
      CutInsideFirst(d, n);
    }
  }

  /** With a first message below 64 KiB the last case is out. */
  lemma ShortTruncationLosesTheEndExactlyWhen(d: seq<byte>, n: nat)
    requires IsFramed(d) && Rd32Le(d, 0) < 0x1_0000 && n <= |d|
    ensures FedEvents(d[..n]) <= FedEvents(d) <==> n < 4 || n >= Rd32Le(d, 0)
  {
    TruncationLosesTheEndExactlyWhen(d, n);
    if 4 <= n < Rd32Le(d, 0) {
      ShortHeadsHoldNothing(d, n);
      assert Attrs(d[..n]) == [];
    }
  }

  // ---------- batching ----------

  lemma WholeIsFramed(a: seq<byte>, b: seq<byte>)
    requires a != [] && Whole(MsgReader, a, 0) && !IsSynth(a)
    ensures IsFramed(a) && IsFramed(a + b)
  {
    assert MsgReader(a, 0).Item?;
    assert (a + b)[..4] == a[..4];
    StartReads(a + b, 4);
    StartReads(a, 4);
    if IsSynth(a + b) {
      MagicAsLength(a + b);
    }
  }

  /**
   When the walk of `a` ends exactly at its end and `a` is no synthetic frame, feeding `a` and `b` one after the
   other offers the same events as feeding them as one buffer, iff `b` alone is reported as its messages are.
   */
  lemma BatchingExactlyWhen(a: seq<byte>, b: seq<byte>)
    requires a != [] && Whole(MsgReader, a, 0) && !IsSynth(a)
    ensures FedEvents(a + b) == FedEvents(a) + FedEvents(b) <==> FedEvents(b) == Collect(MsgEvents, Messages(b))
  {
    WholeIsFramed(a, b);
    CollectBehind(MsgEvents, a, b);
    SameBehind(FedEvents(a), Collect(MsgEvents, Messages(b)), FedEvents(b));
  }

  /** So it is when `b` is neither a synthetic frame nor a bare stream, and below the magic's length only then. */
  lemma ReportedAsMessages(b: seq<byte>)
    ensures !IsSynth(b) && !IsBare(b) ==> FedEvents(b) == Collect(MsgEvents, Messages(b))
    ensures |b| < 0x3131_3238 && FedEvents(b) == Collect(MsgEvents, Messages(b)) ==> !IsSynth(b) && !IsBare(b)
  {
    MessageTurn(MsgEvents, b, 0);
    if IsSynth(b) {
      MagicAsLength(b);
    }
  }

  lemma BatchingOffersTheSame(a: seq<byte>, b: seq<byte>)
    requires Whole(MsgReader, a, 0) && !IsSynth(a)
    ensures !IsSynth(b) && !IsBare(b) ==> FedEvents(a + b) == FedEvents(a) + FedEvents(b)
    ensures a != [] && |b| < 0x3131_3238 && FedEvents(a + b) == FedEvents(a) + FedEvents(b) ==>
              !IsSynth(b) && !IsBare(b)
  {
    ReportedAsMessages(b);
    if a == [] {
      assert a + b == b;
      MessageTurn(MsgEvents, a, 0);
    } else {
      BatchingExactlyWhen(a, b);
    }
  }
}
