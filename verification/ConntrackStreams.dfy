/** Conntrack buffers as a stream: dispatch, batching, truncation, and what a feed may cost. */
module ConntrackStreams {
  import opened Bytes
  import opened Walk
  import opened EventQueue
  import opened Netlink
  import opened Conntrack
  import opened ConntrackMeaning

  // ---------- dispatch ----------

  /** 32 bytes and the letters `NFCT` make a synthetic frame. */
  lemma SynthOnWire(d: seq<byte>)
    ensures IsSynth(d) <==> |d| >= 32 && d[0] == 0x4E && d[1] == 0x46 && d[2] == 0x43 && d[3] == 0x54
  {
    if |d| >= 32 {
      MagicBigEndian(d);
    }
  }

  /** The message walk finds nothing in a synthetic frame iff its magic, read as a length, is longer than the frame. */
  lemma DispatchExactlyWhen(d: seq<byte>)
    requires IsSynth(d)
    ensures NetlinkEvents(d) == [] <==> |d| < 0x5443_464E
  {
    MagicAsLength(d);
    MessageTurn(MsgEvents, d, 0);
  }

  /** There are such frames: at every length of 0x5443464E bytes and above a buffer can be read both ways. */
  lemma DispatchIsAmbiguousAbove(n: nat) returns (d: seq<byte>)
    requires 0x5443_464E <= n
    ensures |d| == n && IsSynth(d) && NetlinkEvents(d) != []
  {
    d := Be32(SYNTH_MAGIC) + Zeros(n - 4);
    ReadBe32(SYNTH_MAGIC, Zeros(n - 4));
    MagicAsLength(d);
    MessageTurn(MsgEvents, d, 0);
  }

  lemma StartType(nlType: u16, nlFlags: u16)
    ensures var ev, low := StartEvent(nlType, nlFlags), nlType % 0x100;
            && (ev.typ == New ==> low == 0) && (ev.typ == Update ==> low != 2) && (ev.typ == Destroy ==> low == 2)
            && ev.typ in {New, Update, Destroy}
  {
  }

  lemma DecodeKeepsType(d: seq<byte>, ev: Event)
    ensures Merge(DecodeCt(d, ev)).typ == ev.typ
  {
    DecodeMeaning(d, ev);
  }

  lemma ClassifyType(e: Event, nlType: u16, nlLen: u32)
    requires e.typ != Partial
    ensures var ev := Classify(e, nlType, nlLen);
            if ev.typ == Partial then ev.reason.NoAddressTuples? else ev.typ == e.typ
  {
  }

  /** What the type of a message event says about the low byte of the message type. */
  lemma ReportedType(m: seq<byte>)
    requires 20 <= |m| < TWO32
    ensures var ev := MsgEvent(m);
            && (ev.typ == New ==> m[4] == 0) && (ev.typ == Update ==> m[4] != 2) && (ev.typ == Destroy ==> m[4] == 2)
            && (ev.typ == Partial ==> ev.reason.NoAddressTuples?)
            && ev.typ in {New, Update, Destroy, Partial}
  {
    var nlType := Rd16Le(m, 4);
    LowByte(m[4], m[5]);
    var start := StartEvent(nlType, Rd16Le(m, 6));
    StartType(nlType, Rd16Le(m, 6));
    DecodeKeepsType(m[20..], start);
    ClassifyType(Merge(DecodeCt(m[20..], start)), nlType, |m|);
  }

  lemma FlagsOnWire(low: byte, high: byte)
    ensures HasFlag400(low as int + 0x100 * high as int) <==> high / 4 % 2 == 1
    ensures HasFlag100(low as int + 0x100 * high as int) <==> high % 2 == 1
  {
    Flag400OnWire(low, high / 8, high % 8);
    Flag100OnWire(low, high / 2, high % 2);
  }

  lemma Flag400OnWire(low: byte, q: nat, r: nat)
    requires r < 8 && 8 * q + r < 0x100
    ensures HasFlag400(low as int + 0x100 * (8 * q + r)) <==> (8 * q + r) / 4 % 2 == 1
  {
    assert (low as int + 0x100 * (8 * q + r)) % 0x800 == low as int + 0x100 * r;
    assert (8 * q + r) / 4 == 2 * q + r / 4;
  }

  lemma Flag100OnWire(low: byte, q: nat, r: nat)
    requires r < 2 && 2 * q + r < 0x100
    ensures HasFlag100(low as int + 0x100 * (2 * q + r)) <==> r == 1
  {
    assert (low as int + 0x100 * (2 * q + r)) % 0x200 == low as int + 0x100 * r;
  }

  lemma StartOnWire(typ: u16, flags: u16, low: byte, high: byte)
    requires typ % 0x100 == low && (HasFlag400(flags) <==> high / 4 % 2 == 1) && (HasFlag100(flags) <==> high % 2 == 1)
    ensures var ev := StartEvent(typ, flags);
            && (ev.typ == Destroy <==> low == 2) && (ev.isDestroy <==> low == 2)
            && (ev.typ == New <==> low == 0 && (high % 2 == 0 || high / 4 % 2 == 1))
            && (ev.typ == Update <==> low != 2 && (low != 0 || (high % 2 == 1 && high / 4 % 2 == 0)))
  {
  }

  lemma DecodeKeepsDestroy(d: seq<byte>, ev: Event)
    ensures Merge(DecodeCt(d, ev)).isDestroy == ev.isDestroy
  {
    DecodeMeaning(d, ev);
  }

  /**
   The type of an event that is not PARTIAL, read off the bytes of its message: the low byte of the message type, and
   of the flags CREATE (0x400) and 0x100.
   */
  lemma TypeOnWire(m: seq<byte>)
    requires 20 <= |m| < TWO32
    ensures var ev := MsgEvent(m);
            && (ev.isDestroy <==> m[4] == 2)
            && (ev.typ != Partial ==>
                && (ev.typ == Destroy <==> m[4] == 2)
                && (ev.typ == New <==> m[4] == 0 && (m[7] % 2 == 0 || m[7] / 4 % 2 == 1))
                && (ev.typ == Update <==> m[4] != 2 && (m[4] != 0 || (m[7] % 2 == 1 && m[7] / 4 % 2 == 0))))
  {
    var typ, flags := Rd16Le(m, 4), Rd16Le(m, 6);
    LowByte(m[4], m[5]);
    FlagsOnWire(m[6], m[7]);
    StartOnWire(typ, flags, m[4], m[7]);
    StartType(typ, flags);
    DecodeKeepsType(m[20..], StartEvent(typ, flags));
    DecodeKeepsDestroy(m[20..], StartEvent(typ, flags));
    ClassifyType(Merge(DecodeCt(m[20..], StartEvent(typ, flags))), typ, |m|);
  }

  /** Byte 4 is the kind of a synthetic frame and the low byte of a message type, and the two never mean the same. */
  lemma KindsDisagree(d: seq<byte>, m: seq<byte>)
    requires |d| >= 32 && 20 <= |m| < TWO32 && m[4] == d[4]
    ensures MsgEvent(m) != SynthEvent(d)
  {
    ReportedType(m);
    assert SynthEvent(d).reason == NoReason;
  }

  lemma LowByte(low: byte, high: byte)
    ensures (low + 0x100 * high) % 0x100 == low
  {
  }

  /** Whatever its length, a synthetic frame is no message buffer with the one event it is taken for. */
  lemma SynthIsNotItsMessages(d: seq<byte>)
    requires IsSynth(d)
    ensures NetlinkEvents(d) != [SynthEvent(d)]
  {
    MagicAsLength(d);
    MessageTurn(MsgEvents, d, 0);
    if HasSteppableMsgAt(d, 0) {
      var m := MsgAt(d, 0);
      assert m.bytes[4] == d[4];
      KindsDisagree(d, m.bytes);
      assert NetlinkEvents(d)[0] == MsgEvent(m.bytes);
    }
  }

  // ---------- batching ----------

  lemma EventsAppend(x: seq<byte>, y: seq<byte>)
    requires Whole(MsgReader, x, 0)
    ensures NetlinkEvents(x + y) == NetlinkEvents(x) + NetlinkEvents(y)
  {
    MessagesAppend(x, y);
    CollectAppend(MsgEvents, Messages(x), Messages(y));
  }

  lemma WholeIsNotSynth(a: seq<byte>, b: seq<byte>)
    requires a != [] && Whole(MsgReader, a, 0)
    ensures |a| < 0x5443_464E ==> !IsSynth(a)
    ensures !IsSynth(a) ==> !IsSynth(a + b)
  {
    assert MsgReader(a, 0).Item?;
    MagicAsLength(a);
    MagicAsLength(a + b);
    assert Rd32Le(a + b, 0) == Rd32Le(a, 0);
  }

  /** What decides whether `a` and `b` may be fed as one buffer, each of the two looked at by itself. */
  predicate Joinable(a: seq<byte>, b: seq<byte>) {
    if IsSynth(a) then FedEvents(b) == [] else a == [] || !IsSynth(b)
  }

  /**
   When `a` is a synthetic frame or its walk ends exactly at its end, feeding `a` and `b` one after the other offers
   the same events as feeding them as one buffer, if and only if they are joinable.
   */
  lemma BatchingOffersTheSame(a: seq<byte>, b: seq<byte>)
    requires IsSynth(a) || Whole(MsgReader, a, 0)
    ensures FedEvents(a + b) == FedEvents(a) + FedEvents(b) <==> Joinable(a, b)
  {
    if IsSynth(a) {
      assert (a + b)[..|a|] == a;
      SynthEventOfPrefix(a + b, |a|);
    } else if a == [] {
      assert a + b == b;
    } else {
      WholeIsNotSynth(a, b);
      EventsAppend(a, b);
      if IsSynth(b) {
        SynthIsNotItsMessages(b);
        SameBehind(FedEvents(a), NetlinkEvents(b), FedEvents(b));
      }
    }
  }

  /** So batching leaves the same queue, from any queue, also a nearly full one. */
  lemma BatchingLeavesTheSameQueue(cap: nat, queued: seq<Event>, a: seq<byte>, b: seq<byte>)
    requires (IsSynth(a) || Whole(MsgReader, a, 0)) && Joinable(a, b)
    ensures OfferedAll(cap, OfferedAll(cap, queued, FedEvents(a)), FedEvents(b))
         == OfferedAll(cap, queued, FedEvents(a + b))
  {
    BatchingOffersTheSame(a, b);
    OfferedAllAppend(cap, queued, FedEvents(a), FedEvents(b));
  }

  // ---------- truncation ----------

  lemma SynthEventOfPrefix(d: seq<byte>, n: nat)
    requires 32 <= n <= |d|
    ensures SynthEvent(d[..n]) == SynthEvent(d) && IsSynth(d[..n]) == IsSynth(d)
  {
  }

  /** A synthetic frame cut short is no message: its magic is a longer length. */
  lemma ShortMagicHoldsNothing(d: seq<byte>, n: nat)
    requires IsSynth(d) && n < 32
    ensures FedEvents(d[..n]) == []
  {
    if n >= 4 {
      MagicAsLength(d);
      assert Rd32Le(d[..n], 0) == Rd32Le(d, 0);
    }
    MessageTurn(MsgEvents, d[..n], 0);
  }

  /** The events of a truncated buffer are the first events of the whole one, for every buffer. */
  lemma TruncationOnlyLosesTheEnd(d: seq<byte>, n: nat)
    requires n <= |d|
    ensures FedEvents(d[..n]) <= FedEvents(d)
  {
    if n >= 32 {
      SynthEventOfPrefix(d, n);
    }
    if !IsSynth(d) {
      MessagesOfPrefix(d, n);
      CollectPrefix(MsgEvents, Messages(d[..n]), Messages(d));
    } else if n < 32 {
      ShortMagicHoldsNothing(d, n);
    }
  }

  /** A buffer offers at most one event per twenty bytes when it is walked, and one when it is not. */
  lemma EventsFitTheBuffer(d: seq<byte>)
    ensures 20 * |FedEvents(d)| <= |d|
  {
    EventBound(MsgEvents, d, 0);
  }
}
