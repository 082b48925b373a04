/** The parser of nl80211_parse.c: its loops, and the context whose ring they fill. */
module Nl80211Context {
  import opened Bytes
  import opened Attributes
  import opened EventQueue
  import opened Netlink
  import opened Nl80211

  // ---------- one walker per nesting level: what it does with an attribute, and its loop ----------

  method StoreRate(before: Event, atype: u16, payload: seq<byte>) returns (ev: Event)
    ensures ev == RateStep(before, Attr(atype, payload))
  {
    ev := before;
    if (atype == RATE_MCS || atype == RATE_VHT_MCS) && |payload| >= 1 {
      ev := ev.(mcs := payload[0], hasMcs := true);
    }
  }

  method ParseRateInfo(data: seq<byte>, before: Event) returns (ev: Event, ghost steps: nat)
    ensures ev == Fold(RateStep, before, Attrs(data))
    ensures 4 * steps <= |data|
  {
    var off := 0;
    ev, steps := before, 0;
    while off + 4 <= |data|
      invariant StateAfter(RateStep, ev, data, off) == StateAfter(RateStep, before, data, 0)
      invariant 4 * steps <= off && 4 * steps <= |data|
    {
      var alen := Rd16Le(data, off);
      var atype := MaskType(Rd16Le(data, off + 2));
      steps := steps + 1;
      if alen < 4 || off + alen > |data| {
        break;
      }
      assert AttrAt(data, off) == Attr(atype, data[off + 4..off + alen]);
      ev := StoreRate(ev, atype, data[off + 4..off + alen]);
      off := off + Align4(alen);
    }
    StateAfterIsFold(RateStep, before, data, 0);
  }

  method StoreSta(before: Event, atype: u16, payload: seq<byte>) returns (ev: Event, ghost steps: nat)
    ensures ev == StaStep(before, Attr(atype, payload))
    ensures 4 * steps <= |payload|
  {
    ev, steps := before, 0;
    if atype == STA_SIGNAL {
      if |payload| >= 1 {
        ev := ev.(signal := SignExtend8(payload[0]), hasSignal := true);
      }
    } else if atype == STA_SIGNAL_AVG {
      if |payload| >= 1 {
        ev := ev.(signalAvg := SignExtend8(payload[0]));
      }
    } else if atype == STA_TX_RETRIES {
      if |payload| >= 4 {
        ev := ev.(txRetries := Rd32Le(payload, 0));
      }
    } else if atype == STA_TX_FAILED {
      if |payload| >= 4 {
        ev := ev.(txFailed := Rd32Le(payload, 0));
      }
    } else if atype == STA_RX_BYTES {
      if |payload| >= 4 {
        ev := ev.(rxBytes := Rd32Le(payload, 0));
      }
    } else if atype == STA_TX_BYTES {
      if |payload| >= 4 {
        ev := ev.(txBytes := Rd32Le(payload, 0));
      }
    } else if atype == STA_TX_BITRATE {
      ev, steps := ParseRateInfo(payload, ev);
    }
  }

  method ParseStaInfo(data: seq<byte>, before: Event) returns (ev: Event, ghost steps: nat)
    ensures ev == Fold(StaStep, before, Attrs(data))
    ensures 4 * steps <= |data|
  {
    var off := 0;
    ev, steps := before, 0;
    ghost var nested;
    while off + 4 <= |data|
      invariant StateAfter(StaStep, ev, data, off) == StateAfter(StaStep, before, data, 0)
      invariant 4 * steps <= off && 4 * steps <= |data|
    {
      var alen := Rd16Le(data, off);
      var atype := MaskType(Rd16Le(data, off + 2));
      steps := steps + 1;
      if alen < 4 || off + alen > |data| {
        break;
      }
      assert AttrAt(data, off) == Attr(atype, data[off + 4..off + alen]);
      ev, nested := StoreSta(ev, atype, data[off + 4..off + alen]);
      steps := steps + nested;
      off := off + Align4(alen);
    }
    StateAfterIsFold(StaStep, before, data, 0);
  }

  method StoreTop(before: Event, atype: u16, payload: seq<byte>) returns (ev: Event, ghost steps: nat)
    ensures ev == TopStep(before, Attr(atype, payload))
    ensures 4 * steps <= |payload|
  {
    ev, steps := before, 0;
    if atype == ATTR_MAC {
      if |payload| >= 6 {
        ev := ev.(mac := payload[..6], hasMac := true);
      }
    } else if atype == ATTR_STA_INFO {
      ev, steps := ParseStaInfo(payload, ev);
    } else if atype == ATTR_WIPHY_FREQ {
      if |payload| >= 4 {
        ev := ev.(freq := Rd32Le(payload, 0));
      }
    }
  }

  method ParseTopAttrs(data: seq<byte>, before: Event) returns (ev: Event, ghost steps: nat)
    ensures ev == Fold(TopStep, before, Attrs(data))
    ensures 4 * steps <= |data|
  {
    var off := 0;
    ev, steps := before, 0;
    ghost var nested;
    while off + 4 <= |data|
      invariant StateAfter(TopStep, ev, data, off) == StateAfter(TopStep, before, data, 0)
      invariant 4 * steps <= off && 4 * steps <= |data|
    {
      var alen := Rd16Le(data, off);
      var atype := MaskType(Rd16Le(data, off + 2));
      steps := steps + 1;
      if alen < 4 || off + alen > |data| {
        break;
      }
      assert AttrAt(data, off) == Attr(atype, data[off + 4..off + alen]);
      ev, nested := StoreTop(ev, atype, data[off + 4..off + alen]);
      steps := steps + nested;
      off := off + Align4(alen);
    }
    StateAfterIsFold(TopStep, before, data, 0);
  }

  /** `f` decodes messages.  The proof of the message walk knows the decoder only by this name. */
  ghost predicate Decodes(f: Msg -> seq<Event>) {
    forall m {:trigger MsgEvents(m)} :: f(m) == MsgEvents(m)
  }

  class Nl80211Parse {
    const ring: Ring<Event>

    ghost predicate Valid()
      reads this, ring, ring.q
    {
      ring.Valid()
    }

    ghost function Queued(): seq<Event>
      reads this, ring
    {
      ring.books.items
    }

    /** `eventQueueSize` is 0 for the default, which the code sets to 16. */
    constructor (eventQueueSize: nat)
      ensures Valid() && fresh(ring) && fresh(ring.q)
      ensures ring.qsz == Clamp(eventQueueSize, 16)
      ensures Queued() == []
    {
      ring := new Ring(eventQueueSize, 16);
    }

    method Reset()
      requires Valid()
      modifies ring
      ensures Valid() && ring.qsz == old(ring.qsz)
      ensures Queued() == []
    {
      ring.Reset(16);
    }

    method TrySynth(data: seq<byte>) returns (taken: bool)
      requires Valid()
      modifies ring, ring.q
      ensures Valid() && ring.qsz == old(ring.qsz)
      ensures taken <==> IsSynth(data)
      ensures Queued() == if taken then Offered(ring.qsz, old(Queued()), SynthEvent(data)) else old(Queued())
    {
      if |data| < 20 {
        return false;
      }
      if Rd32Be(data, 0) != SYNTH_MAGIC {
        return false;
      }
      var ev := BLANK;
      ev := ev.(mac := data[4..10], signal := SignExtend32(Rd32Be(data, 10)), snr := SignExtend8(data[14]));
      ev := ev.(mcs := data[15], txRetries := Rd32Be(data, 16), hasMac := true, hasSignal := true);
      ev := ev.(hasMcs := ev.mcs != 0xFF);
      var _ := ring.Push(ev);
      return true;
    }

    /** The whole buffer as one attribute stream. */
    method ParseBare(data: seq<byte>) returns (ghost steps: nat)
      requires Valid()
      modifies ring, ring.q
      ensures Valid() && ring.qsz == old(ring.qsz)
      ensures Queued() == OfferedAll(ring.qsz, old(Queued()), BareEvents(data))
      ensures 4 * steps <= |data|
    {
      var ev;
      ev, steps := ParseTopAttrs(data, BLANK);
      if ev.hasMac || ev.hasSignal {
        var _ := ring.Push(ev);
      } else {
        ev := ev.(typ := Error, reason := WithoutMacOrSignal(|data|));
        var _ := ring.Push(ev);
      }
    }

    /** The body of the message loop: a message too short for the genlmsghdr header is skipped. */
    method EmitMessage(msg: Msg, ghost f: Msg -> seq<Event>) returns (ghost steps: nat)
      requires Valid() && Decodes(f)
      requires 16 <= |msg.bytes|
      modifies ring, ring.q
      ensures Valid() && ring.qsz == old(ring.qsz)
      ensures Queued() == OfferedAll(ring.qsz, old(Queued()), f(msg))
      ensures 16 + 4 * steps <= |msg.bytes|
    {
      steps := 0;
      assert f(msg) == MsgEvents(msg);
      if |msg.bytes| < 20 {
        return;
      }
      var ev;
      ev, steps := ParseTopAttrs(msg.bytes[20..], BLANK);
      if ev.hasMac || ev.hasSignal {
        var _ := ring.Push(ev);
      }
    }

    method EmitAt(data: seq<byte>, off: nat, nlLen: nat, ghost f: Msg -> seq<Event>) returns (ghost steps: nat)
      requires Valid() && Decodes(f)
      requires HasMsgAt(data, off) && nlLen == Rd32Le(data, off)
      modifies ring, ring.q
      ensures Valid() && ring.qsz == old(ring.qsz)
      ensures Queued() == OfferedAll(ring.qsz, old(Queued()), f(MsgAt(data, off)))
      ensures 16 + 4 * steps <= nlLen
    {
      steps := EmitMessage(Msg(data[off..off + nlLen]), f);
    }

    /** The message walk; `turns` counts its iterations and `steps` those of every attribute loop inside. */
    method ParseFramed(data: seq<byte>, ghost f: Msg -> seq<Event>) returns (ghost turns: nat, ghost steps: nat)
      requires Valid() && Decodes(f) && Walkable(data, 0)
      modifies ring, ring.q
      ensures Valid() && ring.qsz == old(ring.qsz)
      ensures Queued() == QueueAfter(f, ring.qsz, old(Queued()), data, 0)
      ensures 16 * turns + 4 * steps <= |data|
    {
      var off := 0;
      turns, steps := 0, 0;
      ghost var cap := ring.qsz;
      ghost var goal := QueueAfter(f, cap, Queued(), data, 0);
      while off + 16 <= |data|
        invariant Valid() && ring.qsz == cap && Walkable(data, off)
        invariant QueueAfter(f, cap, Queued(), data, off) == goal
        invariant 16 * turns + 4 * steps <= off && 16 * turns + 4 * steps <= |data|
      {
        var nlLen := Rd32Le(data, off);
        turns := turns + 1;
        if nlLen < 16 || off + nlLen > |data| {
          break;
        }
        ghost var inner := EmitAt(data, off, nlLen, f);
        steps := steps + inner;
        off := off + Align4(nlLen);
      }
    }

    /** One feed: a synthetic frame, a bare attribute stream, or a walk over framed messages. */
    method FeedInput(data: seq<byte>) returns (ghost turns: nat, ghost steps: nat)
      requires Valid()
      requires IsSynth(data) || IsBare(data) || Halts(data)
      modifies ring, ring.q
      ensures Valid() && ring.qsz == old(ring.qsz)
      ensures Queued() == OfferedAll(ring.qsz, old(Queued()), FedEvents(data))
      ensures 16 * turns + 4 * steps <= |data|
    {
      turns, steps := 0, 0;
      if |data| == 0 {
        return;
      }
      var taken := TrySynth(data);
      if taken {
        return;
      }
      if |data| >= 4 && (Rd32Le(data, 0) < 16 || Rd32Le(data, 0) > |data|) {
        steps := ParseBare(data);
        return;
      }
      HaltsIffWalkable(data);
      QueueAfterIsOneBurst(MsgEvents, ring.qsz, Queued(), data, 0);
      turns, steps := ParseFramed(data, MsgEvents);
    }

    method NextEvent() returns (r: Option<Event>)
      requires Valid()
      modifies ring
      ensures Valid() && ring.qsz == old(ring.qsz)
      ensures r == if old(Queued()) == [] then None else Some(old(Queued())[0])
      ensures Queued() == if old(Queued()) == [] then [] else old(Queued())[1..]
    {
      r := ring.Pop();
    }
  }
}
