/** The parser of nfct.c: its loops, and the context whose ring they fill. */
module NfctContext {
  import opened Bytes
  import opened Attributes
  import opened Netlink
  import opened EventQueue
  import opened Conntrack

  // ---------- one walker per nesting level: what it does with an attribute, and its loop ----------

  method StoreIp(before: Tuple, atype: u16, payload: seq<byte>) returns (t: Tuple)
    ensures t == IpStep(before, Attr(atype, payload))
  {
    t := before;
    if atype == CTA_IP_V4_SRC && |payload| >= 4 {
      t := t.(srcIp := Rd32Be(payload, 0), hasIp := true);
    } else if atype == CTA_IP_V4_DST && |payload| >= 4 {
      t := t.(dstIp := Rd32Be(payload, 0), hasIp := true);
    } else if atype == CTA_IP_V6_SRC && |payload| >= 16 {
      t := t.(srcIp6 := payload[..16], hasIp6 := true);
    } else if atype == CTA_IP_V6_DST && |payload| >= 16 {
      t := t.(dstIp6 := payload[..16], hasIp6 := true);
    }
  }

  method ParseTupleIp(data: seq<byte>, before: Tuple) returns (t: Tuple, ghost steps: nat)
    ensures t == Fold(IpStep, before, Attrs(data))
    ensures 4 * steps <= |data|
  {
    var off := 0;
    t, steps := before, 0;
    while off + 4 <= |data|
      invariant StateAfter(IpStep, t, data, off) == StateAfter(IpStep, before, data, 0)
      invariant 4 * steps <= off && 4 * steps <= |data|
    {
      var alen := Rd16Le(data, off);
      var atype := MaskType(Rd16Le(data, off + 2));
      steps := steps + 1;
      if alen < 4 || off + alen > |data| {
        break;
      }
      assert AttrAt(data, off) == Attr(atype, data[off + 4..off + alen]);
      t := StoreIp(t, atype, data[off + 4..off + alen]);
      off := off + Align4(alen);
    }
    StateAfterIsFold(IpStep, before, data, 0);
  }

  method StoreProto(before: Tuple, atype: u16, payload: seq<byte>) returns (t: Tuple)
    ensures t == ProtoStep(before, Attr(atype, payload))
  {
    t := before;
    if atype == CTA_PROTO_NUM && |payload| >= 1 {
      t := t.(proto := payload[0], hasProto := true);
    } else if atype == CTA_PROTO_SRC_PORT && |payload| >= 2 {
      t := t.(srcPort := Rd16Be(payload, 0), hasPorts := true);
    } else if atype == CTA_PROTO_DST_PORT && |payload| >= 2 {
      t := t.(dstPort := Rd16Be(payload, 0), hasPorts := true);
    }
  }

  method ParseTupleProto(data: seq<byte>, before: Tuple) returns (t: Tuple, ghost steps: nat)
    ensures t == Fold(ProtoStep, before, Attrs(data))
    ensures 4 * steps <= |data|
  {
    var off := 0;
    t, steps := before, 0;
    while off + 4 <= |data|
      invariant StateAfter(ProtoStep, t, data, off) == StateAfter(ProtoStep, before, data, 0)
      invariant 4 * steps <= off && 4 * steps <= |data|
    {
      var alen := Rd16Le(data, off);
      var atype := MaskType(Rd16Le(data, off + 2));
      steps := steps + 1;
      if alen < 4 || off + alen > |data| {
        break;
      }
      assert AttrAt(data, off) == Attr(atype, data[off + 4..off + alen]);
      t := StoreProto(t, atype, data[off + 4..off + alen]);
      off := off + Align4(alen);
    }
    StateAfterIsFold(ProtoStep, before, data, 0);
  }

  method StoreInTuple(before: Tuple, atype: u16, payload: seq<byte>) returns (t: Tuple, ghost steps: nat)
    ensures t == TupleStep(before, Attr(atype, payload))
    ensures 4 * steps <= |payload|
  {
    t, steps := before, 0;
    if atype == CTA_TUPLE_IP {
      t, steps := ParseTupleIp(payload, t);
    } else if atype == CTA_TUPLE_PROTO {
      t, steps := ParseTupleProto(payload, t);
    }
  }

  method ParseTuple(data: seq<byte>) returns (t: Tuple, ghost steps: nat)
    ensures t == DecodeTuple(data)
    ensures 4 * steps <= |data|
  {
    var off := 0;
    t, steps := ZERO_TUPLE, 0;
    ghost var nested;
    while off + 4 <= |data|
      invariant StateAfter(TupleStep, t, data, off) == StateAfter(TupleStep, ZERO_TUPLE, data, 0)
      invariant 4 * steps <= off && 4 * steps <= |data|
    {
      var alen := Rd16Le(data, off);
      var atype := MaskType(Rd16Le(data, off + 2));
      steps := steps + 1;
      if alen < 4 || off + alen > |data| {
        break;
      }
      assert AttrAt(data, off) == Attr(atype, data[off + 4..off + alen]);
      t, nested := StoreInTuple(t, atype, data[off + 4..off + alen]);
      steps := steps + nested;
      off := off + Align4(alen);
    }
    StateAfterIsFold(TupleStep, ZERO_TUPLE, data, 0);
  }

  method StoreInEvent(s: CtState, atype: u16, payload: seq<byte>)
    returns (orig: Tuple, reply: Tuple, ev: Event, ghost steps: nat)
    ensures CtState(orig, reply, ev) == CtStep(s, Attr(atype, payload))
    ensures 4 * steps <= |payload|
  {
    orig, reply, ev, steps := s.orig, s.reply, s.ev, 0;
    if atype == CTA_TUPLE_ORIG {
      orig, steps := ParseTuple(payload);
    } else if atype == CTA_TUPLE_REPLY {
      reply, steps := ParseTuple(payload);
    } else if atype == CTA_MARK && |payload| >= 4 {
      ev := ev.(mark := Rd32Be(payload, 0));
    } else if atype == CTA_ZONE && |payload| >= 2 {
      ev := ev.(zone := Rd16Be(payload, 0));
    } else if atype == CTA_ID && |payload| >= 4 {
      ev := ev.(id := Rd32Be(payload, 0), hasId := true);
    } else if atype == CTA_STATUS && |payload| >= 4 {
      ev := ev.(status := Rd32Be(payload, 0), hasStatus := true);
    }
  }

  method ParseCtAttrs(data: seq<byte>, before: Event) returns (ev: Event, ghost steps: nat)
    ensures ev == Merge(DecodeCt(data, before))
    ensures 4 * steps <= |data|
  {
    var off := 0;
    var orig, reply := ZERO_TUPLE, ZERO_TUPLE;
    ev, steps := before, 0;
    ghost var nested;
    while off + 4 <= |data|
      invariant StateAfter(CtStep, CtState(orig, reply, ev), data, off)
             == StateAfter(CtStep, CtState(ZERO_TUPLE, ZERO_TUPLE, before), data, 0)
      invariant 4 * steps <= off && 4 * steps <= |data|
    {
      var alen := Rd16Le(data, off);
      var atype := MaskType(Rd16Le(data, off + 2));
      steps := steps + 1;
      if alen < 4 || off + alen > |data| {
        break;
      }
      assert AttrAt(data, off) == Attr(atype, data[off + 4..off + alen]);
      orig, reply, ev, nested := StoreInEvent(CtState(orig, reply, ev), atype, data[off + 4..off + alen]);
      steps := steps + nested;
      off := off + Align4(alen);
    }
    StateAfterIsFold(CtStep, CtState(ZERO_TUPLE, ZERO_TUPLE, before), data, 0);
    ev := MergeTuples(orig, reply, ev);
  }

  /** The tail of the attribute walk: the two directions are written into the event field by field. */
  method MergeTuples(orig: Tuple, reply: Tuple, before: Event) returns (ev: Event)
    ensures ev == Merge(CtState(orig, reply, before))
  {
    ev := MergeOrig(orig, before);
    if orig.hasProto {
      ev := ev.(protocol := orig.proto);
    } else if reply.hasProto {
      ev := ev.(protocol := reply.proto);
    }
    ev := MergeReply(reply, ev);
  }

  method MergeOrig(orig: Tuple, before: Event) returns (ev: Event)
    ensures ev == before.(
      lan := Fill(before.lan, orig),
      hasLan := before.hasLan || FamilyOf(orig) != NoFamily,
      isIpv6 := if FamilyOf(orig) == NoFamily then before.isIpv6 else FamilyOf(orig) == V6)
  {
    ev := before;
    if orig.hasIp {
      ev := ev.(lan := ev.lan.(srcIp := orig.srcIp, dstIp := orig.dstIp), hasLan := true, isIpv6 := false);
    } else if orig.hasIp6 {
      ev := ev.(lan := ev.lan.(srcIp6 := orig.srcIp6, dstIp6 := orig.dstIp6), hasLan := true, isIpv6 := true);
    }
    if orig.hasPorts {
      ev := ev.(lan := ev.lan.(srcPort := orig.srcPort, dstPort := orig.dstPort));
    }
  }

  method MergeReply(reply: Tuple, before: Event) returns (ev: Event)
    ensures ev == before.(
      wan := Fill(before.wan, Swap(reply)),
      hasWan := before.hasWan || FamilyOf(reply) != NoFamily,
      isIpv6 := before.isIpv6 || FamilyOf(reply) == V6)
  {
    ev := before;
    if reply.hasIp {
      ev := ev.(wan := ev.wan.(srcIp := reply.dstIp, dstIp := reply.srcIp), hasWan := true);
    } else if reply.hasIp6 {
      ev := ev.(wan := ev.wan.(srcIp6 := reply.dstIp6, dstIp6 := reply.srcIp6), hasWan := true, isIpv6 := true);
    }
    if reply.hasPorts {
      ev := ev.(wan := ev.wan.(srcPort := reply.dstPort, dstPort := reply.srcPort));
    }
  }

  /** The event type that the message type and its flags announce. */
  method StartOf(nlType: u16, nlFlags: u16) returns (ev: Event)
    ensures ev == StartEvent(nlType, nlFlags)
  {
    ev := ZERO_EVENT;
    if nlType % 0x100 == 2 {
      ev := ev.(typ := Destroy, isDestroy := true);
    } else if nlType % 0x100 == 0 {
      if HasFlag400(nlFlags) {
        ev := ev.(typ := New);
      } else if HasFlag100(nlFlags) {
        ev := ev.(typ := Update);
      } else {
        ev := ev.(typ := New);
      }
    } else {
      ev := ev.(typ := Update);
    }
  }

  /** The last check of a message: does its event carry an address, or at least an id to correlate? */
  method ReasonOf(before: Event, nlType: u16, nlLen: u32) returns (ev: Event)
    ensures ev == Classify(before, nlType, nlLen)
    ensures ev == before.(typ := ev.typ, reason := ev.reason)
    ensures before.hasLan || before.hasWan || (before.isDestroy && before.hasId) ==> ev.typ == before.typ
    ensures before.hasLan || before.hasWan ==> ev.reason == before.reason
  {
    ev := before;
    if !ev.hasLan && !ev.hasWan {
      if ev.isDestroy && ev.hasId {
        ev := ev.(reason := DestroyWithoutTuples(ev.id));
      } else {
        ev := ev.(typ := Partial, reason := NoAddressTuples(nlType, nlLen));
      }
    }
  }

  /** The body of the message loop for one message that holds both headers. */
  method ParseMessage(msg: seq<byte>) returns (ev: Event, ghost steps: nat)
    requires 20 <= |msg| < TWO32
    ensures MsgEvents(Msg(msg)) == [ev]
    ensures 16 + 4 * steps <= |msg|
  {
    var nlType := Rd16Le(msg, 4);
    var nlFlags := Rd16Le(msg, 6);
    ev := StartOf(nlType, nlFlags);
    ev, steps := ParseCtAttrs(msg[20..], ev);
    ev := ReasonOf(ev, nlType, |msg|);
  }

  /** `f` decodes messages.  The proof of the message walk knows the decoder only by this name. */
  ghost predicate Decodes(f: Msg -> seq<Event>) {
    forall m {:trigger MsgEvents(m)} :: f(m) == MsgEvents(m)
  }

  class Nfct {
    const ring: Ring<Event>

    ghost predicate Valid()
      reads this, ring, ring.q
    {
      ring.Valid()
    }

    ghost function Queued(): seq<Event>
      reads this, ring
    {
      ring.books.items
    }

    /** `eventQueueSize` is 0 for the default, which the code sets to 16. */
    constructor (eventQueueSize: nat)
      ensures Valid() && fresh(ring) && fresh(ring.q)
      ensures ring.qsz == Clamp(eventQueueSize, 16)
      ensures Queued() == []
    {
      ring := new Ring(eventQueueSize, 16);
    }

    method Reset()
      requires Valid()
      modifies ring
      ensures Valid() && ring.qsz == old(ring.qsz)
      ensures Queued() == []
    {
      ring.Reset(16);
    }

    method TrySynth(data: seq<byte>) returns (taken: bool)
      requires Valid()
      modifies ring, ring.q
      ensures Valid() && ring.qsz == old(ring.qsz)
      ensures taken <==> IsSynth(data)
      ensures Queued() == if taken then Offered(ring.qsz, old(Queued()), SynthEvent(data)) else old(Queued())
    {
      if |data| < 32 {
        return false;
      }
      if Rd32Be(data, 0) != SYNTH_MAGIC {
        return false;
      }
      var ev := ZERO_EVENT;
      match data[4] {
        case 1 => ev := ev.(typ := New);
        case 2 => ev := ev.(typ := Update);
        case 3 => ev := ev.(typ := Destroy);
        case _ => ev := ev.(typ := Partial);
      }
      ev := ev.(protocol := data[5]);
      ev := ev.(lan := ev.lan.(srcIp := Rd32Be(data, 8), srcPort := Rd16Be(data, 12)));
      ev := ev.(lan := ev.lan.(dstIp := Rd32Be(data, 14), dstPort := Rd16Be(data, 18)));
      ev := ev.(wan := ev.wan.(srcIp := Rd32Be(data, 20), srcPort := Rd16Be(data, 24)));
      ev := ev.(wan := ev.wan.(dstIp := Rd32Be(data, 26), dstPort := Rd16Be(data, 30)));
      ev := ev.(hasLan := true, hasWan := true);
      var _ := ring.Push(ev);
      return true;
    }

    /** The body of the message loop: a message too short for the nfgenmsg header is skipped. */
    method EmitMessage(msg: Msg, ghost f: Msg -> seq<Event>) returns (ghost steps: nat)
      requires Valid() && Decodes(f)
      requires 16 <= |msg.bytes| < TWO32
      modifies ring, ring.q
      ensures Valid() && ring.qsz == old(ring.qsz)
      ensures Queued() == OfferedAll(ring.qsz, old(Queued()), f(msg))
      ensures 16 + 4 * steps <= |msg.bytes|
    {
      steps := 0;
      assert f(msg) == MsgEvents(msg);
      if |msg.bytes| < 20 {
        return;
      }
      var ev;
      ev, steps := ParseMessage(msg.bytes);
      var _ := ring.Push(ev);
    }

    method EmitAt(data: seq<byte>, off: nat, nlLen: nat, ghost f: Msg -> seq<Event>) returns (ghost steps: nat)
      requires Valid() && Decodes(f)
      requires HasMsgAt(data, off) && nlLen == Rd32Le(data, off)
      modifies ring, ring.q
      ensures Valid() && ring.qsz == old(ring.qsz)
      ensures Queued() == OfferedAll(ring.qsz, old(Queued()), f(MsgAt(data, off)))
      ensures 16 + 4 * steps <= nlLen
    {
      steps := EmitMessage(Msg(data[off..off + nlLen]), f);
    }

    /** The message walk; `turns` counts its iterations and `steps` those of every attribute loop inside. */
    method ParseNetlink(data: seq<byte>, ghost f: Msg -> seq<Event>) returns (ghost turns: nat, ghost steps: nat)
      requires Valid() && Decodes(f) && Walkable(data, 0)
      modifies ring, ring.q
      ensures Valid() && ring.qsz == old(ring.qsz)
      ensures Queued() == QueueAfter(f, ring.qsz, old(Queued()), data, 0)
      ensures 16 * turns + 4 * steps <= |data|
    {
      var off := 0;
      turns, steps := 0, 0;
      ghost var cap := ring.qsz;
      ghost var goal := QueueAfter(f, cap, Queued(), data, 0);
      while off + 16 <= |data|
        invariant Valid() && ring.qsz == cap && Walkable(data, off)
        invariant QueueAfter(f, cap, Queued(), data, off) == goal
        invariant 16 * turns + 4 * steps <= off && 16 * turns + 4 * steps <= |data|
      {
        var nlLen := Rd32Le(data, off);
        turns := turns + 1;
        if nlLen < 16 || off + nlLen > |data| {
          break;
        }
        ghost var inner := EmitAt(data, off, nlLen, f);
        steps := steps + inner;
        off := off + Align4(nlLen);
      }
    }

    /** One feed: a synthetic frame, or else a walk over netlink messages, which must come to its end. */
    method FeedInput(data: seq<byte>) returns (ghost turns: nat, ghost steps: nat)
      requires Valid()
      requires IsSynth(data) || Halts(data)
      modifies ring, ring.q
      ensures Valid() && ring.qsz == old(ring.qsz)
      ensures Queued() == OfferedAll(ring.qsz, old(Queued()), FedEvents(data))
      ensures 16 * turns + 4 * steps <= |data|
    {
      turns, steps := 0, 0;
      if |data| == 0 {
        return;
      }
      var taken := TrySynth(data);
      if taken {
        return;
      }
      HaltsIffWalkable(data);
      QueueAfterIsOneBurst(MsgEvents, ring.qsz, Queued(), data, 0);
      turns, steps := ParseNetlink(data, MsgEvents);
    }

    method NextEvent() returns (r: Option<Event>)
      requires Valid()
      modifies ring
      ensures Valid() && ring.qsz == old(ring.qsz)
      ensures r == if old(Queued()) == [] then None else Some(old(Queued())[0])
      ensures Queued() == if old(Queued()) == [] then [] else old(Queued())[1..]
    {
      r := ring.Pop();
    }
  }
}
