/** The two extractors of a NAT endpoint pair, and when what they return is what conntrack reported. */
module ConntrackForensics {
  import opened Bytes
  import opened Attributes
  import opened Conntrack
  import opened ConntrackMeaning
  import opened ConntrackEncoder

  datatype Address = Ip4(ip: u32) | Ip6(bytes: seq<byte>)

  /** What an extractor writes through its pointers, and the code it returns. */
  datatype Extract =
    | NotFilled
    | Filled(lanSrc: Address, lanPort: u16, wanSrc: Address, wanPort: u16, protocol: byte, code: nat)

  function ForensicsTuple(ev: Event): Extract {
    if ev.isIpv6 then NotFilled
    else Filled(Ip4(ev.lan.srcIp), ev.lan.srcPort, Ip4(ev.wan.srcIp), ev.wan.srcPort, ev.protocol,
                if ev.hasLan && ev.protocol != 0 then 1 else 0)
  }

  function ForensicsTupleV6(ev: Event): Extract {
    if !ev.isIpv6 then NotFilled
    else Filled(Ip6(ev.lan.srcIp6), ev.lan.srcPort, Ip6(ev.wan.srcIp6), ev.wan.srcPort, ev.protocol,
                if ev.hasLan && ev.protocol != 0 then 1 else 0)
  }

  predicate Answers(e: Extract) {
    e.Filled? && e.code == 1
  }

  /** The address a direction reports in the family the merge uses for it. */
  function Source(t: Tuple): Address
    requires FamilyOf(t) != NoFamily
  {
    if FamilyOf(t) == V4 then Ip4(t.srcIp) else Ip6(t.srcIp6)
  }

  function Destination(t: Tuple): Address
    requires FamilyOf(t) != NoFamily
  {
    if FamilyOf(t) == V4 then Ip4(t.dstIp) else Ip6(t.dstIp6)
  }

  /** The extractor of the event's family. */
  function Extracted(ev: Event): Extract {
    if ev.isIpv6 then ForensicsTupleV6(ev) else ForensicsTuple(ev)
  }

  lemma AtMostOneAnswers(ev: Event)
    ensures !(Answers(ForensicsTuple(ev)) && Answers(ForensicsTupleV6(ev)))
    ensures Answers(ForensicsTuple(ev)) || Answers(ForensicsTupleV6(ev)) <==> ev.hasLan && ev.protocol != 0
    ensures ForensicsTuple(ev).Filled? <==> !ev.isIpv6
    ensures ForensicsTupleV6(ev).Filled? <==> ev.isIpv6
    ensures var e := Extracted(ev); e.Filled? && (e.code == 0 || Answers(e))
  {
  }

  /** Whatever the families: the ports, where the directions carry them, and the protocol, that of ORIG first. */
  predicate PortsAndProtocolAre(e: Extract, orig: Tuple, reply: Tuple)
    requires e.Filled?
  {
    && (orig.hasPorts ==> e.lanPort == orig.srcPort)
    && (reply.hasPorts ==> e.wanPort == reply.dstPort)
    && (orig.hasProto ==> e.protocol == orig.proto)
    && (!orig.hasProto && reply.hasProto ==> e.protocol == reply.proto)
  }

  /**
   For directions that both carry an address, the extractor of the event's family returns the LAN
   source of ORIG and the WAN source of REPLY if and only if the two directions share a family.
   */
  lemma ExtractionIsExactWithinOneFamily(s: CtState)
    requires !s.ev.isIpv6 && FamilyOf(s.orig) != NoFamily && FamilyOf(s.reply) != NoFamily
    ensures var e := Extracted(Merge(s));
            && e.Filled?
            && (e.lanSrc == Source(s.orig) && e.wanSrc == Destination(s.reply)
                <==> FamilyOf(s.orig) == FamilyOf(s.reply))
            && PortsAndProtocolAre(e, s.orig, s.reply)
  {
  }

  /** Every record with an IPv4 ORIG and an IPv6 REPLY misleads: the extractor answers, with an all-zero LAN address. */
  lemma MixedFamiliesMislead(r: Record)
    requires r.orig.Some? && r.orig.value.addrs.Addresses4? && r.orig.value.proto != 0
    requires r.reply.Some? && r.reply.value.addrs.Addresses6?
    ensures FedEvents(EncRecord(r)) == [RecordEvent(r)]
    ensures var ev := RecordEvent(r);
            && Answers(ForensicsTupleV6(ev)) && !Answers(ForensicsTuple(ev))
            && ForensicsTupleV6(ev).lanSrc == Ip6(NO_IP6)
  {
    assert [r][1..] == [];
    assert EncRecords([r]) == EncRecord(r) && RecordEvents([r]) == [RecordEvent(r)];
    FeedingUndoesEncoding([r]);
  }

  // ---------- what holds of every decoded message ----------

  /** The invariant of every event that the message walk emits. */
  predicate WellFormed(ev: Event) {
    && (ev.typ == Partial <==> ev.reason.NoAddressTuples?)
    && (ev.reason.DestroyWithoutTuples? ==> ev.typ == Destroy && ev.hasId && ev.reason.id == ev.id)
    && (!ev.hasLan && !ev.hasWan <==> !ev.reason.NoReason?)
    && (ev.isDestroy && ev.typ != Partial <==> ev.typ == Destroy)
    && (ev.isIpv6 ==> ev.hasLan || ev.hasWan)
    && (ev.typ == Partial <==> !ev.hasLan && !ev.hasWan && !(ev.isDestroy && ev.hasId))
    && |ev.lan.srcIp6| == |ev.lan.dstIp6| == |ev.wan.srcIp6| == |ev.wan.dstIp6| == 16
  }

  lemma DecodedIsWellFormed(b: seq<byte>)
    requires 20 <= |b| < TWO32
    ensures WellFormed(MsgEvent(b))
    ensures MsgEvent(b).typ == Partial ==> MsgEvent(b).reason == NoAddressTuples(Rd16Le(b, 4), |b|)
  {
    DecodeMeaning(b[20..], StartEvent(Rd16Le(b, 4), Rd16Le(b, 6)));
  }

  /** The same exactness for every message, whatever its bytes. */
  lemma DecodedExtractionIsExactWithinOneFamily(b: seq<byte>)
    requires 20 <= |b| < TWO32
    ensures var o := DirectionOf(Last(Attrs(b[20..]), CTA_TUPLE_ORIG, 0));
            var r := DirectionOf(Last(Attrs(b[20..]), CTA_TUPLE_REPLY, 0));
            var e := Extracted(MsgEvent(b));
            FamilyOf(o) != NoFamily && FamilyOf(r) != NoFamily ==>
              && e.Filled?
              && (e.lanSrc == Source(o) && e.wanSrc == Destination(r) <==> FamilyOf(o) == FamilyOf(r))
              && PortsAndProtocolAre(e, o, r)
  {
    var start := StartEvent(Rd16Le(b, 4), Rd16Le(b, 6));
    DecodeMeaning(b[20..], start);
    var s := DecodeCt(b[20..], start);
    if FamilyOf(s.orig) != NoFamily && FamilyOf(s.reply) != NoFamily {
      ExtractionIsExactWithinOneFamily(s);
    }
  }
}
