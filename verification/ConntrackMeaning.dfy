/**
 What a conntrack message says, without walking it: every field is the value of the last qualifying
 attribute of its kind.  Reordering and insertion of unknown attributes follow.
 */
module ConntrackMeaning {
  import opened Bytes
  import opened Walk
  import opened Attributes
  import opened Conntrack

  function U8(p: Option<seq<byte>>): byte
    requires p.Some? ==> |p.value| >= 1
  {
    if p.Some? then p.value[0] else 0
  }

  function U16(p: Option<seq<byte>>): u16
    requires p.Some? ==> |p.value| >= 2
  {
    if p.Some? then Rd16Be(p.value, 0) else 0
  }

  function U32(p: Option<seq<byte>>): u32
    requires p.Some? ==> |p.value| >= 4
  {
    if p.Some? then Rd32Be(p.value, 0) else 0
  }

  function B16(p: Option<seq<byte>>): seq<byte>
    requires p.Some? ==> |p.value| >= 16
  {
    if p.Some? then p.value[..16] else NO_IP6
  }

  /** A direction, read off its address attributes and its protocol attributes: the last one of a kind wins. */
  function TupleOf(ip: seq<Attr>, proto: seq<Attr>): Tuple {
    var src4, dst4 := Last(ip, CTA_IP_V4_SRC, 4), Last(ip, CTA_IP_V4_DST, 4);
    var src6, dst6 := Last(ip, CTA_IP_V6_SRC, 16), Last(ip, CTA_IP_V6_DST, 16);
    var num := Last(proto, CTA_PROTO_NUM, 1);
    var sport, dport := Last(proto, CTA_PROTO_SRC_PORT, 2), Last(proto, CTA_PROTO_DST_PORT, 2);
    Tuple(
      U32(src4), U32(dst4), B16(src6), B16(dst6), U16(sport), U16(dport), U8(num),
      src4.Some? || dst4.Some?, src6.Some? || dst6.Some?, num.Some?, sport.Some? || dport.Some?)
  }

  /** A direction without any payload is one without any attribute. */
  function DirectionOf(nest: Option<seq<byte>>): Tuple {
    var attrs := if nest.Some? then Attrs(nest.value) else [];
    TupleOf(Inside(attrs, CTA_TUPLE_IP), Inside(attrs, CTA_TUPLE_PROTO))
  }

  /** Everything an attribute stream says: the last nest of each direction counts alone. */
  function CtOf(attrs: seq<Attr>, ev: Event): CtState {
    var mark, zone := Last(attrs, CTA_MARK, 4), Last(attrs, CTA_ZONE, 2);
    var id, status := Last(attrs, CTA_ID, 4), Last(attrs, CTA_STATUS, 4);
    CtState(
      DirectionOf(Last(attrs, CTA_TUPLE_ORIG, 0)),
      DirectionOf(Last(attrs, CTA_TUPLE_REPLY, 0)),
      ev.(
        mark := if mark.Some? then U32(mark) else ev.mark,
        zone := if zone.Some? then U16(zone) else ev.zone,
        id := if id.Some? then U32(id) else ev.id,
        hasId := ev.hasId || id.Some?,
        status := if status.Some? then U32(status) else ev.status,
        hasStatus := ev.hasStatus || status.Some?))
  }

  // ---------- the walk computes the meaning ----------

  lemma IpStepMeaning(ip: seq<Attr>, proto: seq<Attr>, a: Attr)
    ensures IpStep(TupleOf(ip, proto), a) == TupleOf(ip + [a], proto)
  {
    LastSnoc(ip, a, CTA_IP_V4_SRC, 4);
    LastSnoc(ip, a, CTA_IP_V4_DST, 4);
    LastSnoc(ip, a, CTA_IP_V6_SRC, 16);
    LastSnoc(ip, a, CTA_IP_V6_DST, 16);
  }

  lemma ProtoStepMeaning(ip: seq<Attr>, proto: seq<Attr>, a: Attr)
    ensures ProtoStep(TupleOf(ip, proto), a) == TupleOf(ip, proto + [a])
  {
    LastSnoc(proto, a, CTA_PROTO_NUM, 1);
    LastSnoc(proto, a, CTA_PROTO_SRC_PORT, 2);
    LastSnoc(proto, a, CTA_PROTO_DST_PORT, 2);
  }

  lemma {:induction false} IpNestMeaning(ip: seq<Attr>, proto: seq<Attr>, more: seq<Attr>)
    ensures Fold(IpStep, TupleOf(ip, proto), more) == TupleOf(ip + more, proto)
    decreases |more|
  {
    if more == [] {
      assert ip + more == ip;
    } else {
      IpStepMeaning(ip, proto, more[0]);
      IpNestMeaning(ip + [more[0]], proto, more[1..]);
      assert ip + [more[0]] + more[1..] == ip + more;
    }
  }

  lemma {:induction false} ProtoNestMeaning(ip: seq<Attr>, proto: seq<Attr>, more: seq<Attr>)
    ensures Fold(ProtoStep, TupleOf(ip, proto), more) == TupleOf(ip, proto + more)
    decreases |more|
  {
    if more == [] {
      assert proto + more == proto;
    } else {
      ProtoStepMeaning(ip, proto, more[0]);
      ProtoNestMeaning(ip, proto + [more[0]], more[1..]);
      assert proto + [more[0]] + more[1..] == proto + more;
    }
  }

  /** Repeated address or protocol nests inside one direction merge field by field. */
  lemma {:induction false} TupleMeaning(attrs: seq<Attr>)
    ensures Fold(TupleStep, ZERO_TUPLE, attrs)
         == TupleOf(Inside(attrs, CTA_TUPLE_IP), Inside(attrs, CTA_TUPLE_PROTO))
    decreases |attrs|
  {
    if attrs != [] {
      var init, a := attrs[..|attrs| - 1], attrs[|attrs| - 1];
      assert attrs == init + [a];
      TupleMeaning(init);
      FoldSnoc(TupleStep, ZERO_TUPLE, init, a);
      var ip, proto := Inside(init, CTA_TUPLE_IP), Inside(init, CTA_TUPLE_PROTO);
      if a.typ == CTA_TUPLE_IP {
        IpNestMeaning(ip, proto, Attrs(a.payload));
      } else if a.typ == CTA_TUPLE_PROTO {
        ProtoNestMeaning(ip, proto, Attrs(a.payload));
      }
      assert ip + [] == ip && proto + [] == proto;
    }
  }

  lemma CtStepMeaning(attrs: seq<Attr>, ev: Event, a: Attr)
    ensures CtStep(CtOf(attrs, ev), a) == CtOf(attrs + [a], ev)
  {
    LastSnoc(attrs, a, CTA_TUPLE_ORIG, 0);
    LastSnoc(attrs, a, CTA_TUPLE_REPLY, 0);
    LastSnoc(attrs, a, CTA_MARK, 4);
    LastSnoc(attrs, a, CTA_ZONE, 2);
    LastSnoc(attrs, a, CTA_ID, 4);
    LastSnoc(attrs, a, CTA_STATUS, 4);
    TupleMeaning(Attrs(a.payload));
  }

  lemma {:induction false} CtFoldMeaning(attrs: seq<Attr>, ev: Event)
    ensures Fold(CtStep, CtState(ZERO_TUPLE, ZERO_TUPLE, ev), attrs) == CtOf(attrs, ev)
    decreases |attrs|
  {
    if attrs != [] {
      var init, a := attrs[..|attrs| - 1], attrs[|attrs| - 1];
      assert attrs == init + [a];
      CtFoldMeaning(init, ev);
      FoldSnoc(CtStep, CtState(ZERO_TUPLE, ZERO_TUPLE, ev), init, a);
      CtStepMeaning(init, ev, a);
    }
  }

  /** The three nested walks over any bytes at all compute exactly what the attributes say. */
  lemma DecodeMeaning(d: seq<byte>, ev: Event)
    ensures DecodeCt(d, ev) == CtOf(Attrs(d), ev)
  {
    CtFoldMeaning(Attrs(d), ev);
  }

  // ---------- repeated directions and mixed addresses ----------

  /** A direction replaces an earlier one of its kind wholly: the earlier attribute might as well not be there. */
  lemma LaterDirectionReplaces(x: seq<byte>, e: seq<byte>, a: Attr, y: seq<byte>, i: nat, ev: Event)
    requires (a.typ == 1 || a.typ == 2) && Attrs(e) == [a] && Whole(AttrReader, e, 0)
    requires Whole(AttrReader, x, 0) && i < |Attrs(y)| && Attrs(y)[i].typ == a.typ
    ensures DecodeCt(x + (e + y), ev) == DecodeCt(x + y, ev)
  {
    AttrsAppend(x, e + y);
    AttrsAppend(e, y);
    AttrsAppend(x, y);
    Associates(Attrs(x), [a], Attrs(y));
    LaterInStream(x + (e + y), x + y, Attrs(x), a, Attrs(y), i, ev);
  }

  lemma LaterInStream(u: seq<byte>, v: seq<byte>, xs: seq<Attr>, a: Attr, ys: seq<Attr>, i: nat, ev: Event)
    requires (a.typ == 1 || a.typ == 2) && i < |ys| && ys[i].typ == a.typ
    requires Attrs(u) == xs + [a] + ys && Attrs(v) == xs + ys
    ensures DecodeCt(u, ev) == DecodeCt(v, ev)
  {
    DecodeMeaning(u, ev);
    DecodeMeaning(v, ev);
    LaterCounts(xs, a, ys, i, ev);
  }

  lemma LaterCounts(xs: seq<Attr>, a: Attr, ys: seq<Attr>, i: nat, ev: Event)
    requires (a.typ == 1 || a.typ == 2) && i < |ys| && ys[i].typ == a.typ
    ensures CtOf(xs + [a] + ys, ev) == CtOf(xs + ys, ev)
  {
    LaterLast(xs, a, ys, i, CTA_TUPLE_ORIG, 0);
    LaterLast(xs, a, ys, i, CTA_TUPLE_REPLY, 0);
    LaterLast(xs, a, ys, i, CTA_MARK, 4);
    LaterLast(xs, a, ys, i, CTA_ZONE, 2);
    LaterLast(xs, a, ys, i, CTA_ID, 4);
    LaterLast(xs, a, ys, i, CTA_STATUS, 4);
  }

  lemma LaterLast(xs: seq<Attr>, a: Attr, ys: seq<Attr>, i: nat, typ: u16, min: nat)
    requires i < |ys| && ys[i].typ == a.typ && (a.typ == typ ==> min == 0)
    ensures Last(xs + [a] + ys, typ, min) == Last(xs + ys, typ, min)
  {
    LastAppend(xs + [a], ys, typ, min);
    LastAppend(xs, ys, typ, min);
    LastSnoc(xs, a, typ, min);
    LastNone(ys, typ, min);
    assert ys[i] in ys;
  }

  /** A direction with addresses of both families is reported by its IPv4 ones, on either side. */
  lemma Ipv4ComesFirst(s: CtState)
    requires !s.ev.isIpv6
    ensures var ev := Merge(s);
            && (s.orig.hasIp ==> ev.lan.srcIp == s.orig.srcIp && ev.lan.dstIp == s.orig.dstIp
                                 && ev.lan.srcIp6 == s.ev.lan.srcIp6 && ev.lan.dstIp6 == s.ev.lan.dstIp6)
            && (s.reply.hasIp ==> ev.wan.srcIp == s.reply.dstIp && ev.wan.dstIp == s.reply.srcIp
                                  && ev.wan.srcIp6 == s.ev.wan.srcIp6 && ev.wan.dstIp6 == s.ev.wan.dstIp6)
            && (ev.isIpv6 <==> (!s.orig.hasIp && s.orig.hasIp6) || (!s.reply.hasIp && s.reply.hasIp6))
  {
  }

  /** A side is reported iff its direction has an address, whatever else it has; ports and protocol need none. */
  lemma SidesAreReportedExactlyWhen(d: seq<byte>, nlType: u16, nlFlags: u16)
    ensures var s := DecodeCt(d, StartEvent(nlType, nlFlags));
            var ev := Merge(s);
            && (ev.hasLan <==> s.orig.hasIp || s.orig.hasIp6)
            && (ev.hasWan <==> s.reply.hasIp || s.reply.hasIp6)
            && (s.orig.hasPorts ==> ev.lan.srcPort == s.orig.srcPort && ev.lan.dstPort == s.orig.dstPort)
            && (s.reply.hasPorts ==> ev.wan.srcPort == s.reply.dstPort && ev.wan.dstPort == s.reply.srcPort)
            && (!s.orig.hasPorts ==> ev.lan.srcPort == ev.lan.dstPort == 0)
            && (!s.reply.hasPorts ==> ev.wan.srcPort == ev.wan.dstPort == 0)
            && (!ev.hasLan ==> ev.lan.srcIp == ev.lan.dstIp == 0 && ev.lan.srcIp6 == ev.lan.dstIp6 == NO_IP6)
            && (!ev.hasWan ==> ev.wan.srcIp == ev.wan.dstIp == 0 && ev.wan.srcIp6 == ev.wan.dstIp6 == NO_IP6)
            && ev.protocol == if s.orig.hasProto then s.orig.proto else if s.reply.hasProto then s.reply.proto else 0
  {
    DecodeMeaning(d, StartEvent(nlType, nlFlags));
  }

  // ---------- order and unknown attributes ----------

  /** Attributes of pairwise distinct types may come in any order. */
  lemma OrderDoesNotMatter(x: seq<byte>, y: seq<byte>, ev: Event)
    requires multiset(Attrs(x)) == multiset(Attrs(y)) && DistinctTypes(Attrs(x)) && DistinctTypes(Attrs(y))
    ensures DecodeCt(x, ev) == DecodeCt(y, ev)
  {
    DecodeMeaning(x, ev);
    DecodeMeaning(y, ev);
    LastOfDistinct(Attrs(x), Attrs(y), CTA_TUPLE_ORIG, 0);
    LastOfDistinct(Attrs(x), Attrs(y), CTA_TUPLE_REPLY, 0);
    LastOfDistinct(Attrs(x), Attrs(y), CTA_MARK, 4);
    LastOfDistinct(Attrs(x), Attrs(y), CTA_ZONE, 2);
    LastOfDistinct(Attrs(x), Attrs(y), CTA_ID, 4);
    LastOfDistinct(Attrs(x), Attrs(y), CTA_STATUS, 4);
  }

  /** The same for whole messages behind one pair of headers. */
  lemma OrderInMessage(h: seq<byte>, x: seq<byte>, y: seq<byte>)
    requires |h| == 20 && |x| == |y| && 20 + |x| < TWO32
    requires multiset(Attrs(x)) == multiset(Attrs(y)) && DistinctTypes(Attrs(x)) && DistinctTypes(Attrs(y))
    ensures MsgEvent(h + x) == MsgEvent(h + y)
  {
    var b, b' := h + x, h + y;
    assert b[20..] == x && b'[20..] == y;
    assert b[4..8] == h[4..8] && b'[4..8] == h[4..8];
    SameHeader(b, b');
    OrderDoesNotMatter(x, y, StartEvent(Rd16Le(b, 4), Rd16Le(b, 6)));
  }

  /** The same one level down. */
  lemma OrderInsideTuple(x: seq<byte>, y: seq<byte>)
    requires multiset(Attrs(x)) == multiset(Attrs(y)) && DistinctTypes(Attrs(x)) && DistinctTypes(Attrs(y))
    ensures DecodeTuple(x) == DecodeTuple(y)
  {
    var xs, ys := Attrs(x), Attrs(y);
    TupleMeaning(xs);
    TupleMeaning(ys);
    InsideOfDistinct(xs, CTA_TUPLE_IP);
    InsideOfDistinct(ys, CTA_TUPLE_IP);
    InsideOfDistinct(xs, CTA_TUPLE_PROTO);
    InsideOfDistinct(ys, CTA_TUPLE_PROTO);
    LastOfDistinct(xs, ys, CTA_TUPLE_IP, 0);
    LastOfDistinct(xs, ys, CTA_TUPLE_PROTO, 0);
  }

  lemma SourcePast(t: Tuple, ip: u32, b: Attr)
    requires b.typ != CTA_IP_V4_SRC
    ensures IpStep(t.(srcIp := ip, hasIp := true), b) == IpStep(t, b).(srcIp := ip, hasIp := true)
  {
  }

  lemma DestinationPast(t: Tuple, ip: u32, b: Attr)
    requires b.typ != CTA_IP_V4_DST
    ensures IpStep(t.(dstIp := ip, hasIp := true), b) == IpStep(t, b).(dstIp := ip, hasIp := true)
  {
  }

  lemma Source6Past(t: Tuple, ip: seq<byte>, b: Attr)
    requires b.typ != CTA_IP_V6_SRC
    ensures IpStep(t.(srcIp6 := ip, hasIp6 := true), b) == IpStep(t, b).(srcIp6 := ip, hasIp6 := true)
  {
  }

  lemma Destination6Past(t: Tuple, ip: seq<byte>, b: Attr)
    requires b.typ != CTA_IP_V6_DST
    ensures IpStep(t.(dstIp6 := ip, hasIp6 := true), b) == IpStep(t, b).(dstIp6 := ip, hasIp6 := true)
  {
  }

  lemma IpStepsCommute(t: Tuple, a: Attr, b: Attr)
    requires a.typ != b.typ
    ensures IpStep(IpStep(t, a), b) == IpStep(IpStep(t, b), a)
  {
    if a.typ == CTA_IP_V4_SRC && |a.payload| >= 4 {
      SourcePast(t, Rd32Be(a.payload, 0), b);
    } else if a.typ == CTA_IP_V4_DST && |a.payload| >= 4 {
      DestinationPast(t, Rd32Be(a.payload, 0), b);
    } else if a.typ == CTA_IP_V6_SRC && |a.payload| >= 16 {
      Source6Past(t, a.payload[..16], b);
    } else if a.typ == CTA_IP_V6_DST && |a.payload| >= 16 {
      Destination6Past(t, a.payload[..16], b);
    }
  }

  lemma ProtoStepsCommute(t: Tuple, a: Attr, b: Attr)
    requires a.typ != b.typ
    ensures ProtoStep(ProtoStep(t, a), b) == ProtoStep(ProtoStep(t, b), a)
  {
  }

  /** And inside an IP nest, whatever earlier nests have left behind. */
  lemma OrderInsideIp(t: Tuple, x: seq<byte>, y: seq<byte>)
    requires multiset(Attrs(x)) == multiset(Attrs(y)) && DistinctTypes(Attrs(x))
    ensures Fold(IpStep, t, Attrs(x)) == Fold(IpStep, t, Attrs(y))
  {
    forall s: Tuple, a: Attr, b: Attr | a.typ != b.typ ensures IpStep(IpStep(s, a), b) == IpStep(IpStep(s, b), a) {
      IpStepsCommute(s, a, b);
    }
    FoldPermuted(IpStep, t, Attrs(x), Attrs(y));
  }

  /** And inside a PROTO nest. */
  lemma OrderInsideProto(t: Tuple, x: seq<byte>, y: seq<byte>)
    requires multiset(Attrs(x)) == multiset(Attrs(y)) && DistinctTypes(Attrs(x))
    ensures Fold(ProtoStep, t, Attrs(x)) == Fold(ProtoStep, t, Attrs(y))
  {
    forall s: Tuple, a: Attr, b: Attr | a.typ != b.typ
      ensures ProtoStep(ProtoStep(s, a), b) == ProtoStep(ProtoStep(s, b), a)
    {
      ProtoStepsCommute(s, a, b);
    }
    FoldPermuted(ProtoStep, t, Attrs(x), Attrs(y));
  }

  /** Unknown attributes change nothing inside a direction, or inside its two nests. */
  lemma UnknownInsideDirection(x: seq<byte>, typ: u16, payload: seq<byte>, y: seq<byte>, t: Tuple)
    requires Whole(AttrReader, x, 0) && |payload| <= 0xFFFB
    ensures MaskType(typ) !in [CTA_TUPLE_IP, CTA_TUPLE_PROTO] ==>
              DecodeTuple(x + EncAttr(typ, payload) + y) == DecodeTuple(x + y)
    ensures MaskType(typ) !in [CTA_IP_V4_SRC, CTA_IP_V4_DST, CTA_IP_V6_SRC, CTA_IP_V6_DST] ==>
              Fold(IpStep, t, Attrs(x + EncAttr(typ, payload) + y)) == Fold(IpStep, t, Attrs(x + y))
    ensures MaskType(typ) !in [CTA_PROTO_NUM, CTA_PROTO_SRC_PORT, CTA_PROTO_DST_PORT] ==>
              Fold(ProtoStep, t, Attrs(x + EncAttr(typ, payload) + y)) == Fold(ProtoStep, t, Attrs(x + y))
  {
    AttrsWithInsertion(x, typ, payload, y);
    var a := Attr(MaskType(typ), payload);
    if a.typ !in [CTA_TUPLE_IP, CTA_TUPLE_PROTO] {
      FoldIgnores(TupleStep, ZERO_TUPLE, Attrs(x), a, Attrs(y));
    }
    if a.typ !in [CTA_IP_V4_SRC, CTA_IP_V4_DST, CTA_IP_V6_SRC, CTA_IP_V6_DST] {
      FoldIgnores(IpStep, t, Attrs(x), a, Attrs(y));
    }
    if a.typ !in [CTA_PROTO_NUM, CTA_PROTO_SRC_PORT, CTA_PROTO_DST_PORT] {
      FoldIgnores(ProtoStep, t, Attrs(x), a, Attrs(y));
    }
  }

  predicate Recognised(typ: u16) {
    typ == CTA_TUPLE_ORIG || typ == CTA_TUPLE_REPLY || typ == CTA_STATUS
    || typ == CTA_MARK || typ == CTA_ID || typ == CTA_ZONE
  }

  /** An attribute of an unknown type, whatever its payload and flag bits, changes nothing. */
  lemma UnknownIsTransparent(x: seq<byte>, typ: u16, payload: seq<byte>, y: seq<byte>, ev: Event)
    requires Whole(AttrReader, x, 0) && |payload| <= 0xFFFB && !Recognised(MaskType(typ))
    ensures DecodeCt(x + EncAttr(typ, payload) + y, ev) == DecodeCt(x + y, ev)
  {
    AttrsWithInsertion(x, typ, payload, y);
    FoldIgnores(CtStep, CtState(ZERO_TUPLE, ZERO_TUPLE, ev), Attrs(x), Attr(MaskType(typ), payload), Attrs(y));
  }

  /**
   The same for whole messages, the length field adjusted: the event stays the same exactly unless it
   is a PARTIAL one, whose reason quotes the message length.
   */
  lemma UnknownInMessage(h: seq<byte>, h': seq<byte>, x: seq<byte>, typ: u16, payload: seq<byte>, y: seq<byte>)
    requires |h| == |h'| == 20 && h[4..8] == h'[4..8]
    requires Whole(AttrReader, x, 0) && |payload| <= 0xFFFB && !Recognised(MaskType(typ))
    requires |h + (x + EncAttr(typ, payload) + y)| < TWO32
    ensures var long := MsgEvent(h + (x + EncAttr(typ, payload) + y));
            var short := MsgEvent(h' + (x + y));
            && (long == short <==> !short.reason.NoAddressTuples?)
            && long.(reason := NoReason) == short.(reason := NoReason)
  {
    var b, b' := h + (x + EncAttr(typ, payload) + y), h' + (x + y);
    assert b[20..] == x + EncAttr(typ, payload) + y && b'[20..] == x + y;
    assert b[4..8] == h[4..8] && b'[4..8] == h'[4..8];
    SameHeader(b, b');
    var start := StartEvent(Rd16Le(b, 4), Rd16Le(b, 6));
    UnknownIsTransparent(x, typ, payload, y, start);
    DecodeMeaning(x + y, start);
    ReasonQuotesLength(Merge(DecodeCt(x + y, start)), Rd16Le(b, 4), |b|, |b'|);
  }

  lemma ReasonQuotesLength(e: Event, nlType: u16, n: u32, n': u32)
    requires e.reason.NoReason? && n != n'
    ensures Classify(e, nlType, n) == Classify(e, nlType, n') <==> !Classify(e, nlType, n').reason.NoAddressTuples?
    ensures Classify(e, nlType, n).(reason := NoReason) == Classify(e, nlType, n').(reason := NoReason)
  {
  }

  lemma SameHeader(b: seq<byte>, b': seq<byte>)
    requires |b| >= 8 && |b'| >= 8 && b[4..8] == b'[4..8]
    ensures Rd16Le(b, 4) == Rd16Le(b', 4) && Rd16Le(b, 6) == Rd16Le(b', 6)
  {
    assert b[4] == b[4..8][0] && b[5] == b[4..8][1] && b[6] == b[4..8][2] && b[7] == b[4..8][3];
    assert b'[4] == b'[4..8][0] && b'[5] == b'[4..8][1] && b'[6] == b'[4..8][2] && b'[7] == b'[4..8][3];
  }
}
