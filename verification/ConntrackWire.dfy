/**
 Conntrack messages as they travel: the numbers of all attributes spelled out, and flag bits on every one of them, as
 the kernel sets them on its nests.  Feeding such a message reports the record it was made from.
 */
module ConntrackWire {
  import opened Bytes
  import opened Walk
  import opened Attributes
  import opened Netlink
  import opened Conntrack
  import opened ConntrackStreams
  import opened ConntrackEncoder
  import opened Wire

  function RawIp(a: Addresses, f: Flags): seq<byte> {
    match a
    case Addresses4(src, dst) => Raw(1, f, Be32(src)) + Raw(2, f, Be32(dst))
    case Addresses6(src, dst) => Raw(3, f, src) + Raw(4, f, dst)
  }

  function RawProto(d: Direction, f: Flags): seq<byte> {
    Raw(1, f, [d.proto]) + Raw(2, f, Be16(d.srcPort)) + Raw(3, f, Be16(d.dstPort))
  }

  function RawTuple(d: Direction, f: Flags): (b: seq<byte>)
    ensures |b| <= 72
  {
    RawIpReads(d.addrs, f);
    RawProtoReads(d, f);
    Raw(1, f, RawIp(d.addrs, f)) + Raw(2, f, RawProto(d, f))
  }

  lemma RawIpReads(a: Addresses, f: Flags)
    ensures Attrs(RawIp(a, f)) == IpAttrs(a) && |RawIp(a, f)| <= 40
  {
    match a
    case Addresses4(src, dst) =>
      RawReads(1, f, Be32(src));
      RawReads(2, f, Be32(dst));
      TwoJoined(Raw(1, f, Be32(src)), Attr(1, Be32(src)), Raw(2, f, Be32(dst)), Attr(2, Be32(dst)));
    case Addresses6(src, dst) =>
      RawReads(3, f, src);
      RawReads(4, f, dst);
      TwoJoined(Raw(3, f, src), Attr(3, src), Raw(4, f, dst), Attr(4, dst));
  }

  lemma RawProtoReads(d: Direction, f: Flags)
    ensures Attrs(RawProto(d, f)) == ProtoAttrs(d) && |RawProto(d, f)| == 24
  {
    ShortReads(1, f, [d.proto]);
    ShortReads(2, f, Be16(d.srcPort));
    ShortReads(3, f, Be16(d.dstPort));
    ProtoOf(d, Raw(1, f, [d.proto]), Raw(2, f, Be16(d.srcPort)), Raw(3, f, Be16(d.dstPort)));
  }

  lemma ProtoOf(d: Direction, num: seq<byte>, src: seq<byte>, dst: seq<byte>)
    requires Attrs(num) == [Attr(1, [d.proto])] && Whole(AttrReader, num, 0)
    requires Attrs(src) == [Attr(2, Be16(d.srcPort))] && Whole(AttrReader, src, 0)
    requires Attrs(dst) == [Attr(3, Be16(d.dstPort))] && Whole(AttrReader, dst, 0)
    ensures Attrs(num + src + dst) == ProtoAttrs(d)
  {
    ThreeJoined(num, Attr(1, [d.proto]), src, Attr(2, Be16(d.srcPort)), dst, Attr(3, Be16(d.dstPort)));
  }

  lemma TupleOfNests(d: Direction, ip: seq<byte>, proto: seq<byte>, tuple: seq<byte>)
    requires Attrs(ip) == IpAttrs(d.addrs) && Attrs(proto) == ProtoAttrs(d)
    requires Attrs(tuple) == [Attr(1, ip), Attr(2, proto)]
    ensures DecodeTuple(tuple) == TupleFor(Some(d))
  {
    FoldTwo(TupleStep, ZERO_TUPLE, Attr(1, ip), Attr(2, proto));
    IpSize(d.addrs);
    ProtoSize(d);
    AttrsUndoEncAttrs(IpAttrs(d.addrs));
    AttrsUndoEncAttrs(ProtoAttrs(d));
    IpRoundTrip(d.addrs, ZERO_TUPLE);
    ProtoRoundTrip(d, TupleStep(ZERO_TUPLE, Attr(1, ip)));
  }

  /** A direction survives its nests whatever their flag bits. */
  lemma RawTupleReads(d: Direction, f: Flags)
    ensures DecodeTuple(RawTuple(d, f)) == TupleFor(Some(d))
  {
    var ip, proto := RawIp(d.addrs, f), RawProto(d, f);
    RawIpReads(d.addrs, f);
    RawProtoReads(d, f);
    RawReads(1, f, ip);
    RawReads(2, f, proto);
    TwoJoined(Raw(1, f, ip), Attr(1, ip), Raw(2, f, proto), Attr(2, proto));
    TupleOfNests(d, ip, proto, RawTuple(d, f));
  }

  function RawDirection(typ: byte, d: Option<Direction>, f: Flags): seq<byte> {
    if d.None? then [] else Raw(typ, f, RawTuple(d.value, f))
  }

  function RawWord(typ: byte, v: Option<u32>, f: Flags): seq<byte> {
    if v.None? then [] else Raw(typ, f, Be32(v.value))
  }

  function RawHalf(typ: byte, v: Option<u16>, f: Flags): seq<byte> {
    if v.None? then [] else Raw(typ, f, Be16(v.value))
  }

  /** ORIG, REPLY, MARK, ZONE, ID and STATUS. */
  function RawBody(r: Record, f: Flags): seq<byte> {
    (RawDirection(1, r.orig, f) + RawDirection(2, r.reply, f))
    + ((RawWord(8, r.mark, f) + RawHalf(18, r.zone, f)) + (RawWord(12, r.id, f) + RawWord(3, r.status, f)))
  }

  function NestAttr(typ: u16, d: Option<Direction>, f: Flags): seq<Attr> {
    if d.None? then [] else [Attr(typ, RawTuple(d.value, f))]
  }

  lemma NothingRead()
    ensures Attrs([]) == [] && Whole(AttrReader, [], 0)
  {
  }

  lemma RawDirectionReads(typ: byte, d: Option<Direction>, f: Flags)
    ensures Attrs(RawDirection(typ, d, f)) == NestAttr(typ, d, f) && Whole(AttrReader, RawDirection(typ, d, f), 0)
    ensures |RawDirection(typ, d, f)| <= 79
  {
    if d.None? {
      NothingRead();
    } else {
      RawReads(typ, f, RawTuple(d.value, f));
    }
  }

  lemma RawWordReads(typ: byte, v: Option<u32>, f: Flags)
    ensures Attrs(RawWord(typ, v, f)) == WordAttr(typ, v) && Whole(AttrReader, RawWord(typ, v, f), 0)
    ensures |RawWord(typ, v, f)| <= 8
  {
    if v.None? {
      NothingRead();
    } else {
      RawReads(typ, f, Be32(v.value));
    }
  }

  lemma RawHalfReads(v: Option<u16>, f: Flags)
    ensures Attrs(RawHalf(18, v, f)) == ZoneAttr(v) && Whole(AttrReader, RawHalf(18, v, f), 0)
    ensures |RawHalf(18, v, f)| <= 8
  {
    if v.None? {
      NothingRead();
    } else {
      RawReads(18, f, Be16(v.value));
    }
  }

  lemma RawBodyIs(r: Record, f: Flags)
    ensures Attrs(RawBody(r, f)) == (NestAttr(1, r.orig, f) + NestAttr(2, r.reply, f)) + (Marks(r) + Idents(r))
    ensures |RawBody(r, f)| <= 190
  {
    var orig, reply := RawDirection(1, r.orig, f), RawDirection(2, r.reply, f);
    var mark, zone := RawWord(8, r.mark, f), RawHalf(18, r.zone, f);
    var id, status := RawWord(12, r.id, f), RawWord(3, r.status, f);
    RawDirectionReads(1, r.orig, f);
    RawDirectionReads(2, r.reply, f);
    RawWordReads(8, r.mark, f);
    RawHalfReads(r.zone, f);
    RawWordReads(12, r.id, f);
    RawWordReads(3, r.status, f);
    Joined(orig, NestAttr(1, r.orig, f), reply, NestAttr(2, r.reply, f));
    Joined(mark, WordAttr(8, r.mark), zone, ZoneAttr(r.zone));
    Joined(id, WordAttr(12, r.id), status, WordAttr(3, r.status));
    Joined(mark + zone, Marks(r), id + status, Idents(r));
    Joined(orig + reply, NestAttr(1, r.orig, f) + NestAttr(2, r.reply, f),
           (mark + zone) + (id + status), Marks(r) + Idents(r));
  }

  lemma NestsRead(ev: Event, r: Record, f: Flags)
    ensures Fold(CtStep, CtState(ZERO_TUPLE, ZERO_TUPLE, ev), NestAttr(1, r.orig, f) + NestAttr(2, r.reply, f))
         == CtState(TupleFor(r.orig), TupleFor(r.reply), ev)
  {
    var s := CtState(ZERO_TUPLE, ZERO_TUPLE, ev);
    FoldAppend(CtStep, s, NestAttr(1, r.orig, f), NestAttr(2, r.reply, f));
    if r.orig.Some? {
      RawTupleReads(r.orig.value, f);
    }
    if r.reply.Some? {
      RawTupleReads(r.reply.value, f);
    }
  }

  lemma RawBodyReads(ev: Event, r: Record, f: Flags)
    ensures DecodeCt(RawBody(r, f), ev) == CtState(TupleFor(r.orig), TupleFor(r.reply), WithWords(ev, r))
  {
    RawBodyIs(r, f);
    NestsRead(ev, r, f);
    var s0, s1 := CtState(ZERO_TUPLE, ZERO_TUPLE, ev), CtState(TupleFor(r.orig), TupleFor(r.reply), ev);
    FoldAppend(CtStep, s0, NestAttr(1, r.orig, f) + NestAttr(2, r.reply, f), Marks(r) + Idents(r));
    FoldAppend(CtStep, s1, Marks(r), Idents(r));
    MarksRoundTrip(s1, r);
    IdentsRoundTrip(Fold(CtStep, s1, Marks(r)), r);
  }

  // ---------- whole messages ----------

  /** Length, type and flags, then what is not read. */
  function RawHeader(r: Record, total: u32): (h: seq<byte>)
    ensures |h| == 20
  {
    Le32(total) + (Le16(r.nlType) + (Le16(r.nlFlags) + UnreadHeader(r)))
  }

  function RawRecord(r: Record, f: Flags): seq<byte> {
    RawBodyIs(r, f);
    RawHeader(r, 20 + |RawBody(r, f)|) + RawBody(r, f)
  }

  lemma RawHeaderReads(r: Record, total: u32, body: seq<byte>)
    ensures var m := RawHeader(r, total) + body;
            Rd32Le(m, 0) == total && Rd16Le(m, 4) == r.nlType && Rd16Le(m, 6) == r.nlFlags && m[20..] == body
  {
    var m := RawHeader(r, total) + body;
    var len, typ, flags, tail := Le32(total), Le16(r.nlType), Le16(r.nlFlags), UnreadHeader(r) + body;
    assert m == len + (typ + (flags + tail));
    ReadLe32(total, typ + (flags + tail));
    assert m == len + typ + (flags + tail);
    ReadLe16(len, r.nlType, flags + tail);
    assert m == (len + typ) + flags + tail;
    ReadLe16(len + typ, r.nlFlags, tail);
  }

  /** A record without any address is classified by the length of its message. */
  function RawEvent(r: Record, f: Flags): Event {
    RawBodyIs(r, f);
    Classify(RecordFields(r), r.nlType, 20 + |RawBody(r, f)|)
  }

  lemma MergedFields(r: Record)
    ensures Merge(CtState(TupleFor(r.orig), TupleFor(r.reply), WithWords(StartEvent(r.nlType, r.nlFlags), r)))
         == RecordFields(r)
  {
    SidesOfRecord(r.orig);
    SidesOfRecord(r.reply);
    var e := WithWords(StartEvent(r.nlType, r.nlFlags), r);
    assert e.lan == NO_ENDS && e.wan == NO_ENDS && e.protocol == 0 && !e.hasLan && !e.hasWan && !e.isIpv6;
  }

  lemma RawRecordReads(r: Record, f: Flags)
    ensures 20 <= |RawRecord(r, f)| <= 210 && MsgEvent(RawRecord(r, f)) == RawEvent(r, f)
  {
    RawBodyIs(r, f);
    RawHeaderReads(r, 20 + |RawBody(r, f)|, RawBody(r, f));
    RawBodyReads(StartEvent(r.nlType, r.nlFlags), r, f);
    MergedFields(r);
  }

  lemma ShortIsNotSynth(m: seq<byte>)
    requires |m| >= 20 && Rd32Le(m, 0) == |m| <= 210
    ensures !IsSynth(m)
  {
    MagicAsLength(m);
  }

  lemma OneMessageFed(m: seq<byte>, e: Event)
    requires 20 <= |m| <= 210 && Rd32Le(m, 0) == |m| && MsgEvent(m) == e
    ensures FedEvents(m) == [e]
  {
    ShortIsNotSynth(m);
    OneMessage(MsgEvents, m, []);
    assert m + [] == m;
  }

  /** Feeding the message of any record, whatever the flag bits of its attributes, reports exactly that record. */
  lemma FeedingRawRecord(r: Record, f: Flags)
    ensures FedEvents(RawRecord(r, f)) == [RawEvent(r, f)]
    ensures r.orig.Some? || r.reply.Some? ==> RawEvent(r, f) == RecordFields(r)
  {
    RawBodyIs(r, f);
    RawHeaderReads(r, 20 + |RawBody(r, f)|, RawBody(r, f));
    RawRecordReads(r, f);
    OneMessageFed(RawRecord(r, f), RawEvent(r, f));
  }
}
