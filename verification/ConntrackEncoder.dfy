/** The conntrack message builder of the tests, for every record, and the proof that feeding undoes it. */
module ConntrackEncoder {
  import opened Bytes
  import opened Walk
  import opened Attributes
  import opened Netlink
  import opened Conntrack
  import opened ConntrackStreams

  type Ip6Bytes = s: seq<byte> | |s| == 16 witness NO_IP6

  datatype Addresses = Addresses4(src: u32, dst: u32) | Addresses6(src6: Ip6Bytes, dst6: Ip6Bytes)

  datatype Direction = Direction(addrs: Addresses, proto: byte, srcPort: u16, dstPort: u16)

  datatype Record = Record(
    nlType: u16, nlFlags: u16, nlSeq: u32, nlPid: u32, family: byte, version: byte, resId: u16,
    orig: Option<Direction>, reply: Option<Direction>,
    mark: Option<u32>, zone: Option<u16>, id: Option<u32>, status: Option<u32>)

  // ---------- the bytes of a record ----------

  function IpAttrs(a: Addresses): seq<Attr> {
    match a
    case Addresses4(src, dst) => [Attr(CTA_IP_V4_SRC, Be32(src)), Attr(CTA_IP_V4_DST, Be32(dst))]
    case Addresses6(src, dst) => [Attr(CTA_IP_V6_SRC, src), Attr(CTA_IP_V6_DST, dst)]
  }

  function ProtoAttrs(d: Direction): seq<Attr> {
    [Attr(CTA_PROTO_NUM, [d.proto]),
     Attr(CTA_PROTO_SRC_PORT, Be16(d.srcPort)), Attr(CTA_PROTO_DST_PORT, Be16(d.dstPort))]
  }

  function DirectionAttrs(d: Direction): seq<Attr> {
    [Attr(CTA_TUPLE_IP, EncAttrs(IpAttrs(d.addrs))), Attr(CTA_TUPLE_PROTO, EncAttrs(ProtoAttrs(d)))]
  }

  lemma PaddedSizes()
    ensures Align4(5) == 8 && Align4(6) == 8 && Align4(8) == 8
    ensures Align4(20) == 20 && Align4(28) == 28 && Align4(44) == 44
  {
    Align4Is(5);
    Align4Is(6);
    Align4Is(8);
    Align4Is(20);
    Align4Is(28);
    Align4Is(44);
  }

  lemma IpSize(a: Addresses)
    ensures AllEncodable(IpAttrs(a))
    ensures |EncAttrs(IpAttrs(a))| == if a.Addresses4? then 16 else 40
  {
    PaddedSizes();
    EncTwo(IpAttrs(a)[0], IpAttrs(a)[1]);
  }

  lemma ProtoSize(d: Direction)
    ensures AllEncodable(ProtoAttrs(d))
    ensures |EncAttrs(ProtoAttrs(d))| == 24
  {
    PaddedSizes();
    EncThree(ProtoAttrs(d)[0], ProtoAttrs(d)[1], ProtoAttrs(d)[2]);
  }

  lemma DirectionSizes(d: Direction)
    ensures AllEncodable(DirectionAttrs(d))
    ensures |EncAttrs(DirectionAttrs(d))| <= 72
  {
    PaddedSizes();
    IpSize(d.addrs);
    ProtoSize(d);
    EncTwo(DirectionAttrs(d)[0], DirectionAttrs(d)[1]);
  }

  function DirectionAttr(typ: u16, d: Option<Direction>): (r: seq<Attr>)
    requires typ < 0x4000
    ensures Small(r, 1)
  {
    match d
    case None => []
    case Some(d) =>
      DirectionSizes(d);
      [Attr(typ, EncAttrs(DirectionAttrs(d)))]
  }

  function WordAttr(typ: u16, v: Option<u32>): (r: seq<Attr>)
    requires typ < 0x4000
    ensures Small(r, 1)
  {
    if v.Some? then [Attr(typ, Be32(v.value))] else []
  }

  function ZoneAttr(v: Option<u16>): (r: seq<Attr>)
    ensures Small(r, 1)
  {
    if v.Some? then [Attr(CTA_ZONE, Be16(v.value))] else []
  }

  function Directions(r: Record): (attrs: seq<Attr>)
    ensures Small(attrs, 2)
  {
    DirectionAttr(CTA_TUPLE_ORIG, r.orig) + DirectionAttr(CTA_TUPLE_REPLY, r.reply)
  }

  function Marks(r: Record): (attrs: seq<Attr>)
    ensures Small(attrs, 2)
  {
    WordAttr(CTA_MARK, r.mark) + ZoneAttr(r.zone)
  }

  function Idents(r: Record): (attrs: seq<Attr>)
    ensures Small(attrs, 2)
  {
    WordAttr(CTA_ID, r.id) + WordAttr(CTA_STATUS, r.status)
  }

  function RecordAttrs(r: Record): (attrs: seq<Attr>)
    ensures Small(attrs, 6) && AllEncodable(attrs)
  {
    Directions(r) + (Marks(r) + Idents(r))
  }

  function RecordBody(r: Record): (b: seq<byte>)
    ensures |b| <= 474
  {
    EncodedSize(RecordAttrs(r), 6);
    EncAttrs(RecordAttrs(r))
  }

  /** The fields of both headers that the parser does not read. */
  function UnreadHeader(r: Record): (h: seq<byte>)
    ensures |h| == 12
  {
    Le32(r.nlSeq) + Le32(r.nlPid) + [r.family, r.version] + Be16(r.resId)
  }

  /** The message of one record. */
  function EncRecord(r: Record): (m: seq<byte>)
    ensures |m| == 20 + |RecordBody(r)|
  {
    Le32(20 + |RecordBody(r)|) + (Le16(r.nlType) + (Le16(r.nlFlags) + (UnreadHeader(r) + RecordBody(r))))
  }

  lemma RecordIsAligned(r: Record)
    ensures Aligned(20 + |RecordBody(r)|)
  {
    EncodedSize(RecordAttrs(r), 6);
    EncodedAligned(RecordAttrs(r));
    AlignedBehindHeader(|RecordBody(r)|);
  }

  function EncRecords(rs: seq<Record>): (d: seq<byte>)
    ensures |d| <= 494 * |rs|
    decreases |rs|
  {
    if rs == [] then [] else EncRecord(rs[0]) + EncRecords(rs[1..])
  }

  // ---------- the event of a record ----------

  /** LAN is the original direction as it is; WAN is the reply direction with its two ends swapped. */
  function EndsOf(a: Addresses, srcPort: u16, dstPort: u16): Ends {
    match a
    case Addresses4(src, dst) => NO_ENDS.(srcIp := src, dstIp := dst, srcPort := srcPort, dstPort := dstPort)
    case Addresses6(src, dst) => NO_ENDS.(srcIp6 := src, dstIp6 := dst, srcPort := srcPort, dstPort := dstPort)
  }

  function Swapped(a: Addresses): Addresses {
    match a
    case Addresses4(src, dst) => Addresses4(dst, src)
    case Addresses6(src, dst) => Addresses6(dst, src)
  }

  predicate HasV6(d: Option<Direction>) {
    d.Some? && d.value.addrs.Addresses6?
  }

  function RecordFields(r: Record): Event {
    StartEvent(r.nlType, r.nlFlags).(
      lan := if r.orig.None? then NO_ENDS
             else EndsOf(r.orig.value.addrs, r.orig.value.srcPort, r.orig.value.dstPort),
      wan := if r.reply.None? then NO_ENDS
             else EndsOf(Swapped(r.reply.value.addrs), r.reply.value.dstPort, r.reply.value.srcPort),
      protocol := if r.orig.Some? then r.orig.value.proto else if r.reply.Some? then r.reply.value.proto else 0,
      hasLan := r.orig.Some?, hasWan := r.reply.Some?, isIpv6 := HasV6(r.orig) || HasV6(r.reply),
      mark := if r.mark.Some? then r.mark.value else 0,
      zone := if r.zone.Some? then r.zone.value else 0,
      id := if r.id.Some? then r.id.value else 0, hasId := r.id.Some?,
      status := if r.status.Some? then r.status.value else 0, hasStatus := r.status.Some?)
  }

  /** What a record should be reported as; an unaddressed record is classified like any message. */
  function RecordEvent(r: Record): Event {
    Classify(RecordFields(r), r.nlType, |EncRecord(r)|)
  }

  function RecordEvents(rs: seq<Record>): seq<Event>
    decreases |rs|
  {
    if rs == [] then [] else [RecordEvent(rs[0])] + RecordEvents(rs[1..])
  }

  // ---------- decoding undoes encoding, level by level ----------

  function TupleFor(d: Option<Direction>): Tuple {
    if d.None? then ZERO_TUPLE
    else
      var Direction(addrs, proto, sport, dport) := d.value;
      var ports := ZERO_TUPLE.(proto := proto, hasProto := true, srcPort := sport, dstPort := dport, hasPorts := true);
      match addrs
      case Addresses4(src, dst) => ports.(srcIp := src, dstIp := dst, hasIp := true)
      case Addresses6(src, dst) => ports.(srcIp6 := src, dstIp6 := dst, hasIp6 := true)
  }

  lemma FoldTwo<S>(step: (S, Attr) -> S, s: S, a: Attr, b: Attr)
    ensures Fold(step, s, [a, b]) == step(step(s, a), b)
  {
    assert [a, b] == [a] + [b];
    FoldAppend(step, s, [a], [b]);
  }

  lemma IpRoundTrip(a: Addresses, t: Tuple)
    ensures Fold(IpStep, t, Attrs(EncAttrs(IpAttrs(a))))
         == match a
            case Addresses4(src, dst) => t.(srcIp := src, dstIp := dst, hasIp := true)
            case Addresses6(src, dst) => t.(srcIp6 := src, dstIp6 := dst, hasIp6 := true)
  {
    AttrsUndoEncAttrs(IpAttrs(a));
    FoldTwo(IpStep, t, IpAttrs(a)[0], IpAttrs(a)[1]);
    match a {
      case Addresses4(src, dst) =>
        ReadBe32(src, []);
        ReadBe32(dst, []);
        assert Be32(src) + [] == Be32(src) && Be32(dst) + [] == Be32(dst);
      case Addresses6(src, dst) =>
        assert src[..16] == src && dst[..16] == dst;
    }
  }

  lemma ProtoSteps(d: Direction, t: Tuple, pr: seq<Attr>)
    requires pr == ProtoAttrs(d)
    ensures ProtoStep(ProtoStep(ProtoStep(t, pr[0]), pr[1]), pr[2])
         == t.(proto := d.proto, hasProto := true, srcPort := d.srcPort, dstPort := d.dstPort, hasPorts := true)
  {
    ReadBe16(d.srcPort);
    ReadBe16(d.dstPort);
  }

  lemma FoldThree<S>(step: (S, Attr) -> S, s: S, a: Attr, b: Attr, c: Attr)
    ensures Fold(step, s, [a, b, c]) == step(step(step(s, a), b), c)
  {
    FoldTwo(step, s, a, b);
    assert [a, b, c] == [a, b] + [c];
    FoldSnoc(step, s, [a, b], c);
  }

  lemma ProtoRoundTrip(d: Direction, t: Tuple)
    ensures Fold(ProtoStep, t, Attrs(EncAttrs(ProtoAttrs(d))))
         == t.(proto := d.proto, hasProto := true, srcPort := d.srcPort, dstPort := d.dstPort, hasPorts := true)
  {
    var pr := ProtoAttrs(d);
    AttrsUndoEncAttrs(pr);
    FoldThree(ProtoStep, t, pr[0], pr[1], pr[2]);
    ProtoSteps(d, t, pr);
  }

  lemma DirectionRoundTrip(d: Direction)
    ensures AllEncodable(DirectionAttrs(d))
    ensures DecodeTuple(EncAttrs(DirectionAttrs(d))) == TupleFor(Some(d))
  {
    DirectionSizes(d);
    AttrsUndoEncAttrs(DirectionAttrs(d));
    FoldTwo(TupleStep, ZERO_TUPLE, DirectionAttrs(d)[0], DirectionAttrs(d)[1]);
    IpRoundTrip(d.addrs, ZERO_TUPLE);
    ProtoRoundTrip(d, TupleStep(ZERO_TUPLE, DirectionAttrs(d)[0]));
  }

  /** What an optional direction leaves behind in the walk over a message body. */
  lemma DirectionAttrRoundTrip(s: CtState, d: Option<Direction>)
    requires s.orig == s.reply == ZERO_TUPLE || s.reply == ZERO_TUPLE
    ensures Fold(CtStep, s.(orig := ZERO_TUPLE), DirectionAttr(CTA_TUPLE_ORIG, d)) == s.(orig := TupleFor(d))
    ensures Fold(CtStep, s, DirectionAttr(CTA_TUPLE_REPLY, d)) == s.(reply := TupleFor(d))
  {
    if d.Some? {
      DirectionRoundTrip(d.value);
    }
  }

  /** What the optional words leave behind. */
  function WithWords(ev: Event, r: Record): Event {
    ev.(
      mark := if r.mark.Some? then r.mark.value else ev.mark,
      zone := if r.zone.Some? then r.zone.value else ev.zone,
      id := if r.id.Some? then r.id.value else ev.id, hasId := ev.hasId || r.id.Some?,
      status := if r.status.Some? then r.status.value else ev.status, hasStatus := ev.hasStatus || r.status.Some?)
  }

  lemma WordAttrRoundTrip(s: CtState, v: Option<u32>)
    ensures Fold(CtStep, s, WordAttr(CTA_MARK, v)) == if v.Some? then s.(ev := s.ev.(mark := v.value)) else s
    ensures Fold(CtStep, s, WordAttr(CTA_ID, v)) == if v.Some? then s.(ev := s.ev.(id := v.value, hasId := true)) else s
    ensures Fold(CtStep, s, WordAttr(CTA_STATUS, v))
         == if v.Some? then s.(ev := s.ev.(status := v.value, hasStatus := true)) else s
  {
    if v.Some? {
      ReadBe32(v.value, []);
      assert Be32(v.value) + [] == Be32(v.value);
    }
  }

  lemma ZoneAttrRoundTrip(s: CtState, v: Option<u16>)
    ensures Fold(CtStep, s, ZoneAttr(v)) == if v.Some? then s.(ev := s.ev.(zone := v.value)) else s
  {
    if v.Some? {
      ReadBe16(v.value);
    }
  }

  lemma MarksRoundTrip(s: CtState, r: Record)
    ensures Fold(CtStep, s, Marks(r)) == s.(ev := s.ev.(
      mark := if r.mark.Some? then r.mark.value else s.ev.mark,
      zone := if r.zone.Some? then r.zone.value else s.ev.zone))
  {
    FoldAppend(CtStep, s, WordAttr(CTA_MARK, r.mark), ZoneAttr(r.zone));
    WordAttrRoundTrip(s, r.mark);
    ZoneAttrRoundTrip(Fold(CtStep, s, WordAttr(CTA_MARK, r.mark)), r.zone);
  }

  lemma IdentsRoundTrip(s: CtState, r: Record)
    ensures Fold(CtStep, s, Idents(r)) == s.(ev := s.ev.(
      id := if r.id.Some? then r.id.value else s.ev.id, hasId := s.ev.hasId || r.id.Some?,
      status := if r.status.Some? then r.status.value else s.ev.status,
      hasStatus := s.ev.hasStatus || r.status.Some?))
  {
    FoldAppend(CtStep, s, WordAttr(CTA_ID, r.id), WordAttr(CTA_STATUS, r.status));
    WordAttrRoundTrip(s, r.id);
    WordAttrRoundTrip(Fold(CtStep, s, WordAttr(CTA_ID, r.id)), r.status);
  }

  lemma DirectionsRoundTrip(ev: Event, r: Record)
    ensures Fold(CtStep, CtState(ZERO_TUPLE, ZERO_TUPLE, ev), Directions(r))
         == CtState(TupleFor(r.orig), TupleFor(r.reply), ev)
  {
    var s := CtState(ZERO_TUPLE, ZERO_TUPLE, ev);
    FoldAppend(CtStep, s, DirectionAttr(CTA_TUPLE_ORIG, r.orig), DirectionAttr(CTA_TUPLE_REPLY, r.reply));
    DirectionAttrRoundTrip(s, r.orig);
    DirectionAttrRoundTrip(CtState(TupleFor(r.orig), ZERO_TUPLE, ev), r.reply);
  }

  lemma BodyRoundTrip(ev: Event, r: Record)
    ensures DecodeCt(RecordBody(r), ev) == CtState(TupleFor(r.orig), TupleFor(r.reply), WithWords(ev, r))
  {
    AttrsUndoEncAttrs(RecordAttrs(r));
    var s0 := CtState(ZERO_TUPLE, ZERO_TUPLE, ev);
    var s1 := CtState(TupleFor(r.orig), TupleFor(r.reply), ev);
    FoldAppend(CtStep, s0, Directions(r), Marks(r) + Idents(r));
    DirectionsRoundTrip(ev, r);
    FoldAppend(CtStep, s1, Marks(r), Idents(r));
    MarksRoundTrip(s1, r);
    IdentsRoundTrip(Fold(CtStep, s1, Marks(r)), r);
  }

  lemma HeaderReads(r: Record)
    ensures var m := EncRecord(r);
            && Rd32Le(m, 0) == |m| && Rd16Le(m, 4) == r.nlType && Rd16Le(m, 6) == r.nlFlags
            && m[20..] == RecordBody(r)
  {
    var m := EncRecord(r);
    var len, typ, flags := Le32(|m|), Le16(r.nlType), Le16(r.nlFlags);
    var tail := UnreadHeader(r) + RecordBody(r);
    ReadLe32(|m|, typ + (flags + tail));
    assert m == len + typ + (flags + tail);
    ReadLe16(len, r.nlType, flags + tail);
    assert m == (len + typ) + flags + tail;
    ReadLe16(len + typ, r.nlFlags, tail);
    assert m == (len + typ + flags + UnreadHeader(r)) + RecordBody(r);
  }

  lemma RecordRoundTrip(r: Record)
    ensures MsgEvent(EncRecord(r)) == RecordEvent(r)
  {
    HeaderReads(r);
    BodyRoundTrip(StartEvent(r.nlType, r.nlFlags), r);
    MergeOfRecord(r);
  }

  /** LAN is ORIG unchanged, WAN is REPLY with its ends swapped. */
  lemma SidesOfRecord(d: Option<Direction>)
    ensures Fill(NO_ENDS, TupleFor(d))
         == if d.None? then NO_ENDS else EndsOf(d.value.addrs, d.value.srcPort, d.value.dstPort)
    ensures Fill(NO_ENDS, Swap(TupleFor(d)))
         == if d.None? then NO_ENDS else EndsOf(Swapped(d.value.addrs), d.value.dstPort, d.value.srcPort)
    ensures FamilyOf(TupleFor(d)) == if d.None? then NoFamily else if HasV6(d) then V6 else V4
  {
  }

  lemma MergeOfRecord(r: Record)
    ensures Classify(Merge(CtState(TupleFor(r.orig), TupleFor(r.reply), WithWords(StartEvent(r.nlType, r.nlFlags), r))),
                     r.nlType, |EncRecord(r)|)
         == RecordEvent(r)
  {
    SidesOfRecord(r.orig);
    SidesOfRecord(r.reply);
    var e := WithWords(StartEvent(r.nlType, r.nlFlags), r);
    assert e.lan == NO_ENDS && e.wan == NO_ENDS && e.protocol == 0 && !e.hasLan && !e.hasWan && !e.isIpv6;
    var m := Merge(CtState(TupleFor(r.orig), TupleFor(r.reply), e));
    assert m == RecordFields(r);
  }

  lemma RecordIsWhole(r: Record)
    ensures Whole(MsgReader, EncRecord(r), 0) && Messages(EncRecord(r)) == [Msg(EncRecord(r))]
  {
    var m := EncRecord(r);
    HeaderReads(r);
    RecordIsAligned(r);
    assert m[0..|m|] == m;
    assert MsgReader(m, 0) == Item(Msg(m), |m|);
    assert MessagesFrom(m, |m|) == [];
  }

  lemma OneEvent<T>(f: Msg -> seq<T>, m: Msg)
    ensures Collect(f, [m]) == f(m)
  {
    assert Collect(f, []) == [];
  }

  lemma RecordEventsOfOne(r: Record)
    ensures NetlinkEvents(EncRecord(r)) == [RecordEvent(r)]
  {
    RecordIsWhole(r);
    RecordRoundTrip(r);
    OneEvent(MsgEvents, Msg(EncRecord(r)));
  }

  lemma {:induction false} RecordsAreWhole(rs: seq<Record>)
    ensures Whole(MsgReader, EncRecords(rs), 0)
    decreases |rs|
  {
    if rs != [] {
      RecordIsWhole(rs[0]);
      RecordsAreWhole(rs[1..]);
      MessagesAppend(EncRecord(rs[0]), EncRecords(rs[1..]));
    }
  }

  lemma {:induction false} RecordsRoundTrip(rs: seq<Record>)
    ensures NetlinkEvents(EncRecords(rs)) == RecordEvents(rs)
    decreases |rs|
  {
    if rs != [] {
      RecordIsWhole(rs[0]);
      RecordEventsOfOne(rs[0]);
      EventsAppend(EncRecord(rs[0]), EncRecords(rs[1..]));
      RecordsRoundTrip(rs[1..]);
    }
  }

  /** For every list of records, one feed offers exactly their events. */
  lemma FeedingUndoesEncoding(rs: seq<Record>)
    ensures FedEvents(EncRecords(rs)) == RecordEvents(rs)
  {
    RecordsRoundTrip(rs);
    if rs != [] {
      RecordIsWhole(rs[0]);
      WholeIsNotSynth(EncRecord(rs[0]), EncRecords(rs[1..]));
    }
  }

  // ---------- synthetic frames ----------

  datatype Endpoint = Endpoint(ip: u32, port: u16)

  function EncEndpoint(e: Endpoint): (b: seq<byte>)
    ensures |b| == 6
  {
    Be32(e.ip) + Be16(e.port)
  }

  lemma EndpointAt(d: seq<byte>, off: nat, e: Endpoint)
    requires off + 6 <= |d| && d[off..off + 6] == EncEndpoint(e)
    ensures Rd32Be(d, off) == e.ip && Rd16Be(d, off + 4) == e.port
  {
    var b := d[off..off + 6];
    assert d[off..off + 4] == b[..4] && d[off + 4..off + 6] == b[4..];
    ReadBe32At(d, off, e.ip);
    ReadBe16At(d, off + 4, e.port);
  }

  /** A synthetic frame with anything in its two unread bytes and behind it. */
  function SynthFrame(kind: byte, protocol: byte, unread: u16, ends: seq<Endpoint>, tail: seq<byte>): (d: seq<byte>)
    requires |ends| == 4
    ensures |d| == 32 + |tail|
  {
    Be32(SYNTH_MAGIC) + [kind, protocol] + Be16(unread)
    + EncEndpoint(ends[0]) + EncEndpoint(ends[1]) + EncEndpoint(ends[2]) + EncEndpoint(ends[3]) + tail
  }

  lemma SynthFrameParts(kind: byte, protocol: byte, unread: u16, ends: seq<Endpoint>, tail: seq<byte>)
    requires |ends| == 4
    ensures var d := SynthFrame(kind, protocol, unread, ends, tail);
            && d[0..4] == Be32(SYNTH_MAGIC) && d[4] == kind && d[5] == protocol
            && d[8..14] == EncEndpoint(ends[0]) && d[14..20] == EncEndpoint(ends[1])
            && d[20..26] == EncEndpoint(ends[2]) && d[26..32] == EncEndpoint(ends[3])
  {
  }

  /** Both sides of a synthetic frame come out as they went in; kinds 1 to 3 are NEW, UPDATE and DESTROY. */
  lemma SynthRoundTrip(kind: byte, protocol: byte, unread: u16, ends: seq<Endpoint>, tail: seq<byte>)
    requires |ends| == 4
    ensures FedEvents(SynthFrame(kind, protocol, unread, ends, tail)) ==
            [ZERO_EVENT.(typ := if kind == 1 then New else if kind == 2 then Update
                                else if kind == 3 then Destroy else Partial,
                         protocol := protocol, hasLan := true, hasWan := true,
                         lan := Ends(ends[0].ip, ends[0].port, ends[1].ip, ends[1].port, NO_IP6, NO_IP6),
                         wan := Ends(ends[2].ip, ends[2].port, ends[3].ip, ends[3].port, NO_IP6, NO_IP6))]
  {
    SynthFrameParts(kind, protocol, unread, ends, tail);
    SynthReads(SynthFrame(kind, protocol, unread, ends, tail), ends);
  }

  lemma SynthReads(d: seq<byte>, ends: seq<Endpoint>)
    requires |d| >= 32 && |ends| == 4 && d[0..4] == Be32(SYNTH_MAGIC)
    requires d[8..14] == EncEndpoint(ends[0]) && d[14..20] == EncEndpoint(ends[1])
    requires d[20..26] == EncEndpoint(ends[2]) && d[26..32] == EncEndpoint(ends[3])
    ensures IsSynth(d)
    ensures SynthEvent(d).lan == Ends(ends[0].ip, ends[0].port, ends[1].ip, ends[1].port, NO_IP6, NO_IP6)
    ensures SynthEvent(d).wan == Ends(ends[2].ip, ends[2].port, ends[3].ip, ends[3].port, NO_IP6, NO_IP6)
  {
    ReadBe32At(d, 0, SYNTH_MAGIC);
    EndpointAt(d, 8, ends[0]);
    EndpointAt(d, 14, ends[1]);
    EndpointAt(d, 20, ends[2]);
    EndpointAt(d, 26, ends[3]);
  }
}
