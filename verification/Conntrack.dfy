/** What a conntrack buffer means: the values the parser of nfct.c works on, and the meaning of each nesting level. */
module Conntrack {
  import opened Bytes
  import opened Attributes
  import opened Netlink

  const CTA_TUPLE_ORIG := 1
  const CTA_TUPLE_REPLY := 2
  const CTA_STATUS := 3
  const CTA_MARK := 8
  const CTA_ID := 12
  const CTA_ZONE := 18

  const CTA_TUPLE_IP := 1
  const CTA_TUPLE_PROTO := 2

  const CTA_IP_V4_SRC := 1
  const CTA_IP_V4_DST := 2
  const CTA_IP_V6_SRC := 3
  const CTA_IP_V6_DST := 4

  const CTA_PROTO_NUM := 1
  const CTA_PROTO_SRC_PORT := 2
  const CTA_PROTO_DST_PORT := 3

  const SYNTH_MAGIC := 0x4E46_4354
  /** The magic of a synthetic frame read as a little-endian message length. */
  const SYNTH_MAGIC_LE := 0x5443_464E

  datatype Tuple = Tuple(
    srcIp: u32, dstIp: u32, srcIp6: seq<byte>, dstIp6: seq<byte>, srcPort: u16, dstPort: u16, proto: byte,
    hasIp: bool, hasIp6: bool, hasProto: bool, hasPorts: bool)

  const NO_IP6: seq<byte> := [0, 0, 0, 0, 0, 0, 0, 0, 0, 0, 0, 0, 0, 0, 0, 0]

  const ZERO_TUPLE := Tuple(0, 0, NO_IP6, NO_IP6, 0, 0, 0, false, false, false, false)

  datatype EventType = NoEvent | New | Update | Destroy | Error | Partial

  /** The text of an event's reason is formatted from these values. */
  datatype Reason = NoReason | DestroyWithoutTuples(id: u32) | NoAddressTuples(nlType: u16, nlLen: u32)

  /** The two ends of one side of the NAT, in both address families. */
  datatype Ends = Ends(
    srcIp: u32, srcPort: u16, dstIp: u32, dstPort: u16, srcIp6: seq<byte>, dstIp6: seq<byte>)

  const NO_ENDS := Ends(0, 0, 0, 0, NO_IP6, NO_IP6)

  datatype Event = Event(
    typ: EventType, protocol: byte, lan: Ends, wan: Ends,
    mark: u64, zone: u32, id: u32, status: u32,
    hasLan: bool, hasWan: bool, hasId: bool, hasStatus: bool, isIpv6: bool, isDestroy: bool,
    reason: Reason)

  const ZERO_EVENT := Event(
    NoEvent, 0, NO_ENDS, NO_ENDS, 0, 0, 0, 0, false, false, false, false, false, false, NoReason)

  // ---------- attribute levels, innermost first ----------

  function IpStep(t: Tuple, a: Attr): Tuple {
    if a.typ == CTA_IP_V4_SRC && |a.payload| >= 4 then t.(srcIp := Rd32Be(a.payload, 0), hasIp := true)
    else if a.typ == CTA_IP_V4_DST && |a.payload| >= 4 then t.(dstIp := Rd32Be(a.payload, 0), hasIp := true)
    else if a.typ == CTA_IP_V6_SRC && |a.payload| >= 16 then t.(srcIp6 := a.payload[..16], hasIp6 := true)
    else if a.typ == CTA_IP_V6_DST && |a.payload| >= 16 then t.(dstIp6 := a.payload[..16], hasIp6 := true)
    else t
  }

  function ProtoStep(t: Tuple, a: Attr): Tuple {
    if a.typ == CTA_PROTO_NUM && |a.payload| >= 1 then t.(proto := a.payload[0], hasProto := true)
    else if a.typ == CTA_PROTO_SRC_PORT && |a.payload| >= 2 then t.(srcPort := Rd16Be(a.payload, 0), hasPorts := true)
    else if a.typ == CTA_PROTO_DST_PORT && |a.payload| >= 2 then t.(dstPort := Rd16Be(a.payload, 0), hasPorts := true)
    else t
  }

  function TupleStep(t: Tuple, a: Attr): Tuple {
    if a.typ == CTA_TUPLE_IP then Fold(IpStep, t, Attrs(a.payload))
    else if a.typ == CTA_TUPLE_PROTO then Fold(ProtoStep, t, Attrs(a.payload))
    else t
  }

  function DecodeTuple(d: seq<byte>): Tuple {
    Fold(TupleStep, ZERO_TUPLE, Attrs(d))
  }

  datatype CtState = CtState(orig: Tuple, reply: Tuple, ev: Event)

  function CtStep(s: CtState, a: Attr): CtState {
    if a.typ == CTA_TUPLE_ORIG then s.(orig := DecodeTuple(a.payload))
    else if a.typ == CTA_TUPLE_REPLY then s.(reply := DecodeTuple(a.payload))
    else if a.typ == CTA_MARK && |a.payload| >= 4 then s.(ev := s.ev.(mark := Rd32Be(a.payload, 0)))
    else if a.typ == CTA_ZONE && |a.payload| >= 2 then s.(ev := s.ev.(zone := Rd16Be(a.payload, 0)))
    else if a.typ == CTA_ID && |a.payload| >= 4 then s.(ev := s.ev.(id := Rd32Be(a.payload, 0), hasId := true))
    else if a.typ == CTA_STATUS && |a.payload| >= 4 then
      s.(ev := s.ev.(status := Rd32Be(a.payload, 0), hasStatus := true))
    else s
  }

  function DecodeCt(d: seq<byte>, ev: Event): CtState {
    Fold(CtStep, CtState(ZERO_TUPLE, ZERO_TUPLE, ev), Attrs(d))
  }

  // ---------- merging the two directions ----------

  datatype Family = NoFamily | V4 | V6

  /** The family the merge uses for a tuple: IPv4 wins when both are present. */
  function FamilyOf(t: Tuple): Family {
    if t.hasIp then V4 else if t.hasIp6 then V6 else NoFamily
  }

  /** The same connection seen from the other end. */
  function Swap(t: Tuple): Tuple {
    t.(srcIp := t.dstIp, dstIp := t.srcIp, srcIp6 := t.dstIp6, dstIp6 := t.srcIp6,
       srcPort := t.dstPort, dstPort := t.srcPort)
  }

  /** `e` with the addresses of the tuple's family, if it has one, and its ports, if it has any. */
  function Fill(e: Ends, t: Tuple): Ends {
    Ends(
      if t.hasIp then t.srcIp else e.srcIp,
      if t.hasPorts then t.srcPort else e.srcPort,
      if t.hasIp then t.dstIp else e.dstIp,
      if t.hasPorts then t.dstPort else e.dstPort,
      if t.hasIp6 && !t.hasIp then t.srcIp6 else e.srcIp6,
      if t.hasIp6 && !t.hasIp then t.dstIp6 else e.dstIp6)
  }

  /** LAN is the original direction; WAN is the reply direction seen from the other end. */
  function Merge(s: CtState): Event {
    var CtState(o, r, e) := s;
    e.(
      lan := Fill(e.lan, o),
      wan := Fill(e.wan, Swap(r)),
      protocol := if o.hasProto then o.proto else if r.hasProto then r.proto else e.protocol,
      hasLan := e.hasLan || FamilyOf(o) != NoFamily,
      hasWan := e.hasWan || FamilyOf(r) != NoFamily,
      isIpv6 := FamilyOf(r) == V6 || (if FamilyOf(o) == NoFamily then e.isIpv6 else FamilyOf(o) == V6))
  }

  // ---------- messages ----------

  predicate HasFlag400(nlFlags: u16) { nlFlags % 0x800 >= 0x400 }

  predicate HasFlag100(nlFlags: u16) { nlFlags % 0x200 >= 0x100 }

  /** The low byte of the message type is the message within its subsystem: NEW = 0, GET = 1, DELETE = 2. */
  function StartEvent(nlType: u16, nlFlags: u16): Event {
    var msg := nlType % 0x100;
    ZERO_EVENT.(
      typ :=
        if msg == 2 then Destroy
        else if msg != 0 || (HasFlag100(nlFlags) && !HasFlag400(nlFlags)) then Update
        else New,
      isDestroy := msg == 2)
  }

  /** An event without any address is PARTIAL unless it is a DESTROY that names its connection. */
  function Classify(e: Event, nlType: u16, nlLen: u32): Event {
    if e.hasLan || e.hasWan then e
    else if e.isDestroy && e.hasId then e.(reason := DestroyWithoutTuples(e.id))
    else e.(typ := Partial, reason := NoAddressTuples(nlType, nlLen))
  }

  /** The event of a message that holds both headers. */
  function MsgEvent(b: seq<byte>): Event
    requires 20 <= |b| < TWO32
  {
    Classify(Merge(DecodeCt(b[20..], StartEvent(Rd16Le(b, 4), Rd16Le(b, 6)))), Rd16Le(b, 4), |b|)
  }

  /** A message too short for the nfgenmsg header yields no event. */
  function MsgEvents(m: Msg): seq<Event> {
    if 20 <= |m.bytes| < TWO32 then [MsgEvent(m.bytes)] else []
  }

  function NetlinkEvents(d: seq<byte>): seq<Event> {
    Collect(MsgEvents, Messages(d))
  }

  // ---------- synthetic frames and dispatch ----------

  predicate IsSynth(d: seq<byte>) {
    |d| >= 32 && Rd32Be(d, 0) == SYNTH_MAGIC
  }

  /** The bytes `NFCT`. */
  predicate StartsWithMagic(d: seq<byte>)
    requires |d| >= 4
  {
    d[0] == 0x4E && d[1] == 0x46 && d[2] == 0x43 && d[3] == 0x54
  }

  lemma MagicBigEndian(d: seq<byte>)
    requires |d| >= 4
    ensures Rd32Be(d, 0) == SYNTH_MAGIC <==> StartsWithMagic(d)
  {
  }

  lemma MagicLittleEndian(d: seq<byte>)
    requires |d| >= 4
    ensures Rd32Le(d, 0) == SYNTH_MAGIC_LE <==> StartsWithMagic(d)
  {
  }

  /** The magic of a synthetic frame, read by the message walk as a length. */
  lemma MagicAsLength(d: seq<byte>)
    requires |d| >= 4
    ensures Rd32Be(d, 0) == SYNTH_MAGIC <==> Rd32Le(d, 0) == SYNTH_MAGIC_LE
  {
    MagicBigEndian(d);
    MagicLittleEndian(d);
  }

  function SynthEvent(d: seq<byte>): Event
    requires |d| >= 32
  {
    ZERO_EVENT.(
      typ := (match d[4] case 1 => New case 2 => Update case 3 => Destroy case _ => Partial),
      protocol := d[5],
      lan := Ends(Rd32Be(d, 8), Rd16Be(d, 12), Rd32Be(d, 14), Rd16Be(d, 18), NO_IP6, NO_IP6),
      wan := Ends(Rd32Be(d, 20), Rd16Be(d, 24), Rd32Be(d, 26), Rd16Be(d, 30), NO_IP6, NO_IP6),
      hasLan := true, hasWan := true)
  }

  /** Every event that one feed of `d` offers to the queue, in order. */
  function FedEvents(d: seq<byte>): seq<Event> {
    if IsSynth(d) then [SynthEvent(d)] else NetlinkEvents(d)
  }
}
