/** The test program itself: bytes written in place at running offsets, one feed, and a drain. */
module ConntrackBuilder {
  import opened Bytes
  import opened Walk
  import opened Attributes
  import opened EventQueue
  import opened Netlink
  import opened Conntrack
  import opened NfctContext
  import opened ConntrackEncoder

  /** Writes `src` at `off`: what precedes and what follows stays. */
  method Copy(buf: array<byte>, off: nat, src: seq<byte>)
    requires off + |src| <= buf.Length
    modifies buf
    ensures buf[..off + |src|] == old(buf[..off]) + src
    ensures forall i :: off + |src| <= i < buf.Length ==> buf[i] == old(buf[i])
  {
    forall i | 0 <= i < |src| {
      buf[off + i] := src[i];
    }
  }

  /** Writes one attribute at `off` and returns the offset behind its padding. */
  method NlaPut(buf: array<byte>, off: nat, typ: u16, data: seq<byte>) returns (next: nat)
    requires |data| <= 0xFFFB && off + Align4(4 + |data|) <= buf.Length
    modifies buf
    ensures next == off + Align4(4 + |data|)
    ensures buf[..next] == old(buf[..off]) + EncAttr(typ, data)
    ensures forall i :: next <= i < buf.Length ==> buf[i] == old(buf[i])
  {
    var total := 4 + |data|;
    var aligned := Align4(total);
    ghost var before := buf[..off];
    Copy(buf, off, Le16(total));
    Copy(buf, off + 2, Le16(typ));
    Copy(buf, off + 4, data);
    assert buf[..off + total] == before + (Le16(total) + Le16(typ) + data);
    Copy(buf, off + total, Zeros(aligned - total));
    next := off + aligned;
    assert buf[..next] == before + (Le16(total) + Le16(typ) + data + Zeros(aligned - total));
  }

  /** Two attributes at the start of `buf`, one behind the other. */
  method PutPair(buf: array<byte>, a: Attr, b: Attr) returns (off: nat)
    requires Encodable(a) && Encodable(b)
    requires Align4(4 + |a.payload|) + Align4(4 + |b.payload|) <= buf.Length
    modifies buf
    ensures off <= buf.Length && buf[..off] == EncAttrs([a, b])
  {
    EncTwo(a, b);
    off := NlaPut(buf, 0, a.typ, a.payload);
    off := NlaPut(buf, off, b.typ, b.payload);
  }

  /** The address nest of a direction. */
  method BuildIp(a: Addresses) returns (nest: array<byte>, io: nat)
    ensures fresh(nest) && io <= nest.Length
    ensures nest[..io] == EncAttrs(IpAttrs(a))
  {
    PaddedSizes();
    nest := new byte[64];
    match a {
      case Addresses4(src, dst) =>
        io := PutPair(nest, Attr(CTA_IP_V4_SRC, Be32(src)), Attr(CTA_IP_V4_DST, Be32(dst)));
      case Addresses6(src, dst) =>
        io := PutPair(nest, Attr(CTA_IP_V6_SRC, src), Attr(CTA_IP_V6_DST, dst));
    }
  }

  /** The protocol nest of a direction. */
  method BuildProto(d: Direction) returns (nest: array<byte>, po: nat)
    ensures fresh(nest) && po <= nest.Length
    ensures nest[..po] == EncAttrs(ProtoAttrs(d))
  {
    PaddedSizes();
    var pr := ProtoAttrs(d);
    EncThree(pr[0], pr[1], pr[2]);
    nest := new byte[32];
    po := NlaPut(nest, 0, CTA_PROTO_NUM, [d.proto]);
    po := NlaPut(nest, po, CTA_PROTO_SRC_PORT, Be16(d.srcPort));
    po := NlaPut(nest, po, CTA_PROTO_DST_PORT, Be16(d.dstPort));
  }

  /** A direction: its address nest, then its protocol nest. */
  method BuildDirection(d: Direction) returns (nest: array<byte>, noff: nat)
    ensures fresh(nest) && noff <= nest.Length
    ensures AllEncodable(DirectionAttrs(d)) && nest[..noff] == EncAttrs(DirectionAttrs(d))
  {
    PaddedSizes();
    IpSize(d.addrs);
    ProtoSize(d);
    var ipnest, io := BuildIp(d.addrs);
    var pnest, po := BuildProto(d);
    nest := new byte[256];
    noff := PutPair(nest, Attr(CTA_TUPLE_IP, ipnest[..io]), Attr(CTA_TUPLE_PROTO, pnest[..po]));
  }

  /** Appends `attrs`, at most one short attribute, to the attributes already in `body`. */
  method PutOptional(body: array<byte>, boff: nat, ghost sofar: seq<Attr>, attrs: seq<Attr>) returns (next: nat)
    requires Small(attrs, 1) && AllEncodable(attrs) && AllEncodable(sofar)
    requires boff + 79 * |attrs| <= body.Length && body[..boff] == EncAttrs(sofar)
    modifies body
    ensures boff <= next <= boff + 79 * |attrs|
    ensures AllEncodable(sofar + attrs) && body[..next] == EncAttrs(sofar + attrs)
  {
    next := boff;
    if attrs == [] {
      assert sofar + attrs == sofar;
    } else {
      Align4Is(4 + |attrs[0].payload|);
      EncAttrsSnoc(sofar, attrs[0]);
      assert attrs == [attrs[0]];
      next := NlaPut(body, boff, attrs[0].typ, attrs[0].payload);
    }
  }

  /** The optional direction attribute, its payload built in place. */
  method BuildDirectionAttr(typ: u16, d: Option<Direction>) returns (attrs: seq<Attr>)
    requires typ < 0x4000
    ensures attrs == DirectionAttr(typ, d)
  {
    match d {
      case None => attrs := [];
      case Some(dir) =>
        var nest, noff := BuildDirection(dir);
        attrs := [Attr(typ, nest[..noff])];
    }
  }

  method PutTwo(body: array<byte>, boff: nat, ghost sofar: seq<Attr>, xs: seq<Attr>, ys: seq<Attr>) returns (next: nat)
    requires Small(xs, 1) && AllEncodable(xs) && Small(ys, 1) && AllEncodable(ys) && AllEncodable(sofar)
    requires boff + 158 <= body.Length && body[..boff] == EncAttrs(sofar)
    modifies body
    ensures boff <= next <= boff + 158
    ensures AllEncodable(sofar + (xs + ys)) && body[..next] == EncAttrs(sofar + (xs + ys))
  {
    next := PutOptional(body, boff, sofar, xs);
    next := PutOptional(body, next, sofar + xs, ys);
    assert sofar + xs + ys == sofar + (xs + ys);
  }

  method PutSix(body: array<byte>, a: seq<Attr>, b: seq<Attr>, c: seq<Attr>, d: seq<Attr>, e: seq<Attr>, f: seq<Attr>)
    returns (boff: nat)
    requires body.Length >= 474
    requires Small(a, 1) && Small(b, 1) && Small(c, 1) && Small(d, 1) && Small(e, 1) && Small(f, 1)
    modifies body
    ensures AllEncodable(a + b + ((c + d) + (e + f)))
    ensures boff <= body.Length && body[..boff] == EncAttrs(a + b + ((c + d) + (e + f)))
  {
    ghost var ab, cd, ef := a + b, c + d, e + f;
    boff := PutTwo(body, 0, [], a, b);
    boff := PutTwo(body, boff, [] + ab, c, d);
    boff := PutTwo(body, boff, [] + ab + cd, e, f);
    FromNothing(ab, cd, ef);
  }

  lemma FromNothing<T>(x: seq<T>, y: seq<T>, z: seq<T>)
    ensures [] + x + y + z == x + (y + z)
  {
    assert [] + x == x;
  }

  /** All attributes of a record, in the order of the test builders. */
  method BuildBody(r: Record) returns (body: array<byte>, boff: nat)
    ensures fresh(body) && boff <= body.Length
    ensures body[..boff] == RecordBody(r)
  {
    var orig := BuildDirectionAttr(CTA_TUPLE_ORIG, r.orig);
    var reply := BuildDirectionAttr(CTA_TUPLE_REPLY, r.reply);
    body := new byte[512];
    boff := PutSix(body, orig, reply, WordAttr(CTA_MARK, r.mark), ZoneAttr(r.zone),
                   WordAttr(CTA_ID, r.id), WordAttr(CTA_STATUS, r.status));
  }

  /** Both headers, field by field. */
  method PutHeader(buf: array<byte>, r: Record, total: u32)
    requires 20 <= buf.Length
    modifies buf
    ensures buf[..20] == Le32(total) + (Le16(r.nlType) + (Le16(r.nlFlags) + UnreadHeader(r)))
  {
    var len, typ, flags, unread := Le32(total), Le16(r.nlType), Le16(r.nlFlags), UnreadHeader(r);
    Copy(buf, 0, len);
    Copy(buf, 4, typ);
    Copy(buf, 6, flags);
    Copy(buf, 8, unread);
    assert buf[..20] == len + typ + flags + unread;
    Associates(len, typ, flags + unread);
    Associates(len + typ, flags, unread);
  }

  method PutMessage(buf: array<byte>, r: Record, body: seq<byte>)
    requires 20 + |body| <= buf.Length && 20 + |body| < TWO32
    modifies buf
    ensures buf[..20 + |body|]
         == Le32(20 + |body|) + (Le16(r.nlType) + (Le16(r.nlFlags) + UnreadHeader(r))) + body
  {
    PutHeader(buf, r, 20 + |body|);
    Copy(buf, 20, body);
  }

  /** A whole message at the start of `buf`. */
  method BuildRecord(buf: array<byte>, r: Record) returns (total: nat)
    requires |EncRecord(r)| <= buf.Length
    modifies buf
    ensures total == |EncRecord(r)| && buf[..total] == EncRecord(r)
  {
    var body, boff := BuildBody(r);
    total := 20 + boff;
    PutMessage(buf, r, body[..boff]);
    RecordParts(r, Le32(total), Le16(r.nlType), Le16(r.nlFlags), UnreadHeader(r), body[..boff]);
  }

  lemma RecordParts(r: Record, len: seq<byte>, typ: seq<byte>, flags: seq<byte>, unread: seq<byte>, body: seq<byte>)
    requires body == RecordBody(r) && len == Le32(20 + |body|)
    requires typ == Le16(r.nlType) && flags == Le16(r.nlFlags) && unread == UnreadHeader(r)
    ensures len + (typ + (flags + unread)) + body == EncRecord(r)
  {
    Associates(len, typ + (flags + unread), body);
    Associates(typ, flags + unread, body);
    Associates(flags, unread, body);
  }

  /** Pops until the queue says it is empty. */
  method Drain(ctx: Nfct) returns (out: seq<Event>)
    requires ctx.Valid()
    modifies ctx.ring
    ensures ctx.Valid() && ctx.ring.qsz == old(ctx.ring.qsz)
    ensures out == old(ctx.Queued()) && ctx.Queued() == []
  {
    out := [];
    ghost var all, rest := ctx.Queued(), ctx.Queued();
    ghost var cap := ctx.ring.qsz;
    var r := ctx.NextEvent();
    while r.Some?
      invariant ctx.Valid() && ctx.ring.qsz == cap && all == out + rest
      invariant r == if rest == [] then None else Some(rest[0])
      invariant ctx.Queued() == if rest == [] then [] else rest[1..]
      decreases |rest|
    {
      MoveHead(out, rest);
      out := out + [r.value];
      rest := rest[1..];
      r := ctx.NextEvent();
    }
  }

  lemma MoveHead<T>(x: seq<T>, y: seq<T>)
    requires y != []
    ensures x + y == x + [y[0]] + y[1..]
  {
  }

  method BuildRecords(rs: seq<Record>) returns (data: seq<byte>)
    ensures data == EncRecords(rs)
  {
    data := [];
    var i := |rs|;
    while i > 0
      invariant 0 <= i <= |rs|
      invariant data == EncRecords(rs[i..])
    {
      i := i - 1;
      var buf := new byte[1024];
      var n := BuildRecord(buf, rs[i]);
      assert rs[i..][0] == rs[i] && rs[i..][1..] == rs[i + 1..];
      data := buf[..n] + data;
    }
    assert rs[0..] == rs;
  }

  /**
   End to end: any records that fit the free slots, built in place, joined into one buffer, fed once
   and drained, come back as their events, in order, behind what was already queued.
   */
  method FeedRecordsAndDrain(ctx: Nfct, rs: seq<Record>) returns (out: seq<Event>)
    requires ctx.Valid()
    requires |ctx.Queued()| + |rs| <= ctx.ring.qsz
    modifies ctx.ring, ctx.ring.q
    ensures ctx.Valid() && ctx.Queued() == []
    ensures out == old(ctx.Queued()) + RecordEvents(rs)
  {
    var data := BuildRecords(rs);
    RecordsFit(ctx.ring.qsz, ctx.Queued(), rs, data);
    ghost var turns, steps := ctx.FeedInput(data);
    out := Drain(ctx);
  }

  lemma RecordsFit(cap: nat, queued: seq<Event>, rs: seq<Record>, data: seq<byte>)
    requires |queued| + |rs| <= cap && |rs| <= MAX_Q && data == EncRecords(rs)
    ensures Halts(data)
    ensures OfferedAll(cap, queued, FedEvents(data)) == queued + RecordEvents(rs)
  {
    ShortBuffersHalt(data);
    FeedingUndoesEncoding(rs);
    RecordEventsCount(rs);
    OfferedAllKeepsPrefix(cap, queued, RecordEvents(rs));
    assert RecordEvents(rs)[..|rs|] == RecordEvents(rs);
  }

  lemma {:induction false} RecordEventsCount(rs: seq<Record>)
    ensures |RecordEvents(rs)| == |rs|
    decreases |rs|
  {
    if rs != [] {
      RecordEventsCount(rs[1..]);
    }
  }
}
