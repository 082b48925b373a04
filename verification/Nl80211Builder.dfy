/** The nl80211 test program itself: nests built in place, one message, one feed, one event. */
module Nl80211Builder {
  import opened Bytes
  import opened Attributes
  import opened EventQueue
  import opened Netlink
  import opened Nl80211
  import opened Nl80211Context
  import opened Nl80211Encoder
  import ConntrackBuilder

  /** Appends one attribute and returns the bytes written, or 0 when it does not fit into `cap` bytes. */
  method PutNla(buf: array<byte>, cap: nat, off: nat, typ: u16, payload: seq<byte>) returns (n: nat)
    requires cap <= buf.Length && |payload| <= 0xFFFB
    modifies buf
    ensures n == if off + Align4(4 + |payload|) > cap then 0 else Align4(4 + |payload|)
    ensures n == 0 ==> buf[..] == old(buf[..])
    ensures n != 0 ==> buf[..off + n] == old(buf[..off]) + EncAttr(typ, payload)
    ensures forall i :: off + n <= i < buf.Length ==> buf[i] == old(buf[i])
  {
    if off + Align4(4 + |payload|) > cap {
      return 0;
    }
    var next := ConntrackBuilder.NlaPut(buf, off, typ, payload);
    n := next - off;
  }

  /** Puts `attrs` one behind the other at `start`; `off` advances by what each call wrote. */
  method PutAll(buf: array<byte>, start: nat, attrs: seq<Attr>) returns (off: nat)
    requires AllEncodable(attrs) && start + |EncAttrs(attrs)| <= buf.Length
    modifies buf
    ensures off == start + |EncAttrs(attrs)|
    ensures buf[..off] == old(buf[..start]) + EncAttrs(attrs)
  {
    off := start;
    ghost var head := buf[..start];
    var k := 0;
    assert attrs[..0] == [];
    while k < |attrs|
      invariant k <= |attrs| && off == start + |EncAttrs(attrs[..k])| <= buf.Length
      invariant buf[..off] == head + EncAttrs(attrs[..k])
    {
      var a := attrs[k];
      OneMore(head, attrs, k);
      var n := PutNla(buf, buf.Length, off, a.typ, a.payload);
      off := off + n;
      k := k + 1;
    }
    assert attrs[..k] == attrs;
  }

  lemma OneMore(head: seq<byte>, attrs: seq<Attr>, k: nat)
    requires AllEncodable(attrs) && k < |attrs|
    ensures head + EncAttrs(attrs[..k + 1]) == head + EncAttrs(attrs[..k]) + EncAttr(attrs[k].typ, attrs[k].payload)
    ensures |EncAttrs(attrs[..k])| + Align4(4 + |attrs[k].payload|) == |EncAttrs(attrs[..k + 1])| <= |EncAttrs(attrs)|
  {
    var done, one := EncAttrs(attrs[..k]), EncAttr(attrs[k].typ, attrs[k].payload);
    assert attrs[..k + 1] == attrs[..k] + [attrs[k]];
    EncAttrsSnoc(attrs[..k], attrs[k]);
    assert attrs == attrs[..k + 1] + attrs[k + 1..];
    EncAttrsAppend(attrs[..k + 1], attrs[k + 1..]);
    assert head + (done + one) == head + done + one;
  }

  /** One nest, put into a buffer of its own. */
  method BuildNest(attrs: seq<Attr>) returns (nest: seq<byte>)
    requires AllEncodable(attrs) && |EncAttrs(attrs)| <= 553
    ensures nest == EncAttrs(attrs)
  {
    var buf := new byte[553];
    var off := PutAll(buf, 0, attrs);
    nest := buf[..off];
  }

  /** The rate nest, then the station nest around it, then the top attributes around that. */
  method BuildBody(msg: array<byte>, t: Telemetry) returns (off: nat, ghost body: seq<byte>)
    requires msg.Length == 1024
    modifies msg
    ensures body == Body(t)
    ensures off == 20 + |body| <= 620
    ensures msg[..off] == old(msg[..20]) + body
  {
    RateSize(t);
    var rate := BuildNest(RateAttrs(t));
    EncodedSize(StaAttrs(t), 7);
    var sta := BuildNest(StaAround(t, rate));
    BodySize(t);
    off := PutAll(msg, 20, TopAround(t, sta));
    body := Body(t);
  }

  /** The attributes behind room for both headers, which come last. */
  method BuildStation(u: Unread, t: Telemetry) returns (msg: array<byte>, off: nat)
    ensures fresh(msg) && off <= msg.Length && msg[..off] == EncStation(u, t)
  {
    msg := new byte[1024];
    ghost var body;
    off, body := BuildBody(msg, t);
    var header := Header(u, off);
    StationParts(u, t, off, header, body);
    PutHeader(msg, off, header, msg[..20], body);
  }

  lemma StationParts(u: Unread, t: Telemetry, off: nat, header: seq<byte>, body: seq<byte>)
    requires body == Body(t) && off == 20 + |body| && off < TWO32 && header == Header(u, off)
    ensures header + body == EncStation(u, t)
  {
  }

  method PutHeader(msg: array<byte>, off: nat, header: seq<byte>, ghost room: seq<byte>, ghost body: seq<byte>)
    requires |header| == |room| == 20 <= off <= msg.Length && msg[..off] == room + body
    modifies msg
    ensures msg[..off] == header + body
  {
    ghost var rest := msg[20..off];
    assert rest == (room + body)[20..];
    ConntrackBuilder.Copy(msg, 0, header);
    assert msg[20..off] == rest;
    assert msg[..off] == msg[..20] + msg[20..off];
  }

  lemma OneOffered(cap: nat, msg: seq<byte>, e: Event)
    requires cap >= 1 && FedEvents(msg) == [e]
    ensures OfferedAll(cap, [], FedEvents(msg)) == [e]
  {
    OfferedAllKeepsPrefix(cap, [], [e]);
  }

  lemma StationFits(u: Unread, t: Telemetry)
    ensures 0 < |EncStation(u, t)| <= 620
  {
    BodySize(t);
  }

  method BuildDecodable(u: Unread, t: Telemetry) returns (data: seq<byte>)
    ensures FedEvents(data) == [StationEvent(t)] && 0 < |data| <= 620
  {
    var msg, off := BuildStation(u, t);
    FeedingUndoesEncoding(u, t);
    StationFits(u, t);
    data := msg[..off];
  }

  /** End to end: a station built in place, fed once, is the next event of an empty queue. */
  method FeedStation(ctx: Nl80211Parse, u: Unread, t: Telemetry) returns (r: Option<Event>)
    requires ctx.Valid() && ctx.Queued() == []
    modifies ctx.ring, ctx.ring.q
    ensures ctx.Valid() && ctx.Queued() == []
    ensures r == Some(StationEvent(t))
  {
    var data := BuildDecodable(u, t);
    r := FeedAndTake(ctx, data, StationEvent(t));
  }

  method FeedAndTake(ctx: Nl80211Parse, data: seq<byte>, ghost e: Event) returns (r: Option<Event>)
    requires ctx.Valid() && ctx.Queued() == [] && 0 < |data| <= MAX_ALIGNABLE
    requires FedEvents(data) == [e]
    modifies ctx.ring, ctx.ring.q
    ensures ctx.Valid() && ctx.Queued() == []
    ensures r == Some(e)
  {
    OneOffered(ctx.ring.qsz, data, e);
    ShortBuffersHalt(data);
    ghost var turns, steps := ctx.FeedInput(data);
    r := ctx.NextEvent();
  }
}
