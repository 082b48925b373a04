/**
 Station messages as they travel: the numbers of all attributes spelled out, and flag bits on every one of them.
 Feeding such a message reports the station it was made from.
 */
module Nl80211Wire {
  import opened Bytes
  import opened Walk
  import opened Attributes
  import opened Nl80211
  import opened Nl80211Meaning
  import opened Nl80211Encoder
  import opened Wire

  /** A signed byte in two's complement. */
  function Signed(v: Dbm8): byte {
    (v + 0x100) % 0x100
  }

  lemma SignedIsByte8(v: Dbm8)
    ensures Signed(v) == Byte8(v)
  {
  }

  function RawRate(t: Telemetry, vht: bool, f: Flags): seq<byte> {
    Raw(if vht then 4 else 2, f, [t.mcs])
  }

  function RawSta(t: Telemetry, rate: seq<byte>, f: Flags): seq<byte>
    requires |rate| == 8
  {
    Raw(7, f, [Signed(t.signal)]) + Raw(11, f, Le32(t.txRetries)) + Raw(8, f, rate)
    + (Raw(13, f, [Signed(t.signalAvg)]) + Raw(12, f, Le32(t.txFailed))
       + (Raw(2, f, Le32(t.rxBytes)) + Raw(3, f, Le32(t.txBytes))))
  }

  function RawTop(t: Telemetry, sta: seq<byte>, f: Flags): seq<byte>
    requires |sta| <= 553
  {
    Raw(6, f, t.mac) + Raw(21, f, sta) + Raw(38, f, Le32(t.freq))
  }

  lemma RawRateReads(t: Telemetry, vht: bool, f: Flags)
    ensures |RawRate(t, vht, f)| == 8 && LastMcs(Attrs(RawRate(t, vht, f))) == Some(t.mcs)
  {
    RawReads(if vht then 4 else 2, f, [t.mcs]);
  }

  lemma RawStaReads(t: Telemetry, rate: seq<byte>, f: Flags)
    requires |rate| == 8
    ensures Attrs(RawSta(t, rate, f)) == StaAround(t, rate) && |RawSta(t, rate, f)| == 60
  {
    SignedIsByte8(t.signal);
    SignedIsByte8(t.signalAvg);
    ShortReads(7, f, [Signed(t.signal)]);
    ShortReads(11, f, Le32(t.txRetries));
    RawReads(8, f, rate);
    ShortReads(13, f, [Signed(t.signalAvg)]);
    ShortReads(12, f, Le32(t.txFailed));
    ShortReads(2, f, Le32(t.rxBytes));
    ShortReads(3, f, Le32(t.txBytes));
    StaOf(t, rate, Raw(7, f, [Signed(t.signal)]), Raw(11, f, Le32(t.txRetries)), Raw(8, f, rate),
          Raw(13, f, [Signed(t.signalAvg)]), Raw(12, f, Le32(t.txFailed)),
          Raw(2, f, Le32(t.rxBytes)), Raw(3, f, Le32(t.txBytes)));
  }

  lemma StaOf(t: Telemetry, rate: seq<byte>, signal: seq<byte>, retries: seq<byte>, bitrate: seq<byte>,
              avg: seq<byte>, failed: seq<byte>, rx: seq<byte>, tx: seq<byte>)
    requires |rate| == 8
    requires Attrs(signal) == [Attr(7, [Byte8(t.signal)])] && Whole(AttrReader, signal, 0)
    requires Attrs(retries) == [Attr(11, Le32(t.txRetries))] && Whole(AttrReader, retries, 0)
    requires Attrs(bitrate) == [Attr(8, rate)] && Whole(AttrReader, bitrate, 0)
    requires Attrs(avg) == [Attr(13, [Byte8(t.signalAvg)])] && Whole(AttrReader, avg, 0)
    requires Attrs(failed) == [Attr(12, Le32(t.txFailed))] && Whole(AttrReader, failed, 0)
    requires Attrs(rx) == [Attr(2, Le32(t.rxBytes))] && Whole(AttrReader, rx, 0)
    requires Attrs(tx) == [Attr(3, Le32(t.txBytes))] && Whole(AttrReader, tx, 0)
    ensures Attrs(signal + retries + bitrate + (avg + failed + (rx + tx))) == StaAround(t, rate)
  {
    SevenJoined(signal, Attr(7, [Byte8(t.signal)]), retries, Attr(11, Le32(t.txRetries)), bitrate, Attr(8, rate),
                avg, Attr(13, [Byte8(t.signalAvg)]), failed, Attr(12, Le32(t.txFailed)),
                rx, Attr(2, Le32(t.rxBytes)), tx, Attr(3, Le32(t.txBytes)));
  }

  lemma SevenJoined(
    x: seq<byte>, a: Attr, y: seq<byte>, b: Attr, z: seq<byte>, c: Attr, u: seq<byte>, d: Attr,
    v: seq<byte>, e: Attr, w: seq<byte>, g: Attr, s: seq<byte>, h: Attr)
    requires Attrs(x) == [a] && Whole(AttrReader, x, 0) && Attrs(y) == [b] && Whole(AttrReader, y, 0)
    requires Attrs(z) == [c] && Whole(AttrReader, z, 0) && Attrs(u) == [d] && Whole(AttrReader, u, 0)
    requires Attrs(v) == [e] && Whole(AttrReader, v, 0) && Attrs(w) == [g] && Whole(AttrReader, w, 0)
    requires Attrs(s) == [h] && Whole(AttrReader, s, 0)
    ensures Attrs(x + y + z + (u + v + (w + s))) == [a, b, c, d, e, g, h]
  {
    ThreeJoined(x, a, y, b, z, c);
    TwoJoined(u, d, v, e);
    TwoJoined(w, g, s, h);
    Joined(u + v, [d, e], w + s, [g, h]);
    Joined(x + y + z, [a, b, c], u + v + (w + s), [d, e, g, h]);
  }

  lemma RawTopReads(t: Telemetry, sta: seq<byte>, f: Flags)
    requires |sta| == 60
    ensures Attrs(RawTop(t, sta, f)) == TopAround(t, sta) && |RawTop(t, sta, f)| == 84
  {
    RawReads(6, f, t.mac);
    RawReads(21, f, sta);
    RawReads(38, f, Le32(t.freq));
    TopOf(t, sta, Raw(6, f, t.mac), Raw(21, f, sta), Raw(38, f, Le32(t.freq)));
  }

  lemma TopOf(t: Telemetry, sta: seq<byte>, mac: seq<byte>, nest: seq<byte>, freq: seq<byte>)
    requires |sta| == 60
    requires Attrs(mac) == [Attr(6, t.mac)] && Whole(AttrReader, mac, 0)
    requires Attrs(nest) == [Attr(21, sta)] && Whole(AttrReader, nest, 0)
    requires Attrs(freq) == [Attr(38, Le32(t.freq))] && Whole(AttrReader, freq, 0)
    ensures Attrs(mac + nest + freq) == TopAround(t, sta)
  {
    ThreeJoined(mac, Attr(6, t.mac), nest, Attr(21, sta), freq, Attr(38, Le32(t.freq)));
  }

  function RawBody(t: Telemetry, vht: bool, f: Flags): (b: seq<byte>)
    ensures |b| == 84
  {
    RawRateReads(t, vht, f);
    RawStaReads(t, RawRate(t, vht, f), f);
    RawTopReads(t, RawSta(t, RawRate(t, vht, f), f), f);
    RawTop(t, RawSta(t, RawRate(t, vht, f), f), f)
  }

  lemma RawBodyReads(t: Telemetry, vht: bool, f: Flags)
    ensures Decode(RawBody(t, vht, f)) == StationEvent(t)
  {
    var rate := RawRate(t, vht, f);
    RawRateReads(t, vht, f);
    RawStaReads(t, rate, f);
    RawTopReads(t, RawSta(t, rate, f), f);
    NestsRoundTrip(t, RawBody(t, vht, f), RawSta(t, rate, f), rate);
  }

  /** The length, what is not read, and the attributes. */
  function RawStation(u: Unread, t: Telemetry, vht: bool, f: Flags): seq<byte> {
    Header(u, 104) + RawBody(t, vht, f)
  }

  /** Feeding the message of any station, whatever the flag bits of its attributes, reports exactly that station. */
  lemma FeedingRawStation(u: Unread, t: Telemetry, vht: bool, f: Flags)
    ensures FedEvents(RawStation(u, t, vht, f)) == [StationEvent(t)]
    ensures FedEvents(RawBody(t, vht, f)) == [StationEvent(t)]
  {
    RawBodyReads(t, vht, f);
    FramedRoundTrip(u, RawBody(t, vht, f), StationEvent(t));
    BareRoundTrip(t, vht, f);
  }

  /** The attributes alone are taken for a bare stream: ten bytes for the MAC, and type 6. */
  lemma BareRoundTrip(t: Telemetry, vht: bool, f: Flags)
    ensures FedEvents(RawBody(t, vht, f)) == [StationEvent(t)]
  {
    var b := RawBody(t, vht, f);
    RawBodyReads(t, vht, f);
    assert b[0] == 10 && b[1] == 0 && b[2] == 6;
    TypedStreamsAreBare(b);
    MagicBigEndian(b);
  }
}
