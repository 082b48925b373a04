/** The nested station message of the tests, for every station, and the proof that feeding undoes it. */
module Nl80211Encoder {
  import opened Bytes
  import opened Attributes
  import opened Nl80211
  import opened Nl80211Meaning

  type MacBytes = m: seq<byte> | |m| == 6 witness NO_MAC
  type Dbm8 = v: int | -128 <= v < 128
  /** Either of the two rate attribute types. */
  type RateType = t: u16 | t == RATE_MCS || t == RATE_VHT_MCS witness RATE_MCS

  datatype Telemetry = Telemetry(
    mac: MacBytes, signal: Dbm8, signalAvg: Dbm8, txRetries: u32, txFailed: u32, rxBytes: u32, txBytes: u32,
    rateType: RateType, mcs: byte, freq: u32)

  /** The bytes behind the length, up to the end of both headers, which the parser does not read. */
  type Unread = u: seq<byte> | |u| == 16 witness Zeros(16)

  function RateAttrs(t: Telemetry): seq<Attr> {
    [Attr(t.rateType, [t.mcs])]
  }

  /** The station attributes, around an already encoded rate nest. */
  function StaAround(t: Telemetry, rate: seq<byte>): (r: seq<Attr>)
    requires |rate| == 8
    ensures Small(r, 7) && AllEncodable(r)
  {
    [Attr(STA_SIGNAL, [Byte8(t.signal)]), Attr(STA_TX_RETRIES, Le32(t.txRetries)), Attr(STA_TX_BITRATE, rate),
     Attr(STA_SIGNAL_AVG, [Byte8(t.signalAvg)]), Attr(STA_TX_FAILED, Le32(t.txFailed)),
     Attr(STA_RX_BYTES, Le32(t.rxBytes)), Attr(STA_TX_BYTES, Le32(t.txBytes))]
  }

  function StaAttrs(t: Telemetry): (r: seq<Attr>)
    ensures Small(r, 7) && AllEncodable(r)
  {
    RateSize(t);
    StaAround(t, EncAttrs(RateAttrs(t)))
  }

  lemma RateSize(t: Telemetry)
    ensures AllEncodable(RateAttrs(t)) && |EncAttrs(RateAttrs(t))| == 8
  {
    Align4Is(5);
    assert RateAttrs(t)[1..] == [];
  }

  /** The top attributes, around an already encoded station nest. */
  function TopAround(t: Telemetry, sta: seq<byte>): (r: seq<Attr>)
    requires |sta| <= 553
    ensures AllEncodable(r)
  {
    [Attr(ATTR_MAC, t.mac), Attr(ATTR_STA_INFO, sta), Attr(ATTR_WIPHY_FREQ, Le32(t.freq))]
  }

  function TopAttrs(t: Telemetry): (r: seq<Attr>)
    ensures AllEncodable(r)
  {
    EncodedSize(StaAttrs(t), 7);
    TopAround(t, EncAttrs(StaAttrs(t)))
  }

  function Body(t: Telemetry): seq<byte> {
    EncAttrs(TopAttrs(t))
  }

  lemma BodySize(t: Telemetry)
    ensures |Body(t)| <= 600 && Aligned(20 + |Body(t)|)
  {
    EncodedSize(StaAttrs(t), 7);
    TopSize(t.mac, EncAttrs(StaAttrs(t)), Le32(t.freq));
    EncodedAligned(TopAttrs(t));
    AlignedBehindHeader(|Body(t)|);
  }

  lemma TopSize(mac: seq<byte>, sta: seq<byte>, freq: seq<byte>)
    requires |mac| == 6 && |sta| <= 553 && |freq| == 4
    ensures |EncAttrs([Attr(ATTR_MAC, mac), Attr(ATTR_STA_INFO, sta), Attr(ATTR_WIPHY_FREQ, freq)])| <= 600
  {
    PaddedLengths(|sta|);
    EncThree(Attr(ATTR_MAC, mac), Attr(ATTR_STA_INFO, sta), Attr(ATTR_WIPHY_FREQ, freq));
  }

  lemma PaddedLengths(n: nat)
    requires n <= 553
    ensures Align4(10) == 12 && Align4(8) == 8 && Align4(4 + n) < n + 8
  {
    Align4Is(10);
    Align4Is(8);
    Align4Is(4 + n);
  }

  function Header(u: Unread, total: u32): (h: seq<byte>)
    ensures |h| == 20
  {
    Le32(total) + u
  }

  /** The message of one station. */
  function EncStation(u: Unread, t: Telemetry): seq<byte> {
    BodySize(t);
    Header(u, 20 + |Body(t)|) + Body(t)
  }

  /** What a station should be reported as. */
  function StationEvent(t: Telemetry): Event {
    Event(Station, t.mac, t.signal, t.signalAvg, t.txRetries, t.txFailed, t.rxBytes, t.txBytes,
          t.mcs, 0, t.freq, true, true, true, NoReason)
  }

  // ---------- decoding undoes encoding ----------

  lemma ReadBack(w: u32)
    ensures Rd32Le(Le32(w), 0) == w
  {
    ReadLe32(w, []);
    assert Le32(w) + [] == Le32(w);
  }

  lemma StaDistinct(t: Telemetry, rate: seq<byte>)
    requires |rate| == 8
    ensures DistinctTypes(StaAround(t, rate))
  {
  }

  lemma StaLasts(t: Telemetry, rate: seq<byte>)
    requires |rate| == 8
    ensures var sta := StaAround(t, rate);
            && Last(sta, STA_SIGNAL, 1) == Some([Byte8(t.signal)])
            && Last(sta, STA_SIGNAL_AVG, 1) == Some([Byte8(t.signalAvg)])
            && Last(sta, STA_TX_RETRIES, 4) == Some(Le32(t.txRetries))
            && Last(sta, STA_TX_FAILED, 4) == Some(Le32(t.txFailed))
            && Last(sta, STA_RX_BYTES, 4) == Some(Le32(t.rxBytes))
            && Last(sta, STA_TX_BYTES, 4) == Some(Le32(t.txBytes))
            && Last(sta, STA_TX_BITRATE, 0) == Some(rate)
            && DistinctTypes(sta)
  {
    var sta := StaAround(t, rate);
    StaDistinct(t, rate);
    LastIsLast(sta, STA_SIGNAL, 1, 0);
    LastIsLast(sta, STA_TX_RETRIES, 4, 1);
    LastIsLast(sta, STA_TX_BITRATE, 0, 2);
    LastIsLast(sta, STA_SIGNAL_AVG, 1, 3);
    LastIsLast(sta, STA_TX_FAILED, 4, 4);
    LastIsLast(sta, STA_RX_BYTES, 4, 5);
    LastIsLast(sta, STA_TX_BYTES, 4, 6);
  }

  lemma RateRoundTrip(t: Telemetry)
    ensures |EncAttrs(RateAttrs(t))| == 8 && LastMcs(Attrs(EncAttrs(RateAttrs(t)))) == Some(t.mcs)
  {
    RateSize(t);
    AttrsUndoEncAttrs(RateAttrs(t));
  }

  lemma StaBytes(t: Telemetry)
    ensures |EncAttrs(StaAttrs(t))| <= 553 && Attrs(EncAttrs(StaAttrs(t))) == StaAttrs(t)
  {
    EncodedSize(StaAttrs(t), 7);
    AttrsUndoEncAttrs(StaAttrs(t));
  }

  lemma TopBytes(t: Telemetry)
    ensures Attrs(Body(t)) == TopAttrs(t)
  {
    AttrsUndoEncAttrs(TopAttrs(t));
  }

  lemma StaRoundTrip(t: Telemetry, sta: seq<byte>, rate: seq<byte>)
    requires |sta| <= 553 && |rate| == 8 && LastMcs(Attrs(rate)) == Some(t.mcs)
    ensures StationOf(TopAround(t, sta), StaAround(t, rate), Inside(StaAround(t, rate), STA_TX_BITRATE))
         == StationEvent(t)
  {
    StaLasts(t, rate);
    InsideOfDistinct(StaAround(t, rate), STA_TX_BITRATE);
    var top := TopAround(t, sta);
    LastIsLast(top, ATTR_MAC, 6, 0);
    LastIsLast(top, ATTR_WIPHY_FREQ, 4, 2);
    ReadBack(t.txRetries);
    ReadBack(t.txFailed);
    ReadBack(t.rxBytes);
    ReadBack(t.txBytes);
    ReadBack(t.freq);
    assert t.mac[..6] == t.mac;
  }

  /** Whatever bytes hold these attributes, nest by nest. */
  lemma NestsRoundTrip(t: Telemetry, body: seq<byte>, sta: seq<byte>, rate: seq<byte>)
    requires |sta| <= 553 && |rate| == 8 && LastMcs(Attrs(rate)) == Some(t.mcs)
    requires Attrs(sta) == StaAround(t, rate) && Attrs(body) == TopAround(t, sta)
    ensures Decode(body) == StationEvent(t)
  {
    DecodeMeaning(body);
    var top := TopAround(t, sta);
    InsideOfDistinct(top, ATTR_STA_INFO);
    LastIsLast(top, ATTR_STA_INFO, 0, 1);
    StaRoundTrip(t, sta, rate);
  }

  /** Every field of every station survives the nesting, also the sign of the one-byte signals. */
  lemma BodyRoundTrip(t: Telemetry)
    ensures Decode(Body(t)) == StationEvent(t)
  {
    RateRoundTrip(t);
    StaBytes(t);
    TopBytes(t);
    NestsRoundTrip(t, Body(t), EncAttrs(StaAttrs(t)), EncAttrs(RateAttrs(t)));
  }

  lemma HeaderLength(u: Unread, total: u32)
    ensures Rd32Le(Header(u, total), 0) == total
  {
    ReadLe32(total, u);
  }

  lemma FramedRoundTrip(u: Unread, body: seq<byte>, e: Event)
    requires |body| <= 600 && Decode(body) == e && Identified(e)
    ensures FedEvents(Header(u, 20 + |body|) + body) == [e]
  {
    HeaderLength(u, 20 + |body|);
    FramedEvents(Header(u, 20 + |body|), body);
  }

  lemma BodyIsShort(t: Telemetry)
    ensures |Body(t)| <= 600
  {
    BodySize(t);
  }

  /** One feed of a station message offers exactly that station. */
  lemma FeedingUndoesEncoding(u: Unread, t: Telemetry)
    ensures FedEvents(EncStation(u, t)) == [StationEvent(t)]
  {
    BodyIsShort(t);
    BodyRoundTrip(t);
    FramedRoundTrip(u, Body(t), StationEvent(t));
  }

  // ---------- synthetic frames ----------

  type Dbm32 = v: int | -0x8000_0000 <= v < 0x8000_0000

  /** A synthetic station frame with anything behind it. */
  function SynthFrame(
    mac: MacBytes, signal: Dbm32, snr: Dbm8, mcs: byte, txRetries: u32, tail: seq<byte>): (d: seq<byte>)
    ensures |d| == 20 + |tail|
  {
    Be32(SYNTH_MAGIC) + mac + Be32(Word32(signal)) + [Byte8(snr), mcs] + Be32(txRetries) + tail
  }

  lemma SynthFrameParts(mac: MacBytes, signal: Dbm32, snr: Dbm8, mcs: byte, txRetries: u32, tail: seq<byte>)
    ensures var d := SynthFrame(mac, signal, snr, mcs, txRetries, tail);
            && d[0..4] == Be32(SYNTH_MAGIC) && d[4..10] == mac && d[10..14] == Be32(Word32(signal))
            && d[14] == Byte8(snr) && d[15] == mcs && d[16..20] == Be32(txRetries)
  {
  }

  /** Every field of a synthetic frame comes out as it went in. */
  lemma SynthRoundTrip(mac: MacBytes, signal: Dbm32, snr: Dbm8, mcs: byte, txRetries: u32, tail: seq<byte>)
    ensures FedEvents(SynthFrame(mac, signal, snr, mcs, txRetries, tail)) ==
            [Event(Station, mac, signal, 0, txRetries, 0, 0, 0, mcs, snr, 0, true, true, mcs != 0xFF, NoReason)]
  {
    var d := SynthFrame(mac, signal, snr, mcs, txRetries, tail);
    SynthFrameParts(mac, signal, snr, mcs, txRetries, tail);
    ReadBe32At(d, 0, SYNTH_MAGIC);
    ReadBe32At(d, 10, Word32(signal));
    ReadBe32At(d, 16, txRetries);
  }
}
