/** What an nl80211 buffer means: the station event of nl80211_parse.c, level by level, and the three input forms. */
module Nl80211 {
  import opened Bytes
  import opened Attributes
  import opened Netlink

  const ATTR_MAC := 6
  const ATTR_STA_INFO := 21
  const ATTR_WIPHY_FREQ := 38

  const STA_RX_BYTES := 2
  const STA_TX_BYTES := 3
  const STA_SIGNAL := 7
  const STA_TX_BITRATE := 8
  const STA_TX_RETRIES := 11
  const STA_TX_FAILED := 12
  const STA_SIGNAL_AVG := 13

  const RATE_MCS := 2
  const RATE_VHT_MCS := 4

  const SYNTH_MAGIC := 0x3832_3131
  /** The same four bytes read as a little-endian length. */
  const SYNTH_MAGIC_LE := 0x3131_3238

  datatype StationType = Station | Error

  /** The text of an error's reason is formatted from the buffer length. */
  datatype Reason = NoReason | WithoutMacOrSignal(len: nat)

  datatype Event = Event(
    typ: StationType, mac: seq<byte>, signal: int, signalAvg: int,
    txRetries: u32, txFailed: u32, rxBytes: u32, txBytes: u32,
    mcs: byte, snr: int, freq: u32, hasMac: bool, hasSignal: bool, hasMcs: bool, reason: Reason)

  const NO_MAC: seq<byte> := [0, 0, 0, 0, 0, 0]

  /** A station event before any attribute: the unknown MCS is 0xFF. */
  const BLANK := Event(Station, NO_MAC, 0, 0, 0, 0, 0, 0, 0xFF, 0, 0, false, false, false, NoReason)

  // ---------- attribute levels, innermost first ----------

  function RateStep(ev: Event, a: Attr): Event {
    if (a.typ == RATE_MCS || a.typ == RATE_VHT_MCS) && |a.payload| >= 1
    then ev.(mcs := a.payload[0], hasMcs := true)
    else ev
  }

  function StaStep(ev: Event, a: Attr): Event {
    var p := a.payload;
    if a.typ == STA_SIGNAL then if |p| >= 1 then ev.(signal := SignExtend8(p[0]), hasSignal := true) else ev
    else if a.typ == STA_SIGNAL_AVG then if |p| >= 1 then ev.(signalAvg := SignExtend8(p[0])) else ev
    else if a.typ == STA_TX_RETRIES then if |p| >= 4 then ev.(txRetries := Rd32Le(p, 0)) else ev
    else if a.typ == STA_TX_FAILED then if |p| >= 4 then ev.(txFailed := Rd32Le(p, 0)) else ev
    else if a.typ == STA_RX_BYTES then if |p| >= 4 then ev.(rxBytes := Rd32Le(p, 0)) else ev
    else if a.typ == STA_TX_BYTES then if |p| >= 4 then ev.(txBytes := Rd32Le(p, 0)) else ev
    else if a.typ == STA_TX_BITRATE then Fold(RateStep, ev, Attrs(p))
    else ev
  }

  function TopStep(ev: Event, a: Attr): Event {
    var p := a.payload;
    if a.typ == ATTR_MAC then if |p| >= 6 then ev.(mac := p[..6], hasMac := true) else ev
    else if a.typ == ATTR_STA_INFO then Fold(StaStep, ev, Attrs(p))
    else if a.typ == ATTR_WIPHY_FREQ then if |p| >= 4 then ev.(freq := Rd32Le(p, 0)) else ev
    else ev
  }

  function Decode(d: seq<byte>): Event {
    Fold(TopStep, BLANK, Attrs(d))
  }

  predicate Identified(ev: Event) {
    ev.hasMac || ev.hasSignal
  }

  // ---------- the three input forms ----------

  predicate IsSynth(d: seq<byte>) {
    |d| >= 20 && Rd32Be(d, 0) == SYNTH_MAGIC
  }

  function SynthEvent(d: seq<byte>): Event
    requires |d| >= 20
  {
    BLANK.(
      mac := d[4..10], signal := SignExtend32(Rd32Be(d, 10)), snr := SignExtend8(d[14]), mcs := d[15],
      txRetries := Rd32Be(d, 16), hasMac := true, hasSignal := true, hasMcs := d[15] != 0xFF)
  }

  /** The first word cannot be a message length: the buffer is an attribute stream without headers. */
  predicate IsBare(d: seq<byte>) {
    |d| >= 4 && (Rd32Le(d, 0) < 16 || Rd32Le(d, 0) > |d|)
  }

  function BareEvents(d: seq<byte>): seq<Event> {
    var ev := Decode(d);
    if Identified(ev) then [ev] else [ev.(typ := Error, reason := WithoutMacOrSignal(|d|))]
  }

  /** A framed message without MAC and signal is silently skipped. */
  function MsgEvents(m: Msg): seq<Event> {
    if |m.bytes| >= 20 && Identified(Decode(m.bytes[20..])) then [Decode(m.bytes[20..])] else []
  }

  /** Every event that one feed of `d` offers to the queue, in order. */
  function FedEvents(d: seq<byte>): seq<Event> {
    if IsSynth(d) then [SynthEvent(d)]
    else if IsBare(d) then BareEvents(d)
    else Collect(MsgEvents, Messages(d))
  }
}
