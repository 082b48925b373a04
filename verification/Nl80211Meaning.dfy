/**
 What station attributes say, without walking them; that framed and bare input agree; and that the
 order of attributes and unknown ones do not matter.
 */
module Nl80211Meaning {
  import opened Bytes
  import opened Walk
  import opened Attributes
  import opened Netlink
  import opened Nl80211

  /** The last MCS of either kind: the two rate types share one field, so the last one wins. */
  function LastMcs(rate: seq<Attr>): Option<byte>
    decreases |rate|
  {
    if rate == [] then None
    else
      var a := rate[|rate| - 1];
      if (a.typ == RATE_MCS || a.typ == RATE_VHT_MCS) && |a.payload| >= 1 then Some(a.payload[0])
      else LastMcs(rate[..|rate| - 1])
  }

  function Word(p: Option<seq<byte>>): u32
    requires p.Some? ==> |p.value| >= 4
  {
    if p.Some? then Rd32Le(p.value, 0) else 0
  }

  function Dbm(p: Option<seq<byte>>): int
    requires p.Some? ==> |p.value| >= 1
  {
    if p.Some? then SignExtend8(p.value[0]) else 0
  }

  /** A station read off its top-level, STA_INFO and rate attributes: the last one of a kind wins. */
  function StationOf(top: seq<Attr>, sta: seq<Attr>, rate: seq<Attr>): Event {
    var mac, freq := Last(top, ATTR_MAC, 6), Last(top, ATTR_WIPHY_FREQ, 4);
    var signal, avg := Last(sta, STA_SIGNAL, 1), Last(sta, STA_SIGNAL_AVG, 1);
    var mcs := LastMcs(rate);
    Event(
      Station, if mac.Some? then mac.value[..6] else NO_MAC, Dbm(signal), Dbm(avg),
      Word(Last(sta, STA_TX_RETRIES, 4)), Word(Last(sta, STA_TX_FAILED, 4)),
      Word(Last(sta, STA_RX_BYTES, 4)), Word(Last(sta, STA_TX_BYTES, 4)),
      if mcs.Some? then mcs.value else 0xFF, 0, Word(freq), mac.Some?, signal.Some?, mcs.Some?, NoReason)
  }

  /** Nests of the same kind merge: their attributes count as one list. */
  function Meaning(top: seq<Attr>): Event {
    var sta := Inside(top, ATTR_STA_INFO);
    StationOf(top, sta, Inside(sta, STA_TX_BITRATE))
  }

  // ---------- the walk computes the meaning ----------

  lemma LastMcsSnoc(rate: seq<Attr>, a: Attr)
    ensures LastMcs(rate + [a])
         == if (a.typ == RATE_MCS || a.typ == RATE_VHT_MCS) && |a.payload| >= 1 then Some(a.payload[0])
            else LastMcs(rate)
  {
    assert (rate + [a])[..|rate|] == rate;
  }

  lemma {:induction false} RateNestMeaning(top: seq<Attr>, sta: seq<Attr>, rate: seq<Attr>, more: seq<Attr>)
    ensures Fold(RateStep, StationOf(top, sta, rate), more) == StationOf(top, sta, rate + more)
    decreases |more|
  {
    if more == [] {
      assert rate + more == rate;
    } else {
      LastMcsSnoc(rate, more[0]);
      RateNestMeaning(top, sta, rate + [more[0]], more[1..]);
      assert rate + [more[0]] + more[1..] == rate + more;
    }
  }

  function RatesIn(a: Attr): seq<Attr> {
    if a.typ == STA_TX_BITRATE then Attrs(a.payload) else []
  }

  lemma InsideSnoc(xs: seq<Attr>, a: Attr, typ: u16)
    ensures Inside(xs + [a], typ) == Inside(xs, typ) + (if a.typ == typ then Attrs(a.payload) else [])
  {
    assert (xs + [a])[..|xs|] == xs;
  }

  lemma {:induction false} InsideAppend(xs: seq<Attr>, ys: seq<Attr>, typ: u16)
    ensures Inside(xs + ys, typ) == Inside(xs, typ) + Inside(ys, typ)
    decreases |ys|
  {
    if ys == [] {
      assert xs + ys == xs;
    } else {
      var init, a := ys[..|ys| - 1], ys[|ys| - 1];
      assert xs + ys == xs + init + [a] && ys == init + [a];
      InsideAppend(xs, init, typ);
      InsideSnoc(xs + init, a, typ);
    }
  }

  lemma StaStepMeaning(top: seq<Attr>, sta: seq<Attr>, rate: seq<Attr>, a: Attr)
    ensures StaStep(StationOf(top, sta, rate), a) == StationOf(top, sta + [a], rate + RatesIn(a))
  {
    LastSnoc(sta, a, STA_SIGNAL, 1);
    LastSnoc(sta, a, STA_SIGNAL_AVG, 1);
    LastSnoc(sta, a, STA_TX_RETRIES, 4);
    LastSnoc(sta, a, STA_TX_FAILED, 4);
    LastSnoc(sta, a, STA_RX_BYTES, 4);
    LastSnoc(sta, a, STA_TX_BYTES, 4);
    RateNestMeaning(top, sta, rate, RatesIn(a));
    assert a.typ != STA_TX_BITRATE ==> rate + RatesIn(a) == rate;
  }

  lemma StaNestStep(top: seq<Attr>, sta: seq<Attr>, rate: seq<Attr>, init: seq<Attr>, inner: seq<Attr>, a: Attr)
    ensures StaStep(StationOf(top, sta + init, rate + inner), a)
         == StationOf(top, sta + (init + [a]), rate + (inner + RatesIn(a)))
  {
    StaStepMeaning(top, sta + init, rate + inner, a);
    Associates(sta, init, [a]);
    Associates(rate, inner, RatesIn(a));
  }

  lemma {:induction false} StaNestMeaning(top: seq<Attr>, sta: seq<Attr>, rate: seq<Attr>, more: seq<Attr>)
    ensures Fold(StaStep, StationOf(top, sta, rate), more)
         == StationOf(top, sta + more, rate + Inside(more, STA_TX_BITRATE))
    decreases |more|
  {
    if more == [] {
      assert sta + more == sta && rate + Inside(more, STA_TX_BITRATE) == rate;
    } else {
      var init, a := more[..|more| - 1], more[|more| - 1];
      assert more == init + [a];
      StaNestMeaning(top, sta, rate, init);
      FoldSnoc(StaStep, StationOf(top, sta, rate), init, a);
      InsideSnoc(init, a, STA_TX_BITRATE);
      StaNestStep(top, sta, rate, init, Inside(init, STA_TX_BITRATE), a);
    }
  }

  lemma TopStepMeaning(top: seq<Attr>, a: Attr)
    ensures TopStep(Meaning(top), a) == Meaning(top + [a])
  {
    var sta := Inside(top, ATTR_STA_INFO);
    var rate := Inside(sta, STA_TX_BITRATE);
    LastSnoc(top, a, ATTR_MAC, 6);
    LastSnoc(top, a, ATTR_WIPHY_FREQ, 4);
    InsideSnoc(top, a, ATTR_STA_INFO);
    if a.typ == ATTR_STA_INFO {
      StaNestMeaning(top, sta, rate, Attrs(a.payload));
      InsideAppend(sta, Attrs(a.payload), STA_TX_BITRATE);
    } else {
      assert sta + [] == sta;
    }
  }

  lemma {:induction false} TopFoldMeaning(top: seq<Attr>)
    ensures Fold(TopStep, BLANK, top) == Meaning(top)
    decreases |top|
  {
    if top != [] {
      var init, a := top[..|top| - 1], top[|top| - 1];
      assert top == init + [a];
      TopFoldMeaning(init);
      FoldSnoc(TopStep, BLANK, init, a);
      TopStepMeaning(init, a);
    }
  }

  /** The three nested walks over any bytes at all compute exactly what the attributes say. */
  lemma DecodeMeaning(d: seq<byte>)
    ensures Decode(d) == Meaning(Attrs(d))
  {
    TopFoldMeaning(Attrs(d));
  }

  // ---------- framed and bare input ----------

  /** A stream of at least one header whose first type is not zero, below 64 KiB, is never taken for messages. */
  lemma TypedStreamsAreBare(s: seq<byte>)
    requires 4 <= |s| < 0x1_0000 && Rd16Le(s, 2) != 0
    ensures IsBare(s)
  {
  }

  /**
   An attribute stream fed alone and the same stream behind a 20-byte header give the same events if
   and only if it yields a MAC or a signal; otherwise bare input reports one error and framed input nothing.
   */
  lemma FramedAndBareAgree(h: seq<byte>, s: seq<byte>)
    requires IsBare(s) && !IsSynth(s)
    requires |h| == 20 && Rd32Le(h, 0) == 20 + |s| <= MAX_ALIGNABLE && 20 + |s| != SYNTH_MAGIC_LE
    ensures FedEvents(s) == if Identified(Decode(s)) then [Decode(s)]
                            else [Decode(s).(typ := Error, reason := WithoutMacOrSignal(|s|))]
    ensures FedEvents(h + s) == if Identified(Decode(s)) then [Decode(s)] else []
    ensures FedEvents(s) == FedEvents(h + s) <==> Identified(Decode(s))
  {
    FramedEvents(h, s);
  }

  /** The bytes `8211`. */
  predicate StartsWithMagic(d: seq<byte>)
    requires |d| >= 4
  {
    d[0] == 0x38 && d[1] == 0x32 && d[2] == 0x31 && d[3] == 0x31
  }

  lemma MagicBigEndian(d: seq<byte>)
    requires |d| >= 4
    ensures Rd32Be(d, 0) == SYNTH_MAGIC <==> StartsWithMagic(d)
  {
  }

  lemma MagicLittleEndian(d: seq<byte>)
    requires |d| >= 4 && StartsWithMagic(d)
    ensures Rd32Le(d, 0) == SYNTH_MAGIC_LE
  {
  }

  lemma MagicAsLength(d: seq<byte>)
    requires |d| >= 4 && Rd32Be(d, 0) == SYNTH_MAGIC
    ensures Rd32Le(d, 0) == SYNTH_MAGIC_LE
  {
    MagicBigEndian(d);
    MagicLittleEndian(d);
  }

  lemma FramedStart(h: seq<byte>, s: seq<byte>)
    requires |h| == 20 && Rd32Le(h, 0) == 20 + |s| && 20 + |s| != SYNTH_MAGIC_LE
    ensures !IsSynth(h + s) && !IsBare(h + s)
  {
    HeaderReads(h, s);
    if Rd32Be(h + s, 0) == SYNTH_MAGIC {
      MagicAsLength(h + s);
    }
  }

  /** A single framed message, whatever the other header fields hold, if its length does not read as the magic. */
  lemma FramedEvents(h: seq<byte>, s: seq<byte>)
    requires |h| == 20 && Rd32Le(h, 0) == 20 + |s| <= MAX_ALIGNABLE && 20 + |s| != SYNTH_MAGIC_LE
    ensures FedEvents(h + s) == if Identified(Decode(s)) then [Decode(s)] else []
    ensures !IsSynth(h + s) && !IsBare(h + s)
  {
    FramedStart(h, s);
    HeaderReads(h, s);
    OneMessage(MsgEvents, h + s, []);
    assert h + s + [] == h + s && (h + s)[20..] == s;
  }

  // ---------- order and unknown attributes ----------

  /** At the top level and inside STA_INFO, attributes of pairwise distinct types may come in any order. */
  lemma OrderDoesNotMatter(x: seq<byte>, y: seq<byte>)
    requires multiset(Attrs(x)) == multiset(Attrs(y)) && DistinctTypes(Attrs(x)) && DistinctTypes(Attrs(y))
    ensures Decode(x) == Decode(y)
  {
    var xs, ys := Attrs(x), Attrs(y);
    DecodeMeaning(x);
    DecodeMeaning(y);
    LastOfDistinct(xs, ys, ATTR_MAC, 6);
    LastOfDistinct(xs, ys, ATTR_WIPHY_FREQ, 4);
    InsideOfDistinct(xs, ATTR_STA_INFO);
    InsideOfDistinct(ys, ATTR_STA_INFO);
    LastOfDistinct(xs, ys, ATTR_STA_INFO, 0);
  }

  /** What the attributes of a rate do to any event. */
  lemma {:induction false} RateFold(ev: Event, rate: seq<Attr>)
    ensures Fold(RateStep, ev, rate)
         == if LastMcs(rate).Some? then ev.(mcs := LastMcs(rate).value, hasMcs := true) else ev
    decreases |rate|
  {
    if rate != [] {
      var init, a := rate[..|rate| - 1], rate[|rate| - 1];
      assert rate == init + [a];
      RateFold(ev, init);
      FoldSnoc(RateStep, ev, init, a);
    }
  }

  lemma StaStepsCommute(ev: Event, a: Attr, b: Attr)
    requires a.typ != b.typ
    ensures StaStep(StaStep(ev, a), b) == StaStep(StaStep(ev, b), a)
  {
    if a.typ == STA_TX_BITRATE {
      RatePast(ev, a, b);
    } else if b.typ == STA_TX_BITRATE {
      RatePast(ev, b, a);
    }
  }

  /** Other attributes neither read nor write what a rate fills. */
  lemma StaStepKeepsRate(ev: Event, b: Attr, mcs: byte, hasMcs: bool)
    requires b.typ != STA_TX_BITRATE
    ensures StaStep(ev.(mcs := mcs, hasMcs := hasMcs), b) == StaStep(ev, b).(mcs := mcs, hasMcs := hasMcs)
  {
    if b.typ == STA_SIGNAL || b.typ == STA_SIGNAL_AVG {
      SignalStepKeepsRate(ev, b, mcs, hasMcs);
    } else {
      WordStepKeepsRate(ev, b, mcs, hasMcs);
    }
  }

  lemma SignalStepKeepsRate(ev: Event, b: Attr, mcs: byte, hasMcs: bool)
    requires b.typ == STA_SIGNAL || b.typ == STA_SIGNAL_AVG
    ensures StaStep(ev.(mcs := mcs, hasMcs := hasMcs), b) == StaStep(ev, b).(mcs := mcs, hasMcs := hasMcs)
  {
  }

  lemma WordStepKeepsRate(ev: Event, b: Attr, mcs: byte, hasMcs: bool)
    requires b.typ != STA_SIGNAL && b.typ != STA_SIGNAL_AVG && b.typ != STA_TX_BITRATE
    ensures StaStep(ev.(mcs := mcs, hasMcs := hasMcs), b) == StaStep(ev, b).(mcs := mcs, hasMcs := hasMcs)
  {
  }

  lemma RatePast(ev: Event, a: Attr, b: Attr)
    requires a.typ == STA_TX_BITRATE != b.typ
    ensures StaStep(StaStep(ev, a), b) == StaStep(StaStep(ev, b), a)
  {
    var rate := Attrs(a.payload);
    RateFold(ev, rate);
    RateFold(StaStep(ev, b), rate);
    if LastMcs(rate).Some? {
      StaStepKeepsRate(ev, b, LastMcs(rate).value, true);
    }
  }

  /** The same one level down, whatever earlier attributes have left behind. */
  lemma OrderInsideStaInfo(ev: Event, x: seq<byte>, y: seq<byte>)
    requires multiset(Attrs(x)) == multiset(Attrs(y)) && DistinctTypes(Attrs(x))
    ensures Fold(StaStep, ev, Attrs(x)) == Fold(StaStep, ev, Attrs(y))
  {
    forall e: Event, a: Attr, b: Attr | a.typ != b.typ ensures StaStep(StaStep(e, a), b) == StaStep(StaStep(e, b), a) {
      StaStepsCommute(e, a, b);
    }
    FoldPermuted(StaStep, ev, Attrs(x), Attrs(y));
  }

  /** So reordering any STA_INFO nest of a whole stream changes nothing. */
  lemma OrderInsideAnyStaInfo(before: seq<byte>, typ: u16, x: seq<byte>, y: seq<byte>, behind: seq<byte>)
    requires Whole(AttrReader, before, 0) && MaskType(typ) == ATTR_STA_INFO && |x| <= 0xFFFB && |y| <= 0xFFFB
    requires multiset(Attrs(x)) == multiset(Attrs(y)) && DistinctTypes(Attrs(x))
    ensures Decode(before + EncAttr(typ, x) + behind) == Decode(before + EncAttr(typ, y) + behind)
  {
    AttrsWithInsertion(before, typ, x, behind);
    AttrsWithInsertion(before, typ, y, behind);
    var ev := Fold(TopStep, BLANK, Attrs(before));
    OrderInsideStaInfo(ev, x, y);
    FoldAround(BLANK, Attrs(before), Attr(ATTR_STA_INFO, x), Attrs(behind));
    FoldAround(BLANK, Attrs(before), Attr(ATTR_STA_INFO, y), Attrs(behind));
  }

  lemma FoldAround(ev: Event, xs: seq<Attr>, a: Attr, ys: seq<Attr>)
    ensures Fold(TopStep, ev, xs + [a] + ys) == Fold(TopStep, TopStep(Fold(TopStep, ev, xs), a), ys)
  {
    FoldAppend(TopStep, ev, xs + [a], ys);
    FoldSnoc(TopStep, ev, xs, a);
  }

  /** At the rate level order does matter: the two MCS types fill the same field. */
  lemma RateOrderMatters(a: byte, b: byte, ev: Event)
    ensures var x, y := Attr(RATE_MCS, [a]), Attr(RATE_VHT_MCS, [b]);
            && Fold(RateStep, ev, [x, y]).mcs == b && Fold(RateStep, ev, [y, x]).mcs == a
            && (Fold(RateStep, ev, [x, y]) == Fold(RateStep, ev, [y, x]) <==> a == b)
  {
    var x, y := Attr(RATE_MCS, [a]), Attr(RATE_VHT_MCS, [b]);
    assert [x, y] == [x] + [y] && [y, x] == [y] + [x];
    FoldAppend(RateStep, ev, [x], [y]);
    FoldAppend(RateStep, ev, [y], [x]);
  }

  /** An attribute of an unknown type changes nothing at the top level, inside STA_INFO, or inside a rate. */
  lemma UnknownIsTransparent(x: seq<byte>, typ: u16, payload: seq<byte>, y: seq<byte>, ev: Event)
    requires Whole(AttrReader, x, 0) && |payload| <= 0xFFFB
    ensures MaskType(typ) !in [ATTR_MAC, ATTR_STA_INFO, ATTR_WIPHY_FREQ] ==>
              Decode(x + EncAttr(typ, payload) + y) == Decode(x + y)
    ensures MaskType(typ) !in [STA_SIGNAL, STA_SIGNAL_AVG, STA_TX_RETRIES, STA_TX_FAILED,
                               STA_RX_BYTES, STA_TX_BYTES, STA_TX_BITRATE] ==>
              Fold(StaStep, ev, Attrs(x + EncAttr(typ, payload) + y)) == Fold(StaStep, ev, Attrs(x + y))
    ensures MaskType(typ) !in [RATE_MCS, RATE_VHT_MCS] ==>
              Fold(RateStep, ev, Attrs(x + EncAttr(typ, payload) + y)) == Fold(RateStep, ev, Attrs(x + y))
  {
    AttrsWithInsertion(x, typ, payload, y);
    var a := Attr(MaskType(typ), payload);
    if a.typ !in [ATTR_MAC, ATTR_STA_INFO, ATTR_WIPHY_FREQ] {
      FoldIgnores(TopStep, BLANK, Attrs(x), a, Attrs(y));
    }
    if a.typ !in [STA_SIGNAL, STA_SIGNAL_AVG, STA_TX_RETRIES, STA_TX_FAILED,
                  STA_RX_BYTES, STA_TX_BYTES, STA_TX_BITRATE] {
      FoldIgnores(StaStep, ev, Attrs(x), a, Attrs(y));
    }
    if a.typ !in [RATE_MCS, RATE_VHT_MCS] {
      FoldIgnores(RateStep, ev, Attrs(x), a, Attrs(y));
    }
  }
}
