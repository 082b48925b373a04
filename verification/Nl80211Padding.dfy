/**
 Bytes the nl80211 parser never looks at: those of AttrPadding and everything in the two message headers but the
 length.  Buffers that differ only there yield the same events.
 */
module Nl80211Padding {
  import opened Bytes
  import opened Walk
  import opened Attributes
  import opened AttrPadding
  import opened Netlink
  import opened Nl80211

  lemma AlikeStations(ev: Event, x: seq<byte>, y: seq<byte>)
    requires Alike(StaLevel, x, y, 0)
    ensures Fold(StaStep, ev, Attrs(x)) == Fold(StaStep, ev, Attrs(y))
  {
    AlikeAttrs(StaLevel, x, y, 0);
    var xs, ys := Attrs(x), Attrs(y);
    forall i, e | 0 <= i < |xs| ensures StaStep(e, xs[i]) == StaStep(e, ys[i]) {
      assert AlikeAttr(StaLevel, xs[i], ys[i]);
      if Nest(StaLevel, xs[i].typ).Some? {
        AlikeLeaves(xs[i].payload, ys[i].payload);
      }
    }
    FoldSame(StaStep, ev, xs, ys);
  }

  lemma AlikeStreams(x: seq<byte>, y: seq<byte>)
    requires Alike(TopLevel, x, y, 0)
    ensures Decode(x) == Decode(y)
  {
    AlikeAttrs(TopLevel, x, y, 0);
    var xs, ys := Attrs(x), Attrs(y);
    forall i, e | 0 <= i < |xs| ensures TopStep(e, xs[i]) == TopStep(e, ys[i]) {
      assert AlikeAttr(TopLevel, xs[i], ys[i]);
      if Nest(TopLevel, xs[i].typ).Some? {
        AlikeStations(e, xs[i].payload, ys[i].payload);
      }
    }
    FoldSame(TopStep, BLANK, xs, ys);
  }

  /** Bare streams that differ only there offer the same event, if both are taken for bare streams. */
  lemma BareBytesUnread(x: seq<byte>, y: seq<byte>)
    requires IsBare(x) && IsBare(y) && !IsSynth(x) && !IsSynth(y) && Alike(TopLevel, x, y, 0)
    ensures FedEvents(x) == FedEvents(y)
  {
    AlikeStreams(x, y);
  }

  lemma AlikeMessageEvents(h: seq<byte>, h': seq<byte>, p: seq<byte>, q: seq<byte>)
    requires |h| == |h'| == 20 && Alike(TopLevel, p, q, 0)
    ensures MsgEvents(Msg(h + p)) == MsgEvents(Msg(h' + q))
  {
    assert (h + p)[20..] == p && (h' + q)[20..] == q;
    AlikeStreams(p, q);
  }

  lemma SameFeed(x: seq<byte>, y: seq<byte>)
    requires |x| == |y| && |x| >= 4 && x[..4] == y[..4] && !IsSynth(x) && !IsBare(x)
    requires Collect(MsgEvents, Messages(x)) == Collect(MsgEvents, Messages(y))
    ensures FedEvents(x) == FedEvents(y)
  {
    assert forall i :: 0 <= i < 4 ==> x[i] == x[..4][i] && y[i] == y[..4][i];
  }

  /** In any framed buffer, behind whole messages: the unread bytes of a message's headers, body and padding. */
  lemma OverwritingIsUnread(
    a: seq<byte>, h: seq<byte>, h': seq<byte>, p: seq<byte>, q: seq<byte>,
    pad: seq<byte>, pad': seq<byte>, b: seq<byte>)
    requires Whole(MsgReader, a, 0) && |h| == |h'| == 20 && h[..4] == h'[..4] && |pad| == |pad'|
    requires Rd32Le(h, 0) == 20 + |p| <= MAX_ALIGNABLE && Padded(20 + |p|, 20 + |p| + |pad|, b)
    requires Alike(TopLevel, p, q, 0) && !IsSynth(a + (h + p + pad) + b) && !IsBare(a + (h + p + pad) + b)
    ensures FedEvents(a + (h + p + pad) + b) == FedEvents(a + (h' + q + pad') + b)
  {
    AlikeMessageEvents(h, h', p, q);
    MessageReplaced(MsgEvents, a, h, h', p, q, pad, pad', b);
    SameFeed(a + (h + p + pad) + b, a + (h' + q + pad') + b);
  }

  /**
   The flag bits and the padding of any one attribute, in any nest the parser enters, of any message of any framed
   buffer: overwriting them changes no event.  `p` is the body of the message and `q` the body after overwriting.
   */
  lemma FlagsAndPaddingAreUnreadAnywhere(
    a: seq<byte>, h: seq<byte>, path: seq<Place>, x: seq<byte>, u: seq<byte>, v: seq<byte>, y: seq<byte>,
    p: seq<byte>, pad: seq<byte>, b: seq<byte>) returns (q: seq<byte>)
    requires Whole(AttrReader, x, 0) && OneAttr(u, y) && OneAttr(v, y) && |u| == |v| && AttrAt(u, 0) == AttrAt(v, 0)
    requires WholeBefore(path) && LevelInside(TopLevel, path).Some? && Nested(path, x + (u + y)) == Some(p)
    requires Whole(MsgReader, a, 0) && |h| == 20
    requires Rd32Le(h, 0) == 20 + |p| <= MAX_ALIGNABLE && Padded(20 + |p|, 20 + |p| + |pad|, b)
    requires !IsSynth(a + (h + p + pad) + b) && !IsBare(a + (h + p + pad) + b)
    ensures Nested(path, x + (v + y)) == Some(q)
    ensures FedEvents(a + (h + p + pad) + b) == FedEvents(a + (h + q + pad) + b)
  {
    q := AlikeBody(TopLevel, path, x, u, v, y, p);
    OverwritingIsUnread(a, h, h, p, q, pad, pad, b);
  }
}
