/**
 Bytes the conntrack parser never looks at: those of AttrPadding, sequence numbers, port ids, the nfgenmsg header, and
 what lies between messages.  Buffers that differ only there yield the same events.
 */
module ConntrackPadding {
  import opened Bytes
  import opened Walk
  import opened Attributes
  import opened AttrPadding
  import opened Netlink
  import opened Conntrack

  lemma AlikeTuples(x: seq<byte>, y: seq<byte>)
    requires Alike(TupleLevel, x, y, 0)
    ensures DecodeTuple(x) == DecodeTuple(y)
  {
    AlikeAttrs(TupleLevel, x, y, 0);
    var xs, ys := Attrs(x), Attrs(y);
    forall i, t | 0 <= i < |xs| ensures TupleStep(t, xs[i]) == TupleStep(t, ys[i]) {
      assert AlikeAttr(TupleLevel, xs[i], ys[i]);
      if Nest(TupleLevel, xs[i].typ).Some? {
        AlikeLeaves(xs[i].payload, ys[i].payload);
      }
    }
    FoldSame(TupleStep, ZERO_TUPLE, xs, ys);
  }

  lemma AlikeMessageBodies(x: seq<byte>, y: seq<byte>, ev: Event)
    requires Alike(CtLevel, x, y, 0)
    ensures DecodeCt(x, ev) == DecodeCt(y, ev)
  {
    AlikeAttrs(CtLevel, x, y, 0);
    var xs, ys := Attrs(x), Attrs(y);
    forall i, s | 0 <= i < |xs| ensures CtStep(s, xs[i]) == CtStep(s, ys[i]) {
      assert AlikeAttr(CtLevel, xs[i], ys[i]);
      if Nest(CtLevel, xs[i].typ).Some? {
        AlikeTuples(xs[i].payload, ys[i].payload);
      }
    }
    FoldSame(CtStep, CtState(ZERO_TUPLE, ZERO_TUPLE, ev), xs, ys);
  }

  /** Two messages of equal length, type and flags whose attributes are alike. */
  predicate AlikeMsg(m: Msg, m': Msg) {
    var a, b := m.bytes, m'.bytes;
    && |a| == |b|
    && (|a| >= 20 ==> a[4..8] == b[4..8] && Alike(CtLevel, a[20..], b[20..], 0))
  }

  /** From `off` on, two buffers agree on every message length, and their messages are related. */
  predicate AlikeBuffers(related: (Msg, Msg) -> bool, x: seq<byte>, y: seq<byte>, off: nat)
    decreases |x| - off
  {
    && |x| == |y|
    && (off + 16 <= |x| ==> Rd32Le(x, off) == Rd32Le(y, off))
    && (HasSteppableMsgAt(x, off) ==>
          related(MsgAt(x, off), MsgAt(y, off)) && AlikeBuffers(related, x, y, off + Align4(Rd32Le(x, off))))
  }

  lemma AlikeMsgEvents(a: Msg, b: Msg)
    requires AlikeMsg(a, b)
    ensures MsgEvents(a) == MsgEvents(b)
  {
    if 20 <= |a.bytes| < TWO32 {
      var x, y := a.bytes, b.bytes;
      assert x[4] == x[4..8][0] && x[5] == x[4..8][1] && x[6] == x[4..8][2] && x[7] == x[4..8][3];
      assert y[4] == y[4..8][0] && y[5] == y[4..8][1] && y[6] == y[4..8][2] && y[7] == y[4..8][3];
      AlikeMessageBodies(x[20..], y[20..], StartEvent(Rd16Le(x, 4), Rd16Le(x, 6)));
    }
  }

  ghost predicate AllRelated(related: (Msg, Msg) -> bool, xs: seq<Msg>, ys: seq<Msg>) {
    |xs| == |ys| && forall i :: 0 <= i < |xs| ==> related(xs[i], ys[i])
  }

  lemma AlsoRelated(related: (Msg, Msg) -> bool, a: Msg, b: Msg, xs: seq<Msg>, ys: seq<Msg>,
                    xs': seq<Msg>, ys': seq<Msg>)
    requires related(a, b) && AllRelated(related, xs, ys) && xs' == [a] + xs && ys' == [b] + ys
    ensures AllRelated(related, xs', ys')
  {
  }

  lemma AlikeHeaders(related: (Msg, Msg) -> bool, x: seq<byte>, y: seq<byte>, off: nat)
    requires AlikeBuffers(related, x, y, off)
    ensures HasSteppableMsgAt(x, off) == HasSteppableMsgAt(y, off)
    ensures HasSteppableMsgAt(x, off) ==> Rd32Le(x, off) == Rd32Le(y, off)
  {
  }

  lemma AlikeTurn(related: (Msg, Msg) -> bool, x: seq<byte>, y: seq<byte>, off: nat, next: nat)
    requires HasSteppableMsgAt(x, off) && next == off + Align4(Rd32Le(x, off))
    requires HasSteppableMsgAt(y, off) && next == off + Align4(Rd32Le(y, off))
    requires related(MsgAt(x, off), MsgAt(y, off)) && AllRelated(related, MessagesFrom(x, next), MessagesFrom(y, next))
    ensures AllRelated(related, MessagesFrom(x, off), MessagesFrom(y, off))
  {
    MessagesCons(x, off, next);
    MessagesCons(y, off, next);
    AlsoRelated(related, MsgAt(x, off), MsgAt(y, off), MessagesFrom(x, next), MessagesFrom(y, next),
                MessagesFrom(x, off), MessagesFrom(y, off));
  }

  lemma {:induction false} AlikeMessages(related: (Msg, Msg) -> bool, x: seq<byte>, y: seq<byte>, off: nat)
    requires AlikeBuffers(related, x, y, off)
    ensures AllRelated(related, MessagesFrom(x, off), MessagesFrom(y, off))
    decreases |x| - off
  {
    AlikeHeaders(related, x, y, off);
    if HasSteppableMsgAt(x, off) {
      var next := off + Align4(Rd32Le(x, off));
      AlikeMessages(related, x, y, next);
      AlikeTurn(related, x, y, off, next);
    } else {
      MessagesStep(x, off);
      MessagesStep(y, off);
    }
  }

  lemma {:induction false} CollectSame<T>(f: Msg -> seq<T>, xs: seq<Msg>, ys: seq<Msg>)
    requires |xs| == |ys| && forall i :: 0 <= i < |xs| ==> f(xs[i]) == f(ys[i])
    ensures Collect(f, xs) == Collect(f, ys)
    decreases |xs|
  {
    if xs != [] {
      assert f(xs[0]) == f(ys[0]);
      forall i | 0 <= i < |xs[1..]| ensures f(xs[1..][i]) == f(ys[1..][i]) {
        assert f(xs[i + 1]) == f(ys[i + 1]);
      }
      CollectSame(f, xs[1..], ys[1..]);
    }
  }

  /** Feeding either of two such buffers offers the same events in the same order. */
  lemma UnreadBytesDoNotMatter(x: seq<byte>, y: seq<byte>)
    requires AlikeBuffers(AlikeMsg, x, y, 0) && !IsSynth(x)
    ensures FedEvents(x) == FedEvents(y)
  {
    AlikeMessages(AlikeMsg, x, y, 0);
    var xs, ys := Messages(x), Messages(y);
    forall i | 0 <= i < |xs| ensures MsgEvents(xs[i]) == MsgEvents(ys[i]) {
      AlikeMsgEvents(xs[i], ys[i]);
    }
    CollectSame(MsgEvents, xs, ys);
    if |x| >= 32 {
      MagicAsLength(x);
      MagicAsLength(y);
    }
  }

  // ---------- in any message, in any buffer ----------

  lemma AlikeMessageEvents(h: seq<byte>, h': seq<byte>, p: seq<byte>, q: seq<byte>)
    requires |h| == |h'| == 20 && h[..8] == h'[..8] && Alike(CtLevel, p, q, 0)
    ensures MsgEvents(Msg(h + p)) == MsgEvents(Msg(h' + q))
  {
    var m, n := h + p, h' + q;
    assert m[4..8] == h[..8][4..8] && n[4..8] == h'[..8][4..8];
    assert m[20..] == p && n[20..] == q;
    AlikeMsgEvents(Msg(m), Msg(n));
  }

  lemma SameFeed(x: seq<byte>, y: seq<byte>)
    requires |x| == |y| && |x| >= 4 && x[..4] == y[..4] && !IsSynth(x) && NetlinkEvents(x) == NetlinkEvents(y)
    ensures FedEvents(x) == FedEvents(y)
  {
    assert forall i :: 0 <= i < 4 ==> x[i] == x[..4][i] && y[i] == y[..4][i];
  }

  /** In any buffer, behind whole messages: the unread bytes of a message's header, of its body and of its padding. */
  lemma OverwritingIsUnread(
    a: seq<byte>, h: seq<byte>, h': seq<byte>, p: seq<byte>, q: seq<byte>,
    pad: seq<byte>, pad': seq<byte>, b: seq<byte>)
    requires Whole(MsgReader, a, 0) && |h| == |h'| == 20 && h[..8] == h'[..8]
    requires Rd32Le(h, 0) == 20 + |p| <= MAX_ALIGNABLE && Padded(20 + |p|, 20 + |p| + |pad|, b) && |pad| == |pad'|
    requires Alike(CtLevel, p, q, 0) && !IsSynth(a + (h + p + pad) + b)
    ensures FedEvents(a + (h + p + pad) + b) == FedEvents(a + (h' + q + pad') + b)
  {
    AlikeMessageEvents(h, h', p, q);
    assert h[..4] == h[..8][..4] && h'[..4] == h'[..8][..4];
    MessageReplaced(MsgEvents, a, h, h', p, q, pad, pad', b);
    SameFeed(a + (h + p + pad) + b, a + (h' + q + pad') + b);
  }

  /**
   The flag bits and the padding of any one attribute, in any nest the parser enters, of any message of any buffer:
   overwriting them changes no event.  `p` is the body of the message and `q` the body after overwriting.
   */
  lemma FlagsAndPaddingAreUnreadAnywhere(
    a: seq<byte>, h: seq<byte>, path: seq<Place>, x: seq<byte>, u: seq<byte>, v: seq<byte>, y: seq<byte>,
    p: seq<byte>, pad: seq<byte>, b: seq<byte>) returns (q: seq<byte>)
    requires Whole(AttrReader, x, 0) && OneAttr(u, y) && OneAttr(v, y) && |u| == |v| && AttrAt(u, 0) == AttrAt(v, 0)
    requires WholeBefore(path) && LevelInside(CtLevel, path).Some? && Nested(path, x + (u + y)) == Some(p)
    requires Whole(MsgReader, a, 0) && |h| == 20 && !IsSynth(a + (h + p + pad) + b)
    requires Rd32Le(h, 0) == 20 + |p| <= MAX_ALIGNABLE && Padded(20 + |p|, 20 + |p| + |pad|, b)
    ensures Nested(path, x + (v + y)) == Some(q)
    ensures FedEvents(a + (h + p + pad) + b) == FedEvents(a + (h + q + pad) + b)
  {
    q := AlikeBody(CtLevel, path, x, u, v, y, p);
    OverwritingIsUnread(a, h, h, p, q, pad, pad, b);
  }
}
