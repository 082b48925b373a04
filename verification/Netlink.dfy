/**
 The message level of a netlink buffer (header layout as in section 2.3.2 of RFC 3549): a 4-byte
 little-endian length that counts the 16-byte header, and messages that start on multiples of four.
 Both framed parsers of the library walk this decomposition.
 */
module Netlink {
  import opened Bytes
  import opened EventQueue
  import opened Walk

  /** One message, its header included. */
  datatype Msg = Msg(bytes: seq<byte>)

  /** At `off` a header fits in `d` and the length it gives stays inside `d`. */
  predicate HasMsgAt(d: seq<byte>, off: nat) {
    off + 16 <= |d| && 16 <= Rd32Le(d, off) && off + Rd32Le(d, off) <= |d|
  }

  /** A message the walk can step over: its rounded length does not wrap to zero in 32 bits. */
  predicate HasSteppableMsgAt(d: seq<byte>, off: nat) {
    HasMsgAt(d, off) && Align4(Rd32Le(d, off)) >= Rd32Le(d, off)
  }

  function MsgAt(d: seq<byte>, off: nat): Msg
    requires HasMsgAt(d, off)
  {
    Msg(d[off..off + Rd32Le(d, off)])
  }

  function MsgReader(d: seq<byte>, off: nat): Step<Msg> {
    if HasSteppableMsgAt(d, off) then Item(MsgAt(d, off), Align4(Rd32Le(d, off))) else Stop
  }

  /** The messages, headers included, that a walk of `d` from offset `off` visits in order. */
  function MessagesFrom(d: seq<byte>, off: nat): seq<Msg> {
    Items(MsgReader, d, off)
  }

  function Messages(d: seq<byte>): seq<Msg> {
    MessagesFrom(d, 0)
  }

  lemma MessagesStep(d: seq<byte>, off: nat)
    ensures MessagesFrom(d, off) ==
              if HasSteppableMsgAt(d, off)
              then [MsgAt(d, off)] + MessagesFrom(d, off + Align4(Rd32Le(d, off)))
              else []
  {
    if HasSteppableMsgAt(d, off) {
      ItemsStep(MsgReader, d, off, MsgAt(d, off), Align4(Rd32Le(d, off)));
    }
  }

  lemma MessagesCons(d: seq<byte>, off: nat, next: nat)
    requires HasSteppableMsgAt(d, off) && next == off + Align4(Rd32Le(d, off))
    ensures MessagesFrom(d, off) == [MsgAt(d, off)] + MessagesFrom(d, next)
  {
    MessagesStep(d, off);
  }

  lemma MsgReaderSkips(x: seq<byte>, y: seq<byte>, i: nat)
    ensures MsgReader(x + y, |x| + i) == MsgReader(y, i)
  {
    if i + 16 <= |y| {
      var n := Rd32Le(y, i);
      assert Rd32Le(x + y, |x| + i) == n;
      if 16 <= n && i + n <= |y| {
        assert (x + y)[|x| + i..|x| + i + n] == y[i..i + n];
      }
    }
  }

  lemma MsgReaderExtends(x: seq<byte>, y: seq<byte>, i: nat)
    requires MsgReader(x, i).Item?
    ensures MsgReader(x + y, i) == MsgReader(x, i)
  {
    assert (x + y)[i..i + Rd32Le(x, i)] == x[i..i + Rd32Le(x, i)];
  }

  lemma MsgReaderIsLocal()
    ensures Local(MsgReader)
  {
    forall x, y, i: nat ensures Skips(MsgReader, x, y, i) {
      MsgReaderSkips(x, y, i);
    }
    forall x, y, i: nat ensures Extends(MsgReader, x, y, i) {
      if MsgReader(x, i).Item? {
        MsgReaderExtends(x, y, i);
      }
    }
  }

  function Collect<T>(f: Msg -> seq<T>, ms: seq<Msg>): seq<T>
    decreases |ms|
  {
    if ms == [] then [] else f(ms[0]) + Collect(f, ms[1..])
  }

  /** One turn of a message loop at offset `off`, as seen by what is left to collect. */
  lemma MessageTurn<T>(f: Msg -> seq<T>, d: seq<byte>, off: nat)
    ensures Collect(f, MessagesFrom(d, off)) ==
              if HasSteppableMsgAt(d, off)
              then f(MsgAt(d, off)) + Collect(f, MessagesFrom(d, off + Align4(Rd32Le(d, off))))
              else []
  {
    MessagesStep(d, off);
    if HasSteppableMsgAt(d, off) {
      assert MessagesFrom(d, off)[1..] == MessagesFrom(d, off + Align4(Rd32Le(d, off)));
    }
  }

  lemma {:induction false} CollectAppend<T>(f: Msg -> seq<T>, xs: seq<Msg>, ys: seq<Msg>)
    ensures Collect(f, xs + ys) == Collect(f, xs) + Collect(f, ys)
    decreases |xs|
  {
    if xs == [] {
      assert xs + ys == ys;
    } else {
      assert (xs + ys)[1..] == xs[1..] + ys;
      CollectAppend(f, xs[1..], ys);
    }
  }

  lemma CollectPrefix<T>(f: Msg -> seq<T>, xs: seq<Msg>, ys: seq<Msg>)
    requires xs <= ys
    ensures Collect(f, xs) <= Collect(f, ys)
  {
    assert ys == xs + ys[|xs|..];
    CollectAppend(f, xs, ys[|xs|..]);
  }

  /** The queue after a walk of `d` from `off` that offers the events `f` finds in each message. */
  function QueueAfter<T>(f: Msg -> seq<T>, cap: nat, items: seq<T>, d: seq<byte>, off: nat): seq<T>
    decreases |d| - off
  {
    if HasSteppableMsgAt(d, off)
    then QueueAfter(f, cap, OfferedAll(cap, items, f(MsgAt(d, off))), d, off + Align4(Rd32Le(d, off)))
    else items
  }

  lemma QueueTurn<T>(f: Msg -> seq<T>, cap: nat, items: seq<T>, d: seq<byte>, off: nat, next: nat)
    requires HasSteppableMsgAt(d, off) && next == off + Align4(Rd32Le(d, off))
    requires var now := OfferedAll(cap, items, f(MsgAt(d, off)));
             QueueAfter(f, cap, now, d, next) == OfferedAll(cap, now, Collect(f, MessagesFrom(d, next)))
    ensures QueueAfter(f, cap, items, d, off) == OfferedAll(cap, items, Collect(f, MessagesFrom(d, off)))
  {
    MessageTurn(f, d, off);
    OfferedAllAppend(cap, items, f(MsgAt(d, off)), Collect(f, MessagesFrom(d, next)));
  }

  /** Offering events message by message is offering all of them at once. */
  lemma {:induction false} QueueAfterIsOneBurst<T>(f: Msg -> seq<T>, cap: nat, items: seq<T>, d: seq<byte>, off: nat)
    ensures QueueAfter(f, cap, items, d, off) == OfferedAll(cap, items, Collect(f, MessagesFrom(d, off)))
    decreases |d| - off
  {
    if HasSteppableMsgAt(d, off) {
      var next := off + Align4(Rd32Le(d, off));
      QueueAfterIsOneBurst(f, cap, OfferedAll(cap, items, f(MsgAt(d, off))), d, next);
      QueueTurn(f, cap, items, d, off, next);
    } else {
      MessageTurn(f, d, off);
    }
  }

  // ---------- joining and cutting buffers ----------

  lemma MessagesAppend(x: seq<byte>, y: seq<byte>)
    requires Whole(MsgReader, x, 0)
    ensures Messages(x + y) == Messages(x) + Messages(y)
    ensures Whole(MsgReader, y, 0) ==> Whole(MsgReader, x + y, 0)
  {
    MsgReaderIsLocal();
    ItemsAppend(MsgReader, x, y, 0);
    if Whole(MsgReader, y, 0) {
      WholeAppend(MsgReader, x, y, 0);
    }
  }

  lemma MessagesOfPrefix(d: seq<byte>, n: nat)
    requires n <= |d|
    ensures Messages(d[..n]) <= Messages(d)
  {
    MsgReaderIsLocal();
    assert d == d[..n] + d[n..];
    ItemsOfPrefix(MsgReader, d[..n], d[n..], 0);
  }

  /** Messages that yield at most one event each, and none below 20 bytes, bound the events. */
  lemma {:induction false} EventBound<T>(f: Msg -> seq<T>, d: seq<byte>, off: nat)
    requires forall m :: |f(m)| <= 1 && (|m.bytes| < 20 ==> f(m) == [])
    requires off <= |d|
    ensures off + 20 * |Collect(f, MessagesFrom(d, off))| <= |d|
    decreases |d| - off
  {
    MessageTurn(f, d, off);
    if HasSteppableMsgAt(d, off) {
      var next := off + Align4(Rd32Le(d, off));
      assert |f(MsgAt(d, off))| <= 1 && (|MsgAt(d, off).bytes| < 20 ==> f(MsgAt(d, off)) == []);
      if next <= |d| {
        EventBound(f, d, next);
      } else {
        assert MessagesFrom(d, next) == [];
      }
    }
  }

  // ---------- replacing one message ----------

  lemma FirstMessage(m: seq<byte>, pad: seq<byte>)
    requires |m| >= 16 && Rd32Le(m, 0) == |m| <= MAX_ALIGNABLE
    ensures HasSteppableMsgAt(m + pad, 0) && Rd32Le(m + pad, 0) == |m| && MsgAt(m + pad, 0) == Msg(m)
  {
    var d := m + pad;
    assert Rd32Le(d, 0) == |m|;
    assert d[0..|m|] == m;
  }

  lemma NothingBehind<T>(f: Msg -> seq<T>, d: seq<byte>, off: nat)
    requires off >= |d|
    ensures Collect(f, MessagesFrom(d, off)) == []
  {
    MessageTurn(f, d, off);
  }

  lemma OneMessageWhole(d: seq<byte>)
    requires HasSteppableMsgAt(d, 0) && |d| == Align4(Rd32Le(d, 0))
    ensures Whole(MsgReader, d, 0)
  {
    assert MsgReader(d, 0) == Item(MsgAt(d, 0), |d|);
  }

  lemma OneMessageCollected<T>(f: Msg -> seq<T>, d: seq<byte>)
    requires HasSteppableMsgAt(d, 0) && |d| <= Align4(Rd32Le(d, 0))
    ensures Collect(f, Messages(d)) == f(MsgAt(d, 0))
  {
    MessageTurn(f, d, 0);
    NothingBehind(f, d, Align4(Rd32Le(d, 0)));
  }

  lemma HeaderReads(h: seq<byte>, body: seq<byte>)
    requires |h| >= 4
    ensures Rd32Le(h + body, 0) == Rd32Le(h, 0)
  {
  }

  /** One message that gives its own length, and its padding, which may be cut short. */
  lemma OneMessage<T>(f: Msg -> seq<T>, m: seq<byte>, pad: seq<byte>)
    requires |m| >= 16 && Rd32Le(m, 0) == |m| <= MAX_ALIGNABLE && |m| + |pad| <= Align4(|m|)
    ensures Collect(f, Messages(m + pad)) == f(Msg(m))
    ensures |m| + |pad| == Align4(|m|) ==> Whole(MsgReader, m + pad, 0)
  {
    FirstMessage(m, pad);
    OneMessageCollected(f, m + pad);
    if |m| + |pad| == Align4(|m|) {
      OneMessageWhole(m + pad);
    }
  }

  lemma CollectBehind<T>(f: Msg -> seq<T>, a: seq<byte>, m: seq<byte>)
    requires Whole(MsgReader, a, 0)
    ensures Collect(f, Messages(a + m)) == Collect(f, Messages(a)) + Collect(f, Messages(m))
  {
    MessagesAppend(a, m);
    CollectAppend(f, Messages(a), Messages(m));
  }

  lemma CollectAround<T>(f: Msg -> seq<T>, a: seq<byte>, m: seq<byte>, b: seq<byte>)
    requires Whole(MsgReader, a, 0) && (Whole(MsgReader, m, 0) || b == [])
    ensures Collect(f, Messages(a + m + b))
         == Collect(f, Messages(a)) + Collect(f, Messages(m)) + Collect(f, Messages(b))
  {
    CollectBehind(f, a, m);
    if b == [] {
      assert a + m + b == a + m;
      NothingBehind(f, b, 0);
    } else {
      MessagesAppend(a, m);
      CollectBehind(f, a + m, b);
    }
  }

  lemma SameLength(h: seq<byte>, h': seq<byte>)
    requires |h| >= 4 && |h'| >= 4 && h[..4] == h'[..4]
    ensures Rd32Le(h, 0) == Rd32Le(h', 0)
  {
    assert forall i :: 0 <= i < 4 ==> h[i] == h[..4][i] && h'[i] == h'[..4][i];
  }

  lemma SameStart(a: seq<byte>, m: seq<byte>, n: seq<byte>, b: seq<byte>)
    requires |m| >= 4 && |n| >= 4 && m[..4] == n[..4]
    ensures (a + m + b)[..4] == (a + n + b)[..4]
  {
    assert forall i :: 0 <= i < 4 ==> m[i] == m[..4][i] && n[i] == n[..4][i];
  }

  lemma StartsWithHeader(h: seq<byte>, p: seq<byte>, pad: seq<byte>)
    requires |h| >= 4
    ensures (h + p + pad)[..4] == h[..4]
  {
  }

  /** Two messages of equal length in the same place, indistinguishable to `f`, leave the same to collect. */
  lemma MessageReplaced<T>(
    f: Msg -> seq<T>, a: seq<byte>, h: seq<byte>, h': seq<byte>, p: seq<byte>, q: seq<byte>,
    pad: seq<byte>, pad': seq<byte>, b: seq<byte>)
    requires Whole(MsgReader, a, 0) && |h| == |h'| >= 16 && h[..4] == h'[..4] && |p| == |q| && |pad| == |pad'|
    requires Rd32Le(h, 0) == |h| + |p| <= MAX_ALIGNABLE && Padded(|h| + |p|, |h| + |p| + |pad|, b)
    requires f(Msg(h + p)) == f(Msg(h' + q))
    ensures Collect(f, Messages(a + (h + p + pad) + b)) == Collect(f, Messages(a + (h' + q + pad') + b))
    ensures (a + (h + p + pad) + b)[..4] == (a + (h' + q + pad') + b)[..4]
  {
    SameLength(h, h');
    HeaderReads(h, p);
    HeaderReads(h', q);
    OneMessage(f, h + p, pad);
    OneMessage(f, h' + q, pad');
    CollectAround(f, a, h + p + pad, b);
    CollectAround(f, a, h' + q + pad', b);
    StartsWithHeader(h, p, pad);
    StartsWithHeader(h', q, pad');
    SameStart(a, h + p + pad, h' + q + pad', b);
  }

  // ---------- termination ----------

  /** The offset after one turn of the loop that does not leave it, in the code's own arithmetic. */
  function NextOffset(d: seq<byte>, off: nat): Option<nat> {
    if off + 16 <= |d| && 16 <= Rd32Le(d, off) && off + Rd32Le(d, off) <= |d|
    then Some(off + Align4(Rd32Le(d, off)))
    else None
  }

  /** The offset after `k` turns, or None when the loop has been left before that. */
  function OffsetAfter(d: seq<byte>, k: nat): Option<nat> {
    if k == 0 then Some(0)
    else
      match OffsetAfter(d, k - 1)
      case None => None
      case Some(off) => NextOffset(d, off)
  }

  ghost predicate Halts(d: seq<byte>) {
    exists k: nat :: OffsetAfter(d, k).None?
  }

  /** After `k` turns the walk stands at an in-bounds message whose rounded length wraps to zero. */
  predicate StuckAfter(d: seq<byte>, k: nat) {
    match OffsetAfter(d, k)
    case None => false
    case Some(off) => NextOffset(d, off).Some? && Rd32Le(d, off) > MAX_ALIGNABLE
  }

  /** A turn strictly advances exactly when the message length is at most 0xFFFFFFFC. */
  lemma TurnAdvances(d: seq<byte>, off: nat)
    requires NextOffset(d, off).Some?
    ensures NextOffset(d, off).value > off <==> Rd32Le(d, off) <= MAX_ALIGNABLE
    ensures Rd32Le(d, off) <= MAX_ALIGNABLE ==> NextOffset(d, off).value >= off + 16
  {
  }

  lemma {:induction false} OffsetGrows(d: seq<byte>, k: nat)
    requires forall j :: 0 <= j < k ==> !StuckAfter(d, j)
    ensures OffsetAfter(d, k).Some? ==> OffsetAfter(d, k).value >= 16 * k
    decreases k
  {
    if k > 0 && OffsetAfter(d, k).Some? {
      OffsetGrows(d, k - 1);
      assert !StuckAfter(d, k - 1);
      TurnAdvances(d, OffsetAfter(d, k - 1).value);
    }
  }

  lemma {:induction false} StuckForever(d: seq<byte>, k: nat, extra: nat)
    requires StuckAfter(d, k)
    ensures OffsetAfter(d, k + extra) == OffsetAfter(d, k)
    decreases extra
  {
    if extra > 0 {
      StuckForever(d, k, extra - 1);
    }
  }

  lemma {:induction false} SomeBefore(d: seq<byte>, j: nat, k: nat)
    requires j <= k && OffsetAfter(d, k).Some?
    ensures OffsetAfter(d, j).Some?
    decreases k
  {
    if j < k {
      SomeBefore(d, j, k - 1);
    }
  }

  /** The walk leaves its loop if and only if it never reaches a message longer than 0xFFFFFFFC. */
  lemma HaltsExactlyWhen(d: seq<byte>)
    ensures Halts(d) <==> forall k: nat :: !StuckAfter(d, k)
  {
    if k: nat :| StuckAfter(d, k) {
      forall j: nat ensures OffsetAfter(d, j).Some? {
        if j <= k {
          SomeBefore(d, j, k);
        } else {
          StuckForever(d, k, j - k);
        }
      }
    } else {
      var k := |d| + 1;
      OffsetGrows(d, k);
      OffsetGrows(d, k - 1);
      assert OffsetAfter(d, k).None?;
    }
  }

  /** The same, read off the buffer: each message that the walk from `off` meets can be stepped over. */
  predicate Walkable(d: seq<byte>, off: nat)
    decreases |d| - off
  {
    HasMsgAt(d, off) ==> HasSteppableMsgAt(d, off) && Walkable(d, off + Align4(Rd32Le(d, off)))
  }

  lemma {:induction false} WalkableHalts(d: seq<byte>, k: nat, off: nat)
    requires OffsetAfter(d, k) == Some(off) && Walkable(d, off)
    ensures Halts(d)
    decreases |d| - off
  {
    if HasMsgAt(d, off) {
      WalkableHalts(d, k + 1, off + Align4(Rd32Le(d, off)));
    } else {
      assert OffsetAfter(d, k + 1).None?;
    }
  }

  lemma {:induction false} StuckOrWalkable(d: seq<byte>, k: nat, off: nat)
    requires OffsetAfter(d, k) == Some(off) && !Walkable(d, off)
    ensures exists j: nat :: StuckAfter(d, j)
    decreases |d| - off
  {
    if HasSteppableMsgAt(d, off) {
      StuckOrWalkable(d, k + 1, off + Align4(Rd32Le(d, off)));
    } else {
      assert StuckAfter(d, k);
    }
  }

  lemma HaltsIffWalkable(d: seq<byte>)
    ensures Halts(d) <==> Walkable(d, 0)
  {
    HaltsExactlyWhen(d);
    if Walkable(d, 0) {
      WalkableHalts(d, 0, 0);
    } else {
      StuckOrWalkable(d, 0, 0);
    }
  }

  /** Every buffer a caller can have checked to be at most 0xFFFFFFFC bytes long is walked in finitely many turns. */
  lemma ShortBuffersHalt(d: seq<byte>)
    requires |d| <= MAX_ALIGNABLE
    ensures Halts(d)
  {
    HaltsExactlyWhen(d);
  }

  /** The bound is sharp: at every greater length there is a buffer on which the walk never ends. */
  lemma LongBufferDiverges(n: nat) returns (d: seq<byte>)
    requires n > MAX_ALIGNABLE
    ensures |d| == n && !Halts(d)
  {
    d := [0xFD, 0xFF, 0xFF, 0xFF] + Zeros(n - 4);
    assert Rd32Le(d, 0) == 0xFFFF_FFFD;
    assert StuckAfter(d, 0);
    HaltsExactlyWhen(d);
  }
}
