/**
 The one decomposition of a byte stream into netlink attributes that every attribute walker of the
 library follows, and folds over it.  An attribute is a 2-byte length (header included), a 2-byte
 type whose top two bits are flags, the payload, and padding to a multiple of four.
 */
module Attributes {
  import opened Bytes
  import opened Walk

  /** `raw & 0x3fff`: a type without its flag bits. */
  function MaskType(raw: u16): u16 {
    raw % 0x4000
  }

  datatype Attr = Attr(typ: u16, payload: seq<byte>)

  /** At `off` a header fits in `d` and the length it gives stays inside `d`. */
  predicate HasAttrAt(d: seq<byte>, off: nat) {
    off + 4 <= |d| && 4 <= Rd16Le(d, off) && off + Rd16Le(d, off) <= |d|
  }

  function AttrAt(d: seq<byte>, off: nat): Attr
    requires HasAttrAt(d, off)
  {
    Attr(MaskType(Rd16Le(d, off + 2)), d[off + 4..off + Rd16Le(d, off)])
  }

  /** The longest run of in-bounds attributes of `d` from offset `off`. */
  function AttrsFrom(d: seq<byte>, off: nat): seq<Attr>
    decreases |d| - off
  {
    if HasAttrAt(d, off) then [AttrAt(d, off)] + AttrsFrom(d, off + Align4(Rd16Le(d, off))) else []
  }

  function Attrs(d: seq<byte>): seq<Attr> {
    AttrsFrom(d, 0)
  }

  function AttrReader(d: seq<byte>, off: nat): Step<Attr> {
    if HasAttrAt(d, off) then Item(AttrAt(d, off), Align4(Rd16Le(d, off))) else Stop
  }

  lemma {:induction false} AttrsAreItems(d: seq<byte>, off: nat)
    ensures AttrsFrom(d, off) == Items(AttrReader, d, off)
    decreases |d| - off
  {
    if HasAttrAt(d, off) {
      AttrsAreItems(d, off + Align4(Rd16Le(d, off)));
    }
  }

  lemma AttrReaderSkips(x: seq<byte>, y: seq<byte>, i: nat)
    ensures AttrReader(x + y, |x| + i) == AttrReader(y, i)
  {
    if i + 4 <= |y| {
      var n := Rd16Le(y, i);
      assert Rd16Le(x + y, |x| + i) == n && Rd16Le(x + y, |x| + i + 2) == Rd16Le(y, i + 2);
      if 4 <= n && i + n <= |y| {
        assert (x + y)[|x| + i + 4..|x| + i + n] == y[i + 4..i + n];
      }
    }
  }

  lemma AttrReaderExtends(x: seq<byte>, y: seq<byte>, i: nat)
    requires AttrReader(x, i).Item?
    ensures AttrReader(x + y, i) == AttrReader(x, i)
  {
    assert (x + y)[i + 4..i + Rd16Le(x, i)] == x[i + 4..i + Rd16Le(x, i)];
  }

  lemma AttrReaderIsLocal()
    ensures Local(AttrReader)
  {
    forall x, y, i: nat ensures Skips(AttrReader, x, y, i) {
      AttrReaderSkips(x, y, i);
    }
    forall x, y, i: nat ensures Extends(AttrReader, x, y, i) {
      if AttrReader(x, i).Item? {
        AttrReaderExtends(x, y, i);
      }
    }
  }

  function Fold<S>(step: (S, Attr) -> S, s: S, attrs: seq<Attr>): S
    decreases |attrs|
  {
    if attrs == [] then s else Fold(step, step(s, attrs[0]), attrs[1..])
  }

  /** The state after a walker's loop that stands at `off` in state `s`. */
  function StateAfter<S>(step: (S, Attr) -> S, s: S, d: seq<byte>, off: nat): S
    decreases |d| - off
  {
    if HasAttrAt(d, off)
    then StateAfter(step, step(s, AttrAt(d, off)), d, off + Align4(Rd16Le(d, off)))
    else s
  }

  /** A walker's loop computes the fold of its step over the decomposition. */
  lemma {:induction false} StateAfterIsFold<S>(step: (S, Attr) -> S, s: S, d: seq<byte>, off: nat)
    ensures StateAfter(step, s, d, off) == Fold(step, s, AttrsFrom(d, off))
    decreases |d| - off
  {
    if HasAttrAt(d, off) {
      var next := off + Align4(Rd16Le(d, off));
      StateAfterIsFold(step, step(s, AttrAt(d, off)), d, next);
      assert AttrsFrom(d, off)[1..] == AttrsFrom(d, next);
    }
  }

  lemma {:induction false} FoldAppend<S>(step: (S, Attr) -> S, s: S, xs: seq<Attr>, ys: seq<Attr>)
    ensures Fold(step, s, xs + ys) == Fold(step, Fold(step, s, xs), ys)
    decreases |xs|
  {
    if xs == [] {
      assert xs + ys == ys;
    } else {
      assert (xs + ys)[1..] == xs[1..] + ys;
      FoldAppend(step, step(s, xs[0]), xs[1..], ys);
    }
  }

  lemma FoldSnoc<S>(step: (S, Attr) -> S, s: S, xs: seq<Attr>, a: Attr)
    ensures Fold(step, s, xs + [a]) == step(Fold(step, s, xs), a)
  {
    FoldAppend(step, s, xs, [a]);
  }

  /** An attribute that a step ignores in every state can be dropped from anywhere. */
  lemma FoldIgnores<S(!new)>(step: (S, Attr) -> S, s: S, xs: seq<Attr>, a: Attr, ys: seq<Attr>)
    requires forall s' :: step(s', a) == s'
    ensures Fold(step, s, xs + [a] + ys) == Fold(step, s, xs + ys)
  {
    FoldAppend(step, s, xs + [a], ys);
    FoldSnoc(step, s, xs, a);
    FoldAppend(step, s, xs, ys);
  }

  /** Streams whose attributes a step cannot tell apart fold to the same state. */
  lemma {:induction false} FoldSame<S(!new)>(step: (S, Attr) -> S, s: S, xs: seq<Attr>, ys: seq<Attr>)
    requires |xs| == |ys|
    requires forall i, s' :: 0 <= i < |xs| ==> step(s', xs[i]) == step(s', ys[i])
    ensures Fold(step, s, xs) == Fold(step, s, ys)
    decreases |xs|
  {
    if xs != [] {
      assert step(s, xs[0]) == step(s, ys[0]);
      forall i, s' | 0 <= i < |xs[1..]| ensures step(s', xs[1..][i]) == step(s', ys[1..][i]) {
        assert step(s', xs[i + 1]) == step(s', ys[i + 1]);
      }
      FoldSame(step, step(s, xs[0]), xs[1..], ys[1..]);
    }
  }

  // ---------- the last qualifying attribute ----------

  lemma {:induction false} FoldPast<S(!new)>(step: (S, Attr) -> S, s: S, a: Attr, xs: seq<Attr>)
    requires forall s', b :: b in xs ==> step(step(s', a), b) == step(step(s', b), a)
    ensures Fold(step, step(s, a), xs) == step(Fold(step, s, xs), a)
    decreases |xs|
  {
    if xs != [] {
      assert xs[0] in xs;
      FoldPast(step, step(s, xs[0]), a, xs[1..]);
    }
  }

  lemma FoldToEnd<S(!new)>(step: (S, Attr) -> S, s: S, before: seq<Attr>, a: Attr, behind: seq<Attr>)
    requires forall s', b :: b in behind ==> step(step(s', a), b) == step(step(s', b), a)
    ensures Fold(step, s, before + ([a] + behind)) == step(Fold(step, s, before + behind), a)
  {
    FoldAppend(step, s, before, [a] + behind);
    FoldOne(step, Fold(step, s, before), a, behind);
    FoldPast(step, Fold(step, s, before), a, behind);
    FoldAppend(step, s, before, behind);
  }

  lemma Removed(xs: seq<Attr>, i: nat)
    requires i < |xs|
    ensures xs == xs[..i] + ([xs[i]] + xs[i + 1..])
    ensures multiset(xs[..i] + xs[i + 1..]) == multiset(xs) - multiset{xs[i]}
  {
    assert xs == xs[..i] + ([xs[i]] + xs[i + 1..]);
  }

  lemma RemovedDistinct(xs: seq<Attr>, i: nat)
    requires i < |xs| && DistinctTypes(xs)
    ensures DistinctTypes(xs[..i] + xs[i + 1..])
    ensures forall b :: b in xs[i + 1..] ==> b.typ != xs[i].typ
  {
    var rest := xs[..i] + xs[i + 1..];
    assert forall k :: 0 <= k < |rest| ==> rest[k] == xs[if k < i then k else k + 1];
  }

  /** Where the last attribute of `ys` stands in a permutation of `ys`. */
  lemma LastFound(xs: seq<Attr>, ys: seq<Attr>) returns (i: nat)
    requires multiset(xs) == multiset(ys) && ys != []
    ensures i < |xs| && xs[i] == ys[|ys| - 1]
    ensures multiset(ys[..|ys| - 1]) == multiset(xs) - multiset{xs[i]}
  {
    var init, y := ys[..|ys| - 1], ys[|ys| - 1];
    assert ys == init + [y] && y in multiset(xs);
    i :| 0 <= i < |xs| && xs[i] == y;
  }

  /** A step that does not care in which order attributes of different types come folds all their orders alike. */
  lemma {:induction false} FoldPermuted<S(!new)>(step: (S, Attr) -> S, s: S, xs: seq<Attr>, ys: seq<Attr>)
    requires multiset(xs) == multiset(ys) && DistinctTypes(xs)
    requires forall s', a: Attr, b: Attr :: a.typ != b.typ ==> step(step(s', a), b) == step(step(s', b), a)
    ensures Fold(step, s, xs) == Fold(step, s, ys)
    decreases |ys|
  {
    if ys == [] {
      assert |multiset(xs)| == 0;
    } else {
      var init, y := ys[..|ys| - 1], ys[|ys| - 1];
      var i := LastFound(xs, ys);
      Removed(xs, i);
      RemovedDistinct(xs, i);
      var before, behind := xs[..i], xs[i + 1..];
      FoldToEnd(step, s, before, y, behind);
      FoldPermuted(step, s, before + behind, init);
      FoldSnoc(step, s, init, y);
      assert ys == init + [y];
    }
  }

  lemma FoldOne<S>(step: (S, Attr) -> S, s: S, a: Attr, xs: seq<Attr>)
    ensures Fold(step, s, [a] + xs) == Fold(step, step(s, a), xs)
  {
    assert ([a] + xs)[1..] == xs;
  }

  /** The payload of the last attribute of masked type `typ` carrying at least `min` bytes. */
  function Last(attrs: seq<Attr>, typ: u16, min: nat): (r: Option<seq<byte>>)
    ensures r.Some? ==> |r.value| >= min
    decreases |attrs|
  {
    if attrs == [] then None
    else
      var a := attrs[|attrs| - 1];
      if a.typ == typ && |a.payload| >= min then Some(a.payload) else Last(attrs[..|attrs| - 1], typ, min)
  }

  lemma LastSnoc(attrs: seq<Attr>, a: Attr, typ: u16, min: nat)
    ensures Last(attrs + [a], typ, min)
         == if a.typ == typ && |a.payload| >= min then Some(a.payload) else Last(attrs, typ, min)
  {
    assert (attrs + [a])[..|attrs|] == attrs;
  }

  lemma {:induction false} LastAppend(xs: seq<Attr>, ys: seq<Attr>, typ: u16, min: nat)
    ensures Last(xs + ys, typ, min) == if Last(ys, typ, min).Some? then Last(ys, typ, min) else Last(xs, typ, min)
    decreases |ys|
  {
    if ys == [] {
      assert xs + ys == xs;
    } else {
      assert (xs + ys)[..|xs + ys| - 1] == xs + ys[..|ys| - 1];
      LastAppend(xs, ys[..|ys| - 1], typ, min);
    }
  }

  /** `Last` is what its name says: the payload at the highest qualifying index. */
  lemma {:induction false} LastIsLast(attrs: seq<Attr>, typ: u16, min: nat, i: nat)
    requires i < |attrs| && attrs[i].typ == typ && |attrs[i].payload| >= min
    requires forall j :: i < j < |attrs| ==> !(attrs[j].typ == typ && |attrs[j].payload| >= min)
    ensures Last(attrs, typ, min) == Some(attrs[i].payload)
    decreases |attrs|
  {
    if i < |attrs| - 1 {
      LastIsLast(attrs[..|attrs| - 1], typ, min, i);
    }
  }

  lemma {:induction false} LastNone(attrs: seq<Attr>, typ: u16, min: nat)
    ensures Last(attrs, typ, min).None? <==> forall a :: a in attrs ==> !(a.typ == typ && |a.payload| >= min)
    decreases |attrs|
  {
    if attrs != [] {
      var init := attrs[..|attrs| - 1];
      LastNone(init, typ, min);
      assert attrs == init + [attrs[|attrs| - 1]];
    }
  }

  /** The attributes inside all the nests of type `typ`, one nest after the other. */
  function Inside(attrs: seq<Attr>, typ: u16): seq<Attr>
    decreases |attrs|
  {
    if attrs == [] then []
    else
      var a := attrs[|attrs| - 1];
      Inside(attrs[..|attrs| - 1], typ) + (if a.typ == typ then Attrs(a.payload) else [])
  }

  predicate DistinctTypes(attrs: seq<Attr>) {
    forall i, j :: 0 <= i < j < |attrs| ==> attrs[i].typ != attrs[j].typ
  }

  /** With pairwise distinct types the order of the attributes does not matter to `Last`. */
  lemma LastOfDistinct(xs: seq<Attr>, ys: seq<Attr>, typ: u16, min: nat)
    requires multiset(xs) == multiset(ys) && DistinctTypes(xs) && DistinctTypes(ys)
    ensures Last(xs, typ, min) == Last(ys, typ, min)
  {
    LastNone(xs, typ, min);
    LastNone(ys, typ, min);
    assert forall a :: a in xs <==> a in multiset(xs);
    assert forall a :: a in ys <==> a in multiset(ys);
    if a :| a in xs && a.typ == typ && |a.payload| >= min {
      assert a in ys;
      var i :| 0 <= i < |xs| && xs[i] == a;
      var j :| 0 <= j < |ys| && ys[j] == a;
      LastIsLast(xs, typ, min, i);
      LastIsLast(ys, typ, min, j);
    }
  }

  /** With pairwise distinct types there is at most one nest of a type. */
  lemma {:induction false} InsideOfDistinct(xs: seq<Attr>, typ: u16)
    requires DistinctTypes(xs)
    ensures Inside(xs, typ) == if Last(xs, typ, 0).Some? then Attrs(Last(xs, typ, 0).value) else []
    decreases |xs|
  {
    if xs != [] {
      var init, a := xs[..|xs| - 1], xs[|xs| - 1];
      InsideOfDistinct(init, typ);
      if a.typ == typ {
        LastNone(init, typ, 0);
      }
    }
  }

  // ---------- joining streams ----------

  lemma AttrsAppend(x: seq<byte>, y: seq<byte>)
    requires Whole(AttrReader, x, 0)
    ensures Attrs(x + y) == Attrs(x) + Attrs(y)
    ensures Whole(AttrReader, y, 0) ==> Whole(AttrReader, x + y, 0)
  {
    AttrReaderIsLocal();
    AttrsAreItems(x, 0);
    AttrsAreItems(y, 0);
    AttrsAreItems(x + y, 0);
    ItemsAppend(AttrReader, x, y, 0);
    if Whole(AttrReader, y, 0) {
      WholeAppend(AttrReader, x, y, 0);
    }
  }

  // ---------- encoding ----------

  /** The bytes of one attribute: header, payload, zero padding. */
  function EncAttr(typ: u16, payload: seq<byte>): (r: seq<byte>)
    requires |payload| <= 0xFFFB
    ensures |r| == Align4(4 + |payload|)
  {
    Le16(4 + |payload|) + Le16(typ) + payload + Zeros(Align4(4 + |payload|) - 4 - |payload|)
  }

  lemma EncAttrReads(typ: u16, payload: seq<byte>)
    requires |payload| <= 0xFFFB
    ensures var e := EncAttr(typ, payload);
            && Rd16Le(e, 0) == 4 + |payload|
            && Rd16Le(e, 2) == typ
            && e[4..4 + |payload|] == payload
  {
    var e := EncAttr(typ, payload);
    var alen, pad := Le16(4 + |payload|), Zeros(Align4(4 + |payload|) - 4 - |payload|);
    assert e == [] + alen + (Le16(typ) + payload + pad);
    ReadLe16([], 4 + |payload|, Le16(typ) + payload + pad);
    assert e == alen + Le16(typ) + (payload + pad);
    ReadLe16(alen, typ, payload + pad);
  }

  lemma EncAttrWhole(typ: u16, payload: seq<byte>)
    requires |payload| <= 0xFFFB
    ensures Whole(AttrReader, EncAttr(typ, payload), 0)
    ensures Attrs(EncAttr(typ, payload)) == [Attr(MaskType(typ), payload)]
  {
    EncAttrReads(typ, payload);
    var e := EncAttr(typ, payload);
    assert AttrReader(e, 0) == Item(Attr(MaskType(typ), payload), |e|);
    assert AttrsFrom(e, |e|) == [];
  }

  lemma MaskStripsFlags(typ: u16, flags: nat)
    requires typ < 0x4000 && flags < 4
    ensures MaskType(typ + 0x4000 * flags) == typ
  {
  }

  /** Whatever its two flag bits, an attribute is read under its plain type. */
  lemma FlagBitsAreStripped(typ: u16, flags: nat, payload: seq<byte>)
    requires typ < 0x4000 && flags < 4 && |payload| <= 0xFFFB
    ensures Attrs(EncAttr(typ + 0x4000 * flags, payload)) == [Attr(typ, payload)]
    ensures Whole(AttrReader, EncAttr(typ + 0x4000 * flags, payload), 0)
  {
    MaskStripsFlags(typ, flags);
    EncAttrWhole(typ + 0x4000 * flags, payload);
  }

  predicate Encodable(a: Attr) {
    a.typ < 0x4000 && |a.payload| <= 0xFFFB
  }

  predicate AllEncodable(attrs: seq<Attr>) {
    forall i :: 0 <= i < |attrs| ==> Encodable(attrs[i])
  }

  function EncAttrs(attrs: seq<Attr>): seq<byte>
    requires AllEncodable(attrs)
    decreases |attrs|
  {
    if attrs == [] then [] else
      assert Encodable(attrs[0]);
      EncAttr(attrs[0].typ, attrs[0].payload) + EncAttrs(attrs[1..])
  }

  lemma EncTwo(a: Attr, b: Attr)
    requires Encodable(a) && Encodable(b)
    ensures EncAttrs([a, b]) == EncAttr(a.typ, a.payload) + EncAttr(b.typ, b.payload)
  {
    assert [a, b][1..] == [b] && [b][1..] == [];
    assert EncAttrs([b]) == EncAttr(b.typ, b.payload);
  }

  lemma EncThree(a: Attr, b: Attr, c: Attr)
    requires Encodable(a) && Encodable(b) && Encodable(c)
    ensures EncAttrs([a, b, c])
         == EncAttr(a.typ, a.payload) + (EncAttr(b.typ, b.payload) + EncAttr(c.typ, c.payload))
  {
    assert [a, b, c][1..] == [b, c];
    EncTwo(b, c);
  }

  lemma {:induction false} EncAttrsAppend(xs: seq<Attr>, ys: seq<Attr>)
    requires AllEncodable(xs) && AllEncodable(ys)
    ensures AllEncodable(xs + ys) && EncAttrs(xs + ys) == EncAttrs(xs) + EncAttrs(ys)
    decreases |xs|
  {
    if xs == [] {
      assert xs + ys == ys;
    } else {
      assert (xs + ys)[1..] == xs[1..] + ys;
      EncAttrsAppend(xs[1..], ys);
      Associates(EncAttr(xs[0].typ, xs[0].payload), EncAttrs(xs[1..]), EncAttrs(ys));
    }
  }

  lemma EncAttrsSnoc(xs: seq<Attr>, a: Attr)
    requires AllEncodable(xs) && Encodable(a)
    ensures AllEncodable(xs + [a]) && EncAttrs(xs + [a]) == EncAttrs(xs) + EncAttr(a.typ, a.payload)
  {
    EncAttrsAppend(xs, [a]);
    assert [a][1..] == [] && EncAttrs([a]) == EncAttr(a.typ, a.payload);
  }

  /** Parsing undoes printing, for every list of attributes. */
  lemma {:induction false} AttrsUndoEncAttrs(attrs: seq<Attr>)
    requires AllEncodable(attrs)
    ensures Attrs(EncAttrs(attrs)) == attrs
    ensures Whole(AttrReader, EncAttrs(attrs), 0)
    decreases |attrs|
  {
    if attrs != [] {
      EncodedReads(attrs[0]);
      AttrsUndoEncAttrs(attrs[1..]);
      AttrsAppend(EncAttr(attrs[0].typ, attrs[0].payload), EncAttrs(attrs[1..]));
    }
  }

  lemma EncodedReads(a: Attr)
    requires Encodable(a)
    ensures Whole(AttrReader, EncAttr(a.typ, a.payload), 0) && Attrs(EncAttr(a.typ, a.payload)) == [a]
  {
    EncAttrWhole(a.typ, a.payload);
  }

  /** Encoded attributes end aligned. */
  lemma {:induction false} EncodedAligned(attrs: seq<Attr>)
    requires AllEncodable(attrs) && |EncAttrs(attrs)| <= 0xFFFF
    ensures Aligned(|EncAttrs(attrs)|)
    decreases |attrs|
  {
    if attrs == [] {
      Align4Is(0);
    } else {
      var len := 4 + |attrs[0].payload|;
      AlignIsAligned(len);
      EncodedAligned(attrs[1..]);
      AlignedSum(Align4(len), |EncAttrs(attrs[1..])|);
    }
  }

  /** At most `n` attributes with payloads of at most 72 bytes. */
  predicate Small(attrs: seq<Attr>, n: nat) {
    |attrs| <= n && forall i :: 0 <= i < |attrs| ==> attrs[i].typ < 0x4000 && |attrs[i].payload| <= 72
  }

  /** Such attributes stay below 80 bytes each. */
  lemma {:induction false} EncodedSize(attrs: seq<Attr>, n: nat)
    requires Small(attrs, n) && AllEncodable(attrs)
    ensures |EncAttrs(attrs)| <= 79 * |attrs|
    decreases |attrs|
  {
    if attrs != [] {
      Align4Is(4 + |attrs[0].payload|);
      EncodedSize(attrs[1..], n);
    }
  }

  lemma AttrsWithInsertion(x: seq<byte>, typ: u16, payload: seq<byte>, y: seq<byte>)
    requires Whole(AttrReader, x, 0) && |payload| <= 0xFFFB
    ensures Attrs(x + EncAttr(typ, payload) + y) == Attrs(x) + [Attr(MaskType(typ), payload)] + Attrs(y)
    ensures Attrs(x + y) == Attrs(x) + Attrs(y)
  {
    var u := EncAttr(typ, payload);
    EncAttrWhole(typ, payload);
    AttrsAppend(x, u);
    AttrsAppend(x + u, y);
    AttrsAppend(x, y);
  }
}
