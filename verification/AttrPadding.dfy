/**
 Bytes that no attribute walker looks at: alignment padding at every depth, the two flag bits of attribute types, and
 whatever follows the point where a walk stops.
 */
module AttrPadding {
  import opened Bytes
  import opened Walk
  import opened Attributes
  import CT = Conntrack
  import WL = Nl80211

  /**
   The nesting levels: the attributes of a conntrack message and of a direction, those of a station message and of
   its STA_INFO, and the innermost ones of both.
   */
  datatype Level = CtLevel | TupleLevel | TopLevel | StaLevel | LeafLevel

  /** The level inside an attribute of type `typ`, if it is a nest. */
  function Nest(lv: Level, typ: u16): Option<Level> {
    match lv
    case CtLevel => if typ == CT.CTA_TUPLE_ORIG || typ == CT.CTA_TUPLE_REPLY then Some(TupleLevel) else None
    case TupleLevel => if typ == CT.CTA_TUPLE_IP || typ == CT.CTA_TUPLE_PROTO then Some(LeafLevel) else None
    case TopLevel => if typ == WL.ATTR_STA_INFO then Some(StaLevel) else None
    case StaLevel => if typ == WL.STA_TX_BITRATE then Some(LeafLevel) else None
    case LeafLevel => None
  }

  /** From `off` on, two attribute streams agree on everything that is read at this and deeper levels. */
  predicate Alike(lv: Level, x: seq<byte>, y: seq<byte>, off: nat)
    decreases |x| - off
  {
    && |x| == |y|
    && (off + 4 <= |x| ==> Rd16Le(x, off) == Rd16Le(y, off))
    && (HasAttrAt(x, off) ==>
          var a, b := AttrAt(x, off), AttrAt(y, off);
          && a.typ == b.typ
          && (match Nest(lv, a.typ)
              case None => a.payload == b.payload
              case Some(inner) => Alike(inner, a.payload, b.payload, 0))
          && Alike(lv, x, y, off + Align4(Rd16Le(x, off))))
  }

  predicate AlikeAttr(lv: Level, a: Attr, b: Attr) {
    && a.typ == b.typ
    && match Nest(lv, a.typ)
       case None => a.payload == b.payload
       case Some(inner) => Alike(inner, a.payload, b.payload, 0)
  }

  lemma {:induction false} AlikeAttrs(lv: Level, x: seq<byte>, y: seq<byte>, off: nat)
    requires Alike(lv, x, y, off)
    ensures |AttrsFrom(x, off)| == |AttrsFrom(y, off)|
    ensures forall i :: 0 <= i < |AttrsFrom(x, off)| ==> AlikeAttr(lv, AttrsFrom(x, off)[i], AttrsFrom(y, off)[i])
    decreases |x| - off
  {
    if HasAttrAt(x, off) {
      var next := off + Align4(Rd16Le(x, off));
      AlikeAttrs(lv, x, y, next);
      assert AlikeAttr(lv, AttrAt(x, off), AttrAt(y, off));
    }
  }

  lemma AlikeLeaves(x: seq<byte>, y: seq<byte>)
    requires Alike(LeafLevel, x, y, 0)
    ensures Attrs(x) == Attrs(y)
  {
    AlikeAttrs(LeafLevel, x, y, 0);
  }

  // ---------- overwriting padding and flags ----------

  lemma {:induction false} AlikeSelf(lv: Level, x: seq<byte>, off: nat)
    ensures Alike(lv, x, x, off)
    decreases |x| - off
  {
    if HasAttrAt(x, off) {
      AlikeSelf(lv, x, off + Align4(Rd16Le(x, off)));
      match Nest(lv, AttrAt(x, off).typ)
      case None =>
      case Some(inner) => AlikeSelf(inner, AttrAt(x, off).payload, 0);
    }
  }

  lemma {:induction false} AlikeShift(lv: Level, p: seq<byte>, q: seq<byte>, u: seq<byte>, v: seq<byte>, j: nat)
    requires |p| == |q| && Alike(lv, u, v, j)
    ensures Alike(lv, p + u, q + v, |p| + j)
    decreases |u| - j
  {
    AttrReaderSkips(p, u, j);
    AttrReaderSkips(q, v, j);
    if HasAttrAt(u, j) {
      AlikeShift(lv, p, q, u, v, j + Align4(Rd16Le(u, j)));
    }
  }

  lemma AlikeKept(lv: Level, x: seq<byte>, u: seq<byte>, v: seq<byte>, i: nat)
    requires HasAttrAt(x, i) && |u| == |v| && Alike(lv, x + u, x + v, i + Align4(Rd16Le(x, i)))
    ensures Alike(lv, x + u, x + v, i)
  {
    AttrReaderExtends(x, u, i);
    AttrReaderExtends(x, v, i);
    SameAttrIsAlike(lv, AttrAt(x, i));
  }

  lemma AlikeBehind(lv: Level, x: seq<byte>, u: seq<byte>, v: seq<byte>)
    requires Alike(lv, u, v, 0)
    ensures Alike(lv, x + u, x + v, |x|)
  {
    AlikeShift(lv, x, x, u, v, 0);
  }

  lemma WholeStep(x: seq<byte>, i: nat)
    requires Whole(AttrReader, x, i) && i != |x|
    ensures HasAttrAt(x, i) && i + Align4(Rd16Le(x, i)) > i && Whole(AttrReader, x, i + Align4(Rd16Le(x, i)))
    ensures i < |x|
  {
  }

  lemma {:induction false} AlikeAfter(lv: Level, x: seq<byte>, u: seq<byte>, v: seq<byte>, i: nat)
    requires Whole(AttrReader, x, i) && Alike(lv, u, v, 0)
    ensures Alike(lv, x + u, x + v, i)
    decreases |x| - i
  {
    if i == |x| {
      AlikeBehind(lv, x, u, v);
    } else {
      WholeStep(x, i);
      AlikeAfter(lv, x, u, v, i + Align4(Rd16Le(x, i)));
      AlikeKept(lv, x, u, v, i);
    }
  }

  /** `u` is one attribute: whatever its flag bits, and whatever its padding, which only the last one may lack. */
  predicate OneAttr(u: seq<byte>, behind: seq<byte>) {
    HasAttrAt(u, 0) && Padded(Rd16Le(u, 0), |u|, behind)
  }

  lemma AlikeFirst(lv: Level, u: seq<byte>, v: seq<byte>)
    requires |u| == |v| && HasAttrAt(u, 0) && HasAttrAt(v, 0) && Rd16Le(u, 0) == Rd16Le(v, 0)
    requires AlikeAttr(lv, AttrAt(u, 0), AttrAt(v, 0)) && Alike(lv, u, v, Align4(Rd16Le(u, 0)))
    ensures Alike(lv, u, v, 0)
  {
  }

  lemma HeadStays(u: seq<byte>, y: seq<byte>)
    requires HasAttrAt(u, 0)
    ensures HasAttrAt(u + y, 0) && Rd16Le(u + y, 0) == Rd16Le(u, 0) && AttrAt(u + y, 0) == AttrAt(u, 0)
  {
    AttrReaderExtends(u, y, 0);
  }

  lemma AlikeTails(lv: Level, u: seq<byte>, v: seq<byte>, y: seq<byte>)
    requires |u| == |v|
    ensures Alike(lv, u + y, v + y, |u|)
  {
    AlikeSelf(lv, y, 0);
    AlikeShift(lv, u, v, y, y, 0);
  }

  lemma AlikeFronts(lv: Level, u: seq<byte>, v: seq<byte>, y: seq<byte>)
    requires HasAttrAt(u, 0) && HasAttrAt(v, 0) && Rd16Le(u, 0) == Rd16Le(v, 0)
    requires AlikeAttr(lv, AttrAt(u, 0), AttrAt(v, 0)) && |u| == |v|
    requires Alike(lv, u + y, v + y, Align4(Rd16Le(u, 0)))
    ensures Alike(lv, u + y, v + y, 0)
  {
    HeadStays(u, y);
    HeadStays(v, y);
    AlikeFirst(lv, u + y, v + y);
  }

  lemma AlikeEnds(lv: Level, x: seq<byte>, y: seq<byte>, off: nat)
    requires |x| == |y| <= off
    ensures Alike(lv, x, y, off)
  {
  }

  lemma AlikeHeads(lv: Level, u: seq<byte>, v: seq<byte>, y: seq<byte>)
    requires OneAttr(u, y) && OneAttr(v, y) && |u| == |v| && Rd16Le(u, 0) == Rd16Le(v, 0)
    requires AlikeAttr(lv, AttrAt(u, 0), AttrAt(v, 0))
    ensures Alike(lv, u + y, v + y, 0)
  {
    if |u| == Align4(Rd16Le(u, 0)) {
      AlikeTails(lv, u, v, y);
    } else {
      AlikeEnds(lv, u + y, v + y, Align4(Rd16Le(u, 0)));
    }
    AlikeFronts(lv, u, v, y);
  }

  /** At any level, behind any whole attributes and before anything: padding and flag bits may be overwritten. */
  lemma PaddingAndFlagsAreUnread(lv: Level, x: seq<byte>, u: seq<byte>, v: seq<byte>, y: seq<byte>)
    requires Whole(AttrReader, x, 0) && OneAttr(u, y) && OneAttr(v, y) && |u| == |v| && Rd16Le(u, 0) == Rd16Le(v, 0)
    requires AlikeAttr(lv, AttrAt(u, 0), AttrAt(v, 0))
    ensures Alike(lv, x + (u + y), x + (v + y), 0)
  {
    AlikeHeads(lv, u, v, y);
    AlikeAfter(lv, x, u + y, v + y, 0);
  }

  // ---------- at any depth ----------

  /** A nest of type `typ` among its siblings: whole attributes before it, any padding of its own, anything after it. */
  datatype Place = Place(before: seq<byte>, typ: u16, pad: seq<byte>, after: seq<byte>)

  /** The stream that holds `p` inside the nests of `path`, the outermost first, if they can be built. */
  function Nested(path: seq<Place>, p: seq<byte>): Option<seq<byte>>
    decreases |path|
  {
    if path == [] then Some(p)
    else
      match Nested(path[1..], p)
      case None => None
      case Some(n) => if Fits(path[0], |n|) then Some(InPlace(path[0], n)) else None
  }

  /** The length of a nest fits 16 bits, and only a nest with nothing behind it may lack padding. */
  predicate Fits(place: Place, n: nat) {
    n <= 0xFFFB && Padded(4 + n, 4 + n + |place.pad|, place.after)
  }

  function NestBytes(place: Place, p: seq<byte>): seq<byte>
    requires |p| <= 0xFFFB
  {
    Le16(4 + |p|) + Le16(place.typ) + (p + place.pad)
  }

  function InPlace(place: Place, p: seq<byte>): seq<byte>
    requires |p| <= 0xFFFB
  {
    place.before + (NestBytes(place, p) + place.after)
  }

  predicate WholeBefore(path: seq<Place>) {
    forall i :: 0 <= i < |path| ==> Whole(AttrReader, path[i].before, 0)
  }

  /** The level inside the nests of `path`, if the parser enters them all. */
  function LevelInside(lv: Level, path: seq<Place>): Option<Level>
    decreases |path|
  {
    if path == [] then Some(lv)
    else
      match Nest(lv, MaskType(path[0].typ))
      case None => None
      case Some(inner) => LevelInside(inner, path[1..])
  }

  lemma NestReads(place: Place, p: seq<byte>)
    requires Fits(place, |p|)
    ensures OneAttr(NestBytes(place, p), place.after) && Rd16Le(NestBytes(place, p), 0) == 4 + |p|
    ensures AttrAt(NestBytes(place, p), 0) == Attr(MaskType(place.typ), p)
  {
    var e, alen, typ, rest := NestBytes(place, p), Le16(4 + |p|), Le16(place.typ), p + place.pad;
    assert e == [] + alen + (typ + rest);
    ReadLe16([], 4 + |p|, typ + rest);
    ReadLe16(alen, place.typ, rest);
    assert e[4..4 + |p|] == p;
  }

  lemma AlikeNest(lv: Level, place: Place, p: seq<byte>, q: seq<byte>, inner: Level)
    requires Whole(AttrReader, place.before, 0) && Fits(place, |p|) && Nest(lv, MaskType(place.typ)) == Some(inner)
    requires Alike(inner, p, q, 0)
    ensures |q| == |p| && Alike(lv, InPlace(place, p), InPlace(place, q), 0)
  {
    NestReads(place, p);
    NestReads(place, q);
    PaddingAndFlagsAreUnread(lv, place.before, NestBytes(place, p), NestBytes(place, q), place.after);
  }

  lemma {:induction false} AlikeInside(lv: Level, path: seq<Place>, p: seq<byte>, q: seq<byte>)
    requires WholeBefore(path) && Nested(path, p).Some?
    requires LevelInside(lv, path).Some? && Alike(LevelInside(lv, path).value, p, q, 0)
    ensures Nested(path, q).Some? && Alike(lv, Nested(path, p).value, Nested(path, q).value, 0)
    decreases |path|
  {
    if path != [] {
      var inner := Nest(lv, MaskType(path[0].typ)).value;
      AlikeInside(inner, path[1..], p, q);
      AlikeNest(lv, path[0], Nested(path[1..], p).value, Nested(path[1..], q).value, inner);
    }
  }

  /** One attribute at any depth: the whole stream `p` is alike to the stream `q` with `v` for `u`. */
  lemma AlikeBody(
    lv: Level, path: seq<Place>, x: seq<byte>, u: seq<byte>, v: seq<byte>, y: seq<byte>, p: seq<byte>)
    returns (q: seq<byte>)
    requires Whole(AttrReader, x, 0) && OneAttr(u, y) && OneAttr(v, y) && |u| == |v| && AttrAt(u, 0) == AttrAt(v, 0)
    requires WholeBefore(path) && LevelInside(lv, path).Some? && Nested(path, x + (u + y)) == Some(p)
    ensures Nested(path, x + (v + y)) == Some(q) && Alike(lv, p, q, 0)
  {
    var inner := LevelInside(lv, path).value;
    SameAttrIsAlike(inner, AttrAt(u, 0));
    PaddingAndFlagsAreUnread(inner, x, u, v, y);
    AlikeInside(lv, path, x + (u + y), x + (v + y));
    q := Nested(path, x + (v + y)).value;
  }

  lemma SameAttrIsAlike(lv: Level, a: Attr)
    ensures AlikeAttr(lv, a, a)
  {
    match Nest(lv, a.typ)
    case None =>
    case Some(inner) => AlikeSelf(inner, a.payload, 0);
  }
}
