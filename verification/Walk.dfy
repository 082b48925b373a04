/**
 Walking a buffer item by item: the shape that every attribute walker and every message walker of
 the library shares.  What an item is, and when the walk stops, is a parameter.
 */
module Walk {
  import opened Bytes

  /** What is found at an offset: nothing to step over, or an item and the distance to the next one. */
  datatype Step<+T> = Stop | Item(item: T, advance: nat)

  type Reader<!T> = (seq<byte>, nat) -> Step<T>

  /** The items a walk of `d` from offset `off` visits, in order. */
  function Items<T>(next: Reader<T>, d: seq<byte>, off: nat): seq<T>
    decreases |d| - off
  {
    if off > |d| then []
    else
      match next(d, off)
      case Stop => []
      case Item(x, n) => if n == 0 then [] else [x] + Items(next, d, off + n)
  }

  lemma ItemsStep<T>(next: Reader<T>, d: seq<byte>, off: nat, x: T, n: nat)
    requires off <= |d| && next(d, off) == Item(x, n) && n > 0
    ensures Items(next, d, off) == [x] + Items(next, d, off + n)
  {
  }

  /** The walk from `off` consumes `d` exactly. */
  predicate Whole<T>(next: Reader<T>, d: seq<byte>, off: nat)
    decreases |d| - off
  {
    if off >= |d| then off == |d|
    else next(d, off).Item? && next(d, off).advance > 0 && Whole(next, d, off + next(d, off).advance)
  }

  /** What is found in a suffix does not depend on what precedes it. */
  ghost predicate Skips<T>(next: Reader<T>, x: seq<byte>, y: seq<byte>, i: nat) {
    next(x + y, |x| + i) == next(y, i)
  }

  /** What is found stays when bytes are appended. */
  ghost predicate Extends<T>(next: Reader<T>, x: seq<byte>, y: seq<byte>, i: nat) {
    next(x, i).Item? ==> next(x + y, i) == next(x, i)
  }

  ghost predicate Local<T(!new)>(next: Reader<T>) {
    && (forall x, y, i: nat :: Skips(next, x, y, i))
    && (forall x, y, i: nat :: Extends(next, x, y, i))
    && (forall d :: next(d, |d|) == Stop)
  }

  lemma {:induction false} ItemsShift<T(!new)>(next: Reader<T>, x: seq<byte>, y: seq<byte>, i: nat)
    requires Local(next)
    ensures Items(next, x + y, |x| + i) == Items(next, y, i)
    decreases |y| - i
  {
    assert Skips(next, x, y, i);
    if i <= |y| && next(y, i).Item? && next(y, i).advance > 0 {
      ItemsShift(next, x, y, i + next(y, i).advance);
    }
  }

  /** Walks of whole buffers compose. */
  lemma {:induction false} ItemsAppend<T(!new)>(next: Reader<T>, x: seq<byte>, y: seq<byte>, i: nat)
    requires Local(next) && Whole(next, x, i)
    ensures Items(next, x + y, i) == Items(next, x, i) + Items(next, y, 0)
    decreases |x| - i
  {
    if i == |x| {
      ItemsShift(next, x, y, 0);
      assert Items(next, x, |x|) == [] by {
        assert next(x, |x|) == Stop;
      }
    } else {
      var s := next(x, i);
      ItemsTurn(next, x, y, i);
      ItemsAppend(next, x, y, i + s.advance);
      Associates([s.item], Items(next, x, i + s.advance), Items(next, y, 0));
    }
  }

  lemma ItemsTurn<T(!new)>(next: Reader<T>, x: seq<byte>, y: seq<byte>, i: nat)
    requires Local(next) && Whole(next, x, i) && i < |x|
    ensures var s := next(x, i);
            && s.Item? && s.advance > 0 && Whole(next, x, i + s.advance)
            && Items(next, x, i) == [s.item] + Items(next, x, i + s.advance)
            && Items(next, x + y, i) == [s.item] + Items(next, x + y, i + s.advance)
  {
    assert Extends(next, x, y, i);
  }

  lemma Associates<T>(x: seq<T>, y: seq<T>, z: seq<T>)
    ensures x + (y + z) == x + y + z
  {
  }

  lemma {:induction false} WholeShift<T(!new)>(next: Reader<T>, x: seq<byte>, y: seq<byte>, i: nat)
    requires Local(next)
    ensures Whole(next, x + y, |x| + i) == Whole(next, y, i)
    decreases |y| - i
  {
    assert Skips(next, x, y, i);
    if i < |y| && next(y, i).Item? && next(y, i).advance > 0 {
      WholeShift(next, x, y, i + next(y, i).advance);
    }
  }

  lemma {:induction false} WholeAppend<T(!new)>(next: Reader<T>, x: seq<byte>, y: seq<byte>, i: nat)
    requires Local(next) && Whole(next, x, i) && Whole(next, y, 0)
    ensures Whole(next, x + y, i)
    decreases |x| - i
  {
    if i == |x| {
      WholeShift(next, x, y, 0);
    } else {
      assert Extends(next, x, y, i);
      WholeAppend(next, x, y, i + next(x, i).advance);
    }
  }

  /** Cutting a buffer short only loses items at the end. */
  lemma {:induction false} ItemsOfPrefix<T(!new)>(next: Reader<T>, x: seq<byte>, y: seq<byte>, i: nat)
    requires Local(next)
    ensures Items(next, x, i) <= Items(next, x + y, i)
    decreases |x| - i
  {
    if i <= |x| && next(x, i).Item? && next(x, i).advance > 0 {
      assert Extends(next, x, y, i);
      ItemsOfPrefix(next, x, y, i + next(x, i).advance);
    }
  }

  lemma SameBehind<T>(x: seq<T>, y: seq<T>, z: seq<T>)
    ensures x + y == x + z <==> y == z
  {
    assert (x + y)[|x|..] == y && (x + z)[|x|..] == z;
  }
}
