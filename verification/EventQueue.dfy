/**
 The fixed ring of events that every context embeds.  The ring refines a bounded first-in first-out
 list that refuses the newest element when it is full, over every run of pushes, pops and resets.
 */
module EventQueue {
  import opened Bytes

  const MAX_Q: nat := 32

  function Clamp(size: nat, default: nat): (qsz: nat)
    requires 1 <= default <= MAX_Q
    ensures 1 <= qsz <= MAX_Q
    ensures 1 <= size <= 32 ==> qsz == size
    ensures size == 0 ==> qsz == default
    ensures size > 32 ==> qsz == 32
  {
    var s := if size != 0 then size else default;
    if s > MAX_Q then MAX_Q else s
  }

  // ---------- the bounded list ----------

  /** `items` after offering one more element to a list of capacity `cap`. */
  function Offered<T>(cap: nat, items: seq<T>, e: T): seq<T> {
    if |items| >= cap then items else items + [e]
  }

  /** `items` after offering every element of `es` in order. */
  function OfferedAll<T>(cap: nat, items: seq<T>, es: seq<T>): seq<T>
    decreases |es|
  {
    if es == [] then items else OfferedAll(cap, Offered(cap, items, es[0]), es[1..])
  }

  /** Offering a burst keeps its longest prefix that fits: the newest elements are the ones dropped. */
  lemma {:induction false} OfferedAllKeepsPrefix<T>(cap: nat, items: seq<T>, es: seq<T>)
    requires |items| <= cap
    ensures OfferedAll(cap, items, es) == items + es[..if |es| <= cap - |items| then |es| else cap - |items|]
    decreases |es|
  {
    if es != [] {
      OfferedAllKeepsPrefix(cap, Offered(cap, items, es[0]), es[1..]);
    }
  }

  lemma {:induction false} OfferedAllAppend<T>(cap: nat, items: seq<T>, xs: seq<T>, ys: seq<T>)
    ensures OfferedAll(cap, items, xs + ys) == OfferedAll(cap, OfferedAll(cap, items, xs), ys)
    decreases |xs|
  {
    if xs == [] {
      assert xs + ys == ys;
    } else {
      assert (xs + ys)[1..] == xs[1..] + ys;
      OfferedAllAppend(cap, Offered(cap, items, xs[0]), xs[1..], ys);
    }
  }

  // ---------- runs ----------

  datatype Op<T> = Push(e: T) | Pop

  /** The books of a queue since its last reset. */
  datatype Books<T> = Books(items: seq<T>, accepted: seq<T>, dropped: seq<T>, popped: seq<T>)

  function NewBooks<T>(): Books<T> {
    Books([], [], [], [])
  }

  function Enter<T>(cap: nat, b: Books<T>, op: Op<T>): Books<T> {
    match op
    case Push(e) =>
      if |b.items| >= cap then b.(dropped := b.dropped + [e])
      else b.(items := b.items + [e], accepted := b.accepted + [e])
    case Pop =>
      if b.items == [] then b
      else b.(items := b.items[1..], popped := b.popped + [b.items[0]])
  }

  function Replay<T>(cap: nat, history: seq<Op<T>>): Books<T>
    decreases |history|
  {
    if history == [] then NewBooks()
    else Enter(cap, Replay(cap, history[..|history| - 1]), history[|history| - 1])
  }

  lemma ReplaySnoc<T>(cap: nat, history: seq<Op<T>>, op: Op<T>)
    ensures Replay(cap, history + [op]) == Enter(cap, Replay(cap, history), op)
  {
    assert (history + [op])[..|history|] == history;
  }

  function PushedIn<T>(history: seq<Op<T>>): seq<T>
    decreases |history|
  {
    if history == [] then []
    else
      var op := history[|history| - 1];
      PushedIn(history[..|history| - 1]) + (if op.Push? then [op.e] else [])
  }

  /** Over every run: what was accepted is what was popped followed by what is queued, within capacity. */
  lemma {:induction false} AcceptedIsPoppedThenQueued<T>(cap: nat, history: seq<Op<T>>)
    ensures var b := Replay(cap, history);
            b.accepted == b.popped + b.items && |b.items| <= cap
    decreases |history|
  {
    if history != [] {
      AcceptedIsPoppedThenQueued(cap, history[..|history| - 1]);
    }
  }

  /** Over every run: each event pushed was either accepted or dropped, and none was invented. */
  lemma {:induction false} PushedIsAcceptedOrDropped<T>(cap: nat, history: seq<Op<T>>)
    ensures var b := Replay(cap, history);
            && multiset(PushedIn(history)) == multiset(b.accepted) + multiset(b.dropped)
            && |PushedIn(history)| == |b.accepted| + |b.dropped|
    decreases |history|
  {
    if history != [] {
      PushedIsAcceptedOrDropped(cap, history[..|history| - 1]);
    }
  }

  // ---------- the ring ----------

  /** The slot `i` places after `head`. */
  function Slot(qsz: nat, head: nat, i: nat): (slot: nat)
    requires head < qsz && i <= qsz
    ensures slot < qsz
  {
    if head + i < qsz then head + i else head + i - qsz
  }

  lemma SlotIsModulo(qsz: nat, head: nat, i: nat)
    requires head < qsz && i <= qsz
    ensures Slot(qsz, head, i) == (head + i) % qsz
  {
  }

  /** Advancing an index by one is advancing by one slot, whatever the head. */
  lemma AdvanceIsSlot(qsz: nat, head: nat, i: nat)
    requires head < qsz && i < qsz
    ensures (Slot(qsz, head, i) + 1) % qsz == Slot(qsz, head, i + 1)
  {
    SlotIsModulo(qsz, Slot(qsz, head, i), 1);
  }

  class Ring<T(0)> {
    const q: array<T>
    var qsz: nat
    var head: nat
    var tail: nat
    var cnt: nat
    /** What happened since the last reset; `books.items` are the queued events, oldest first. */
    ghost var books: Books<T>

    ghost predicate Valid()
      reads this, q
    {
      && q.Length == MAX_Q
      && 1 <= qsz <= MAX_Q
      && head < qsz && cnt == |books.items| <= qsz
      && tail == Slot(qsz, head, cnt)
      && forall i {:trigger Slot(qsz, head, i)} :: 0 <= i < cnt ==> q[Slot(qsz, head, i)] == books.items[i]
    }

    constructor (size: nat, default: nat)
      requires 1 <= default <= MAX_Q
      ensures Valid() && fresh(q)
      ensures qsz == Clamp(size, default)
      ensures books == NewBooks()
    {
      q := new T[MAX_Q];
      qsz := Clamp(size, default);
      head, tail, cnt := 0, 0, 0;
      books := NewBooks();
    }

    /** `qinit(c, c->qsz)`: the size is never 0 here, so the default is not taken. */
    method Reset(default: nat)
      requires Valid() && 1 <= default <= MAX_Q
      modifies this
      ensures Valid() && qsz == old(qsz)
      ensures books == NewBooks()
    {
      qsz := Clamp(qsz, default);
      head, tail, cnt := 0, 0, 0;
      books := NewBooks();
    }

    method Push(e: T) returns (ok: bool)
      requires Valid()
      modifies this, q
      ensures Valid() && qsz == old(qsz)
      ensures ok <==> |old(books).items| < qsz
      ensures books == Enter(qsz, old(books), Op.Push(e))
      ensures books.items == Offered(qsz, old(books).items, e)
    {
      books := Enter(qsz, books, Op.Push(e));
      if cnt >= qsz {
        return false;
      }
      AdvanceIsSlot(qsz, head, cnt);
      q[tail] := e;
      tail := (tail + 1) % qsz;
      cnt := cnt + 1;
      return true;
    }

    method Pop() returns (r: Option<T>)
      requires Valid()
      modifies this
      ensures Valid() && qsz == old(qsz)
      ensures r == if old(books).items == [] then None else Some(old(books).items[0])
      ensures books == Enter(qsz, old(books), Op<T>.Pop)
    {
      books := Enter(qsz, books, Op<T>.Pop);
      if cnt == 0 {
        return None;
      }
      assert Slot(qsz, head, 0) == head;
      AdvanceIsSlot(qsz, head, 0);
      r := Some(q[head]);
      head := (head + 1) % qsz;
      cnt := cnt - 1;
      forall i | 0 <= i < cnt ensures q[Slot(qsz, head, i)] == books.items[i] {
        assert Slot(qsz, head, i) == Slot(qsz, old(head), i + 1);
      }
    }
  }

  /** Any sequence of pushes and pops on a ring that has just been created or reset leaves the replayed books. */
  method Perform<T(0)>(ring: Ring<T>, history: seq<Op<T>>)
    requires ring.Valid() && ring.books == NewBooks()
    modifies ring, ring.q
    ensures ring.Valid() && ring.qsz == old(ring.qsz)
    ensures ring.books == Replay(ring.qsz, history)
    ensures ring.books.accepted == ring.books.popped + ring.books.items
  {
    ghost var cap := ring.qsz;
    var k := 0;
    while k < |history|
      invariant k <= |history| && ring.Valid() && ring.qsz == cap
      invariant ring.books == Replay(cap, history[..k])
    {
      assert history[..k + 1][..k] == history[..k];
      match history[k] {
        case Push(e) => var _ := ring.Push(e);
        case Pop => var _ := ring.Pop();
      }
      k := k + 1;
    }
    assert history[..k] == history;
    AcceptedIsPoppedThenQueued(cap, history);
  }
}
