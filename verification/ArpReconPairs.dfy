/** Which entries of a neighbour table are in conflict, how many pairs they are, and what the spoof scan counts. */
module ArpReconPairs {
  import opened Bytes
  import opened EventQueue
  import opened Diagnostics
  import opened ArpRecon

  // ---------- pairs in conflict ----------

  /** How many entries of `table` conflict with `n`. */
  function ConflictsWith(table: seq<Neighbour>, n: Neighbour): nat
    decreases |table|
  {
    if table == [] then 0
    else ConflictsWith(table[..|table| - 1], n) + if Conflict(table[|table| - 1], n) then 1 else 0
  }

  function PairCount(table: seq<Neighbour>): nat
    decreases |table|
  {
    if table == [] then 0
    else PairCount(table[..|table| - 1]) + ConflictsWith(table[..|table| - 1], table[|table| - 1])
  }

  /** The positions of conflicting entries, earlier one first. */
  ghost function ConflictingPairs(table: seq<Neighbour>): set<(nat, nat)> {
    set i: nat, j: nat | i < j < |table| && Conflict(table[i], table[j]) :: (i, j)
  }

  ghost function ConflictingBelow(table: seq<Neighbour>, n: Neighbour): set<nat> {
    set i: nat | i < |table| && Conflict(table[i], n)
  }

  lemma {:induction false} ConflictsAreCardinality(table: seq<Neighbour>, n: Neighbour)
    ensures ConflictsWith(table, n) == |ConflictingBelow(table, n)|
    decreases |table|
  {
    if table != [] {
      var k := |table| - 1;
      ConflictsAreCardinality(table[..k], n);
      var below := ConflictingBelow(table[..k], n);
      assert ConflictingBelow(table, n) == if Conflict(table[k], n) then below + {k} else below;
    }
  }

  lemma {:induction false} PairsWith(below: set<nat>, k: nat)
    ensures var pairs := set i: nat | i in below :: (i, k);
            |pairs| == |below|
    decreases |below|
  {
    var pairs := set i: nat | i in below :: (i, k);
    if below != {} {
      var i :| i in below;
      PairsWith(below - {i}, k);
      assert pairs == (set j: nat | j in below - {i} :: (j, k)) + {(i, k)};
    }
  }

  lemma PairsOfLast(table: seq<Neighbour>)
    requires table != []
    ensures var k := |table| - 1;
            var pairs := set i: nat | i in ConflictingBelow(table[..k], table[k]) :: (i, k);
            && ConflictingPairs(table) == ConflictingPairs(table[..k]) + pairs
            && ConflictingPairs(table[..k]) !! pairs
  {
  }

  lemma {:induction false} PairCountIsCardinality(table: seq<Neighbour>)
    ensures PairCount(table) == |ConflictingPairs(table)|
    decreases |table|
  {
    if table != [] {
      var k := |table| - 1;
      PairCountIsCardinality(table[..k]);
      ConflictsAreCardinality(table[..k], table[k]);
      var below := ConflictingBelow(table[..k], table[k]);
      PairsWith(below, k);
      PairsOfLast(table);
    }
  }

  lemma {:induction false} ConflictsFit(table: seq<Neighbour>, n: Neighbour)
    ensures ConflictsWith(table, n) <= |table|
    decreases |table|
  {
    if table != [] {
      ConflictsFit(table[..|table| - 1], n);
    }
  }

  /** At most every two of the entries are in conflict. */
  lemma {:induction false} PairCountFits(table: seq<Neighbour>)
    ensures 2 * PairCount(table) <= |table| * (|table| - 1)
    decreases |table|
  {
    if table != [] {
      var init := table[..|table| - 1];
      PairCountFits(init);
      ConflictsFit(init, table[|table| - 1]);
      assert |table| * (|table| - 1) == |init| * (|init| - 1) + 2 * |init|;
    }
  }

  /** The recorded relation gives each address to one station. */
  predicate Functional(table: seq<Neighbour>) {
    forall x, y :: x in table && y in table && x.ip == y.ip ==> x.mac == y.mac
  }

  lemma PairFound(table: seq<Neighbour>, i: nat, j: nat)
    requires i < |table| && j < |table| && Conflict(table[i], table[j])
    ensures PairCount(table) > 0
  {
    PairCountIsCardinality(table);
    assert (if i < j then (i, j) else (j, i)) in ConflictingPairs(table);
  }

  lemma SomePair(table: seq<Neighbour>)
    requires PairCount(table) > 0
    ensures !Functional(table)
  {
    PairCountIsCardinality(table);
    var p :| p in ConflictingPairs(table);
    assert table[p.0] in table && table[p.1] in table;
  }

  lemma NoPairsIffFunctional(table: seq<Neighbour>)
    ensures PairCount(table) == 0 <==> Functional(table)
  {
    if !Functional(table) {
      var x, y :| x in table && y in table && x.ip == y.ip && x.mac != y.mac;
      var i :| 0 <= i < |table| && table[i] == x;
      var j :| 0 <= j < |table| && table[j] == y;
      PairFound(table, i, j);
    } else if PairCount(table) > 0 {
      SomePair(table);
    }
  }

  lemma {:induction false} NoConflictsWith(table: seq<Neighbour>, n: Neighbour)
    ensures ConflictsWith(table, n) == 0 <==> forall i :: 0 <= i < |table| ==> !Conflict(table[i], n)
    decreases |table|
  {
    if table != [] {
      NoConflictsWith(table[..|table| - 1], n);
    }
  }

  /** No entry from the `k`-th on conflicts with an earlier one. */
  ghost predicate QuietFrom(table: seq<Neighbour>, k: nat) {
    forall i, j :: 0 <= i < j < |table| && j >= k ==> !Conflict(table[i], table[j])
  }

  lemma QuietSnoc(table: seq<Neighbour>, k: nat)
    requires k < |table|
    ensures var last := |table| - 1;
            QuietFrom(table, k) <==>
            QuietFrom(table[..last], k) && forall i :: 0 <= i < last ==> !Conflict(table[i], table[last])
  {
  }

  /** Cutting a table off loses pairs unless no later entry conflicts with an earlier one. */
  lemma {:induction false} PairCountOfPrefix(table: seq<Neighbour>, k: nat)
    requires k <= |table|
    ensures PairCount(table[..k]) <= PairCount(table)
    ensures PairCount(table[..k]) == PairCount(table) <==> QuietFrom(table, k)
    decreases |table|
  {
    if k == |table| {
      assert table[..k] == table;
    } else {
      var last := |table| - 1;
      assert table[..last][..k] == table[..k];
      PairCountOfPrefix(table[..last], k);
      NoConflictsWith(table[..last], table[last]);
      QuietSnoc(table, k);
    }
  }

  // ---------- the order of the entries ----------

  function Without(table: seq<Neighbour>, i: nat): seq<Neighbour>
    requires i < |table|
  {
    table[..i] + table[i + 1..]
  }

  lemma WithoutOther(table: seq<Neighbour>, i: nat)
    requires i < |table| - 1
    ensures Without(table, i) == Without(table[..|table| - 1], i) + [table[|table| - 1]]
  {
  }

  lemma ConflictsSnoc(table: seq<Neighbour>, x: Neighbour, n: Neighbour)
    ensures ConflictsWith(table + [x], n) == ConflictsWith(table, n) + if Conflict(x, n) then 1 else 0
  {
    assert (table + [x])[..|table|] == table;
  }

  lemma PairCountSnoc(table: seq<Neighbour>, x: Neighbour)
    ensures PairCount(table + [x]) == PairCount(table) + ConflictsWith(table, x)
  {
    assert (table + [x])[..|table|] == table;
  }

  lemma {:induction false} ConflictsWithout(table: seq<Neighbour>, i: nat, n: Neighbour)
    requires i < |table|
    ensures ConflictsWith(table, n) == ConflictsWith(Without(table, i), n) + if Conflict(table[i], n) then 1 else 0
    decreases |table|
  {
    var k := |table| - 1;
    if i == k {
      assert Without(table, i) == table[..k];
    } else {
      ConflictsWithout(table[..k], i, n);
      WithoutOther(table, i);
      ConflictsSnoc(Without(table[..k], i), table[k], n);
    }
  }

  lemma PairCountTurn(init: seq<Neighbour>, without: seq<Neighbour>, x: Neighbour, y: Neighbour)
    requires PairCount(init) == PairCount(without) + ConflictsWith(without, y)
    requires ConflictsWith(init, x) == ConflictsWith(without, x) + if Conflict(y, x) then 1 else 0
    ensures PairCount(init + [x]) == PairCount(without + [x]) + ConflictsWith(without + [x], y)
  {
    PairCountSnoc(init, x);
    PairCountSnoc(without, x);
    ConflictsSnoc(without, x, y);
  }

  /** An entry can be counted as if it were the newest, because conflicts are symmetric. */
  lemma {:induction false} PairCountWithout(table: seq<Neighbour>, i: nat)
    requires i < |table|
    ensures PairCount(table) == PairCount(Without(table, i)) + ConflictsWith(Without(table, i), table[i])
    decreases |table|
  {
    var k := |table| - 1;
    if i == k {
      assert Without(table, i) == table[..k];
    } else {
      var init, x := table[..k], table[k];
      PairCountWithout(init, i);
      ConflictsWithout(init, i, x);
      WithoutOther(table, i);
      PairCountTurn(init, Without(init, i), x, init[i]);
      assert table == init + [x];
    }
  }

  lemma {:induction false} ConflictsOrder(xs: seq<Neighbour>, ys: seq<Neighbour>, n: Neighbour)
    requires multiset(xs) == multiset(ys)
    ensures ConflictsWith(xs, n) == ConflictsWith(ys, n)
    decreases |ys|
  {
    if ys == [] {
      assert |multiset(xs)| == 0;
    } else {
      var i := SameLast(xs, ys);
      ConflictsWithout(xs, i, n);
      ConflictsOrder(Without(xs, i), ys[..|ys| - 1], n);
    }
  }

  lemma SameLast(xs: seq<Neighbour>, ys: seq<Neighbour>) returns (i: nat)
    requires multiset(xs) == multiset(ys) && ys != []
    ensures i < |xs| && xs[i] == ys[|ys| - 1]
    ensures multiset(Without(xs, i)) == multiset(ys[..|ys| - 1])
  {
    var y := ys[|ys| - 1];
    assert ys == ys[..|ys| - 1] + [y];
    assert y in multiset(xs);
    i :| 0 <= i < |xs| && xs[i] == y;
    assert xs == xs[..i] + [y] + xs[i + 1..];
    assert multiset(Without(xs, i)) == multiset(xs) - multiset{y};
  }

  lemma {:induction false} PairCountOrder(xs: seq<Neighbour>, ys: seq<Neighbour>)
    requires multiset(xs) == multiset(ys)
    ensures PairCount(xs) == PairCount(ys)
    decreases |ys|
  {
    if ys == [] {
      assert |multiset(xs)| == 0;
    } else {
      var i := SameLast(xs, ys);
      PairCountWithout(xs, i);
      PairCountOrder(Without(xs, i), ys[..|ys| - 1]);
      ConflictsOrder(Without(xs, i), ys[..|ys| - 1], xs[i]);
    }
  }

  // ---------- the scan ----------

  predicate IsSpoof(e: Event) { e.ArpSpoof? }

  predicate IsReplyEvent(e: Event) { e.ArpReply? }

  predicate IsAnomaly(e: Event) { e.ArpAnomaly? }

  /** A scan counts one spoof for each older entry in conflict, and touches nothing else but the queue. */
  lemma {:induction false} ScanCounts(s: State, i: nat)
    requires i < |s.neighbours| <= MAX_NEIGH && s.counters.dups < TWO32 - MAX_NEIGH
    ensures var k := ConflictsWith(s.neighbours[..i], s.neighbours[|s.neighbours| - 1]);
            var t := Scan(s, i);
            && k <= i
            && t == s.(books := t.books, counters := s.counters.(dups := s.counters.dups + k))
  {
    if i > 0 {
      ScanCounts(s, i - 1);
      OneMoreEntry(s.neighbours, i, s.neighbours[|s.neighbours| - 1]);
    }
  }

  lemma {:induction false} ScanKeeps(s: State, i: nat)
    requires i < |s.neighbours|
    ensures Scan(s, i).neighbours == s.neighbours && Scan(s, i).cap == s.cap
  {
    if i > 0 {
      ScanKeeps(s, i - 1);
    }
  }

  lemma OneMoreEntry(table: seq<Neighbour>, i: nat, n: Neighbour)
    requires 0 < i <= |table|
    ensures ConflictsWith(table[..i], n)
         == ConflictsWith(table[..i - 1], n) + if Conflict(table[i - 1], n) then 1 else 0
  {
    assert table[..i][..i - 1] == table[..i - 1];
  }

  lemma ScanTurn(s: State, i: nat)
    requires 0 < i < |s.neighbours|
    ensures var b := Scan(s, i - 1).books;
            Scan(s, i).books == if Conflict(s.neighbours[i - 1], s.neighbours[|s.neighbours| - 1])
                                then Enter(s.cap, b, Op<Event>.Push(ArpSpoof)) else b
  {
    ScanKeeps(s, i - 1);
  }

  lemma SeenTurn(cap: nat, b: Books<Event>, b': Books<Event>, found: bool, p: Event -> bool)
    requires b' == if found then Enter(cap, b, Op<Event>.Push(ArpSpoof)) else b
    ensures Seen(b', p) == Seen(b, p) + if found && p(ArpSpoof) then 1 else 0
  {
    SeenPush(cap, b, ArpSpoof, p);
  }

  /** It pushes as many spoofs as it counts, and nothing else. */
  lemma {:induction false} ScanPushes(s: State, i: nat, p: Event -> bool)
    requires i < |s.neighbours|
    ensures var k := ConflictsWith(s.neighbours[..i], s.neighbours[|s.neighbours| - 1]);
            Seen(Scan(s, i).books, p) == Seen(s.books, p) + if p(ArpSpoof) then k else 0
  {
    if i > 0 {
      ScanPushes(s, i - 1, p);
      ScanTurn(s, i);
      SeenTurn(s.cap, Scan(s, i - 1).books, Scan(s, i).books,
               Conflict(s.neighbours[i - 1], s.neighbours[|s.neighbours| - 1]), p);
      OneMoreEntry(s.neighbours, i, s.neighbours[|s.neighbours| - 1]);
    }
  }
}
