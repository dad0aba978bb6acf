/** The progress state machine of the game, on record values: the
    invariants a record keeps, the transition a correct answer causes, and
    the helpers that create an order and pick the first riddle. */
module Progression {
  import opened Wrappers
  import opened Models

  /** No id occurs twice. */
  predicate NoDup(s: seq<int>) {
    forall i, j :: 0 <= i < j < |s| ==> s[i] != s[j]
  }

  /** `order` lists every id of `ids` exactly once, and nothing else. */
  predicate IsPermutationOf(order: seq<int>, ids: set<int>) {
    NoDup(order) && (forall x <- order :: x in ids) && (forall x <- ids :: x in order)
  }

  /** Python's `list.index`: the first position of `x`, or -1 where Python
      raises ValueError. */
  function IndexOf(s: seq<int>, x: int): (k: int)
    ensures -1 <= k < |s|
    ensures k == -1 <==> x !in s
    ensures 0 <= k ==> s[k] == x && x !in s[..k]
  {
    if s == [] then -1
    else if s[0] == x then 0
    else
      var j := IndexOf(s[1..], x);
      assert s[1..][..if j < 0 then 0 else j] == s[1..1 + if j < 0 then 0 else j];
      if j == -1 then -1 else j + 1
  }

  /** The points a riddle is worth; an id outside the catalog is worth 0. */
  function PointsOf(catalog: Catalog, id: int): int {
    if id in catalog then catalog[id].points else 0
  }

  /** The points of every id in `ids`, added up from the front. */
  function SumPoints(catalog: Catalog, ids: seq<int>): int {
    if ids == [] then 0
    else SumPoints(catalog, ids[..|ids| - 1]) + PointsOf(catalog, ids[|ids| - 1])
  }

  lemma SumPointsAppend(catalog: Catalog, ids: seq<int>, id: int)
    ensures SumPoints(catalog, ids + [id]) == SumPoints(catalog, ids) + PointsOf(catalog, id)
  {
    assert (ids + [id])[..|ids|] == ids;
  }

  lemma {:induction false} SumPointsConcat(catalog: Catalog, a: seq<int>, b: seq<int>)
    ensures SumPoints(catalog, a + b) == SumPoints(catalog, a) + SumPoints(catalog, b)
    decreases |b|
  {
    if b == [] {
      assert a + b == a;
    } else {
      var b' := b[..|b| - 1];
      assert b == b' + [b[|b| - 1]];
      assert a + b == (a + b') + [b[|b| - 1]];
      SumPointsConcat(catalog, a, b');
      SumPointsAppend(catalog, a + b', b[|b| - 1]);
      SumPointsAppend(catalog, b', b[|b| - 1]);
    }
  }

  /** Taking one element out of a list takes its points out of the total. */
  lemma SumPointsRemoveAt(catalog: Catalog, t: seq<int>, k: int)
    requires 0 <= k < |t|
    ensures SumPoints(catalog, t) == SumPoints(catalog, t[..k] + t[k + 1..]) + PointsOf(catalog, t[k])
  {
    assert t == t[..k] + [t[k]] + t[k + 1..];
    SumPointsConcat(catalog, t[..k] + [t[k]], t[k + 1..]);
    SumPointsConcat(catalog, t[..k], t[k + 1..]);
    SumPointsAppend(catalog, t[..k], t[k]);
  }

  lemma MultisetCancel(a: multiset<int>, b: multiset<int>, x: int)
    requires a + multiset{x} == b + multiset{x}
    ensures a == b
  {
    forall y ensures a[y] == b[y] {
      assert (a + multiset{x})[y] == a[y] + multiset{x}[y];
      assert (b + multiset{x})[y] == b[y] + multiset{x}[y];
    }
  }

  /** The total does not depend on the order in which riddles were solved. */
  lemma {:induction false} SumPointsPermutation(catalog: Catalog, s: seq<int>, t: seq<int>)
    requires multiset(s) == multiset(t)
    ensures SumPoints(catalog, s) == SumPoints(catalog, t)
    decreases |s|
  {
    if s == [] {
      assert |multiset(t)| == 0;
    } else {
      var x := s[|s| - 1];
      var s' := s[..|s| - 1];
      assert s == s' + [x];
      assert x in multiset(t);
      var k := IndexOf(t, x);
      var t' := t[..k] + t[k + 1..];
      assert t == t[..k] + [x] + t[k + 1..];
      assert multiset(t) == multiset(t') + multiset{x};
      MultisetCancel(multiset(s'), multiset(t'), x);
      SumPointsPermutation(catalog, s', t');
      SumPointsAppend(catalog, s', x);
      SumPointsRemoveAt(catalog, t, k);
    }
  }

  // ---------------------------------------------------------------------
  // Invariants of a record

  /** What every record keeps: the completed list has no duplicates, holds
      catalog ids only, and the points are the sum of its riddles' points. */
  ghost predicate Consistent(row: ProgressRow, catalog: Catalog) {
    NoDup(row.completed)
    && (forall x :: x in row.completed ==> x in catalog)
    && row.points == SumPoints(catalog, row.completed)
  }

  /** What a record created by the game page keeps besides: its order is a
      permutation of the catalog ids and the pointer is one of them. */
  ghost predicate Shuffled(row: ProgressRow, catalog: Catalog) {
    IsPermutationOf(row.order, catalog.Keys) && row.current in row.order
  }

  // ---------------------------------------------------------------------
  // Creation (routes.py:93-108)

  /** The record the game page stores for a new session with order `order`. */
  function StartRow(id: int, sessionId: string, order: seq<int>): (row: ProgressRow)
    requires order != []
    ensures row.order == order && row.current == order[0]
    ensures row.completed == [] && row.points == 0 && !row.eligible
    ensures row.wallet == None && row.airdropStatus == STATUS_PENDING
  {
    DefaultRow(id, sessionId, order[0]).(order := order)
  }

  /** A new record starts consistent and, when its order is a permutation
      of the catalog ids, shuffled. */
  lemma StartRowInvariants(catalog: Catalog, id: int, sessionId: string, order: seq<int>)
    requires order != [] && IsPermutationOf(order, catalog.Keys)
    ensures Consistent(StartRow(id, sessionId, order), catalog)
    ensures Shuffled(StartRow(id, sessionId, order), catalog)
  {
  }

  /** An order that starts at `first` and then lists the other ids once. */
  method OrderFrom(first: int, ids: set<int>) returns (order: seq<int>)
    requires first in ids
    ensures order != [] && order[0] == first
    ensures IsPermutationOf(order, ids)
  {
    var rest := Shuffle(ids - {first});
    order := [first] + rest;
    assert forall i :: 1 <= i < |order| ==> order[i] == rest[i - 1] && order[i] != first;
  }

  /** Set extensionality, stated so that a loop can pick an element. */
  lemma EmptyIfNoElement(s: set<int>)
    ensures (forall y :: y !in s) ==> s == {}
  {
    if forall y :: y !in s {
      assert forall y :: y in s <==> y in {};
    }
  }

  /** Builds an order holding every id of `ids` once; the choice of each
      next id stands for `random.shuffle`. */
  method Shuffle(ids: set<int>) returns (order: seq<int>)
    ensures IsPermutationOf(order, ids)
    ensures |order| == |ids|
  {
    order := [];
    var rest := ids;
    while rest != {}
      invariant rest <= ids
      invariant NoDup(order)
      invariant forall x :: x in order ==> x in ids && x !in rest
      invariant forall x :: x in ids ==> x in order || x in rest
      invariant |order| + |rest| == |ids|
      decreases |rest|
    {
      EmptyIfNoElement(rest);
      var x :| x in rest;
      order := order + [x];
      rest := rest - {x};
    }
  }

  /** `Enigma.query.order_by(order_position).first()`: some riddle of least
      position, or None for an empty catalog. */
  method FirstByPosition(catalog: Catalog) returns (first: Option<int>)
    ensures first.None? <==> catalog == map[]
    ensures first.Some? ==> first.value in catalog
    ensures first.Some? ==> forall k :: k in catalog ==>
      catalog[first.value].orderPosition <= catalog[k].orderPosition
  {
    first := None;
    var rest := catalog.Keys;
    while rest != {}
      invariant rest <= catalog.Keys
      invariant first.None? ==> rest == catalog.Keys
      invariant first.Some? ==> first.value in catalog
      invariant first.Some? ==> forall k :: k in catalog && k !in rest ==>
        catalog[first.value].orderPosition <= catalog[k].orderPosition
      decreases |rest|
    {
      EmptyIfNoElement(rest);
      var k :| k in rest;
      if first.None? || catalog[k].orderPosition < catalog[first.value].orderPosition {
        first := Some(k);
      }
      rest := rest - {k};
    }
    if first.None? {
      assert forall k :: k !in catalog;
      assert catalog == map[];
    }
  }

  // ---------------------------------------------------------------------
  // The correct-answer transition (routes.py:196-222)

  /** The record after a correct answer to riddle `id`. A repeat changes
      nothing; a first answer appends the id, adds its points, sets
      eligibility once the completed count reaches the catalog size and
      moves the pointer past the answered id. None where the id is missing
      from the order: `list.index` raises and the request is rolled back. */
  function AnswerCorrectly(row: ProgressRow, catalog: Catalog, id: int): Option<ProgressRow> {
    if id in row.completed then Some(row)
    else
      var k := IndexOf(row.order, id);
      if k < 0 then None
      else
        var completed := row.completed + [id];
        Some(row.(completed := completed,
                  points := row.points + PointsOf(catalog, id),
                  eligible := row.eligible || |completed| >= |catalog|,
                  current := if k + 1 < |row.order| then row.order[k + 1] else row.current))
  }

  /** Whether a first correct answer to `id` has a next riddle to move to. */
  predicate HasNext(row: ProgressRow, id: int) {
    id !in row.completed && 0 <= IndexOf(row.order, id) && IndexOf(row.order, id) + 1 < |row.order|
  }

  /** A repeat of a completed riddle leaves the record as it is, and a
      second correct answer right after a first changes nothing more. */
  lemma AnswerIdempotent(row: ProgressRow, catalog: Catalog, id: int)
    ensures id in row.completed ==> AnswerCorrectly(row, catalog, id) == Some(row)
    ensures AnswerCorrectly(row, catalog, id).Some? ==>
      var r := AnswerCorrectly(row, catalog, id).value;
      AnswerCorrectly(r, catalog, id) == Some(r)
  {
  }

  /** The transition fails only on an id missing from the order, so never
      on a record created by the game page. */
  lemma AnswerFailsOnlyOffOrder(row: ProgressRow, catalog: Catalog, id: int)
    ensures AnswerCorrectly(row, catalog, id).None? <==> id !in row.completed && id !in row.order
    ensures Shuffled(row, catalog) && id in catalog ==> AnswerCorrectly(row, catalog, id).Some?
  {
  }

  /** A first correct answer appends the id exactly once, adds exactly that
      riddle's points, and leaves the order and every wallet and airdrop
      column alone. */
  lemma AnswerAppendsOnce(row: ProgressRow, catalog: Catalog, id: int)
    requires NoDup(row.completed) && id !in row.completed
    requires AnswerCorrectly(row, catalog, id).Some?
    ensures var r := AnswerCorrectly(row, catalog, id).value;
      && r.completed == row.completed + [id]
      && multiset(r.completed)[id] == 1
      && NoDup(r.completed)
      && r.points == row.points + PointsOf(catalog, id)
      && r.order == row.order
      && r.wallet == row.wallet && r.airdropStatus == row.airdropStatus
      && r.airdropAmount == row.airdropAmount && r.txHash == row.txHash && r.sentAt == row.sentAt
  {
    var r := AnswerCorrectly(row, catalog, id).value;
    assert multiset(row.completed)[id] == 0;
    assert multiset(r.completed) == multiset(row.completed) + multiset{id};
  }

  /** The pointer moves to the entry after the answered id, or stays when
      the answered id is last. */
  lemma AnswerMovesPointer(row: ProgressRow, catalog: Catalog, id: int)
    requires NoDup(row.order) && id !in row.completed && id in row.order
    ensures var r := AnswerCorrectly(row, catalog, id).value;
      forall k :: 0 <= k < |row.order| && row.order[k] == id ==>
        r.current == (if k + 1 < |row.order| then row.order[k + 1] else row.current)
  {
  }

  /** Eligibility is never cleared, and is set by a first answer exactly
      when the completed count reaches the catalog size. */
  lemma AnswerEligibility(row: ProgressRow, catalog: Catalog, id: int)
    requires id !in row.completed && AnswerCorrectly(row, catalog, id).Some?
    ensures var r := AnswerCorrectly(row, catalog, id).value;
      && (row.eligible ==> r.eligible)
      && (r.eligible <==> row.eligible || |r.completed| >= |catalog|)
  {
  }

  /** The transition keeps both invariants. */
  lemma AnswerPreservesInvariants(row: ProgressRow, catalog: Catalog, id: int)
    requires id in catalog && AnswerCorrectly(row, catalog, id).Some?
    ensures Consistent(row, catalog) ==> Consistent(AnswerCorrectly(row, catalog, id).value, catalog)
    ensures Shuffled(row, catalog) ==> Shuffled(AnswerCorrectly(row, catalog, id).value, catalog)
  {
    var r := AnswerCorrectly(row, catalog, id).value;
    if id !in row.completed {
      SumPointsAppend(catalog, row.completed, id);
      if Shuffled(row, catalog) {
        var k := IndexOf(row.order, id);
        if k + 1 < |row.order| {
          assert row.order[k + 1] in row.order;
        }
      }
    }
  }

  // ---------------------------------------------------------------------
  // Counting completions

  /** The distinct ids of `s`. */
  function Elements(s: seq<int>): set<int> {
    set x | x in s
  }

  lemma {:induction false} NoDupCard(s: seq<int>)
    requires NoDup(s)
    ensures |Elements(s)| == |s|
    decreases |s|
  {
    if s != [] {
      var s' := s[..|s| - 1];
      var x := s[|s| - 1];
      assert s == s' + [x];
      assert Elements(s) == Elements(s') + {x};
      assert x !in Elements(s');
      NoDupCard(s');
    }
  }

  lemma SubsetCardEqual(a: set<int>, b: set<int>)
    requires a <= b && |a| >= |b|
    ensures a == b
  {
    assert |b - a| == |b| - |a|;
  }

  /** A permutation of a set is as long as the set is large. */
  lemma PermutationSize(order: seq<int>, ids: set<int>)
    requires IsPermutationOf(order, ids)
    ensures |order| == |ids|
  {
    NoDupCard(order);
    assert Elements(order) == ids;
  }

  /** The completed count reaches the catalog size exactly when every
      riddle of the catalog is completed, and never exceeds it. */
  lemma CompletedAllIff(row: ProgressRow, catalog: Catalog)
    requires Consistent(row, catalog)
    ensures |row.completed| <= |catalog|
    ensures |row.completed| >= |catalog| <==> forall x :: x in catalog ==> x in row.completed
  {
    var done := Elements(row.completed);
    NoDupCard(row.completed);
    assert done <= catalog.Keys;
    assert |catalog.Keys| == |catalog|;
    if |row.completed| >= |catalog| {
      SubsetCardEqual(done, catalog.Keys);
    }
    if forall x :: x in catalog ==> x in row.completed {
      assert done == catalog.Keys;
    }
  }

  /** On a consistent record, a first correct answer makes the record
      eligible exactly when it was already eligible or every riddle is now
      completed. */
  lemma EligibleIffAllSolved(row: ProgressRow, catalog: Catalog, id: int)
    requires Consistent(row, catalog) && id in catalog && id !in row.completed
    requires AnswerCorrectly(row, catalog, id).Some?
    ensures var r := AnswerCorrectly(row, catalog, id).value;
      r.eligible <==> row.eligible || forall x :: x in catalog ==> x in r.completed
  {
    var r := AnswerCorrectly(row, catalog, id).value;
    AnswerPreservesInvariants(row, catalog, id);
    CompletedAllIff(r, catalog);
  }

  // ---------------------------------------------------------------------
  // Playing a whole game

  /** The record after correct answers to `ids`, in turn; None once one of
      them fails. */
  function Play(row: ProgressRow, catalog: Catalog, ids: seq<int>): Option<ProgressRow> {
    if ids == [] then Some(row)
    else
      match Play(row, catalog, ids[..|ids| - 1])
      case None => None
      case Some(r) => AnswerCorrectly(r, catalog, ids[|ids| - 1])
  }

  /** The record after the first `n` riddles of its order are answered
      correctly, in that order. */
  function AfterPrefix(row: ProgressRow, catalog: Catalog, n: nat): ProgressRow
    requires 0 < |row.order| && n <= |row.order|
  {
    row.(completed := row.order[..n],
         points := SumPoints(catalog, row.order[..n]),
         eligible := n == |row.order|,
         current := row.order[if n < |row.order| then n else |row.order| - 1])
  }

  /** Answering the next riddle of the order extends the completed prefix
      by one. */
  lemma AnswerNextInOrder(catalog: Catalog, start: ProgressRow, n: nat)
    requires 0 < n <= |start.order| && IsPermutationOf(start.order, catalog.Keys)
    ensures AnswerCorrectly(AfterPrefix(start, catalog, n - 1), catalog, start.order[n - 1])
            == Some(AfterPrefix(start, catalog, n))
  {
    var order := start.order;
    assert order[..n] == order[..n - 1] + [order[n - 1]];
    assert order[n - 1] !in order[..n - 1];
    assert IndexOf(order, order[n - 1]) == n - 1;
    PermutationSize(order, catalog.Keys);
    assert |catalog.Keys| == |catalog|;
    SumPointsAppend(catalog, order[..n - 1], order[n - 1]);
  }

  /** Answering riddles in the order a new record assigns completes exactly
      that prefix: points are the prefix's sum, the pointer is at the next
      riddle (or stays on the last), and the record becomes eligible exactly
      when the whole order is done. */
  lemma {:induction false} PlayInOrder(catalog: Catalog, id: int, sessionId: string, order: seq<int>, n: nat)
    requires order != [] && IsPermutationOf(order, catalog.Keys) && n <= |order|
    ensures Play(StartRow(id, sessionId, order), catalog, order[..n])
            == Some(AfterPrefix(StartRow(id, sessionId, order), catalog, n))
  {
    var start := StartRow(id, sessionId, order);
    if n == 0 {
      assert order[..0] == [];
    } else {
      PlayInOrder(catalog, id, sessionId, order, n - 1);
      assert order[..n][..n - 1] == order[..n - 1];
      AnswerNextInOrder(catalog, start, n);
    }
  }

  /** With no riddle worth negative points, each answer in order adds to
      the total, so the points of a game grow monotonically. */
  lemma PrefixPointsGrow(catalog: Catalog, order: seq<int>, n: nat)
    requires n < |order|
    requires forall k :: k in catalog ==> catalog[k].points >= 0
    ensures SumPoints(catalog, order[..n]) <= SumPoints(catalog, order[..n + 1])
  {
    assert order[..n + 1] == order[..n] + [order[n]];
    SumPointsAppend(catalog, order[..n], order[n]);
  }
}
