/**
 * The two-key triage order shared by `peek`, `poll` and the sorted listings:
 * lower priority number first, then earlier arrival.
 */
module Ordering {
  import opened Patients

  /**
   * `Integer.compare` on priorities, then `compareTo` on arrival times; only
   * the sign matters. It is the lexicographic order on (priority, arrival).
   */
  function Compare(a: Patient, b: Patient): (r: int)
    ensures -1 <= r <= 1
    ensures r < 0 <==> a.priority < b.priority || (a.priority == b.priority && a.arrival < b.arrival)
    ensures r == 0 <==> a.priority == b.priority && a.arrival == b.arrival
  {
    if a.priority < b.priority then -1
    else if a.priority > b.priority then 1
    else if a.arrival < b.arrival then -1
    else if a.arrival > b.arrival then 1
    else 0
  }

  /** `a` may be served no later than `b`. */
  predicate Precedes(a: Patient, b: Patient) {
    Compare(a, b) <= 0
  }

  /** The comparator is a total preorder whose ties are exactly the equal (priority, arrival) keys. */
  lemma CompareIsTotalPreorder(a: Patient, b: Patient, c: Patient)
    ensures Compare(a, b) == -Compare(b, a)
    ensures Precedes(a, b) || Precedes(b, a)
    ensures Precedes(a, b) && Precedes(b, c) ==> Precedes(a, c)
    ensures Compare(a, b) == 0 <==> a.priority == b.priority && a.arrival == b.arrival
  {
  }

  ghost predicate Sorted(s: seq<Patient>) {
    forall i, j :: 0 <= i < j < |s| ==> Precedes(s[i], s[j])
  }

  /** No two positions of `s` share an arrival time, so no two tie under the comparator. */
  ghost predicate DistinctArrivals(s: seq<Patient>) {
    forall i, j :: 0 <= i < j < |s| ==> s[i].arrival != s[j].arrival
  }

  lemma TwoOccurrences(s: seq<Patient>, i: nat, j: nat)
    requires i < j < |s| && s[i] == s[j]
    ensures multiset(s)[s[i]] >= 2
  {
    assert s == s[..i] + [s[i]] + s[i + 1..j] + [s[j]] + s[j + 1..];
  }

  lemma OneOccurrence(s: seq<Patient>, i: nat)
    requires i < |s| && DistinctArrivals(s)
    ensures multiset(s)[s[i]] == 1
  {
    assert s == s[..i] + [s[i]] + s[i + 1..];
    assert s[i] !in s[..i];
    var tail := s[i + 1..];
    assert s[i] !in tail by {
      forall k | 0 <= k < |tail| ensures tail[k] != s[i] {
        assert tail[k] == s[i + 1 + k];
      }
    }
  }

  /** Having distinct arrivals is a property of the multiset: it survives any rearrangement. */
  lemma DistinctArrivalsPermutation(a: seq<Patient>, b: seq<Patient>)
    requires DistinctArrivals(a) && multiset(a) == multiset(b)
    ensures DistinctArrivals(b)
  {
    forall i, j | 0 <= i < j < |b| ensures b[i].arrival != b[j].arrival {
      if b[i].arrival == b[j].arrival {
        assert b[i] in multiset(a) && b[j] in multiset(a);
        var i' :| 0 <= i' < |a| && a[i'] == b[i];
        var j' :| 0 <= j' < |a| && a[j'] == b[j];
        assert i' == j';
        TwoOccurrences(b, i, j);
        OneOccurrence(a, i');
        assert false;
      }
    }
  }

  /**
   * Position of the element `PriorityQueue.peek`/`poll` hand out: the first
   * one that precedes every other element. The queue's order stands for the
   * heap's internal layout, which the model does not fix.
   */
  function MinIndex(s: seq<Patient>): (k: nat)
    requires |s| > 0
    ensures k < |s|
    ensures forall j {:trigger Precedes(s[k], s[j])} :: 0 <= j < |s| ==> Precedes(s[k], s[j])
  {
    if |s| == 1 then 0
    else
      var k := MinIndex(s[1..]) + 1;
      assert forall j :: 1 <= j < |s| ==> Precedes(s[k], s[j]) by {
        forall j | 1 <= j < |s| ensures Precedes(s[k], s[j]) {
          assert s[1..][k - 1] == s[k] && s[1..][j - 1] == s[j];
          assert Precedes(s[1..][k - 1], s[1..][j - 1]);
        }
      }
      if Precedes(s[0], s[k]) then
        assert forall j :: 0 <= j < |s| ==> Precedes(s[0], s[j]) by {
          forall j | 0 <= j < |s| ensures Precedes(s[0], s[j]) {
            if j > 0 {
              CompareIsTotalPreorder(s[0], s[k], s[j]);
            }
          }
        }
        0
      else
        assert Precedes(s[k], s[0]) by {
          CompareIsTotalPreorder(s[k], s[0], s[0]);
        }
        k
  }

  /** `s` with the element at `k` taken out, as `poll` leaves the heap. */
  function RemoveAt(s: seq<Patient>, k: nat): (r: seq<Patient>)
    requires k < |s|
    ensures |r| == |s| - 1
    ensures multiset(s) == multiset(r) + multiset{s[k]}
  {
    assert s == s[..k] + [s[k]] + s[k + 1..];
    s[..k] + s[k + 1..]
  }

  /** Inserts `x` into an ordered sequence in front of the first element it precedes. */
  function Insert(x: Patient, s: seq<Patient>): (r: seq<Patient>)
    ensures multiset(r) == multiset(s) + multiset{x}
    ensures Sorted(s) ==> Sorted(r)
  {
    if s == [] || Precedes(x, s[0]) then
      assert Sorted(s) ==> Sorted([x] + s) by {
        if Sorted(s) {
          forall j | 0 < j < |s| + 1 ensures Precedes(x, ([x] + s)[j]) {
            CompareIsTotalPreorder(x, s[0], s[j - 1]);
          }
        }
      }
      [x] + s
    else
      var rest := Insert(x, s[1..]);
      assert s == [s[0]] + s[1..];
      InsertKeepsHead(x, s, rest);
      [s[0]] + rest
  }

  /** The step of `Insert` that keeps the head in front when `x` goes further in. */
  lemma InsertKeepsHead(x: Patient, s: seq<Patient>, rest: seq<Patient>)
    requires s != [] && !Precedes(x, s[0])
    requires multiset(rest) == multiset(s[1..]) + multiset{x}
    requires Sorted(s[1..]) ==> Sorted(rest)
    ensures Sorted(s) ==> Sorted([s[0]] + rest)
  {
    if Sorted(s) {
      assert Sorted(s[1..]);
      forall j | 0 <= j < |rest| ensures Precedes(s[0], rest[j]) {
        assert rest[j] in multiset(rest);
        if rest[j] == x {
          CompareIsTotalPreorder(x, s[0], s[0]);
        } else {
          assert rest[j] in multiset(s[1..]);
          var i :| 0 <= i < |s[1..]| && s[1..][i] == rest[j];
          assert s[i + 1] == rest[j];
        }
      }
    }
  }

  /** The copy sorted with the triage comparator (`ArrayList.sort`), by insertion. */
  function SortByTriage(s: seq<Patient>): (r: seq<Patient>)
    ensures multiset(r) == multiset(s)
    ensures Sorted(r)
  {
    if s == [] then []
    else
      assert s == [s[0]] + s[1..];
      Insert(s[0], SortByTriage(s[1..]))
  }

  /** Two sorted arrangements of one multiset with distinct arrivals start with the same patient. */
  lemma SortedSameHead(a: seq<Patient>, b: seq<Patient>)
    requires a != [] && Sorted(a) && Sorted(b)
    requires multiset(a) == multiset(b)
    requires DistinctArrivals(a)
    ensures b != [] && a[0] == b[0]
  {
    assert a[0] in multiset(b);
    assert b != [] && b[0] in multiset(a);
    var i :| 0 <= i < |a| && a[i] == b[0];
    var j :| 0 <= j < |b| && b[j] == a[0];
    assert Precedes(a[0], a[i]);
    assert Precedes(b[0], b[j]);
    CompareIsTotalPreorder(a[0], b[0], b[0]);
    assert i == 0;
  }

  /** With distinct arrivals there is only one sorted arrangement of a multiset. */
  lemma {:induction false} SortedUnique(a: seq<Patient>, b: seq<Patient>)
    requires Sorted(a) && Sorted(b)
    requires multiset(a) == multiset(b)
    requires DistinctArrivals(a)
    ensures a == b
    decreases |a|
  {
    if a == [] {
      assert |b| == |multiset(b)| == 0;
    } else {
      SortedSameHead(a, b);
      assert a == [a[0]] + a[1..];
      assert b == [b[0]] + b[1..];
      assert multiset(a) == multiset{a[0]} + multiset(a[1..]);
      assert multiset(b) == multiset{b[0]} + multiset(b[1..]);
      assert multiset(a[1..]) == multiset(a) - multiset{a[0]};
      assert multiset(a[1..]) == multiset(b[1..]);
      SortedUnique(a[1..], b[1..]);
    }
  }

  /** With distinct arrivals, the sorted copy begins with the element `MinIndex` finds. */
  lemma SortedHeadIsMin(q: seq<Patient>)
    requires q != [] && DistinctArrivals(q)
    ensures SortByTriage(q) != [] && SortByTriage(q)[0] == q[MinIndex(q)]
  {
    var s := SortByTriage(q);
    var m := MinIndex(q);
    assert |s| == |multiset(s)| == |q|;
    assert s[0] in multiset(q);
    var i :| 0 <= i < |q| && q[i] == s[0];
    assert q[m] in multiset(s);
    var j :| 0 <= j < |s| && s[j] == q[m];
    assert Precedes(s[0], s[j]);
    assert Precedes(q[m], q[i]);
    CompareIsTotalPreorder(q[m], q[i], q[i]);
    assert i == m;
  }

  lemma DistinctArrivalsTail(s: seq<Patient>)
    requires s != [] && DistinctArrivals(s)
    ensures DistinctArrivals(s[1..])
  {
    var tail := s[1..];
    forall i, j | 0 <= i < j < |tail| ensures tail[i].arrival != tail[j].arrival {
      assert tail[i] == s[i + 1] && tail[j] == s[j + 1];
    }
  }

  lemma SortedTail(s: seq<Patient>)
    requires s != [] && Sorted(s)
    ensures Sorted(s[1..])
  {
    var tail := s[1..];
    forall i, j | 0 <= i < j < |tail| ensures Precedes(tail[i], tail[j]) {
      assert tail[i] == s[i + 1] && tail[j] == s[j + 1];
    }
  }

  /** Taking the same patient away from two equal collections leaves equal collections. */
  lemma MultisetCancel(x: multiset<Patient>, y: multiset<Patient>, p: Patient)
    requires x + multiset{p} == y + multiset{p}
    ensures x == y
  {
    forall o ensures x[o] == y[o] {
      assert (x + multiset{p})[o] == (y + multiset{p})[o];
    }
  }

  /** Moving one patient from the whole into the second part keeps the split exact. */
  lemma MultisetMoveOne(rest: multiset<Patient>, taken: multiset<Patient>, whole: multiset<Patient>, p: Patient)
    requires rest + taken == whole
    ensures rest + (multiset{p} + taken) == whole + multiset{p}
  {
  }

  /** What is left of the sorted copy after its head: sorted, distinct, and the sort of what `poll` leaves. */
  lemma SortedTailFacts(q: seq<Patient>, s: seq<Patient>, sortedRest: seq<Patient>)
    requires q != [] && DistinctArrivals(q)
    requires s == SortByTriage(q) && sortedRest == SortByTriage(RemoveAt(q, MinIndex(q)))
    ensures s != [] && multiset(s[1..]) == multiset(sortedRest)
    ensures DistinctArrivals(s[1..]) && Sorted(s[1..]) && Sorted(sortedRest)
  {
    assert s != [] && multiset(s[1..]) == multiset(sortedRest) by {
      SortedHeadIsMin(q);
      assert s == [s[0]] + s[1..];
      MultisetCancel(multiset(s[1..]), multiset(sortedRest), s[0]);
    }
    assert DistinctArrivals(s[1..]) by {
      DistinctArrivalsPermutation(q, s);
      DistinctArrivalsTail(s);
    }
    SortedTail(s);
  }

  /** With distinct arrivals, sorting what is left after taking the minimum gives the sorted tail. */
  lemma SortedAfterRemovingMin(q: seq<Patient>)
    requires q != [] && DistinctArrivals(q)
    ensures SortByTriage(RemoveAt(q, MinIndex(q))) == SortByTriage(q)[1..]
  {
    var s := SortByTriage(q);
    var sortedRest := SortByTriage(RemoveAt(q, MinIndex(q)));
    SortedTailFacts(q, s, sortedRest);
    SortedUnique(s[1..], sortedRest);
  }

  lemma DistinctArrivalsRemoveAt(q: seq<Patient>, k: nat)
    requires k < |q| && DistinctArrivals(q)
    ensures DistinctArrivals(RemoveAt(q, k))
  {
    var r := RemoveAt(q, k);
    forall i, j | 0 <= i < j < |r| ensures r[i].arrival != r[j].arrival {
      var i' := if i < k then i else i + 1;
      var j' := if j < k then j else j + 1;
      assert r[i] == q[i'] && r[j] == q[j'];
    }
  }

  /** The first `n` patients that repeated `poll` calls hand out, in that order. */
  function PollN(q: seq<Patient>, n: nat): (r: seq<Patient>)
    requires n <= |q|
    ensures |r| == n
    decreases n
  {
    if n == 0 then [] else [q[MinIndex(q)]] + PollN(RemoveAt(q, MinIndex(q)), n - 1)
  }

  /** What is still waiting after those `n` polls. */
  function RestN(q: seq<Patient>, n: nat): (r: seq<Patient>)
    requires n <= |q|
    ensures |r| == |q| - n
    decreases n
  {
    if n == 0 then q else RestN(RemoveAt(q, MinIndex(q)), n - 1)
  }

  /** Polling only moves patients out: the polled ones and the rest together are the queue. */
  lemma {:induction false} PollNSplitsQueue(q: seq<Patient>, n: nat)
    requires n <= |q|
    ensures multiset(RestN(q, n)) + multiset(PollN(q, n)) == multiset(q)
    decreases n
  {
    if n > 0 {
      var k := MinIndex(q);
      var q' := RemoveAt(q, k);
      PollNSplitsQueue(q', n - 1);
      assert PollN(q, n) == [q[k]] + PollN(q', n - 1);
      assert RestN(q, n) == RestN(q', n - 1);
      MultisetMoveOne(multiset(RestN(q', n - 1)), multiset(PollN(q', n - 1)), multiset(q'), q[k]);
    }
  }

  /**
   * Two non-empty sequences with the same head and the same tail are equal.
   * A plain sequence law, stated once so that callers do not pay for the
   * extensional equality in a large context.
   */
  lemma HeadAndTail(a: seq<Patient>, b: seq<Patient>)
    requires a != [] && b != [] && a[0] == b[0] && a[1..] == b[1..]
    ensures a == b
  {
    assert a == [a[0]] + a[1..] && b == [b[0]] + b[1..];
  }

  /** With distinct arrivals, draining the queue by `poll` yields exactly the sorted copy. */
  lemma {:induction false} PollOrderIsSorted(q: seq<Patient>)
    requires DistinctArrivals(q)
    ensures PollN(q, |q|) == SortByTriage(q)
    decreases |q|
  {
    if q == [] {
      assert |SortByTriage(q)| == |multiset(q)| == 0;
    } else {
      var m := MinIndex(q);
      var r := RemoveAt(q, m);
      var s := SortByTriage(q);
      assert PollN(q, |q|) == [q[m]] + PollN(r, |r|);
      assert s != [] && s[0] == q[m] by {
        SortedHeadIsMin(q);
      }
      assert PollN(r, |r|) == s[1..] by {
        DistinctArrivalsRemoveAt(q, m);
        PollOrderIsSorted(r);
        SortedAfterRemovingMin(q);
      }
      HeadAndTail(PollN(q, |q|), s);
    }
  }

  /** With distinct arrivals, `peek`/`poll` pick the same patient however the queue is arranged. */
  lemma MinIgnoresArrangement(q: seq<Patient>, q': seq<Patient>)
    requires q != [] && DistinctArrivals(q) && multiset(q) == multiset(q')
    ensures q' != [] && q[MinIndex(q)] == q'[MinIndex(q')]
  {
    assert |q'| == |multiset(q')| == |q|;
    DistinctArrivalsPermutation(q, q');
    SortedHeadIsMin(q);
    SortedHeadIsMin(q');
    DistinctArrivalsPermutation(q, SortByTriage(q));
    SortedUnique(SortByTriage(q), SortByTriage(q'));
  }
}
