/**
 The fringe of the search: Python's heapq list, seen as the multiset of the
 entries it holds. heappush adds an entry; heappop removes an entry of least
 priority. Ties between equal priorities are broken by the State class's
 ordering, which is not part of this model, so no tie-break is fixed here.
 */
module Fringe {

  /** A fringe entry: the tuple (priority, state). */
  datatype Entry<S> = Entry(priority: int, state: S)

  /** e has the least priority among the entries of fringe. */
  predicate IsLeast<S(==)>(fringe: multiset<Entry<S>>, e: Entry<S>)
  {
    e in fringe && forall x :: x in fringe ==> e.priority <= x.priority
  }

  /** Every non-empty fringe has an entry of least priority. */
  lemma {:induction false} LeastExists<S>(fringe: multiset<Entry<S>>)
    requires fringe != multiset{}
    ensures exists e :: IsLeast(fringe, e)
    decreases |fringe|
  {
    var x :| x in fringe;
    var rest := fringe - multiset{x};
    assert fringe == rest + multiset{x};
    if rest == multiset{} {
      assert IsLeast(fringe, x);
    } else {
      LeastExists(rest);
      var m :| IsLeast(rest, m);
      assert forall y :: y in fringe ==> y == x || y in rest;
      if x.priority < m.priority {
        assert IsLeast(fringe, x);
      } else {
        assert IsLeast(fringe, m);
      }
    }
  }

  /** heapq.heappop: removes and returns some entry of least priority. */
  method PopMin<S(==)>(fringe: multiset<Entry<S>>) returns (e: Entry<S>, rest: multiset<Entry<S>>)
    requires fringe != multiset{}
    ensures e in fringe && forall x :: x in fringe ==> e.priority <= x.priority
    ensures rest == fringe - multiset{e}
    ensures |rest| == |fringe| - 1
  {
    LeastExists(fringe);
    e :| IsLeast(fringe, e);
    rest := fringe - multiset{e};
  }
}
