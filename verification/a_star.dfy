/**
 a_star(puzzle): the search loop over puzzle states. The fringe is a heap with
 lazy deletion (an entry whose state is already concluded is popped and
 dropped), `concluded` holds the keys of expanded states, and `distances` and
 `prev` map keys to the recorded distance and predecessor. The neighbour test
 of the relaxation step overwrites an entry when its recorded distance is LESS than the new
 one; it is modelled exactly as written, so nothing here claims shortest paths.
 */
module AStar {
  import opened Puzzle
  import opened Fringe
  import opened PlanningUtils

  /** The keys, not yet concluded, of the states the first n actions in acts lead current to. */
  ghost function Targets<S, A, K>(dom: Domain<S, A, K>, current: S, concluded: set<K>, acts: seq<A>, n: nat): (r: set<K>)
    requires n <= |acts|
    ensures r !! concluded
  {
    if n == 0 then {}
    else
      var k := dom.key(dom.apply(current, acts[n - 1]));
      Targets(dom, current, concluded, acts, n - 1) + (if k in concluded then {} else {k})
  }

  /** Every one of the first n actions whose neighbour is not concluded contributes its key. */
  lemma {:induction false} TargetsHave<S, A, K>(dom: Domain<S, A, K>, current: S, concluded: set<K>, acts: seq<A>,
    n: nat, j: nat)
    requires j < n <= |acts| && dom.key(dom.apply(current, acts[j])) !in concluded
    ensures dom.key(dom.apply(current, acts[j])) in Targets(dom, current, concluded, acts, n)
  {
    if j < n - 1 {
      TargetsHave(dom, current, concluded, acts, n - 1, j);
    }
  }

  /** Every target is the key of a neighbour reached by one of the first n actions. */
  lemma {:induction false} TargetsCome<S, A, K>(dom: Domain<S, A, K>, current: S, concluded: set<K>, acts: seq<A>,
    n: nat, k: K)
    requires n <= |acts| && k in Targets(dom, current, concluded, acts, n)
    ensures exists j :: 0 <= j < n && dom.key(dom.apply(current, acts[j])) == k
  {
    if k in Targets(dom, current, concluded, acts, n - 1) {
      TargetsCome(dom, current, concluded, acts, n - 1, k);
    } else {
      assert dom.key(dom.apply(current, acts[n - 1])) == k;
    }
  }

  /** The relaxation test on a neighbour: k is a target with no distance yet or a recorded distance below d. */
  ghost predicate Overwrites<K>(targets: set<K>, distances: map<K, nat>, k: K, d: nat)
  {
    k in targets && (k !in distances || distances[k] < d)
  }

  /**
   The two maps after relaxing towards the keys in targets with candidate
   distance d from current: their keys are the old keys plus the targets; an
   entry becomes (d, current) exactly when the relaxation test holds, and
   every other entry is left as it was.
   */
  ghost predicate Relaxed<S, K>(targets: set<K>, current: S, d: nat, distances: map<K, nat>, prev: map<K, Option<S>>,
    distances': map<K, nat>, prev': map<K, Option<S>>)
  {
    && distances'.Keys == prev'.Keys == distances.Keys + targets
    && forall k :: k in distances' ==>
         if Overwrites(targets, distances, k, d) then
           distances'[k] == d && prev'[k] == Some(current)
         else
           k in distances && k in prev && distances'[k] == distances[k] && prev'[k] == prev[k]
  }

  /**
   One relaxation step of the neighbour loop: testing key k against the maps built so far and
   overwriting when the test holds relaxes towards one more target. The test
   reads the current maps, so a key met twice is overwritten at most once.
   */
  lemma RelaxStep<S, K>(targets: set<K>, current: S, d: nat, distances: map<K, nat>, prev: map<K, Option<S>>,
    distances': map<K, nat>, prev': map<K, Option<S>>, k: K)
    requires distances.Keys == prev.Keys
    requires Relaxed(targets, current, d, distances, prev, distances', prev')
    ensures var test := k !in distances' || distances'[k] < d;
      Relaxed(targets + {k}, current, d, distances, prev,
              if test then distances'[k := d] else distances',
              if test then prev'[k := Some(current)] else prev')
  {
  }

  /** Relaxing towards targets leaves every entry of a key outside the targets as it was. */
  lemma RelaxedKeeps<S, K>(targets: set<K>, current: S, d: nat, distances: map<K, nat>, prev: map<K, Option<S>>,
    distances': map<K, nat>, prev': map<K, Option<S>>, untouched: set<K>)
    requires Relaxed(targets, current, d, distances, prev, distances', prev')
    requires targets !! untouched
    ensures forall k :: k in untouched && k in distances ==>
              k in distances' && distances'[k] == distances[k] && prev'[k] == prev[k]
  {
  }

  /** The part of the search state that expanding one state changes. */
  datatype Expansion<S(==), K(==)> = Expansion(fringe: multiset<Entry<S>>, distances: map<K, nat>, prev: map<K, Option<S>>)

  /**
   The state after the neighbour loop (over current.get_actions()) has tried
   the first n actions in acts, one action at a time, exactly as the loop body
   does.
   */
  ghost function Expanded<S, A, K>(dom: Domain<S, A, K>, goal: S, current: S, currDist: nat, concluded: set<K>,
    start: Expansion<S, K>, acts: seq<A>, n: nat): Expansion<S, K>
    requires n <= |acts|
  {
    if n == 0 then start
    else Tried(dom, goal, current, currDist, concluded, Expanded(dom, goal, current, currDist, concluded, start, acts, n - 1), acts[n - 1])
  }

  /**
   One pass of the neighbour loop's body (skip a concluded neighbour, push,
   relax) for action a, on the state x left by the earlier passes.
   */
  ghost function Tried<S, A, K>(dom: Domain<S, A, K>, goal: S, current: S, currDist: nat, concluded: set<K>,
    x: Expansion<S, K>, a: A): Expansion<S, K>
  {
    var nb := dom.apply(current, a);
    var k := dom.key(nb);
    if k in concluded then x
    else
      var f := x.fringe + multiset{Entry(dom.heuristic(nb, goal) + currDist + 1, nb)};
      if k !in x.distances || x.distances[k] < currDist + 1 then
        Expansion(f, x.distances[k := currDist + 1], x.prev[k := Some(current)])
      else Expansion(f, x.distances, x.prev)
  }

  /**
   Trying the actions one at a time, each test reading the maps as left by the
   earlier ones, relaxes the maps towards the targets.
   */
  lemma {:induction false} ExpandedRelaxes<S, A, K>(dom: Domain<S, A, K>, goal: S, current: S, currDist: nat,
    concluded: set<K>, start: Expansion<S, K>, acts: seq<A>, n: nat)
    requires n <= |acts| && start.distances.Keys == start.prev.Keys
    ensures var x := Expanded(dom, goal, current, currDist, concluded, start, acts, n);
      Relaxed(Targets(dom, current, concluded, acts, n), current, currDist + 1,
              start.distances, start.prev, x.distances, x.prev)
  {
    if n > 0 {
      ExpandedRelaxes(dom, goal, current, currDist, concluded, start, acts, n - 1);
      var x := Expanded(dom, goal, current, currDist, concluded, start, acts, n - 1);
      var k := dom.key(dom.apply(current, acts[n - 1]));
      if k !in concluded {
        RelaxStep(Targets(dom, current, concluded, acts, n - 1), current, currDist + 1, start.distances, start.prev,
                  x.distances, x.prev, k);
      }
    }
  }

  /** Pushing only adds: every entry of the starting fringe is still there. */
  lemma {:induction false} ExpandedKeeps<S, A, K>(dom: Domain<S, A, K>, goal: S, current: S, currDist: nat,
    concluded: set<K>, start: Expansion<S, K>, acts: seq<A>, n: nat, e: Entry<S>)
    requires n <= |acts| && e in start.fringe
    ensures e in Expanded(dom, goal, current, currDist, concluded, start, acts, n).fringe
  {
    if n > 0 {
      ExpandedKeeps(dom, goal, current, currDist, concluded, start, acts, n - 1, e);
    }
  }

  /**
   The push of each neighbour: every one of the first n actions whose neighbour is not concluded
   pushes (heuristic(neighbour, goal) + currDist + 1, neighbour).
   */
  lemma {:induction false} ExpandedPushes<S, A, K>(dom: Domain<S, A, K>, goal: S, current: S, currDist: nat,
    concluded: set<K>, start: Expansion<S, K>, acts: seq<A>, n: nat, j: nat)
    requires j < n <= |acts| && dom.key(dom.apply(current, acts[j])) !in concluded
    ensures var nb := dom.apply(current, acts[j]);
      Entry(dom.heuristic(nb, goal) + currDist + 1, nb) in Expanded(dom, goal, current, currDist, concluded, start, acts, n).fringe
  {
    if j < n - 1 {
      ExpandedPushes(dom, goal, current, currDist, concluded, start, acts, n - 1, j);
    }
  }

  /**
   Every entry of the fringe after the first n actions was there at the start,
   or holds a neighbour reached by one of those actions that is not concluded,
   with priority heuristic(neighbour, goal) + currDist + 1.
   */
  lemma {:induction false} ExpandedEntry<S, A, K>(dom: Domain<S, A, K>, goal: S, current: S, currDist: nat,
    concluded: set<K>, start: Expansion<S, K>, acts: seq<A>, n: nat, e: Entry<S>)
    requires n <= |acts| && e in Expanded(dom, goal, current, currDist, concluded, start, acts, n).fringe
    requires e !in start.fringe
    ensures dom.key(e.state) !in concluded && e.priority == dom.heuristic(e.state, goal) + currDist + 1
    ensures exists j :: 0 <= j < n && dom.apply(current, acts[j]) == e.state
  {
    if e in Expanded(dom, goal, current, currDist, concluded, start, acts, n - 1).fringe {
      ExpandedEntry(dom, goal, current, currDist, concluded, start, acts, n - 1, e);
    } else {
      assert dom.apply(current, acts[n - 1]) == e.state;
    }
  }

  /** The neighbour loop of a_star: the neighbours of current are pushed and possibly overwritten. */
  method Expand<S(==), A, K(==)>(dom: Domain<S, A, K>, goal: S, current: S, currDist: nat, concluded: set<K>,
    fringe: multiset<Entry<S>>, distances: map<K, nat>, prev: map<K, Option<S>>)
    returns (fringe': multiset<Entry<S>>, distances': map<K, nat>, prev': map<K, Option<S>>)
    ensures Expansion(fringe', distances', prev') == Expanded(dom, goal, current, currDist, concluded,
              Expansion(fringe, distances, prev), dom.actions(current), |dom.actions(current)|)
  {
    var acts := dom.actions(current);
    fringe', distances', prev' := fringe, distances, prev;
    for i := 0 to |acts|
      invariant fringe' == Expanded(dom, goal, current, currDist, concluded, Expansion(fringe, distances, prev), acts, i).fringe
      invariant distances' == Expanded(dom, goal, current, currDist, concluded, Expansion(fringe, distances, prev), acts, i).distances
      invariant prev' == Expanded(dom, goal, current, currDist, concluded, Expansion(fringe, distances, prev), acts, i).prev
    {
      var neighbor := dom.apply(current, acts[i]);
      if dom.key(neighbor) in concluded {
        continue;
      }
      var heuristic := dom.heuristic(neighbor, goal);
      fringe' := fringe' + multiset{Entry(heuristic + currDist + 1, neighbor)};
      if dom.key(neighbor) !in distances' || distances'[dom.key(neighbor)] < currDist + 1 {
        distances' := distances'[dom.key(neighbor) := currDist + 1];
        prev' := prev'[dom.key(neighbor) := Some(current)];
      }
    }
  }

  /** The result of expanding the state of entry e, popped from fringe: its distance is looked up, then the neighbour loop runs. */
  ghost function ExpansionOf<S, A, K>(dom: Domain<S, A, K>, goal: S, e: Entry<S>, concluded: set<K>,
    fringe: multiset<Entry<S>>, distances: map<K, nat>, prev: map<K, Option<S>>): Expansion<S, K>
    requires dom.key(e.state) in distances
  {
    Expanded(dom, goal, e.state, distances[dom.key(e.state)], concluded, Expansion(fringe - multiset{e}, distances, prev),
             dom.actions(e.state), |dom.actions(e.state)|)
  }

  /** The skip of concluded neighbours: an expansion leaves the entries of every concluded key as they were. */
  lemma ExpandedKeepsConcluded<S, A, K>(dom: Domain<S, A, K>, goal: S, current: S, currDist: nat, concluded: set<K>,
    start: Expansion<S, K>)
    requires start.distances.Keys == start.prev.Keys
    ensures var x := Expanded(dom, goal, current, currDist, concluded, start, dom.actions(current), |dom.actions(current)|);
      forall k :: k in concluded && k in start.distances ==>
        k in x.distances && k in x.prev && x.distances[k] == start.distances[k] && x.prev[k] == start.prev[k]
  {
    var acts := dom.actions(current);
    var x := Expanded(dom, goal, current, currDist, concluded, start, acts, |acts|);
    ExpandedRelaxes(dom, goal, current, currDist, concluded, start, acts, |acts|);
    RelaxedKeeps(Targets(dom, current, concluded, acts, |acts|), current, currDist + 1, start.distances, start.prev,
                 x.distances, x.prev, concluded);
  }

  /** Some entry of the fringe holds a state whose key is k. */
  ghost predicate Pending<S, A, K>(dom: Domain<S, A, K>, fringe: multiset<Entry<S>>, k: K)
  {
    exists e :: e in fringe && dom.key(e.state) == k
  }

  /**
   The bookkeeping part of the loop invariant: distances and prev share their
   keys, the start has an entry, every concluded key has one and lies in the
   universe, and the goal is never concluded.
   */
  ghost predicate MapsInv<S, A, K>(dom: Domain<S, A, K>, initial: S, goal: S, universe: set<K>,
    concluded: set<K>, distances: map<K, nat>, prev: map<K, Option<S>>)
  {
    && distances.Keys == prev.Keys
    && dom.key(initial) in prev
    && concluded <= prev.Keys && concluded <= universe
    && dom.key(goal) !in concluded
    && (concluded != {} ==> dom.key(initial) in concluded)
  }

  /**
   The predecessor part: None marks the start only, and every other entry holds
   a concluded state, reachable from the start, one of whose moves leads to the key.
   */
  ghost predicate LinksInv<S(!new), A(!new), K>(dom: Domain<S, A, K>, initial: S, concluded: set<K>,
    prev: map<K, Option<S>>)
  {
    && (forall k :: k in prev && prev[k].None? ==> k == dom.key(initial))
    && (forall k :: k in prev && prev[k].Some? ==>
          && dom.key(prev[k].value) in concluded
          && Edge(dom, prev[k].value, k)
          && Reachable(dom, initial, prev[k].value))
  }

  /**
   The ordering part: `order` numbers the concluded keys in the order they were
   concluded (a ghost record the source does not keep). Without self-loops the
   start keeps its None, and a concluded key's predecessor was concluded before it.
   */
  ghost predicate OrderInv<S(!new), A(!new), K>(dom: Domain<S, A, K>, initial: S, concluded: set<K>,
    prev: map<K, Option<S>>, order: map<K, nat>)
    requires concluded <= prev.Keys && dom.key(initial) in prev
  {
    && order.Keys == concluded
    && (forall k :: k in order ==> order[k] < |concluded|)
    && (NoSelfLoops(dom) ==>
          && prev[dom.key(initial)].None?
          && forall k :: k in concluded && prev[k].Some? ==>
               dom.key(prev[k].value) in order && order[dom.key(prev[k].value)] < order[k])
  }

  /** The invariant of the search loop on concluded, distances and prev. */
  ghost predicate SearchInv<S(!new), A(!new), K>(dom: Domain<S, A, K>, initial: S, goal: S, universe: set<K>,
    concluded: set<K>, distances: map<K, nat>, prev: map<K, Option<S>>, order: map<K, nat>)
  {
    && MapsInv(dom, initial, goal, universe, concluded, distances, prev)
    && LinksInv(dom, initial, concluded, prev)
    && OrderInv(dom, initial, concluded, prev, order)
  }

  /**
   The invariant of the search loop on the fringe: every entry's key has a
   distance (so the lookup of the popped state's distance succeeds), lies in the universe and
   belongs to a reachable state; before the first expansion the fringe is the
   initial entry; and every neighbour of a concluded state is concluded or
   still pending in the fringe.
   */
  ghost predicate FringeInv<S(!new), A(!new), K>(dom: Domain<S, A, K>, initial: S, goal: S, universe: set<K>,
    fringe: multiset<Entry<S>>, concluded: set<K>, distances: map<K, nat>)
  {
    && (forall e :: e in fringe ==>
          dom.key(e.state) in distances && dom.key(e.state) in universe && Reachable(dom, initial, e.state))
    && (concluded == {} ==> fringe == multiset{Entry(dom.heuristic(initial, goal), initial)})
    && (forall c, a :: dom.key(c) in concluded && a in dom.actions(c) ==>
          dom.key(dom.apply(c, a)) in concluded || Pending(dom, fringe, dom.key(dom.apply(c, a))))
  }

  /**
   The lazy deletion after heappop: dropping a popped entry whose state is
   concluded keeps the fringe invariant for the same concluded set and distances.
   */
  lemma DiscardKeepsInv<S(!new), A(!new), K>(dom: Domain<S, A, K>, initial: S, goal: S, universe: set<K>,
    fringe: multiset<Entry<S>>, e: Entry<S>, concluded: set<K>, distances: map<K, nat>)
    requires FringeInv(dom, initial, goal, universe, fringe, concluded, distances)
    requires e in fringe && dom.key(e.state) in concluded
    ensures FringeInv(dom, initial, goal, universe, fringe - multiset{e}, concluded, distances)
  {
    var rest := fringe - multiset{e};
    forall c, a | dom.key(c) in concluded && a in dom.actions(c) && dom.key(dom.apply(c, a)) !in concluded
      ensures Pending(dom, rest, dom.key(dom.apply(c, a)))
    {
      var x :| x in fringe && dom.key(x.state) == dom.key(dom.apply(c, a));
      assert x != e && x in rest;
    }
  }

  /** The maps after expanding current relax the maps before towards all of current's targets. */
  ghost predicate RelaxedBy<S, A, K>(dom: Domain<S, A, K>, current: S, currDist: nat, concluded: set<K>,
    distances: map<K, nat>, prev: map<K, Option<S>>, distances': map<K, nat>, prev': map<K, Option<S>>)
  {
    var acts := dom.actions(current);
    Relaxed(Targets(dom, current, concluded, acts, |acts|), current, currDist + 1, distances, prev, distances', prev')
  }

  /** Expanding current keeps MapsInv once its key is added to concluded. */
  lemma ExpandKeepsMaps<S, A, K>(dom: Domain<S, A, K>, initial: S, goal: S, universe: set<K>, current: S,
    concluded: set<K>, distances: map<K, nat>, prev: map<K, Option<S>>, distances': map<K, nat>, prev': map<K, Option<S>>)
    requires MapsInv(dom, initial, goal, universe, concluded, distances, prev)
    requires dom.key(current) in distances && dom.key(current) in universe && dom.key(current) != dom.key(goal)
    requires concluded == {} ==> current == initial
    requires RelaxedBy(dom, current, distances[dom.key(current)], concluded, distances, prev, distances', prev')
    ensures MapsInv(dom, initial, goal, universe, concluded + {dom.key(current)}, distances', prev')
  {
  }

  /** Expanding a reachable current keeps LinksInv once its key is added to concluded. */
  lemma ExpandKeepsLinks<S(!new), A(!new), K>(dom: Domain<S, A, K>, initial: S, current: S,
    concluded: set<K>, distances: map<K, nat>, prev: map<K, Option<S>>, distances': map<K, nat>, prev': map<K, Option<S>>)
    requires LinksInv(dom, initial, concluded, prev) && distances.Keys == prev.Keys
    requires dom.key(current) in distances && Reachable(dom, initial, current)
    requires RelaxedBy(dom, current, distances[dom.key(current)], concluded, distances, prev, distances', prev')
    ensures LinksInv(dom, initial, concluded + {dom.key(current)}, prev')
  {
    var acts := dom.actions(current);
    var targets := Targets(dom, current, concluded, acts, |acts|);
    var d := distances[dom.key(current)];
    forall k | k in prev' && prev'[k].Some?
      ensures dom.key(prev'[k].value) in concluded + {dom.key(current)}
      ensures Edge(dom, prev'[k].value, k) && Reachable(dom, initial, prev'[k].value)
    {
      if Overwrites(targets, distances, k, d + 1) {
        TargetsCome(dom, current, concluded, acts, |acts|, k);
        var j :| 0 <= j < |acts| && dom.key(dom.apply(current, acts[j])) == k;
        assert acts[j] in dom.actions(current);
      }
    }
  }

  /**
   Without self-loops no move of current leads back to a concluded key or to
   current's own key, so expanding current overwrites none of their entries.
   */
  lemma ExpandSparesConcluded<S(!new), A(!new), K>(dom: Domain<S, A, K>, current: S, concluded: set<K>,
    distances: map<K, nat>, prev: map<K, Option<S>>, distances': map<K, nat>, prev': map<K, Option<S>>)
    requires Injective(dom.key) && NoSelfLoops(dom)
    requires dom.key(current) in distances && distances.Keys == prev.Keys && concluded <= prev.Keys
    requires RelaxedBy(dom, current, distances[dom.key(current)], concluded, distances, prev, distances', prev')
    ensures forall k :: k in concluded + {dom.key(current)} ==> k in prev' && prev'[k] == prev[k]
  {
    var kc := dom.key(current);
    var acts := dom.actions(current);
    var targets := Targets(dom, current, concluded, acts, |acts|);
    assert kc !in targets by {
      if kc in targets {
        TargetsCome(dom, current, concluded, acts, |acts|, kc);
      }
    }
    forall k | k in concluded + {kc}
      ensures k in prev' && prev'[k] == prev[k]
    {
      assert !Overwrites(targets, distances, k, distances[kc] + 1);
    }
  }

  /**
   Without self-loops, expanding current (the start, when nothing is concluded
   yet) keeps OrderInv once its key is added to concluded with the next number.
   */
  lemma ExpandKeepsOrder<S(!new), A(!new), K>(dom: Domain<S, A, K>, initial: S, current: S,
    concluded: set<K>, prev: map<K, Option<S>>, order: map<K, nat>, prev': map<K, Option<S>>)
    requires concluded <= prev.Keys && dom.key(initial) in prev && OrderInv(dom, initial, concluded, prev, order)
    requires forall k :: k in prev && prev[k].Some? ==> dom.key(prev[k].value) in concluded
    requires dom.key(current) !in concluded && (concluded == {} ==> current == initial)
    requires concluded != {} ==> dom.key(initial) in concluded
    requires concluded + {dom.key(current)} <= prev'.Keys && dom.key(initial) in prev'
    requires NoSelfLoops(dom) ==>
               forall k :: k in concluded + {dom.key(current)} ==> k in prev && k in prev' && prev'[k] == prev[k]
    ensures OrderInv(dom, initial, concluded + {dom.key(current)}, prev', order[dom.key(current) := |concluded|])
  {
    var kc := dom.key(current);
    var concluded' := concluded + {kc};
    var order' := order[kc := |concluded|];
    assert |concluded'| == |concluded| + 1;
    assert order'.Keys == concluded';
    if NoSelfLoops(dom) {
      assert dom.key(initial) in concluded';
      forall k | k in concluded' && prev'[k].Some?
        ensures dom.key(prev'[k].value) in order' && order'[dom.key(prev'[k].value)] < order'[k]
      {
        assert prev'[k] == prev[k];
        assert dom.key(prev[k].value) in concluded;
      }
    }
  }

  /** Expanding a popped, unconcluded state other than the goal, then concluding it, keeps SearchInv. */
  lemma ExpandKeepsSearchInv<S(!new), A(!new), K>(dom: Domain<S, A, K>, initial: S, goal: S, universe: set<K>,
    fringe: multiset<Entry<S>>, e: Entry<S>, concluded: set<K>, distances: map<K, nat>, prev: map<K, Option<S>>,
    order: map<K, nat>)
    requires Injective(dom.key)
    requires SearchInv(dom, initial, goal, universe, concluded, distances, prev, order)
    requires FringeInv(dom, initial, goal, universe, fringe, concluded, distances)
    requires e in fringe && dom.key(e.state) !in concluded && e.state != goal
    ensures var x := ExpansionOf(dom, goal, e, concluded, fringe, distances, prev);
      SearchInv(dom, initial, goal, universe, concluded + {dom.key(e.state)}, x.distances, x.prev,
                order[dom.key(e.state) := |concluded|])
  {
    var current := e.state;
    var d := distances[dom.key(current)];
    var x := ExpansionOf(dom, goal, e, concluded, fringe, distances, prev);
    ExpandedRelaxes(dom, goal, current, d, concluded, Expansion(fringe - multiset{e}, distances, prev),
                    dom.actions(current), |dom.actions(current)|);
    assert concluded == {} ==> current == initial;
    ExpandKeepsMaps(dom, initial, goal, universe, current, concluded, distances, prev, x.distances, x.prev);
    ExpandKeepsLinks(dom, initial, current, concluded, distances, prev, x.distances, x.prev);
    if NoSelfLoops(dom) {
      ExpandSparesConcluded(dom, current, concluded, distances, prev, x.distances, x.prev);
    }
    ExpandKeepsOrder(dom, initial, current, concluded, prev, order, x.prev);
  }

  /** The entries of the fringe after an expansion have distances and universe keys and are reachable. */
  lemma ExpandKeepsEntries<S(!new), A(!new), K>(dom: Domain<S, A, K>, initial: S, goal: S, universe: set<K>,
    fringe: multiset<Entry<S>>, e: Entry<S>, concluded: set<K>, distances: map<K, nat>, prev: map<K, Option<S>>)
    requires Closed(dom, universe)
    requires FringeInv(dom, initial, goal, universe, fringe, concluded, distances)
    requires e in fringe && dom.key(e.state) !in concluded && distances.Keys == prev.Keys
    ensures var x := ExpansionOf(dom, goal, e, concluded, fringe, distances, prev);
      forall y :: y in x.fringe ==>
        dom.key(y.state) in x.distances && dom.key(y.state) in universe && Reachable(dom, initial, y.state)
  {
    var current := e.state;
    var d := distances[dom.key(current)];
    var start := Expansion(fringe - multiset{e}, distances, prev);
    var acts := dom.actions(current);
    var x := ExpansionOf(dom, goal, e, concluded, fringe, distances, prev);
    ExpandedRelaxes(dom, goal, current, d, concluded, start, acts, |acts|);
    forall y | y in x.fringe
      ensures dom.key(y.state) in x.distances && dom.key(y.state) in universe && Reachable(dom, initial, y.state)
    {
      if y !in start.fringe {
        ExpandedEntry(dom, goal, current, d, concluded, start, acts, |acts|, y);
        var j :| 0 <= j < |acts| && dom.apply(current, acts[j]) == y.state;
        TargetsHave(dom, current, concluded, acts, |acts|, j);
        ReachableExtend(dom, initial, current, acts[j]);
      }
    }
  }

  /** After an expansion every neighbour of a concluded state is concluded or pending. */
  lemma ExpandKeepsClosure<S(!new), A(!new), K>(dom: Domain<S, A, K>, initial: S, goal: S, universe: set<K>,
    fringe: multiset<Entry<S>>, e: Entry<S>, concluded: set<K>, distances: map<K, nat>, prev: map<K, Option<S>>)
    requires Injective(dom.key)
    requires FringeInv(dom, initial, goal, universe, fringe, concluded, distances)
    requires e in fringe && dom.key(e.state) !in concluded
    ensures var x := ExpansionOf(dom, goal, e, concluded, fringe, distances, prev);
      forall c, a :: dom.key(c) in concluded + {dom.key(e.state)} && a in dom.actions(c) ==>
        dom.key(dom.apply(c, a)) in concluded + {dom.key(e.state)} || Pending(dom, x.fringe, dom.key(dom.apply(c, a)))
  {
    var current := e.state;
    var kc := dom.key(current);
    var d := distances[kc];
    var start := Expansion(fringe - multiset{e}, distances, prev);
    var acts := dom.actions(current);
    var x := ExpansionOf(dom, goal, e, concluded, fringe, distances, prev);
    forall c, a | dom.key(c) in concluded + {kc} && a in dom.actions(c) && dom.key(dom.apply(c, a)) !in concluded + {kc}
      ensures Pending(dom, x.fringe, dom.key(dom.apply(c, a)))
    {
      var n := dom.apply(c, a);
      if dom.key(c) == kc {
        assert c == current;
        var j :| 0 <= j < |acts| && acts[j] == a;
        ExpandedPushes(dom, goal, current, d, concluded, start, acts, |acts|, j);
        assert Entry(dom.heuristic(n, goal) + d + 1, n) in x.fringe;
      } else {
        var y :| y in fringe && dom.key(y.state) == dom.key(n);
        assert y != e && y in start.fringe;
        ExpandedKeeps(dom, goal, current, d, concluded, start, acts, |acts|, y);
      }
    }
  }

  /** Expanding a popped, unconcluded state, then concluding it, keeps FringeInv. */
  lemma ExpandKeepsFringeInv<S(!new), A(!new), K>(dom: Domain<S, A, K>, initial: S, goal: S, universe: set<K>,
    fringe: multiset<Entry<S>>, e: Entry<S>, concluded: set<K>, distances: map<K, nat>, prev: map<K, Option<S>>)
    requires Injective(dom.key) && Closed(dom, universe)
    requires FringeInv(dom, initial, goal, universe, fringe, concluded, distances)
    requires e in fringe && dom.key(e.state) !in concluded && distances.Keys == prev.Keys
    ensures var x := ExpansionOf(dom, goal, e, concluded, fringe, distances, prev);
      FringeInv(dom, initial, goal, universe, x.fringe, concluded + {dom.key(e.state)}, x.distances)
  {
    ExpandKeepsEntries(dom, initial, goal, universe, fringe, e, concluded, distances, prev);
    ExpandKeepsClosure(dom, initial, goal, universe, fringe, e, concluded, distances, prev);
  }

  /** The rank of a key along predecessor links: its conclusion number, or |concluded| if not concluded. */
  ghost function Rank<K>(concluded: set<K>, order: map<K, nat>, k: K): nat
    requires order.Keys == concluded
  {
    if k in concluded then order[k] else |concluded|
  }

  /** Predecessor links strictly lower the rank, so the walk from a key of rank at most fuel ends at None. */
  lemma {:induction false} RankedWalk<S(!new), A(!new), K>(dom: Domain<S, A, K>, initial: S, goal: S, universe: set<K>,
    concluded: set<K>, distances: map<K, nat>, prev: map<K, Option<S>>, order: map<K, nat>, k: K, fuel: nat)
    requires NoSelfLoops(dom)
    requires SearchInv(dom, initial, goal, universe, concluded, distances, prev, order)
    requires k in prev && Rank(concluded, order, k) <= fuel
    ensures Links(prev, dom.key, k, fuel).Some?
    decreases fuel
  {
    match prev[k]
    case None =>
    case Some(p) =>
      assert Rank(concluded, order, dom.key(p)) < Rank(concluded, order, k);
      RankedWalk(dom, initial, goal, universe, concluded, distances, prev, order, dom.key(p), fuel - 1);
  }

  /** A subset of a finite set is no larger than it. */
  lemma {:induction false} SubsetCard<K>(a: set<K>, b: set<K>)
    requires a <= b
    ensures |a| <= |b|
    decreases |a|
  {
    if a != {} {
      var x :| x in a;
      SubsetCard(a - {x}, b - {x});
    }
  }

  /** Without self-loops, the walk from every key of the result reaches the start. */
  lemma WalksReachStart<S(!new), A(!new), K>(dom: Domain<S, A, K>, initial: S, goal: S, universe: set<K>,
    concluded: set<K>, distances: map<K, nat>, prev: map<K, Option<S>>, order: map<K, nat>)
    requires NoSelfLoops(dom)
    requires SearchInv(dom, initial, goal, universe, concluded, distances, prev, order)
    ensures forall k :: k in prev ==> ReachesStart(prev, dom.key, k)
  {
    SubsetCard(concluded, prev.Keys);
    forall k | k in prev
      ensures ReachesStart(prev, dom.key, k)
    {
      RankedWalk(dom, initial, goal, universe, concluded, distances, prev, order, k, |prev|);
    }
  }

  /** A goal with an entry in prev is reachable from the initial state. */
  lemma EntryMeansReachable<S(!new), A(!new), K>(dom: Domain<S, A, K>, initial: S, goal: S, universe: set<K>,
    concluded: set<K>, distances: map<K, nat>, prev: map<K, Option<S>>, order: map<K, nat>)
    requires Injective(dom.key)
    requires SearchInv(dom, initial, goal, universe, concluded, distances, prev, order)
    requires dom.key(goal) in prev
    ensures Reachable(dom, initial, goal)
  {
    match prev[dom.key(goal)]
    case None =>
      ReachableFromItself(dom, initial);
    case Some(p) =>
      var a :| a in dom.actions(p) && dom.key(dom.apply(p, a)) == dom.key(goal);
      ReachableExtend(dom, initial, p, a);
  }

  /** The exit of the search loop on an empty fringe: when the fringe runs out, the goal is not reachable. */
  lemma ExhaustedMeansUnreachable<S(!new), A(!new), K>(dom: Domain<S, A, K>, initial: S, goal: S, universe: set<K>,
    concluded: set<K>, distances: map<K, nat>, prev: map<K, Option<S>>, order: map<K, nat>)
    requires SearchInv(dom, initial, goal, universe, concluded, distances, prev, order)
    requires FringeInv(dom, initial, goal, universe, multiset{}, concluded, distances)
    ensures !Reachable(dom, initial, goal)
  {
    if Reachable(dom, initial, goal) {
      var path :| IsPath(dom, path) && |path| > 0 && path[0] == initial && path[|path| - 1] == goal;
      ClosedSetHoldsPath(dom, concluded, path);
    }
  }

  /**
   The initialisation of a_star: the start of the search (distances {initial: 0}, prev
   {initial: None}, nothing concluded, the fringe holding only
   (heuristic(initial, goal), initial)) satisfies both loop invariants.
   */
  lemma StartSatisfiesInv<S(!new), A(!new), K>(dom: Domain<S, A, K>, initial: S, goal: S, universe: set<K>)
    requires dom.key(initial) in universe
    ensures SearchInv(dom, initial, goal, universe, {}, map[dom.key(initial) := 0], map[dom.key(initial) := None], map[])
    ensures FringeInv(dom, initial, goal, universe, multiset{Entry(dom.heuristic(initial, goal), initial)}, {},
                      map[dom.key(initial) := 0])
  {
    ReachableFromItself(dom, initial);
  }

  /**
   a_star(puzzle) for start state initial and goal state goal; returns prev.
   universe is a finite set of keys closed under the moves, standing for the
   finite state space; the loop needs it to end.
   */
  method AStar<S(==, !new), A(!new), K(==)>(dom: Domain<S, A, K>, initial: S, goal: S, ghost universe: set<K>)
    returns (prev: map<K, Option<S>>)
    requires Injective(dom.key)
    requires dom.key(initial) in universe && Closed(dom, universe)
    ensures PredecessorMap(dom, initial, prev)
    ensures forall k :: k in prev && prev[k].Some? ==> Reachable(dom, initial, prev[k].value)
    ensures dom.key(goal) in prev <==> Reachable(dom, initial, goal)
    ensures NoSelfLoops(dom) ==>
              prev[dom.key(initial)] == None && forall k :: k in prev ==> ReachesStart(prev, dom.key, k)
  {
    var fringe := multiset{Entry(dom.heuristic(initial, goal), initial)};
    var concluded: set<K> := {};
    var distances: map<K, nat> := map[dom.key(initial) := 0];
    prev := map[dom.key(initial) := None];
    ghost var order: map<K, nat> := map[];
    ghost var found := false;
    StartSatisfiesInv(dom, initial, goal, universe);

    while |fringe| > 0
      invariant SearchInv(dom, initial, goal, universe, concluded, distances, prev, order)
      invariant FringeInv(dom, initial, goal, universe, fringe, concluded, distances)
      invariant !found
      decreases |universe - concluded|, |fringe|
    {
      var e, rest := PopMin(fringe);
      var current := e.state;
      if dom.key(current) in concluded {
        DiscardKeepsInv(dom, initial, goal, universe, fringe, e, concluded, distances);
        fringe := rest;
        continue;
      }
      var currDist := distances[dom.key(current)];
      if current == goal {
        found := true;
        break;
      }
      var fringe', distances', prev' := Expand(dom, goal, current, currDist, concluded, rest, distances, prev);
      ExpandKeepsSearchInv(dom, initial, goal, universe, fringe, e, concluded, distances, prev, order);
      ExpandKeepsFringeInv(dom, initial, goal, universe, fringe, e, concluded, distances, prev);
      assert universe - (concluded + {dom.key(current)}) < universe - concluded;
      fringe, distances, prev := fringe', distances', prev';
      order := order[dom.key(current) := |concluded|];
      concluded := concluded + {dom.key(current)};
    }

    if !found {
      ExhaustedMeansUnreachable(dom, initial, goal, universe, concluded, distances, prev, order);
    }
    if dom.key(goal) in prev {
      EntryMeansReachable(dom, initial, goal, universe, concluded, distances, prev, order);
    }
    if NoSelfLoops(dom) {
      WalksReachStart(dom, initial, goal, universe, concluded, distances, prev, order);
    }
  }
}
