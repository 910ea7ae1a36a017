/**
 Plan extraction: traverse walks the predecessor map that the search returns,
 from the goal back to the start, and recovers for each link the action that
 reproduces it.
 */
module PlanningUtils {
  import opened Puzzle

  /** An element of a plan: a state and the action taken from it (None for the goal). */
  datatype PlanStep<S, A> = PlanStep(state: S, action: Option<A>)

  /**
   The number of predecessor links from key k back to an entry holding None,
   provided the walk only meets keys of prev and ends within fuel links.
   */
  function Links<S, K(==)>(prev: map<K, Option<S>>, key: S -> K, k: K, fuel: nat): (r: Option<nat>)
    ensures k in prev && prev[k].None? ==> r == Some(0)
    ensures r.Some? ==> k in prev && r.value <= fuel
    ensures r.Some? && prev[k].Some? ==> r.value > 0
    decreases fuel
  {
    if k !in prev then None
    else match prev[k]
      case None => Some(0)
      case Some(p) =>
        if fuel == 0 then None
        else match Links(prev, key, key(p), fuel - 1)
          case None => None
          case Some(n) => Some(n + 1)
  }

  /** The walk from k reaches the start within as many links as prev has keys. */
  predicate ReachesStart<S, K(==)>(prev: map<K, Option<S>>, key: S -> K, k: K)
  {
    Links(prev, key, k, |prev|).Some?
  }

  /** The position of the first action in acts that takes p to s, if any. */
  function MatchIndex<S(==), A>(apply: (S, A) -> S, p: S, acts: seq<A>, s: S): (r: Option<nat>)
    ensures r.Some? ==> r.value < |acts| && apply(p, acts[r.value]) == s
    ensures r.Some? ==> forall j :: 0 <= j < r.value ==> apply(p, acts[j]) != s
    ensures r.None? ==> forall j :: 0 <= j < |acts| ==> apply(p, acts[j]) != s
    decreases |acts|
  {
    if acts == [] then None
    else if apply(p, acts[0]) == s then Some(0)
    else match MatchIndex(apply, p, acts[1..], s)
      case None => None
      case Some(i) => Some(i + 1)
  }

  /** The inner search of traverse: the actions of p are tried in order, and the first that gives s wins. */
  method FindAction<S(==), A>(apply: (S, A) -> S, p: S, acts: seq<A>, s: S) returns (r: Option<nat>)
    ensures r == MatchIndex(apply, p, acts, s)
  {
    var i := 0;
    while i < |acts|
      invariant 0 <= i <= |acts|
      invariant forall j :: 0 <= j < i ==> apply(p, acts[j]) != s
    {
      if apply(p, acts[i]) == s {
        return Some(i);
      }
      i := i + 1;
    }
    return None;
  }

  /**
   The pairs traverse prepends while walking from s back to the start: for each
   link (p to its successor t) one pair (p, a), a being the first action of p
   that gives t, and no pair for a link that no action of p reproduces.
   */
  ghost function TraceFrom<S, A, K>(dom: Domain<S, A, K>, prev: map<K, Option<S>>, s: S, fuel: nat): seq<PlanStep<S, A>>
    requires Links(prev, dom.key, dom.key(s), fuel).Some?
    decreases fuel
  {
    match prev[dom.key(s)]
    case None => []
    case Some(p) =>
      TraceFrom(dom, prev, p, fuel - 1) +
      match MatchIndex(dom.apply, p, dom.actions(p), s)
      case None => []
      case Some(i) => [PlanStep(p, Some(dom.actions(p)[i]))]
  }

  /** The plan traverse returns for goal. */
  ghost function Plan<S, A, K>(dom: Domain<S, A, K>, prev: map<K, Option<S>>, goal: S): seq<PlanStep<S, A>>
    requires ReachesStart(prev, dom.key, dom.key(goal))
  {
    TraceFrom(dom, prev, goal, |prev|) + [PlanStep(goal, None)]
  }

  /** Every link on the walk from s has an action that reproduces it. */
  ghost predicate AllMatch<S, A, K>(dom: Domain<S, A, K>, prev: map<K, Option<S>>, s: S, fuel: nat)
    requires Links(prev, dom.key, dom.key(s), fuel).Some?
    decreases fuel
  {
    match prev[dom.key(s)]
    case None => true
    case Some(p) => MatchIndex(dom.apply, p, dom.actions(p), s).Some? && AllMatch(dom, prev, p, fuel - 1)
  }

  /**
   What the search promises of the map it returns: the start has an entry, it is
   the only key mapped to None, and every other key is mapped to a state that has
   an entry itself and one of whose moves leads to that key.
   */
  ghost predicate PredecessorMap<S, A(!new), K>(dom: Domain<S, A, K>, initial: S, prev: map<K, Option<S>>)
  {
    && dom.key(initial) in prev
    && (forall k :: k in prev && prev[k].None? ==> k == dom.key(initial))
    && (forall k :: k in prev && prev[k].Some? ==> dom.key(prev[k].value) in prev && Edge(dom, prev[k].value, k))
  }

  /**
   traverse(goal_state, prev). The walk must stay inside prev and end at an
   entry holding None; otherwise the source raises KeyError or never returns.
   */
  method Traverse<S(==), A, K(==)>(dom: Domain<S, A, K>, goal: S, prev: map<K, Option<S>>)
    returns (result: seq<PlanStep<S, A>>)
    requires ReachesStart(prev, dom.key, dom.key(goal))
    ensures result == Plan(dom, prev, goal)
    ensures |result| >= 1 && result[|result| - 1] == PlanStep(goal, None)
    ensures |result| - 1 <= Links(prev, dom.key, dom.key(goal), |prev|).value
    ensures forall i :: 0 <= i < |result| - 1 ==>
              && result[i].action.Some?
              && var k := dom.key(dom.apply(result[i].state, result[i].action.value));
                 k in prev && prev[k] == Some(result[i].state)
    ensures prev[dom.key(goal)].None? ==> result == [PlanStep(goal, None)]
  {
    result := [PlanStep(goal, None)];
    var curr := goal;
    ghost var fuel: nat := |prev|;
    while prev[dom.key(curr)].Some?
      invariant Links(prev, dom.key, dom.key(curr), fuel).Some?
      invariant Plan(dom, prev, goal) == TraceFrom(dom, prev, curr, fuel) + result
      decreases fuel
    {
      var p := prev[dom.key(curr)].value;
      var found := FindAction(dom.apply, p, dom.actions(p), curr);
      ghost var rest := TraceFrom(dom, prev, p, fuel - 1);
      if found.Some? {
        assert TraceFrom(dom, prev, curr, fuel) == rest + [PlanStep(p, Some(dom.actions(p)[found.value]))];
        result := [PlanStep(p, Some(dom.actions(p)[found.value]))] + result;
      } else {
        assert TraceFrom(dom, prev, curr, fuel) == rest;
      }
      curr := prev[dom.key(curr)].value;
      fuel := fuel - 1;
    }
    PlanLinks(dom, prev, goal);
  }

  /**
   The plan for goal ends with (goal, None), has at most one pair per link of
   the walk, and each of its pairs is a recorded predecessor transition; when
   the goal's own entry holds None, the plan is that single pair.
   */
  lemma PlanLinks<S, A, K>(dom: Domain<S, A, K>, prev: map<K, Option<S>>, goal: S)
    requires ReachesStart(prev, dom.key, dom.key(goal))
    ensures var r := Plan(dom, prev, goal);
      && |r| >= 1 && r[|r| - 1] == PlanStep(goal, None)
      && |r| - 1 <= Links(prev, dom.key, dom.key(goal), |prev|).value
      && (forall i :: 0 <= i < |r| - 1 ==>
            && r[i].action.Some?
            && var k := dom.key(dom.apply(r[i].state, r[i].action.value));
               k in prev && prev[k] == Some(r[i].state))
      && (prev[dom.key(goal)].None? ==> r == [PlanStep(goal, None)])
  {
    var t := TraceFrom(dom, prev, goal, |prev|);
    TraceLinks(dom, prev, goal, |prev|);
    assert forall i :: 0 <= i < |t| ==> Plan(dom, prev, goal)[i] == t[i];
  }

  /**
   Each pair on the walk from s is a recorded predecessor transition (its action
   takes its state to a state whose entry holds that state), and there is at
   most one pair per link.
   */
  lemma {:induction false} TraceLinks<S, A, K>(dom: Domain<S, A, K>, prev: map<K, Option<S>>, s: S, fuel: nat)
    requires Links(prev, dom.key, dom.key(s), fuel).Some?
    ensures |TraceFrom(dom, prev, s, fuel)| <= Links(prev, dom.key, dom.key(s), fuel).value
    ensures forall i :: 0 <= i < |TraceFrom(dom, prev, s, fuel)| ==>
              var st := TraceFrom(dom, prev, s, fuel)[i];
              && st.action.Some?
              && var k := dom.key(dom.apply(st.state, st.action.value));
                 k in prev && prev[k] == Some(st.state)
    decreases fuel
  {
    match prev[dom.key(s)]
    case None =>
    case Some(p) =>
      TraceLinks(dom, prev, p, fuel - 1);
  }

  /**
   When every link has a matching action, the plan from s starts at a state
   whose entry holds None, each action takes its state to the next element's
   state, and the plan has one element more than the walk has links.
   */
  lemma {:induction false} TraceChained<S, A, K>(dom: Domain<S, A, K>, prev: map<K, Option<S>>, s: S, fuel: nat)
    requires Links(prev, dom.key, dom.key(s), fuel).Some?
    requires AllMatch(dom, prev, s, fuel)
    ensures var r := TraceFrom(dom, prev, s, fuel) + [PlanStep(s, None)];
      && |r| - 1 == Links(prev, dom.key, dom.key(s), fuel).value
      && dom.key(r[0].state) in prev && prev[dom.key(r[0].state)].None?
      && forall i :: 0 <= i < |r| - 1 ==>
           r[i].action.Some? && r[i].action.value in dom.actions(r[i].state) &&
           dom.apply(r[i].state, r[i].action.value) == r[i + 1].state
    decreases fuel
  {
    match prev[dom.key(s)]
    case None =>
    case Some(p) =>
      TraceChained(dom, prev, p, fuel - 1);
      var t := TraceFrom(dom, prev, p, fuel - 1);
      var j := MatchIndex(dom.apply, p, dom.actions(p), s).value;
      var a := dom.actions(p)[j];
      var r' := t + [PlanStep(p, None)];
      var r := t + [PlanStep(p, Some(a))] + [PlanStep(s, None)];
      assert TraceFrom(dom, prev, s, fuel) + [PlanStep(s, None)] == r;
      forall i | 0 <= i < |r| - 1
        ensures r[i].action.Some? && r[i].action.value in dom.actions(r[i].state)
        ensures dom.apply(r[i].state, r[i].action.value) == r[i + 1].state
      {
        if i < |t| {
          assert r[i] == r'[i] && r[i + 1].state == r'[i + 1].state;
        } else {
          assert r[i] == PlanStep(p, Some(a)) && r[i + 1].state == s;
        }
      }
      assert r[0].state == r'[0].state;
  }

  /** With canonical keys, every recorded link of a predecessor map has a matching action. */
  lemma {:induction false} EdgesMatch<S(!new), A(!new), K>(dom: Domain<S, A, K>, initial: S, prev: map<K, Option<S>>, s: S, fuel: nat)
    requires Injective(dom.key) && PredecessorMap(dom, initial, prev)
    requires Links(prev, dom.key, dom.key(s), fuel).Some?
    ensures AllMatch(dom, prev, s, fuel)
    decreases fuel
  {
    match prev[dom.key(s)]
    case None =>
    case Some(p) =>
      assert Edge(dom, p, dom.key(s));
      var a :| a in dom.actions(p) && dom.key(dom.apply(p, a)) == dom.key(s);
      var j :| 0 <= j < |dom.actions(p)| && dom.actions(p)[j] == a;
      assert dom.apply(p, dom.actions(p)[j]) == s;
      EdgesMatch(dom, initial, prev, p, fuel - 1);
  }

  /**
   The plan extracted from a predecessor map with canonical keys is a solution:
   it starts at the initial state, each action takes its state to the next
   one, it ends with (goal, None), and it has one element per state of the walk.
   */
  lemma PlanIsSolution<S(!new), A(!new), K>(dom: Domain<S, A, K>, initial: S, prev: map<K, Option<S>>, goal: S)
    requires Injective(dom.key) && PredecessorMap(dom, initial, prev)
    requires ReachesStart(prev, dom.key, dom.key(goal))
    ensures var r := Plan(dom, prev, goal);
      && r[0].state == initial
      && r[|r| - 1] == PlanStep(goal, None)
      && |r| - 1 == Links(prev, dom.key, dom.key(goal), |prev|).value
      && forall i :: 0 <= i < |r| - 1 ==>
           r[i].action.Some? && r[i].action.value in dom.actions(r[i].state) &&
           dom.apply(r[i].state, r[i].action.value) == r[i + 1].state
  {
    EdgesMatch(dom, initial, prev, goal, |prev|);
    TraceChained(dom, prev, goal, |prev|);
  }
}
