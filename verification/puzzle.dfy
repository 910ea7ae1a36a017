/**
 The interface the search uses of the puzzle's State class. The class itself
 (tile grid, move generation, string encoding, Manhattan distance) is not part
 of this model: its four operations are parameters, gathered in a `Domain`.
 */
module Puzzle {

  datatype Option<T> = None | Some(value: T)

  /**
   The operations of a State that the search calls:
   - key:       State.to_string, the canonical encoding used as dictionary key;
   - actions:   State.get_actions, the legal moves, in the order they are tried;
   - apply:     State.apply_action, the state a move leads to;
   - heuristic: the estimate from a state to the goal (get_manhattan_distance,
                or the misplaced-tiles count kept as a commented-out alternative).
   */
  datatype Domain<!S, !A, K> = Domain(
    key: S -> K,
    actions: S -> seq<A>,
    apply: (S, A) -> S,
    heuristic: (S, S) -> int)

  /** Distinct states have distinct keys (the string encoding is canonical). */
  ghost predicate Injective<S(!new), K>(key: S -> K)
  {
    forall s, t :: key(s) == key(t) ==> s == t
  }

  /** No legal move leaves a state as it was, as with every sliding-tile move. */
  ghost predicate NoSelfLoops<S(!new), A(!new), K>(dom: Domain<S, A, K>)
  {
    forall s, a :: a in dom.actions(s) ==> dom.apply(s, a) != s
  }

  /** The keys in universe are closed under the legal moves. */
  ghost predicate Closed<S(!new), A(!new), K>(dom: Domain<S, A, K>, universe: set<K>)
  {
    forall s, a :: dom.key(s) in universe && a in dom.actions(s) ==> dom.key(dom.apply(s, a)) in universe
  }

  /** Some legal move of p leads to a state whose key is k. */
  ghost predicate Edge<S, A(!new), K>(dom: Domain<S, A, K>, p: S, k: K)
  {
    exists a :: a in dom.actions(p) && dom.key(dom.apply(p, a)) == k
  }

  /** Some legal move of s leads to t. */
  ghost predicate Move<S, A(!new), K>(dom: Domain<S, A, K>, s: S, t: S)
  {
    exists a :: a in dom.actions(s) && dom.apply(s, a) == t
  }

  /** Consecutive states of path are joined by a legal move. */
  ghost predicate IsPath<S, A(!new), K>(dom: Domain<S, A, K>, path: seq<S>)
  {
    forall i :: 0 <= i < |path| - 1 ==> Move(dom, path[i], path[i + 1])
  }

  /** t can be reached from s by a sequence of legal moves. */
  ghost predicate Reachable<S(!new), A(!new), K>(dom: Domain<S, A, K>, s: S, t: S)
  {
    exists path :: IsPath(dom, path) && |path| > 0 && path[0] == s && path[|path| - 1] == t
  }

  /** Every state reaches itself by the empty sequence of moves. */
  lemma ReachableFromItself<S(!new), A(!new), K>(dom: Domain<S, A, K>, s: S)
    ensures Reachable(dom, s, s)
  {
    assert IsPath(dom, [s]);
  }

  /** A move from a reachable state leads to a reachable state. */
  lemma ReachableExtend<S(!new), A(!new), K>(dom: Domain<S, A, K>, s: S, t: S, a: A)
    requires Reachable(dom, s, t) && a in dom.actions(t)
    ensures Reachable(dom, s, dom.apply(t, a))
  {
    var path :| IsPath(dom, path) && |path| > 0 && path[0] == s && path[|path| - 1] == t;
    var path' := path + [dom.apply(t, a)];
    forall i | 0 <= i < |path'| - 1
      ensures Move(dom, path'[i], path'[i + 1])
    {
      if i == |path| - 1 {
        assert path'[i] == t && path'[i + 1] == dom.apply(t, a);
      } else {
        assert path'[i] == path[i] && path'[i + 1] == path[i + 1];
      }
    }
    assert IsPath(dom, path');
  }

  /**
   A set of keys that holds the key of a path's first state and is closed under
   the moves of the states it holds the keys of also holds the key of the
   path's last state.
   */
  lemma {:induction false} ClosedSetHoldsPath<S, A(!new), K>(dom: Domain<S, A, K>, keys: set<K>, path: seq<S>)
    requires forall c, a :: dom.key(c) in keys && a in dom.actions(c) ==> dom.key(dom.apply(c, a)) in keys
    requires IsPath(dom, path) && |path| > 0 && dom.key(path[0]) in keys
    ensures dom.key(path[|path| - 1]) in keys
    decreases |path|
  {
    if |path| > 1 {
      assert Move(dom, path[0], path[1]);
      var a :| a in dom.actions(path[0]) && dom.apply(path[0], a) == path[1];
      var rest := path[1..];
      assert IsPath(dom, rest) by {
        forall i | 0 <= i < |rest| - 1
          ensures Move(dom, rest[i], rest[i + 1])
        {
          assert rest[i] == path[i + 1] && rest[i + 1] == path[i + 2];
        }
      }
      ClosedSetHoldsPath(dom, keys, rest);
    }
  }
}
