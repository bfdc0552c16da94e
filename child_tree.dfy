/**
 * The children relation of src/ContextManager.ts (`parentChildrenIdMap`,
 * id -> set of child ids) as a value, and the subtree that
 * `cleanupChildren` walks. Termination rests on creation stamps: apart
 * from a self-edge, a child's context is always made after its parent's.
 */
module ChildTree {

  /** `children` is ranked by the creation stamps `born` (all below
      `clock`): every edge other than a self-edge goes from an older id to a
      younger one, and a node reached by such an edge has no self-edge. */
  ghost predicate Ranked(children: map<int, set<int>>, born: map<int, nat>, clock: nat)
  {
    && children.Keys <= born.Keys
    && (forall x | x in born :: born[x] < clock)
    && (forall p, c | p in children && c in children[p] ::
          c in born && (c != p ==> born[p] < born[c] && (c in children ==> c !in children[c])))
  }

  /** `ids` contains every child of each of its members. */
  ghost predicate Closed(children: map<int, set<int>>, ids: set<int>)
  {
    forall p, c | p in ids && p in children && c in children[p] :: c in ids
  }

  /** An edge from `p` to `c` that goes forward in creation order. In a
      ranked relation every edge but a self-edge does. */
  ghost predicate Forward(born: map<int, nat>, clock: nat, p: int, c: int)
  {
    p in born && c in born && born[p] < born[c] < clock
  }

  /** `id` and every id reachable from it through the children sets along
      forward edges: in a ranked relation, every edge but a self-edge. */
  ghost function Subtree(children: map<int, set<int>>, born: map<int, nat>, clock: nat, id: int): set<int>
    decreases if id in born && born[id] < clock then clock - born[id] else 0
  {
    if id !in children then {id}
    else {id} + (set c, d | c in children[id] && Forward(born, clock, id, c) && d in Subtree(children, born, clock, c) :: d)
  }

  /** Every member of a subtree was created no earlier than its root. */
  lemma {:induction false} SubtreeRank(children: map<int, set<int>>, born: map<int, nat>, clock: nat, id: int)
    requires Ranked(children, born, clock) && id in born
    ensures forall d | d in Subtree(children, born, clock, id) :: d in born && born[id] <= born[d]
    decreases clock - born[id]
  {
    if id in children {
      forall c | c in children[id] && c != id {
        SubtreeRank(children, born, clock, c);
      }
    }
  }

  /** A subtree contains the children of each of its members. */
  lemma {:induction false} SubtreeClosed(children: map<int, set<int>>, born: map<int, nat>, clock: nat, id: int)
    requires Ranked(children, born, clock)
    ensures Closed(children, Subtree(children, born, clock, id))
    decreases if id in born && born[id] < clock then clock - born[id] else 0
  {
    var s := Subtree(children, born, clock, id);
    if id in children {
      forall c | c in children[id] && c != id {
        SubtreeClosed(children, born, clock, c);
      }
      forall p, c | p in s && p in children && c in children[p] ensures c in s {
        if p != id {
          var q :| q in children[id] && Forward(born, clock, id, q) && p in Subtree(children, born, clock, q);
          assert c in Subtree(children, born, clock, q);
        }
      }
    }
  }

  /** A closed set that holds `id` holds its whole subtree. */
  lemma {:induction false} SubtreeWithin(children: map<int, set<int>>, born: map<int, nat>, clock: nat, ids: set<int>, id: int)
    requires Ranked(children, born, clock) && Closed(children, ids) && id in ids
    ensures Subtree(children, born, clock, id) <= ids
    decreases if id in born && born[id] < clock then clock - born[id] else 0
  {
    if id in children {
      forall c | c in children[id] && c != id {
        SubtreeWithin(children, born, clock, ids, c);
      }
    }
  }

  /** Removing the entries of a closed set leaves the relation ranked, and
      the subtree of any id loses only members of that set. */
  lemma {:induction false} SubtreeMinus(children: map<int, set<int>>, born: map<int, nat>, clock: nat, gone: set<int>, id: int)
    requires Ranked(children, born, clock) && Closed(children, gone)
    ensures Ranked(children - gone, born, clock)
    ensures Subtree(children - gone, born, clock, id) + gone == Subtree(children, born, clock, id) + gone
    decreases if id in born && born[id] < clock then clock - born[id] else 0
  {
    var rest := children - gone;
    if id in gone {
      SubtreeWithin(children, born, clock, gone, id);
    } else if id in children {
      assert rest[id] == children[id];
      forall c | c in children[id] && c != id {
        SubtreeMinus(children, born, clock, gone, c);
      }
      var lhs := Subtree(rest, born, clock, id);
      var rhs := Subtree(children, born, clock, id);
      forall d | d in lhs && d !in gone ensures d in rhs {
        if d != id {
          var c :| c in rest[id] && Forward(born, clock, id, c) && d in Subtree(rest, born, clock, c);
          assert d in Subtree(children, born, clock, c);
        }
      }
      forall d | d in rhs && d !in gone ensures d in lhs {
        if d != id {
          var c :| c in children[id] && Forward(born, clock, id, c) && d in Subtree(children, born, clock, c);
          assert d in Subtree(rest, born, clock, c);
        }
      }
    }
  }

  /** Two relations that agree on the children of every member of a
      subtree (self-edges aside) give the same subtree. */
  lemma {:induction false} SubtreeFrame(children: map<int, set<int>>, other: map<int, set<int>>, born: map<int, nat>, clock: nat, id: int)
    requires Ranked(children, born, clock) && Ranked(other, born, clock)
    requires forall y | y in Subtree(children, born, clock, id) ::
               (y in other <==> y in children) && (y in children ==> other[y] - {y} == children[y] - {y})
    ensures Subtree(other, born, clock, id) == Subtree(children, born, clock, id)
    decreases if id in born && born[id] < clock then clock - born[id] else 0
  {
    if id in children {
      assert other[id] - {id} == children[id] - {id};
      forall c | c in children[id] && c != id {
        SubtreeFrame(children, other, born, clock, c);
      }
      var lhs := Subtree(other, born, clock, id);
      var rhs := Subtree(children, born, clock, id);
      forall d | d in lhs ensures d in rhs {
        if d != id {
          var c :| c in other[id] && Forward(born, clock, id, c) && d in Subtree(other, born, clock, c);
          assert c in children[id] - {id};
        }
      }
      forall d | d in rhs ensures d in lhs {
        if d != id {
          var c :| c in children[id] && Forward(born, clock, id, c) && d in Subtree(children, born, clock, c);
          assert c in other[id] - {id};
        }
      }
    }
  }

  /** When every child has one parent (`parent[c] == p` for `c` in the
      children of `p`), a child of a node outside the subtree of `id` is
      itself outside it, unless it is `id`. */
  lemma {:induction false} OutsideChild(children: map<int, set<int>>, parent: map<int, int>, born: map<int, nat>, clock: nat, id: int, p: int, c: int)
    requires Ranked(children, born, clock)
    requires forall q, x | q in children && x in children[q] :: x in parent && parent[x] == q
    requires p in children && c in children[p] && c != id
    requires p !in Subtree(children, born, clock, id)
    ensures c !in Subtree(children, born, clock, id)
    decreases if id in born && born[id] < clock then clock - born[id] else 0
  {
    if id in children {
      assert id in Subtree(children, born, clock, id) && p != id;
      assert parent[c] == p;
      assert c !in children[id];
      forall q | q in children[id] && q != id ensures c !in Subtree(children, born, clock, q) {
        OutsideChild(children, parent, born, clock, q, p, c);
      }
    }
  }

  /** One step of the walk over the children of `id`: once the closed set
      `removed` is gone, reclaiming the subtree of `child` that is left
      removes exactly what its whole subtree adds to `removed`, and never
      reaches `id`. */
  lemma CleanupStep(children: map<int, set<int>>, born: map<int, nat>, clock: nat, removed: set<int>, id: int, child: int)
    requires Ranked(children, born, clock) && Closed(children, removed)
    requires id in children && child in children[id] && child != id
    ensures Ranked(children - removed, born, clock)
    ensures child in children - removed ==> child !in (children - removed)[child]
    ensures removed + Subtree(children - removed, born, clock, child) == removed + Subtree(children, born, clock, child)
    ensures Closed(children, removed + Subtree(children, born, clock, child))
    ensures id !in Subtree(children, born, clock, child)
    ensures Subtree(children, born, clock, child) <= Subtree(children, born, clock, id)
  {
    SubtreeMinus(children, born, clock, removed, child);
    SubtreeClosed(children, born, clock, child);
    SubtreeRank(children, born, clock, child);
    SubtreeClosed(children, born, clock, id);
    SubtreeWithin(children, born, clock, Subtree(children, born, clock, id), child);
  }

  /** A subtree is its root and whatever covers the subtrees of the root's
      other children without leaving it. */
  lemma SubtreeCovered(children: map<int, set<int>>, born: map<int, nat>, clock: nat, id: int, below: set<int>)
    requires Ranked(children, born, clock) && id in children
    requires forall c | c in children[id] && c != id :: Subtree(children, born, clock, c) <= below
    requires below <= Subtree(children, born, clock, id) && id !in below
    ensures Subtree(children, born, clock, id) == {id} + below
  {
  }

  /** Taking two sets of keys out of a map, one after the other. */
  lemma MinusTwice<T>(m: map<int, T>, a: set<int>, b: set<int>)
    ensures m - a - b == m - (a + b)
  {
  }
}
