/**
 * The class `ContextManager` of src/ContextManager.ts: an id-keyed arena of
 * contexts with the parent/child links between ids. The ids the source
 * takes from the runtime (`executionAsyncId`, `triggerAsyncId`) are explicit
 * parameters here, and the lifecycle hooks `init`/`destroy` are ordinary
 * method calls.
 */
module Manager {
  import opened Types
  import opened ChildTree

  /** The private symbol under which a context keeps its merge flag. */
  const MERGE: Key := Sym(0)

  /** The JavaScript values a context can hold (numbers as integers). */
  datatype Value = Undefined | Null | Bool(b: bool) | Num(n: int) | Text(s: string) | Obj(ref: nat)

  /** `Boolean(v)` */
  predicate Truthy(v: Value)
  {
    match v
    case Undefined => false
    case Null => false
    case Bool(b) => b
    case Num(n) => n != 0
    case Text(s) => s != ""
    case Obj(_) => true
  }

  /** A context: a `Map` shared by reference. */
  class Store {
    var entries: map<Key, Value>

    /** `new Map(entries)` */
    constructor (entries: map<Key, Value>)
      ensures this.entries == entries
    {
      this.entries := entries;
    }

    /** `map.get(k)` */
    function Get(k: Key): (v: Value)
      reads this
      ensures k !in entries ==> v == Undefined
      ensures k in entries ==> v == entries[k]
    {
      if k in entries then entries[k] else Undefined
    }

    /** `map.set(k, v)` */
    method Set(k: Key, v: Value)
      modifies this
      ensures entries == old(entries)[k := v]
    {
      entries := entries[k := v];
    }
  }

  /** `parent.get(MERGE) === true`: a child created from such a context
      shares it instead of copying it. */
  predicate Shares(entries: map<Key, Value>)
  {
    MERGE in entries && entries[MERGE] == Bool(true)
  }

  /** `Boolean(context.get(MERGE))`: what the `merge` getter reports. */
  predicate MergeFlag(entries: map<Key, Value>)
  {
    MERGE in entries && Truthy(entries[MERGE])
  }

  /** The getter and the sharing test agree whenever the merge entry is
      absent or a boolean, which is all the `merge` setter ever stores. */
  lemma FlagMatchesSharing(entries: map<Key, Value>)
    requires MERGE in entries ==> entries[MERGE].Bool?
    ensures MergeFlag(entries) <==> Shares(entries)
  {
  }

  /** The invariant of the manager's maps: every children set belongs to
      an id with a context; each child has a context and its parent link
      names the set's owner; each parent link is backed by membership; the
      relation is ranked by creation. */
  ghost predicate Wellformed(contexts: map<int, Store>, children: map<int, set<int>>, parent: map<int, int>, born: map<int, nat>, clock: nat)
  {
    && children.Keys <= contexts.Keys <= born.Keys
    && parent.Keys <= contexts.Keys
    && Ranked(children, born, clock)
    && (forall p, c | p in children && c in children[p] :: c in contexts && c in parent && parent[c] == p)
    && (forall c | c in parent :: parent[c] in children && c in children[parent[c]])
  }

  /** Giving a context to an id that had none (the trigger in
      `getParentContext`) keeps the invariant. */
  lemma NewContextKeeps(contexts: map<int, Store>, children: map<int, set<int>>, parent: map<int, int>, born: map<int, nat>, clock: nat,
                        id: int, store: Store)
    requires Wellformed(contexts, children, parent, born, clock) && id !in contexts
    ensures Wellformed(contexts[id := store], children, parent, born[id := clock], clock + 1)
  {
    assert forall p, c | p in children && c in children[p] :: c != id && p != id;
  }

  /** Giving an empty children set to an id with a context keeps the
      invariant. */
  lemma NewChildrenSetKeeps(contexts: map<int, Store>, children: map<int, set<int>>, parent: map<int, int>, born: map<int, nat>, clock: nat, id: int)
    requires Wellformed(contexts, children, parent, born, clock) && id in contexts
    ensures Wellformed(contexts, children[id := if id in children then children[id] else {}], parent, born, clock)
  {
  }

  /** `getParentContext` keeps the invariant: the trigger gets the context
      `store` (stamped now) when it has none, and an empty children set
      when it has none. */
  lemma ParentKeeps(contexts: map<int, Store>, children: map<int, set<int>>, parent: map<int, int>, born: map<int, nat>, clock: nat,
                    trigger: int, store: Store,
                    contexts': map<int, Store>, children': map<int, set<int>>, born': map<int, nat>, clock': nat)
    requires Wellformed(contexts, children, parent, born, clock)
    requires contexts' == if trigger in contexts then contexts else contexts[trigger := store]
    requires children' == if trigger in children then children else children[trigger := {}]
    requires born' == if trigger in contexts then born else born[trigger := clock]
    requires clock' == if trigger in contexts then clock else clock + 1
    ensures Wellformed(contexts', children', parent, born', clock')
  {
    if trigger !in contexts {
      NewContextKeeps(contexts, children, parent, born, clock, trigger, store);
    }
    NewChildrenSetKeeps(contexts', children, parent, born', clock', trigger);
  }

  /** Linking an id under a trigger that has a children set (the end of
      `getContext`) keeps the invariant. The id has no parent link and is in
      no children set; it either has no context yet, or it is the trigger
      itself with the context and the empty set `getParentContext` just
      made, in which case the link is a self-link. */
  lemma LinkKeeps(contexts: map<int, Store>, children: map<int, set<int>>, parent: map<int, int>, born: map<int, nat>, clock: nat,
                  id: int, trigger: int, context: Store)
    requires Wellformed(contexts, children, parent, born, clock)
    requires trigger in children && id !in parent
    requires forall p | p in children :: id !in children[p]
    requires id in children ==> id == trigger && children[id] == {}
    ensures Wellformed(contexts[id := context], children[trigger := children[trigger] + {id}], parent[id := trigger], born[id := clock], clock + 1)
  {
    var children', parent', born' := children[trigger := children[trigger] + {id}], parent[id := trigger], born[id := clock];
    forall p, c | p in children' && c in children'[p]
      ensures c in born' && (c != p ==> born'[p] < born'[c] && (c in children' ==> c !in children'[c]))
    {
      if c != id {
        assert c in children[p];
      }
    }
  }

  /** Dropping the parent link of an id and its membership in the
      parent's children set keeps the invariant; afterwards no children set
      holds the id. */
  lemma UnlinkKeeps(contexts: map<int, Store>, children: map<int, set<int>>, parent: map<int, int>, born: map<int, nat>, clock: nat, id: int)
    requires Wellformed(contexts, children, parent, born, clock)
    ensures var children' := if id in parent && parent[id] in children
                             then children[parent[id] := children[parent[id]] - {id}] else children;
      && Wellformed(contexts, children', parent - {id}, born, clock)
      && (forall p | p in children' :: children'[p] == children[p] - {id})
  {
  }

  /** Reclaiming the subtree of an id that no children set holds any more
      keeps the invariant. */
  lemma ReclaimKeeps(contexts: map<int, Store>, children: map<int, set<int>>, parent: map<int, int>, born: map<int, nat>, clock: nat, id: int)
    requires Wellformed(contexts, children, parent, born, clock)
    requires id !in parent && forall p | p in children :: id !in children[p]
    ensures var gone := Subtree(children, born, clock, id);
      Wellformed(contexts - gone, children - gone, parent - gone, born, clock)
  {
    var gone := Subtree(children, born, clock, id);
    SubtreeClosed(children, born, clock, id);
    SubtreeMinus(children, born, clock, gone, id);
    forall p, c | p in children - gone && c in (children - gone)[p]
      ensures c !in gone
    {
      OutsideChild(children, parent, born, clock, id, p, c);
    }
  }

  /** Once no children set holds `id` any more, the relation is still
      ranked, `id` has no self-edge, and the subtree of `id` is the one it
      had before the unlink. */
  lemma UnlinkedSubtree(contexts: map<int, Store>, children: map<int, set<int>>, parent: map<int, int>, born: map<int, nat>, clock: nat, id: int,
                        children1: map<int, set<int>>)
    requires Wellformed(contexts, children, parent, born, clock)
    requires children1.Keys == children.Keys
    requires forall p | p in children1 :: children1[p] == children[p] - {id}
    ensures Ranked(children1, born, clock)
    ensures forall p | p in children1 :: id !in children1[p]
    ensures Subtree(children1, born, clock, id) == Subtree(children, born, clock, id)
  {
    if id in born {
      SubtreeRank(children, born, clock, id);
    }
    SubtreeFrame(children, children1, born, clock, id);
  }

  /** `asyncDestroy` keeps the invariant: after the unlink, reclaiming the
      subtree `gone` of `id` from the three maps leaves them well formed. */
  lemma DestroyKeeps(contexts: map<int, Store>, children1: map<int, set<int>>, parent1: map<int, int>, born: map<int, nat>, clock: nat, id: int,
                     gone: set<int>, contexts': map<int, Store>, children': map<int, set<int>>, parent': map<int, int>)
    requires Wellformed(contexts, children1, parent1, born, clock)
    requires id !in parent1 && forall p | p in children1 :: id !in children1[p]
    requires gone == Subtree(children1, born, clock, id)
    requires contexts' == contexts - gone && children' == children1 - gone && parent' == parent1 - (gone - {id})
    ensures Wellformed(contexts', children', parent', born, clock)
  {
    ReclaimKeeps(contexts, children1, parent1, born, clock, id);
    assert parent' == parent1 - gone;
  }

  /** Taking `id` out of a map and then the rest of a set that holds it
      takes out the whole set. */
  lemma MinusSplit<T>(m: map<int, T>, id: int, gone: set<int>)
    requires id in gone
    ensures m - {id} - (gone - {id}) == m - gone
  {
  }

  /** An id without a context is in no children set and has no parent
      link, and its subtree is itself alone. */
  lemma AbsentIdIsolated(contexts: map<int, Store>, children: map<int, set<int>>, parent: map<int, int>, born: map<int, nat>, clock: nat, id: int)
    requires Wellformed(contexts, children, parent, born, clock) && id !in contexts
    ensures id !in parent && id !in children
    ensures forall p | p in children :: id !in children[p]
    ensures Subtree(children, born, clock, id) == {id}
  {
  }

  /** The maps after an id without a context got `context` under its
      trigger: the trigger has a context (the one it had, if any), the id
      has `context`, the id joins the trigger's children set (made empty
      if missing) and records the trigger as its parent; nothing else
      changes. */
  ghost predicate Attached(contexts0: map<int, Store>, children0: map<int, set<int>>, parents0: map<int, int>,
                           contexts: map<int, Store>, children: map<int, set<int>>, parents: map<int, int>,
                           id: int, trigger: int, context: Store)
  {
    && trigger in contexts
    && contexts == contexts0[trigger := contexts[trigger]][id := context]
    && (trigger in contexts0 ==> contexts[trigger] == contexts0[trigger])
    && children == children0[trigger := (if trigger in children0 then children0[trigger] else {}) + {id}]
    && parents == parents0[id := trigger]
  }

  /** `getContext` for an id without a context attaches it: the maps after
      `getParentContext` (`contexts1`, `children1`) and the three writes
      that follow give `Attached`. */
  lemma AttachedAfter(contexts0: map<int, Store>, children0: map<int, set<int>>, parents0: map<int, int>,
                      contexts1: map<int, Store>, children1: map<int, set<int>>, parent: Store,
                      contexts: map<int, Store>, children: map<int, set<int>>, parents: map<int, int>,
                      id: int, trigger: int, context: Store)
    requires id !in contexts0 && trigger in contexts1 && parent == contexts1[trigger]
    requires trigger in contexts0 ==> parent == contexts0[trigger]
    requires contexts1 == if trigger in contexts0 then contexts0 else contexts0[trigger := parent]
    requires children1 == if trigger in children0 then children0 else children0[trigger := {}]
    requires contexts == contexts1[id := context]
    requires children == children1[trigger := children1[trigger] + {id}]
    requires parents == parents0[id := trigger]
    ensures Attached(contexts0, children0, parents0, contexts, children, parents, id, trigger, context)
  {
  }

  class ContextManager {
    var contextMap: map<int, Store>
    var parentChildrenIdMap: map<int, set<int>>
    var childParentIdMap: map<int, int>
    /** Creation stamps: when each id's current context was made. */
    ghost var born: map<int, nat>
    ghost var clock: nat

    /** The invariant of the three maps, stated on their values. */
    ghost predicate Valid()
      reads this
    {
      Wellformed(contextMap, parentChildrenIdMap, childParentIdMap, born, clock)
    }

    /** The ids `asyncDestroy(asyncId)` reclaims: `asyncId` and everything
        reachable from it through the children sets. */
    ghost function Descendants(asyncId: int): set<int>
      reads this
    {
      Subtree(parentChildrenIdMap, born, clock, asyncId)
    }

    /** The entries a fresh child of `triggerAsyncId` starts from: those of
        the trigger's context, or none when the trigger has no context yet. */
    ghost function InheritedEntries(triggerAsyncId: int): map<Key, Value>
      reads this, contextMap.Values
    {
      if triggerAsyncId in contextMap then contextMap[triggerAsyncId].entries else map[]
    }

    /** The entries `getContext(asyncId, triggerAsyncId)` returns a context with. */
    ghost function EntriesFor(asyncId: int, triggerAsyncId: int): map<Key, Value>
      reads this, contextMap.Values
    {
      if asyncId in contextMap then contextMap[asyncId].entries else InheritedEntries(triggerAsyncId)
    }

    /** How the three maps relate to the old ones after
        `getContext(asyncId, triggerAsyncId)` returned `context`: an id with
        a context keeps everything as it was; otherwise the id is attached
        under its trigger, and its context is the trigger's own context when
        that one shares, and a new map otherwise. A trigger that had no
        context gets a new one. Every context held now was held before or
        is new. */
    twostate predicate Resolved(asyncId: int, triggerAsyncId: int, new context: Store)
      reads this
    {
      && asyncId in contextMap && contextMap[asyncId] == context
      && (forall s | s in contextMap.Values :: s in old(contextMap.Values) || fresh(s))
      && (old(asyncId in contextMap) ==>
            && context == old(contextMap[asyncId])
            && contextMap == old(contextMap)
            && parentChildrenIdMap == old(parentChildrenIdMap)
            && childParentIdMap == old(childParentIdMap))
      && (old(asyncId !in contextMap) ==>
            Attached(old(contextMap), old(parentChildrenIdMap), old(childParentIdMap),
                     contextMap, parentChildrenIdMap, childParentIdMap, asyncId, triggerAsyncId, context))
      && (old(asyncId !in contextMap) ==>
            if old(triggerAsyncId in contextMap && Shares(contextMap[triggerAsyncId].entries))
            then context == old(contextMap[triggerAsyncId])
            else fresh(context))
      && (old(asyncId !in contextMap) && asyncId != triggerAsyncId ==>
            (context == contextMap[triggerAsyncId] <==>
             old(triggerAsyncId in contextMap && Shares(contextMap[triggerAsyncId].entries))))
      && (old(asyncId !in contextMap && triggerAsyncId !in contextMap) ==> fresh(contextMap[triggerAsyncId]))
    }

    constructor ()
      ensures Valid()
      ensures contextMap == map[] && parentChildrenIdMap == map[] && childParentIdMap == map[]
    {
      contextMap := map[];
      parentChildrenIdMap := map[];
      childParentIdMap := map[];
      born := map[];
      clock := 0;
    }

    /** `getParentContext`: the trigger's context, made empty if missing,
        with a children set, made empty if missing. */
    method GetParentContext(triggerAsyncId: int) returns (context: Store)
      requires Valid()
      modifies this
      ensures Valid()
      ensures triggerAsyncId in contextMap && context == contextMap[triggerAsyncId]
      ensures context.entries == old(InheritedEntries(triggerAsyncId))
      ensures old(triggerAsyncId in contextMap) ==> context == old(contextMap[triggerAsyncId])
      ensures old(triggerAsyncId !in contextMap) ==> fresh(context)
      ensures contextMap == if old(triggerAsyncId in contextMap) then old(contextMap) else old(contextMap)[triggerAsyncId := context]
      ensures parentChildrenIdMap ==
        if old(triggerAsyncId in parentChildrenIdMap) then old(parentChildrenIdMap)
        else old(parentChildrenIdMap)[triggerAsyncId := {}]
      ensures childParentIdMap == old(childParentIdMap)
      ensures born == if old(triggerAsyncId in contextMap) then old(born) else old(born)[triggerAsyncId := old(clock)]
      ensures clock == if old(triggerAsyncId in contextMap) then old(clock) else old(clock) + 1
    {
      ghost var contexts0, children0, born0, clock0 := contextMap, parentChildrenIdMap, born, clock;
      if triggerAsyncId in contextMap {
        context := contextMap[triggerAsyncId];
      } else {
        context := new Store(map[]);
        contextMap := contextMap[triggerAsyncId := context];
        born := born[triggerAsyncId := clock];
        clock := clock + 1;
      }
      if triggerAsyncId !in parentChildrenIdMap {
        parentChildrenIdMap := parentChildrenIdMap[triggerAsyncId := {}];
      }
      assert Valid() by {
        ParentKeeps(contexts0, children0, childParentIdMap, born0, clock0, triggerAsyncId, context,
                    contextMap, parentChildrenIdMap, born, clock);
      }
    }

    /** `getContext`: the context of `asyncId`, created on first use as a
        copy of the trigger's context, or as the trigger's very context when
        that one has its merge entry set to `true`. */
    method GetContext(asyncId: int, triggerAsyncId: int) returns (context: Store)
      requires Valid()
      modifies this
      ensures Valid()
      ensures Resolved(asyncId, triggerAsyncId, context)
      ensures context.entries == old(EntriesFor(asyncId, triggerAsyncId))
      ensures old(asyncId !in contextMap && triggerAsyncId !in contextMap) && triggerAsyncId != asyncId ==>
        contextMap[triggerAsyncId].entries == map[]
    {
      if asyncId in contextMap {
        context := contextMap[asyncId];
      } else {
        ghost var contexts0, children0, parents0, born0, clock0 := contextMap, parentChildrenIdMap, childParentIdMap, born, clock;
        assert asyncId !in parents0 && asyncId !in children0 && forall p | p in children0 :: asyncId !in children0[p] by {
          AbsentIdIsolated(contexts0, children0, parents0, born0, clock0, asyncId);
        }
        var parent := GetParentContext(triggerAsyncId);
        ghost var contexts1, children1 := contextMap, parentChildrenIdMap;
        context := Link(asyncId, triggerAsyncId, parent);
        assert Attached(contexts0, children0, parents0, contextMap, parentChildrenIdMap, childParentIdMap, asyncId, triggerAsyncId, context) by {
          AttachedAfter(contexts0, children0, parents0, contexts1, children1, parent,
                        contextMap, parentChildrenIdMap, childParentIdMap, asyncId, triggerAsyncId, context);
        }
      }
    }

    /** The second half of `getContext` for an id without a context: the
        id gets a copy of `parent` (or `parent` itself when it shares), joins
        the trigger's children set and records the trigger as its parent. */
    method Link(asyncId: int, triggerAsyncId: int, parent: Store) returns (context: Store)
      requires Valid()
      requires triggerAsyncId in contextMap && parent == contextMap[triggerAsyncId]
      requires triggerAsyncId in parentChildrenIdMap && asyncId !in childParentIdMap
      requires forall p | p in parentChildrenIdMap :: asyncId !in parentChildrenIdMap[p]
      requires asyncId in parentChildrenIdMap ==> asyncId == triggerAsyncId && parentChildrenIdMap[asyncId] == {}
      modifies this
      ensures Valid()
      ensures context.entries == parent.entries
      ensures if Shares(parent.entries) then context == parent else fresh(context)
      ensures contextMap == old(contextMap)[asyncId := context]
      ensures parentChildrenIdMap == old(parentChildrenIdMap)[triggerAsyncId := old(parentChildrenIdMap)[triggerAsyncId] + {asyncId}]
      ensures childParentIdMap == old(childParentIdMap)[asyncId := triggerAsyncId]
    {
      if !Shares(parent.entries) {
        context := new Store(parent.entries);
      } else {
        context := parent;
      }
      ghost var contexts0, children0, parents0, born0, clock0 := contextMap, parentChildrenIdMap, childParentIdMap, born, clock;
      parentChildrenIdMap := parentChildrenIdMap[triggerAsyncId := parentChildrenIdMap[triggerAsyncId] + {asyncId}];
      childParentIdMap := childParentIdMap[asyncId := triggerAsyncId];
      contextMap := contextMap[asyncId := context];
      born := born[asyncId := clock];
      clock := clock + 1;
      assert Valid() by {
        LinkKeeps(contexts0, children0, parents0, born0, clock0, asyncId, triggerAsyncId, context);
      }
    }

    /** The `init` hook: make sure `asyncId` has a context. */
    method AsyncInit(asyncId: int, resourceType: string, triggerAsyncId: int)
      requires Valid()
      modifies this
      ensures Valid() && asyncId in contextMap
      ensures Resolved(asyncId, triggerAsyncId, contextMap[asyncId])
      ensures contextMap[asyncId].entries == old(EntriesFor(asyncId, triggerAsyncId))
      ensures old(asyncId !in contextMap && triggerAsyncId !in contextMap) && triggerAsyncId != asyncId ==>
        contextMap[triggerAsyncId].entries == map[]
    {
      var _ := GetContext(asyncId, triggerAsyncId);
    }

    /** The `merge` getter, run as `asyncId` triggered by `triggerAsyncId`. */
    method GetMerge(asyncId: int, triggerAsyncId: int) returns (merge: bool)
      requires Valid()
      modifies this
      ensures Valid() && asyncId in contextMap
      ensures Resolved(asyncId, triggerAsyncId, contextMap[asyncId])
      ensures merge == MergeFlag(contextMap[asyncId].entries)
      ensures merge == MergeFlag(old(EntriesFor(asyncId, triggerAsyncId)))
      ensures old(asyncId !in contextMap && triggerAsyncId !in contextMap) && triggerAsyncId != asyncId ==>
        contextMap[triggerAsyncId].entries == map[]
    {
      var context := GetContext(asyncId, triggerAsyncId);
      merge := MergeFlag(context.entries);
    }

    /** The `merge` setter, run as `asyncId` triggered by `triggerAsyncId`:
        records `value` under the merge symbol of that context, which is
        the only store it changes. */
    method SetMerge(asyncId: int, triggerAsyncId: int, value: bool)
      requires Valid()
      modifies this, contextMap.Values
      ensures Valid() && asyncId in contextMap
      ensures Resolved(asyncId, triggerAsyncId, contextMap[asyncId])
      ensures contextMap[asyncId].entries == old(EntriesFor(asyncId, triggerAsyncId))[MERGE := Bool(value)]
      ensures old(asyncId !in contextMap && triggerAsyncId !in contextMap) && triggerAsyncId != asyncId ==>
        contextMap[triggerAsyncId].entries == map[]
      ensures forall s | s in old(contextMap.Values) && s != contextMap[asyncId] :: s.entries == old(s.entries)
    {
      var context := GetContext(asyncId, triggerAsyncId);
      context.Set(MERGE, Bool(value));
    }

    /** `init(fn)`: turns merge on for the current context. The wrapper it
        returns does the same, with the ids current when it is called,
        before it delegates to `fn`. */
    method Init(asyncId: int, triggerAsyncId: int)
      requires Valid()
      modifies this, contextMap.Values
      ensures Valid() && asyncId in contextMap
      ensures Resolved(asyncId, triggerAsyncId, contextMap[asyncId])
      ensures contextMap[asyncId].entries == old(EntriesFor(asyncId, triggerAsyncId))[MERGE := Bool(true)]
      ensures old(asyncId !in contextMap && triggerAsyncId !in contextMap) && triggerAsyncId != asyncId ==>
        contextMap[triggerAsyncId].entries == map[]
      ensures Shares(contextMap[asyncId].entries) && MergeFlag(contextMap[asyncId].entries)
      ensures forall s | s in old(contextMap.Values) && s != contextMap[asyncId] :: s.entries == old(s.entries)
    {
      SetMerge(asyncId, triggerAsyncId, true);
    }

    /** `removeChildParentLink`: forget the parent link of `asyncId` and take
        it out of its parent's children set. */
    method RemoveChildParentLink(asyncId: int)
      requires Valid()
      modifies this
      ensures Valid()
      ensures contextMap == old(contextMap) && born == old(born) && clock == old(clock)
      ensures childParentIdMap == old(childParentIdMap) - {asyncId}
      ensures if old(asyncId in childParentIdMap && childParentIdMap[asyncId] in parentChildrenIdMap)
              then parentChildrenIdMap == old(parentChildrenIdMap[childParentIdMap[asyncId] :=
                     parentChildrenIdMap[childParentIdMap[asyncId]] - {asyncId}])
              else parentChildrenIdMap == old(parentChildrenIdMap)
      ensures parentChildrenIdMap.Keys == old(parentChildrenIdMap).Keys
      ensures forall p | p in parentChildrenIdMap :: parentChildrenIdMap[p] == old(parentChildrenIdMap[p]) - {asyncId}
    {
      UnlinkKeeps(contextMap, parentChildrenIdMap, childParentIdMap, born, clock, asyncId);
      if asyncId in childParentIdMap {
        var parentId := childParentIdMap[asyncId];
        childParentIdMap := childParentIdMap - {asyncId};
        if parentId in parentChildrenIdMap {
          parentChildrenIdMap := parentChildrenIdMap[parentId := parentChildrenIdMap[parentId] - {asyncId}];
        }
      }
    }

    /** `cleanupChildren`: delete the context and the children set of
        `asyncId` and of every id below it, and the parent links of the ids
        below it. */
    method CleanupChildren(asyncId: int)
      requires Ranked(parentChildrenIdMap, born, clock)
      requires asyncId in parentChildrenIdMap ==> asyncId !in parentChildrenIdMap[asyncId]
      modifies this
      decreases if asyncId in born && born[asyncId] < clock then clock - born[asyncId] else 0, 0
      ensures born == old(born) && clock == old(clock)
      ensures var gone := Subtree(old(parentChildrenIdMap), born, clock, asyncId);
        && contextMap == old(contextMap) - gone
        && parentChildrenIdMap == old(parentChildrenIdMap) - gone
        && childParentIdMap == old(childParentIdMap) - (gone - {asyncId})
    {
      ghost var tree := parentChildrenIdMap;
      if asyncId in parentChildrenIdMap {
        var children := parentChildrenIdMap[asyncId];
        ghost var contexts, links := contextMap, childParentIdMap;
        var pending := children;
        ghost var removed: set<int> := {};
        while pending != {}
          invariant pending <= children
          invariant born == old(born) && clock == old(clock)
          invariant removed <= Subtree(tree, born, clock, asyncId) && asyncId !in removed
          invariant forall c | c in children - pending :: Subtree(tree, born, clock, c) <= removed
          invariant Closed(tree, removed)
          invariant parentChildrenIdMap == tree - removed
          invariant contextMap == contexts - removed
          invariant childParentIdMap == links - removed
          decreases pending
        {
          assert exists c :: c in pending by {
            if forall c :: c !in pending {
              assert false;
            }
          }
          var childId :| childId in pending;
          CleanupStep(tree, born, clock, removed, asyncId, childId);
          ghost var step := Subtree(parentChildrenIdMap, born, clock, childId);
          VisitChild(childId);
          MinusTwice(tree, removed, step);
          MinusTwice(contexts, removed, step);
          MinusTwice(links, removed, step);
          removed := removed + Subtree(tree, born, clock, childId);
          pending := pending - {childId};
        }
        SubtreeCovered(tree, born, clock, asyncId, removed);
      }
      parentChildrenIdMap := parentChildrenIdMap - {asyncId};
      contextMap := contextMap - {asyncId};
    }

    /** The callback `cleanupChildren` runs on each child: reclaim the
        child's subtree, then delete the child's link to its parent. */
    method VisitChild(childId: int)
      requires Ranked(parentChildrenIdMap, born, clock)
      requires childId in parentChildrenIdMap ==> childId !in parentChildrenIdMap[childId]
      modifies this
      decreases if childId in born && born[childId] < clock then clock - born[childId] else 0, 1
      ensures born == old(born) && clock == old(clock)
      ensures var gone := Subtree(old(parentChildrenIdMap), born, clock, childId);
        && contextMap == old(contextMap) - gone
        && parentChildrenIdMap == old(parentChildrenIdMap) - gone
        && childParentIdMap == old(childParentIdMap) - gone
    {
      CleanupChildren(childId);
      childParentIdMap := childParentIdMap - {childId};
    }

    /** The `destroy` hook: unlink `asyncId` from its parent, then reclaim
        it and everything below it. */
    method AsyncDestroy(asyncId: int)
      requires Valid()
      modifies this
      ensures Valid()
      ensures born == old(born) && clock == old(clock)
      ensures var gone := old(Descendants(asyncId));
        && contextMap == old(contextMap) - gone
        && childParentIdMap == old(childParentIdMap) - gone
        && parentChildrenIdMap.Keys == old(parentChildrenIdMap).Keys - gone
        && (forall p | p in parentChildrenIdMap :: parentChildrenIdMap[p] == old(parentChildrenIdMap[p]) - {asyncId})
      ensures asyncId !in contextMap && asyncId !in parentChildrenIdMap && asyncId !in childParentIdMap
      ensures old(asyncId !in contextMap) ==>
        && contextMap == old(contextMap)
        && parentChildrenIdMap == old(parentChildrenIdMap)
        && childParentIdMap == old(childParentIdMap)
    {
      ghost var contexts0, children0, parents0 := contextMap, parentChildrenIdMap, childParentIdMap;
      ghost var gone := Subtree(children0, born, clock, asyncId);
      assert asyncId !in contexts0 ==> gone == {asyncId} && asyncId !in children0 && asyncId !in parents0 by {
        if asyncId !in contexts0 {
          AbsentIdIsolated(contexts0, children0, parents0, born, clock, asyncId);
        }
      }
      RemoveChildParentLink(asyncId);
      ghost var children1, parents1 := parentChildrenIdMap, childParentIdMap;
      assert Ranked(children1, born, clock) && (forall p | p in children1 :: asyncId !in children1[p])
             && Subtree(children1, born, clock, asyncId) == gone by {
        UnlinkedSubtree(contexts0, children0, parents0, born, clock, asyncId, children1);
      }
      CleanupChildren(asyncId);
      assert Valid() by {
        DestroyKeeps(contexts0, children1, parents1, born, clock, asyncId, gone, contextMap, parentChildrenIdMap, childParentIdMap);
      }
      assert childParentIdMap == parents0 - gone by {
        MinusSplit(parents0, asyncId, gone);
      }
    }
  }

  /** Without merge, a child starts from a copy of its parent's context:
      it reads what the parent wrote before it was created, and its own
      writes stay out of the parent's context. */
  method CopyIsolation() returns (inherited: Value, parentSees: Value, childSees: Value)
    ensures inherited == Num(1) && parentSees == Num(1) && childSees == Num(2)
  {
    var user := Str("user");
    var m := new ContextManager();
    var root := m.GetContext(1, 0);
    assert m.contextMap[1] == root && !Shares(root.entries);
    root.Set(user, Num(1));
    var child := m.GetContext(2, 1);
    assert child != root;
    inherited := child.Get(user);
    child.Set(user, Num(2));
    parentSees := root.Get(user);
    childSees := child.Get(user);
  }

  /** With merge turned on for a context, a child created from it shares
      it: what the child writes is seen through the parent, and stays there
      after the child is destroyed. */
  method AliasedWriteSurvives() returns (seen: Value)
    ensures seen == Text("1.2.3.4")
  {
    var ip := Str("ip");
    var m := new ContextManager();
    var a := m.GetContext(1, 0);
    m.Init(1, 0);
    assert m.contextMap[1] == a && Shares(a.entries);
    var b := m.GetContext(2, 1);
    assert b == a;
    b.Set(ip, Text("1.2.3.4"));
    m.AsyncDestroy(2);
    seen := a.Get(ip);
  }

  /** The first child of a trigger seen for the first time gets a copy of
      the trigger's new, empty context. Turning merge on in that child
      leaves the trigger's context empty, so a later sibling again gets a
      copy of it, with no merge entry. */
  method FreshTriggerCopies() returns (distinct: bool, triggerEntries: map<Key, Value>, siblingEntries: map<Key, Value>, siblingShares: bool)
    ensures distinct && triggerEntries == map[] && siblingEntries == map[] && !siblingShares
  {
    var m := new ContextManager();
    m.AsyncInit(2, "PROMISE", 1);
    distinct := m.contextMap[2] != m.contextMap[1];
    m.Init(2, 1);
    triggerEntries := m.contextMap[1].entries;
    var sibling := m.GetContext(3, 1);
    siblingEntries := sibling.entries;
    siblingShares := sibling == m.contextMap[2];
  }
}
