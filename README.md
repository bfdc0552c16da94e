# context-continuation, modelled in Dafny

context-continuation gives asynchronous JavaScript code a key-value
context that follows the flow of work. It has two independent
implementations of that context, and this project models both.

- **`ContextManager`** (`context_manager.dfy`, module `Manager`). It keeps
  an id-keyed arena of contexts in three maps:
  - `contextMap`: async id → context;
  - `parentChildrenIdMap`: id → set of child ids;
  - `childParentIdMap`: child id → parent id.

  A context is a `Map` object, modelled as the class `Store`, so that
  aliasing is real. `getContext` creates a context on first use. It first
  gives the trigger a context and a children set if it lacks them. The
  new context is a copy of the trigger's context, or that very context
  when its private `MERGE` entry is `true`. Finally the parent/child links
  are recorded. `asyncDestroy` unlinks an id from its parent. It then
  deletes the id and everything reachable from it through the children
  sets.
- **The `ctx` proxy** (`context.dfy`, module `Context`). It gives
  dictionary semantics over a chain of parent-linked frames (`ContextRef`,
  the class `Frame`), with `rootContext` as the fallback. Each proxy trap
  is a method of the class `Ctx`. The frame the async-local storage holds
  for the running code is the field `Ctx.current`.

The module `ChildTree` (`child_tree.dfy`) is the ghost theory of the
children relation. `Subtree` is the set of ids that `cleanupChildren`
reaches. Termination and the frame lemmas rest on ghost creation stamps
(`born`, `clock`). Apart from a self-edge, every children set points to
ids whose contexts were made later than their parent's.

The invariant `Manager.Wellformed` (the predicate `ContextManager.Valid`)
states five things:

- every children set belongs to an id with a context;
- every child has a context;
- every child's parent link names the set's owner;
- every parent link is backed by membership;
- the relation is ranked by creation.

Every manager operation keeps this invariant. `getContext(x, x)` on a
fresh `x` makes `x` its own child, as the code does. The ranking allows
that one self-edge, and `removeChildParentLink` removes it before
`cleanupChildren` recurses, so the recursion still terminates.

Three consequences of how the code is written, which the model keeps:

- Destroying an id eagerly deletes its whole subtree. There is no
  reference-counted "reclaim the parent once it is finished and childless"
  policy.
- The manager has no permanent root node. A trigger id without a context
  gets an empty one on demand.
- The ancestor chain of `ctx` holds references, not copies, so a parent's
  later write is seen by its existing children
  (`Context.ParentWriteSeenByChild`).

## Model

| member | source | states |
|---|---|---|
| Manager.Store.constructor | src/ContextManager.ts:72 | `new Map(parent)` makes a map holding exactly the given entries |
| Manager.Store.Get | src/ContextManager.ts:40 | `map.get(k)` is the stored value, or `undefined` for an absent key |
| Manager.Store.Set | src/ContextManager.ts:45 | `map.set(k, v)` maps `k` to `v` and leaves every other entry as it was |
| Manager.FlagMatchesSharing | src/ContextManager.ts:38-46 | when the merge entry is absent or a boolean (all the setter ever stores), the getter's `Boolean(get(MERGE))` agrees with the `=== true` test that decides sharing |
| Manager.NewContextKeeps | src/ContextManager.ts:52-55 | giving a fresh, newly stamped context to an id that had none keeps the invariant |
| Manager.NewChildrenSetKeeps | src/ContextManager.ts:57-59 | giving an id with a context an empty children set (if it lacks one) keeps the invariant |
| Manager.ParentKeeps | src/ContextManager.ts:48-62 | the whole of `getParentContext` keeps the invariant |
| Manager.LinkKeeps | src/ContextManager.ts:77-79 | adding the id to the trigger's children set, recording its parent and giving it a context keeps the invariant, including the self-link `getContext(x, x)` |
| Manager.AbsentIdIsolated | src/ContextManager.ts:89-96 | an id without a context has no parent link and no children set, is in no children set, and its subtree is itself alone |
| Manager.AttachedAfter | src/ContextManager.ts:64-83 | `getParentContext` followed by the three writes of `getContext` yields exactly the maps `Attached` describes |
| Manager.UnlinkKeeps | src/ContextManager.ts:98-109 | deleting the parent link and the membership in the parent's set keeps the invariant, and afterwards no set holds the id |
| Manager.UnlinkedSubtree | src/ContextManager.ts:89-96 | after the unlink the relation stays ranked, and the id's subtree is the one it had before the unlink |
| Manager.ReclaimKeeps | src/ContextManager.ts:111-126 | removing the subtree of an unlinked id from all three maps keeps the invariant |
| Manager.DestroyKeeps | src/ContextManager.ts:89-96 | the maps `asyncDestroy` leaves behind satisfy the invariant |
| Manager.ContextManager.constructor | src/ContextManager.ts:12-16 | three empty maps, which satisfy the invariant |
| Manager.ContextManager.GetParentContext | src/ContextManager.ts:48-62 | returns the trigger's context. A trigger without one gets a fresh empty context, the only change to `contextMap`. A trigger without a children set gets an empty one. Parent links are unchanged and the invariant is kept |
| Manager.ContextManager.GetContext | src/ContextManager.ts:64-83 | an id with a context gets that very context and all three maps stay unchanged. Otherwise the id is attached under its trigger (context, children set, parent link, nothing else) with the trigger's entries. Its context is the trigger's own context exactly when that one's merge entry is `true`, and a new map otherwise, distinct from the trigger's context also when the trigger is new. A trigger seen for the first time gets a new, empty context. Every context held afterwards was held before or is new. The invariant is kept |
| Manager.ContextManager.Link | src/ContextManager.ts:71-79 | the copy-or-alias choice and the three writes: the new context has the parent's entries and is the parent itself exactly when the parent shares; the maps change only at the id and the trigger; the invariant is kept |
| Manager.ContextManager.AsyncInit | src/ContextManager.ts:85-87 | the `init` hook makes the same promises as `getContext` about the id's context: the trigger's entries, copy or alias as the trigger's merge entry decides, and a new empty context for a new trigger. It also promises the same map updates and keeps the invariant |
| Manager.ContextManager.GetMerge | src/ContextManager.ts:38-41 | the getter is true iff the current context's merge entry is truthy; this is the merge entry inherited from the trigger when the context is new |
| Manager.ContextManager.SetMerge | src/ContextManager.ts:43-46 | the current context's entries are the ones it had (or inherited) with the merge entry set to the value. Every context held before is otherwise unchanged, and a trigger context made by this call stays empty |
| Manager.ContextManager.Init | src/ContextManager.ts:23-31 | the current context now shares (merge entry `true`) and reports merge. Every context held before is otherwise unchanged, and a trigger context made by this call stays empty |
| Manager.ContextManager.RemoveChildParentLink | src/ContextManager.ts:98-109 | the parent link is gone. The id leaves its parent's children set when that set exists, and no other set changes. Contexts are untouched and the invariant is kept |
| Manager.ContextManager.CleanupChildren | src/ContextManager.ts:111-126 | removes exactly the subtree of the id from `contextMap` and `parentChildrenIdMap`, and the parent links of the subtree except the id's own |
| Manager.ContextManager.VisitChild | src/ContextManager.ts:116-121 | the `forEach` callback removes the child's subtree from all three maps |
| Manager.ContextManager.AsyncDestroy | src/ContextManager.ts:89-96 | the id and every descendant lose their context, children set and parent link. All other ids keep theirs, and the remaining sets lose only the id. An id without a context leaves everything unchanged, so a second destroy is a no-op. The invariant is kept |
| Manager.CopyIsolation | src/ContextManager.ts:71-72 | a copied child reads the parent's earlier write, and its own write does not reach the parent |
| Manager.AliasedWriteSurvives | src/ContextManager.ts:73-75 | after `init`, a child shares the parent's context; its write is read through the parent even after the child is destroyed |
| Manager.FreshTriggerCopies | src/ContextManager.ts:48-79 | the first child of a new trigger gets its own copy of the trigger's new empty context; merge turned on in that child leaves the trigger's context empty, so a sibling created later is again a separate copy without a merge entry |
| ChildTree.SubtreeRank | src/ContextManager.ts:111-126 | every id the cleanup reaches was made no earlier than the id it starts from |
| ChildTree.SubtreeClosed | src/ContextManager.ts:111-126 | the subtree contains every child of each of its members |
| ChildTree.SubtreeWithin | src/ContextManager.ts:111-126 | the subtree is the least set that is closed under children and holds the id |
| ChildTree.SubtreeMinus | src/ContextManager.ts:111-126 | deleting a closed set of ids keeps the relation ranked and the other subtrees unchanged up to that set |
| ChildTree.SubtreeFrame | src/ContextManager.ts:111-126 | a subtree depends only on the children sets of its own members |
| ChildTree.OutsideChild | src/ContextManager.ts:111-126 | a child of a node outside a subtree is outside it too (single parent links) |
| ChildTree.CleanupStep | src/ContextManager.ts:116-121 | one callback of the loop removes a child's subtree, which is unaffected by the subtrees already removed |
| ChildTree.SubtreeCovered | src/ContextManager.ts:111-126 | once every child's subtree is removed, what was removed plus the id is the whole subtree |
| Context.Frame.constructor | src/Context.ts:94 | a new frame has an empty map and refers to (does not copy) the current frame; its chain is that frame's chain |
| Context.Holder | src/Context.ts:29-43 | the index of the nearest frame holding a key: no frame before it holds the key, the frame at it does (unless past the end) |
| Context.HolderAt | src/Context.ts:32-40 | that index is unique: any position with those two properties is it |
| Context.FrameKeysStep | src/Context.ts:79-85 | the keys from a frame on are its own keys plus those from its parent on |
| Context.FrameKeysHolds | src/Context.ts:75-88 | a key is among the chain's keys iff some frame of the chain holds it |
| Context.LookupFindsVisible | src/Context.ts:66-68 | a read finds a value iff the key is among the root's and the frames' keys, so `has` and `ownKeys` agree |
| Context.LookupSkipsFrame | src/Context.ts:32-40 | a frame without the key is transparent: the read resolves as from its parent |
| Context.LookupNearest | src/Context.ts:32-37 | the nearest frame holding the key decides the read |
| Context.LookupFallsBackToRoot | src/Context.ts:42 | with no frame holding the key, the read is the root's value or absent |
| Context.AddAll | src/Context.ts:80-82 | `Set.add` over a set of keys: no duplicates, the old keys first and in order, and the new elements are the old ones plus the added keys |
| Context.Ctx.constructor | src/Context.ts:15 | an empty `rootContext` and no active frame |
| Context.Ctx.FindContext | src/Context.ts:29-43 | `getContext` returns the nearest frame holding the key, or the root (null) when none does |
| Context.Ctx.Get | src/Context.ts:23-27 | the `get` trap reads the nearest frame's value, else the root's, else absent |
| Context.Ctx.Has | src/Context.ts:66-68 | the `has` trap is true iff the root or some frame of the chain holds the key, iff `get` finds it |
| Context.Ctx.GetOwnPropertyDescriptor | src/Context.ts:58-65 | enumerable and configurable with the value `get` returns iff `has`; otherwise neither, with no value |
| Context.Ctx.Set | src/Context.ts:69-74 | writes only the current frame's map, or the root when no frame is active. Ancestor frames are unchanged, the trap returns true, and a following read yields the value |
| Context.Ctx.DeleteProperty | src/Context.ts:48-54 | removes the key only from the current frame's map (or the root) and reports whether it was there. Ancestors are unchanged, and a following read falls through to the ancestors and the root |
| Context.Ctx.OwnKeys | src/Context.ts:75-88 | exactly the root's keys and every frame's keys along the chain, each once |
| Context.Ctx.Enter | src/Context.ts:91-97 | pushes a fresh frame with an empty map whose parent is the frame current at call time; every read resolves as it did before |
| Context.Ctx.Restore | src/Context.ts:99-102 | makes the given frame current again (the pop when `run` returns); the root is unchanged |
| Context.ParentWriteSeenByChild | src/Context.ts:10-13 | a parent frame's write made after a child frame was pushed is read by the child |
| Context.DeleteUncoversRoot | src/Context.ts:48-54 | deleting a key in a frame uncovers the root's value for it |

## Left out

- The async hooks registration (`hooks.createHook(...).enable()`) and the default ids `executionAsyncId()`/`triggerAsyncId()`. Ids are explicit parameters, and the `init`/`destroy` hooks are ordinary method calls.
- `AsyncLocalStorage` itself. The store it holds is the field `Ctx.current`. `run` is modelled as `Enter`, then the callee, then `Restore`, and `getStore()` is a read of that field.
- The `Proxy` object. Each trap is a named method of `Ctx`.
- Calling the wrapped function, in `init(fn)`, `init`/`run` of `ctx`, and the wrapper `ContextManager.init` returns. Dafny has no first-class method values here. `Manager.ContextManager.Init` stands for both the immediate merge write and each call of the wrapper, with the ids current at that call.
- The version-dependent `bind` (`src/bind.ts` and `src/Context.ts:18-21,104-131`). It parses `process.version` and wraps `AsyncResource.bind`, whose behaviour is not part of this model.
- `src/util.ts`, which repeats the frame push of `src/Context.ts:91-102`. `src/types.ts` and `src/storage.ts` are type declarations and global instances; they contribute only the key and value types.
- `test/start.js`, a demo server (network, timers, uuid).
- Concurrency and scheduling. `ContextManager` and the `ctx` traps run on JavaScript's single thread, and each operation is modelled as one uninterrupted step.
- Iteration order of `Map`/`Set`. `cleanupChildren` visits the children in an arbitrary order, which gives the same result. `ownKeys` states its keys as a duplicate-free sequence whose set of elements is exact, not their insertion order.
- JavaScript numbers. Async ids are modelled as unbounded integers, and values as a small datatype: numbers as integers, objects by an opaque reference.
- The children `Set` that `removeChildParentLink` and `getContext` change in place is modelled as a set value in `parentChildrenIdMap` that is replaced. No other object holds that `Set`, so this loses no aliasing.
- The reclamation of a parent once it is finished and childless. The code does not do this, so it is not modelled.
