/**
 * The `ctx` object of src/Context.ts: dictionary semantics over a chain of
 * parent-linked frames (`ContextRef`), with the process-wide `rootContext`
 * as the last resort. Each proxy trap is a named method of `Ctx`; the frame
 * that the async-local storage holds for the running code is the field
 * `Ctx.current` (null outside every `run`).
 */
module Context {
  import opened Types

  /** A `ContextRef`: a mutable map of its own and a fixed reference (not a
      copy) to the frame that was current when it was pushed. */
  class Frame<V> {
    const parent: Frame?<V>
    /** The frames above this one, nearest first. */
    ghost const ancestors: seq<Frame<V>>
    var context: map<Key, V>

    /** The parent links form a finite chain that never returns to a frame. */
    ghost predicate Valid()
      decreases |ancestors|
    {
      && this !in ancestors
      && (parent == null ==> ancestors == [])
      && (parent != null ==> ancestors == [parent] + parent.ancestors && parent.Valid())
    }

    /** This frame followed by its ancestors: the order in which lookups search. */
    ghost function Chain(): seq<Frame<V>>
    {
      [this] + ancestors
    }

    /** `{parent, context: new Map()}` */
    constructor (parent: Frame?<V>)
      requires parent != null ==> parent.Valid()
      ensures Valid()
      ensures this.parent == parent && context == map[]
      ensures ancestors == ChainOf(parent)
    {
      this.parent := parent;
      ancestors := ChainOf(parent);
      context := map[];
    }
  }

  /** The frames searched from `f`; none when no frame is active. */
  ghost function ChainOf<V>(f: Frame?<V>): seq<Frame<V>>
  {
    if f == null then [] else f.Chain()
  }

  /** Moving to the parent drops the first frame of the chain. */
  lemma ParentChain<V>(f: Frame<V>)
    requires f.Valid()
    ensures f.parent != null ==> f.parent.Valid()
    ensures ChainOf(f.parent) == ChainOf(f)[1..]
  {
  }

  /** The index of the nearest frame of `chain` whose map holds `k`, or
      `|chain|` when none does. */
  ghost function Holder<V>(chain: seq<Frame<V>>, k: Key): (i: nat)
    reads chain
    ensures i <= |chain|
    ensures forall j | 0 <= j < i :: k !in chain[j].context
    ensures i < |chain| ==> k in chain[i].context
  {
    if chain == [] then 0
    else if k in chain[0].context then 0
    else 1 + Holder(chain[1..], k)
  }

  /** `Holder` is the one index before which no frame holds `k` and at
      which (unless past the end) a frame does. */
  lemma HolderAt<V>(chain: seq<Frame<V>>, k: Key, i: nat)
    requires i <= |chain|
    requires forall j | 0 <= j < i :: k !in chain[j].context
    requires i < |chain| ==> k in chain[i].context
    ensures Holder(chain, k) == i
  {
  }

  /** What a read of `k` yields: the nearest frame's value, else the root's,
      else absent. */
  ghost function Lookup<V>(chain: seq<Frame<V>>, root: map<Key, V>, k: Key): Option<V>
    reads chain
  {
    var i := Holder(chain, k);
    if i < |chain| then Some(chain[i].context[k])
    else if k in root then Some(root[k])
    else None
  }

  /** The keys held by the frames of `chain`. */
  ghost function FrameKeys<V>(chain: seq<Frame<V>>): set<Key>
    reads chain
  {
    if chain == [] then {} else chain[0].context.Keys + FrameKeys(chain[1..])
  }

  /** The keys of the frames from `f` on: those of `f`, then those from
      its parent on. */
  lemma FrameKeysStep<V>(f: Frame<V>)
    requires f.Valid()
    ensures f.parent != null ==> f.parent.Valid()
    ensures |ChainOf(f.parent)| < |ChainOf(f)|
    ensures FrameKeys(ChainOf(f)) == f.context.Keys + FrameKeys(ChainOf(f.parent))
  {
    ParentChain(f);
  }

  /** Every key readable through `chain` and `root`. */
  ghost function VisibleKeys<V>(chain: seq<Frame<V>>, root: map<Key, V>): set<Key>
    reads chain
  {
    root.Keys + FrameKeys(chain)
  }

  predicate Distinct<T(==)>(s: seq<T>)
  {
    forall i, j | 0 <= i < j < |s| :: s[i] != s[j]
  }

  function Elems<T>(s: seq<T>): set<T>
  {
    set x | x in s
  }

  /** A key is held by the frames exactly when one of them holds it. */
  lemma {:induction false} FrameKeysHolds<V>(chain: seq<Frame<V>>, k: Key)
    ensures k in FrameKeys(chain) <==> exists j | 0 <= j < |chain| :: k in chain[j].context
  {
    if chain != [] {
      FrameKeysHolds(chain[1..], k);
      if k in FrameKeys(chain[1..]) {
        var j :| 0 <= j < |chain[1..]| && k in chain[1..][j].context;
        assert k in chain[j + 1].context;
      }
      if exists j | 0 <= j < |chain| :: k in chain[j].context {
        var j :| 0 <= j < |chain| && k in chain[j].context;
        if j > 0 {
          assert k in chain[1..][j - 1].context;
        }
      }
    }
  }

  /** A read finds a value exactly when the key is among the visible keys:
      `has` and `ownKeys` agree. */
  lemma LookupFindsVisible<V>(chain: seq<Frame<V>>, root: map<Key, V>, k: Key)
    ensures Lookup(chain, root, k).Some? <==> k in VisibleKeys(chain, root)
  {
    FrameKeysHolds(chain, k);
  }

  /** A frame that does not hold `k` is transparent: the read resolves as
      it does from the frame's parent. */
  lemma LookupSkipsFrame<V>(chain: seq<Frame<V>>, root: map<Key, V>, k: Key)
    requires chain != [] && k !in chain[0].context
    ensures Lookup(chain, root, k) == Lookup(chain[1..], root, k)
  {
    assert Holder(chain, k) == 1 + Holder(chain[1..], k);
  }

  /** The nearest frame holding `k` decides the read, whatever the frames
      above it hold. */
  lemma LookupNearest<V>(chain: seq<Frame<V>>, root: map<Key, V>, k: Key, i: nat)
    requires i < |chain| && k in chain[i].context
    requires forall j | 0 <= j < i :: k !in chain[j].context
    ensures Lookup(chain, root, k) == Some(chain[i].context[k])
  {
  }

  /** When no frame holds `k`, the read falls back to the root. */
  lemma LookupFallsBackToRoot<V>(chain: seq<Frame<V>>, root: map<Key, V>, k: Key)
    requires forall j | 0 <= j < |chain| :: k !in chain[j].context
    ensures Lookup(chain, root, k) == if k in root then Some(root[k]) else None
  {
  }

  /** The result of `getOwnPropertyDescriptor`; `value` is absent in the
      descriptor of a missing key. */
  datatype Descriptor<V> = Descriptor(enumerable: bool, configurable: bool, value: Option<V>)

  /** `keys.add(k)` for each `k` of `more`, on a set kept as an
      insertion-ordered sequence (`Set<ContextKey>`). */
  method AddAll(keys: seq<Key>, more: set<Key>) returns (r: seq<Key>)
    requires Distinct(keys)
    ensures Distinct(r)
    ensures Elems(r) == Elems(keys) + more
    ensures |keys| <= |r| && r[..|keys|] == keys
  {
    r := keys;
    var rest := more;
    while rest != {}
      invariant Distinct(r)
      invariant Elems(r) + rest == Elems(keys) + more
      invariant |keys| <= |r| && r[..|keys|] == keys
      decreases rest
    {
      var k :| k in rest;
      if k !in r {
        r := r + [k];
      }
      rest := rest - {k};
    }
  }

  /** The state behind the `ctx` proxy: `rootContext` and the frame the
      async-local storage holds for the running code. */
  class Ctx<V> {
    var root: map<Key, V>
    var current: Frame?<V>

    ghost predicate Valid()
      reads this
    {
      current != null ==> current.Valid()
    }

    /** The frames a read searches, nearest first. */
    ghost function Frames(): seq<Frame<V>>
      reads this
    {
      ChainOf(current)
    }

    constructor ()
      ensures Valid() && root == map[] && current == null
    {
      root := map[];
      current := null;
    }

    /** `getContext`: the nearest frame holding `k`, or null for `rootContext`. */
    method FindContext(k: Key) returns (found: Frame?<V>)
      requires Valid()
      ensures found == null <==> Holder(Frames(), k) == |Frames()|
      ensures found != null ==> found == Frames()[Holder(Frames(), k)]
    {
      ghost var chain := Frames();
      var ref := current;
      ghost var skipped := 0;
      while ref != null
        invariant ref != null ==> ref.Valid()
        invariant 0 <= skipped <= |chain|
        invariant ChainOf(ref) == chain[skipped..]
        invariant forall j | 0 <= j < skipped :: k !in chain[j].context
        decreases |ChainOf(ref)|
      {
        if k in ref.context {
          HolderAt(chain, k, skipped);
          return ref;
        }
        ParentChain(ref);
        ref := ref.parent;
        skipped := skipped + 1;
      }
      HolderAt(chain, k, skipped);
      return null;
    }

    /** The `get` trap (`getValue`). */
    method Get(k: Key) returns (r: Option<V>)
      requires Valid()
      ensures r == Lookup(Frames(), root, k)
    {
      var found := FindContext(k);
      if found == null {
        r := if k in root then Some(root[k]) else None;
      } else {
        r := Some(found.context[k]);
      }
    }

    /** The `has` trap. */
    method Has(k: Key) returns (b: bool)
      requires Valid()
      ensures b <==> k in VisibleKeys(Frames(), root)
      ensures b <==> Lookup(Frames(), root, k).Some?
    {
      var found := FindContext(k);
      b := if found == null then k in root else k in found.context;
      LookupFindsVisible(Frames(), root, k);
    }

    /** The `getOwnPropertyDescriptor` trap. */
    method GetOwnPropertyDescriptor(k: Key) returns (d: Descriptor<V>)
      requires Valid()
      ensures d.enumerable <==> k in VisibleKeys(Frames(), root)
      ensures d.configurable == d.enumerable
      ensures d.value == Lookup(Frames(), root, k)
    {
      var found := FindContext(k);
      var has := if found == null then k in root else k in found.context;
      if has {
        var v := if found == null then root[k] else found.context[k];
        d := Descriptor(true, true, Some(v));
      } else {
        d := Descriptor(false, false, None);
      }
      LookupFindsVisible(Frames(), root, k);
    }

    /** The `set` trap: writes into the current frame, or `rootContext`
        when none is active. */
    method Set(k: Key, v: V) returns (ok: bool)
      requires Valid()
      modifies this`root, current
      ensures Valid() && current == old(current)
      ensures ok
      ensures current == null ==> root == old(root)[k := v]
      ensures current != null ==> current.context == old(current.context)[k := v] && root == old(root)
      ensures current != null ==> forall g | g in current.ancestors :: g.context == old(g.context)
      ensures Lookup(Frames(), root, k) == Some(v)
    {
      if current == null {
        root := root[k := v];
      } else {
        current.context := current.context[k := v];
      }
      ok := true;
    }

    /** The `deleteProperty` trap: removes `k` from the current frame, or
        from `rootContext` when none is active; never from an ancestor. */
    method DeleteProperty(k: Key) returns (removed: bool)
      requires Valid()
      modifies this`root, current
      ensures Valid() && current == old(current)
      ensures current == null ==> removed == (k in old(root)) && root == old(root) - {k}
      ensures current != null ==>
        && removed == (k in old(current.context))
        && current.context == old(current.context) - {k}
        && root == old(root)
      ensures current != null ==> forall g | g in current.ancestors :: g.context == old(g.context)
      ensures current == null ==> Lookup(Frames(), root, k) == None
      ensures current != null ==> Lookup(Frames(), root, k) == Lookup(current.ancestors, root, k)
    {
      if current == null {
        removed := k in root;
        root := root - {k};
      } else {
        removed := k in current.context;
        current.context := current.context - {k};
        LookupSkipsFrame(Frames(), root, k);
      }
    }

    /** The `ownKeys` trap: the root's keys, then those of every frame
        from the current one up, each once. */
    method OwnKeys() returns (keys: seq<Key>)
      requires Valid()
      ensures Distinct(keys)
      ensures Elems(keys) == VisibleKeys(Frames(), root)
    {
      keys := AddAll([], root.Keys);
      var ref := current;
      while ref != null
        invariant ref != null ==> ref.Valid()
        invariant Distinct(keys)
        invariant Elems(keys) + FrameKeys(ChainOf(ref)) == VisibleKeys(Frames(), root)
        decreases |ChainOf(ref)|
      {
        assert FrameKeys(ChainOf(ref)) == ref.context.Keys + FrameKeys(ChainOf(ref.parent))
               && (ref.parent != null ==> ref.parent.Valid()) && |ChainOf(ref.parent)| < |ChainOf(ref)| by {
          FrameKeysStep(ref);
        }
        keys := AddAll(keys, ref.context.Keys);
        ref := ref.parent;
      }
    }

    /** The frame push of `init`/`run`: a new frame with an empty map whose
        parent is the frame current at call time. Returns that frame, for
        `Restore` when the wrapped function returns. */
    method Enter() returns (saved: Frame?<V>)
      requires Valid()
      modifies this`current
      ensures Valid() && root == old(root)
      ensures saved == old(current)
      ensures fresh(current) && current != null
      ensures current.parent == saved && current.context == map[]
      ensures current.ancestors == old(Frames())
      ensures forall k :: Lookup(Frames(), root, k) == old(Lookup(Frames(), root, k))
    {
      saved := current;
      ghost var chain0 := Frames();
      var f := new Frame(current);
      assert f.Chain() == [f] + chain0;
      current := f;
      forall k
        ensures Lookup(Frames(), root, k) == Lookup(chain0, root, k)
      {
        LookupSkipsFrame(Frames(), root, k);
      }
    }

    /** Makes `f` the current frame: the pop at the end of `run`, and the
        runtime resuming work under the frame it captured. */
    method Restore(f: Frame?<V>)
      requires f != null ==> f.Valid()
      modifies this`current
      ensures Valid() && current == f && root == old(root)
    {
      current := f;
    }
  }

  /** Frames hold references: a parent's write made after a child frame was
      pushed is read by the child, which does not shadow the key. */
  method ParentWriteSeenByChild<V>(k: Key, v: V) returns (seen: Option<V>)
    ensures seen == Some(v)
  {
    var c := new Ctx<V>();
    var _ := c.Enter();
    var parent := c.current;
    var _ := c.Enter();
    var child := c.current;
    c.Restore(parent);
    var _ := c.Set(k, v);
    c.Restore(child);
    seen := c.Get(k);
  }

  /** Deleting a key in a frame uncovers the value the root holds for it. */
  method DeleteUncoversRoot<V>(k: Key, outer: V, inner: V) returns (before: Option<V>, removed: bool, after: Option<V>)
    ensures before == Some(inner) && removed && after == Some(outer)
  {
    var c := new Ctx<V>();
    var _ := c.Set(k, outer);
    var _ := c.Enter();
    var _ := c.Set(k, inner);
    before := c.Get(k);
    removed := c.DeleteProperty(k);
    after := c.Get(k);
  }
}
