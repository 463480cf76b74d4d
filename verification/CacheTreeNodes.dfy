/** cache-tree.c: the tree of directory hashes, invalidated lazily and brought up to date in place. */
module CacheTreeNodes {
  import opened Basics
  import opened CacheIndex
  import opened CachedTree
  import opened CacheUpdate
  import opened IndexMarks

  /** The object database, reduced to which objects it has. */
  class ObjectStore {
    const hash: string -> Sha
    const writable: bool
    var has: set<Sha>

    constructor (hash: string -> Sha, writable: bool)
      ensures this.hash == hash && this.writable == writable && has == {}
    {
      this.hash, this.writable, has := hash, writable, {};
    }

    /** write_sha1_file: names the object in any case; may fail unless the database is writable. */
    method Write(buffer: string) returns (ok: bool, sha1: Sha)
      modifies this`has
      ensures sha1 == hash(buffer) && (writable ==> ok)
      ensures has == if ok then old(has) + {sha1} else old(has)
    {
      var failed: bool := *;
      ok, sha1 := writable || !failed, hash(buffer);
      if ok {
        has := has + {sha1};
      }
    }
  }

  /** A child slot of a node, as `struct cache_tree_sub`. */
  datatype Down = Down(name: string, tree: CacheTree?, count: int, used: bool)

  /** A slot as a value. */
  ghost function SubOf(d: Down): Sub
    requires d.tree != null ==> d.tree.Valid()
    reads d.tree, if d.tree == null then {} else d.tree.Repr
    decreases if d.tree == null then {} else d.tree.Repr, 2
  {
    Sub(d.name, if d.tree == null then None else Some(d.tree.Value()), d.count, d.used)
  }

  class CacheTree {
    var entryCount: int
    var sha1: Sha
    var down: seq<Down>
    ghost var Repr: set<CacheTree>

    /** This node owns its subtrees, and no two of them share a node. */
    ghost predicate Valid()
      reads this, Repr
      decreases Repr
    {
      && this in Repr
      && (forall i {:trigger down[i]} :: 0 <= i < |down| && down[i].tree != null ==>
            && down[i].tree in Repr && down[i].tree.Repr <= Repr && this !in down[i].tree.Repr && down[i].tree.Valid())
      && (forall i, j {:trigger down[i], down[j]} ::
           0 <= i < j < |down| && down[i].tree != null && down[j].tree != null ==>
            down[i].tree.Repr !! down[j].tree.Repr)
    }

    /** The tree as a value. */
    ghost function Value(): (t: Tree)
      requires Valid()
      reads this, Repr
      ensures t.count == entryCount && t.sha1 == sha1 && |t.down| == |down|
      ensures forall i {:trigger t.down[i]} {:trigger down[i]} :: 0 <= i < |down| ==> t.down[i] == SubOf(down[i])
      decreases Repr, 1
    {
      Tree(entryCount, sha1, seq(|down|, i requires Valid() && 0 <= i < |down| reads this, Repr => SubOf(down[i])))
    }

    /** cache_tree(). */
    constructor ()
      ensures Valid() && Repr == {this} && Value() == Tree(-1, NULL_SHA, [])
    {
      entryCount, sha1, down, Repr := -1, NULL_SHA, [], {this};
    }

    /** The names alone, which is all a search looks at. */
    ghost predicate Ordered()
      reads this
    {
      forall i, j {:trigger down[i], down[j]} :: 0 <= i < j < |down| ==> Before(down[i].name, down[j].name)
    }

    /** subtree_pos: binary search among the subtrees; a negative answer tells where the name would go. */
    method SubtreePos(name: string) returns (pos: int)
      requires Ordered()
      ensures pos >= 0 ==> pos < |down| && down[pos].name == name
      ensures pos < 0 ==> -pos - 1 <= |down|
      ensures pos < 0 ==> forall i {:trigger down[i]} :: 0 <= i < -pos - 1 ==> Before(down[i].name, name)
      ensures pos < 0 ==> forall i {:trigger down[i]} :: -pos - 1 <= i < |down| ==> Before(name, down[i].name)
    {
      var lo, hi := 0, |down|;
      while lo < hi
        invariant 0 <= lo <= hi <= |down|
        invariant forall i {:trigger down[i]} :: 0 <= i < lo ==> Before(down[i].name, name)
        invariant forall i {:trigger down[i]} :: hi <= i < |down| ==> Before(name, down[i].name)
      {
        var mi := (lo + hi) / 2;
        var mdl := down[mi].name;
        if name == mdl {
          return mi;
        }
        BeforeTotal(name, mdl);
        if Before(name, mdl) {
          forall i {:trigger down[i]} | mi <= i < |down| ensures Before(name, down[i].name) {
            if i > mi { BeforeTrans(name, mdl, down[i].name); }
          }
          hi := mi;
        } else {
          forall i {:trigger down[i]} | 0 <= i <= mi ensures Before(down[i].name, name) {
            if i < mi { BeforeTrans(down[i].name, mdl, name); }
          }
          lo := mi + 1;
        }
      }
      return -lo - 1;
    }

    lemma NamesInOrder()
      requires Valid()
      ensures Ordered() <==> InOrder(Value().down)
    {
      var d := Value().down;
      assert forall i {:trigger d[i]} {:trigger down[i]} :: 0 <= i < |down| ==> d[i].name == down[i].name;
    }

    /** Move the later slots up by one and put a new one in between. */
    method InsertSlot(name: string, pos: nat)
      requires Valid() && pos <= |down|
      modifies this`down
      ensures Valid()
      ensures Value().down == old(Value().down)[..pos] + [Sub(name, None, 0, false)] + old(Value().down)[pos..]
    {
      ghost var was, wasDown := Value().down, down;
      down := down[..pos] + [Down(name, null, 0, false)] + down[pos..];
      forall i {:trigger down[i]} | 0 <= i < |down|
        ensures i == pos || down[i] == wasDown[if i < pos then i else i - 1] {}
      assert Valid();
      assert Value().down == was[..pos] + [Sub(name, None, 0, false)] + was[pos..];
    }

    /** find_subtree without creation: the place of a subtree, or a negative number. */
    method FindSubtree(name: string) returns (pos: int)
      requires Valid() && InOrder(Value().down)
      ensures pos >= 0 ==> pos < |down| == |Value().down| && down[pos].name == name == Value().down[pos].name
      ensures pos < 0 ==> forall s :: s in Value().down ==> s.name != name
    {
      NamesInOrder();
      pos := SubtreePos(name);
      if pos < 0 {
        NotThere(Value().down, name, -pos - 1);
      }
    }

    /** find_subtree with creation: the place of a subtree, if need be a new empty slot. */
    method FindOrAddSubtree(name: string) returns (pos: nat)
      requires Valid() && InOrder(Value().down)
      modifies this`down
      ensures Valid() && InOrder(Value().down)
      ensures pos < |Value().down| && Value().down[pos].name == name
      ensures Value().down == old(Value().down) || Inserted(old(Value().down), name, pos, Value().down)
    {
      NamesInOrder();
      ghost var was := Value().down;
      var found := SubtreePos(name);
      if found >= 0 {
        return found;
      }
      NotThere(was, name, -found - 1);
      pos := -found - 1;
      InsertSlot(name, pos);
      InsertedInOrder(was, name, pos);
    }

    /** Move the later slots down over the one at `pos`. */
    method RemoveSlot(pos: nat)
      requires Valid() && pos < |down|
      modifies this`down
      ensures Valid()
      ensures Value().down == old(Value().down)[..pos] + old(Value().down)[pos + 1..]
    {
      ghost var was, wasDown := Value().down, down;
      down := down[..pos] + down[pos + 1..];
      forall i {:trigger down[i]} | 0 <= i < |down|
        ensures down[i] == wasDown[if i < pos then i else i + 1] {}
      assert Valid();
      assert Value().down == was[..pos] + was[pos + 1..];
    }

    method MarkUnknown()
      requires Valid()
      modifies this`entryCount
      ensures Valid() && Value() == old(Value()).(count := -1)
    {
      ghost var was := Value();
      entryCount := -1;
      assert Value() == was.(count := -1);
    }

    /** Throw away the subtree of that name, if there is one. */
    method RemoveNamed(name: string)
      requires Valid() && InOrder(Value().down)
      modifies this`down
      ensures Valid()
      ensures Value() == var t := old(Value()); var p := IndexOf(t.down, name);
                if p == |t.down| then t else t.(down := t.down[..p] + t.down[p + 1..])
    {
      hide InOrder, IndexOf, Valid, Value;
      ghost var was := Value();
      NamesInOrder();
      var pos := SubtreePos(name);
      if pos >= 0 {
        FoundAt(was.down, pos);
        RemoveSlot(pos);
      } else {
        NotThere(was.down, name, -pos - 1);
      }
    }

    /**
     * do_invalidate_path: every node on the way to `path` becomes unknown, and a subtree of that very
     * name is thrown away.
     */
    method DoInvalidatePath(path: string)
      requires Valid() && Shaped(Value())
      modifies Repr
      ensures Valid() && Repr == old(Repr) && Value() == Invalidated(old(Value()), path)
      decreases |path|, 1
    {
      hide *;
      Owned();
      InvalidatedUnfolds(Value(), path);
      var namelen := Slash(path, 0);
      var name := path[..namelen];
      MarkUnknown();
      if namelen == |path| {
        RemoveNamed(name);
      } else {
        Descend(name, path[namelen + 1..]);
      }
    }

    /** Invalidate the rest of the path in the subtree of that name, if there is one. */
    method Descend(name: string, path: string)
      requires Valid() && Shaped(Value())
      modifies Repr
      ensures Valid() && Repr == old(Repr)
      ensures Value() == var t := old(Value()); var p := IndexOf(t.down, name);
                if p == |t.down| || t.down[p].tree.None? then t
                else t.(down := t.down[p := t.down[p].(tree := Some(Invalidated(t.down[p].tree.value, path)))])
      decreases |path|, 3
    {
      var pos := FindSubtree(name);
      if pos >= 0 {
        FoundAt(Value().down, pos);
        if down[pos].tree != null {
          InvalidateSub(pos, path);
        }
      }
    }

    /** The recursive call, seen from the parent. */
    method InvalidateSub(pos: nat, path: string)
      requires Valid() && pos < |down| && down[pos].tree != null
      requires Shaped(Value().down[pos].tree.value)
      modifies down[pos].tree.Repr
      ensures Valid() && Repr == old(Repr)
      ensures Value() == var t := old(Value()); t.(down := t.down[pos :=
                t.down[pos].(tree := Some(Invalidated(t.down[pos].tree.value, path)))])
      decreases |path|, 2
    {
      hide Invalidated, Shaped;
      ghost var was := Value().down;
      down[pos].tree.DoInvalidatePath(path);
      OthersKept(pos);
      assert Value().down == was[pos := was[pos].(tree := Some(Invalidated(was[pos].tree.value, path)))];
    }

    /** The first loop's marks: nothing is used yet. */
    method ClearUsed()
      requires Valid()
      modifies this`down
      ensures Valid() && Value() == var t := old(Value()); t.(down := Unused(t.down))
    {
      ghost var was, wasDown := Value(), down;
      var i := 0;
      while i < |down|
        invariant 0 <= i <= |down| == |wasDown|
        invariant forall j {:trigger down[j]} :: 0 <= j < |down| ==>
          down[j] == if j < i then wasDown[j].(used := false) else wasDown[j]
      {
        down := down[i := down[i].(used := false)];
        i := i + 1;
      }
      assert Valid();
      assert Value().down == Unused(was.down);
    }

    /** `if (!sub->cache_tree) sub->cache_tree = cache_tree()`, for a slot found or made by find_subtree. */
    method OpenSub(name: string) returns (pos: nat)
      requires Valid() && InOrder(Value().down)
      modifies this`down, this`Repr
      ensures Valid() && fresh(Repr - old(Repr)) && InOrder(Value().down)
      ensures pos < |down| && down[pos].tree != null && down[pos].name == name
      ensures Value().count == old(Value().count) && Value().sha1 == old(Value().sha1)
      ensures Opened(old(Value().down), name, pos, Value().down)
    {
      pos := FindOrAddSubtree(name);
      ghost var was := Value().down;
      if down[pos].tree == null {
        AttachNew(pos);
        StillInOrder(was, pos, was[pos].(tree := Some(Tree(-1, NULL_SHA, []))));
      }
    }

    method AttachNew(pos: nat)
      requires Valid() && pos < |down| && down[pos].tree == null
      modifies this`down, this`Repr
      ensures Valid() && fresh(Repr - old(Repr)) && |down| == |old(down)|
      ensures down[pos].tree != null && down[pos].name == old(down[pos].name)
      ensures Value() == var t := old(Value());
                t.(down := t.down[pos := t.down[pos].(tree := Some(Tree(-1, NULL_SHA, [])))])
    {
      ghost var was, wasDown := Value(), down;
      var node := new CacheTree();
      down := down[pos := down[pos].(tree := node)];
      Repr := Repr + {node};
      assert Valid();
      assert Value().down == was.down[pos := was.down[pos].(tree := Some(Tree(-1, NULL_SHA, [])))];
    }

    /** The node is known and the database has its tree. */
    predicate Stored(store: ObjectStore)
      reads this, store
    {
      0 <= entryCount && sha1 in store.has
    }

    lemma StoredIs(store: ObjectStore)
      ensures Stored(store) <==> 0 <= entryCount && sha1 in store.has
    {}

    // ---- Updating ---------------------------------------------------------------------------

    /**
     * update_one: bring this node and everything below it up to date with the entries below `base`,
     * which stand at the front of `cache`; the number of those entries, or a negative number, and how
     * many are skipped because they are going to be removed. A node that is known and stored stays as
     * it is, and then that number is right exactly if no entry is marked for removal.
     */
    method UpdateOne(store: ObjectStore, cache: seq<Entry>, base: string, flags: WriteFlags, ghost tight: bool)
      returns (r: int, skip: nat)
      requires Valid() && Shaped(Value()) && Sorted(cache) && (cache != [] ==> In(cache[0], base))
      requires !(flags.dryRun && flags.repair)
      requires Sound(tight, store.hash, cache, Value(), base)
      requires Unskipped(cache, Value(), base) || Stored(store)
      modifies Repr, store`has
      ensures Valid() && fresh(Repr - old(Repr)) && Grown(flags, old(store.has), store.has)
      ensures old(Unskipped(cache, Value(), base)) ==>
        Updated(tight, flags, store.hash, store.has, cache, base, old(Value()), Value(), r) &&
        (r >= 0 ==> skip == Skips(cache, base))
      ensures old(Stored(store)) ==>
        Value() == old(Value()) && store.has == old(store.has) && r == entryCount && skip == 0 &&
        r <= |Under(cache, base)| && (r == |Under(cache, base)| <==> NoneRemoved(cache, base))
      ensures Able(flags, store.writable, old(store.has), Under(cache, base)) ==> r >= 0
      decreases |cache|, if cache == [] then 0 else |cache[0].name| - |base|, 5
    {
      hide *;
      Owned();
      ghost var U, before := Under(cache, base), Value();
      StoredIs(store);
      if 0 <= entryCount && sha1 in store.has {
        SortedTail(cache, 0);
        SoundNode(tight, store.hash, cache, before, base);
        KnownAdvances(store.hash, cache, before, base);
        if Unskipped(cache, before, base) {
          StillKnown(tight, flags, store.hash, store.has, cache, base, before);
        }
        NoneAdded(flags, store.has);
        return entryCount, 0;
      }
      LevelStarts(tight, store.hash, cache, base, U, before);
      KnownIsSure(flags, store.hash, store.has, U, before, base);
      ScanStarts(tight, flags, store.hash, store.has, U, base, before);
      WaitingStarts(U, base, before);
      ClearUsed();
      r, skip := UpdateLevel(store, cache, base, flags, tight, U, before);
      UpdatedSame(tight, flags, store.hash, store.has, U, cache, base, before, Value(), r);
      SameHash(store.hash, cache, U, base);
    }

    /** The rest of update_one, for a node that has to be worked out. */
    method UpdateLevel(store: ObjectStore, cache: seq<Entry>, base: string, flags: WriteFlags, ghost tight: bool,
        ghost U: seq<Entry>, ghost before: Tree)
      returns (r: int, skip: nat)
      requires LevelOf(cache, base, U) && Cut(U, base, 0) && !(flags.dryRun && flags.repair)
      requires Valid() && before.count == Value().count && WellNamed(U) && AllIn(U, base)
      requires Scanning(tight, Keeps(tight, flags, before), flags, store.hash, store.has, U, base, 0, Value())
      requires Waiting(U, base, Value().down)
      requires !flags.repair && before.count >= 0 ==> Sure(flags, store.hash, store.has, U, base)
      modifies Repr, store`has
      ensures Valid() && fresh(Repr - old(Repr)) && Grown(flags, old(store.has), store.has)
      ensures Updated(tight, flags, store.hash, store.has, U, base, before, Value(), r)
      ensures r >= 0 ==> skip == Skips(U, base)
      ensures Able(flags, store.writable, old(store.has), U) ==> r >= 0
      decreases |cache|, if cache == [] then 0 else |cache[0].name| - |base|, 4
    {
      Owned();
      hide Scanning, Updated, Able, Collected, Valid, Value, LevelOf, Sure, Waiting, Skips;
      ghost var keep := Keeps(tight, flags, before);
      var ok;
      ghost var i;
      ok, skip, i := UpdateSubtrees(store, cache, base, flags, tight, keep, U);
      if !ok {
        GivenUp(tight && !flags.repair, keep, flags, store.hash, store.has, U, base, i, before, Value());
        GivenUpTight(tight, flags, store.hash, store.has, U, base, before, Value());
        return -1, skip;
      }
      SureNow(flags, store.hash, old(store.has), store.has, U, base);
      DiscardCollects(tight, keep, flags, store.hash, store.has, U, base, Value());
      DiscardUnusedSubtrees();
      AbleLater(flags, store.writable, old(store.has), store.has, U);
      r, skip := WriteTree(store, cache, base, flags, tight, keep, U, before, skip);
    }

    /** The first loop: find the subdirectories, in order, and update them. */
    method UpdateSubtrees(store: ObjectStore, cache: seq<Entry>, base: string, flags: WriteFlags, ghost tight: bool,
        ghost keep: bool, ghost U: seq<Entry>)
      returns (ok: bool, skip: nat, ghost upTo: nat)
      requires LevelOf(cache, base, U) && Cut(U, base, 0) && !(flags.dryRun && flags.repair)
      requires Valid() && (keep ==> !flags.repair) && WellNamed(U) && AllIn(U, base)
      requires Scanning(tight, keep, flags, store.hash, store.has, U, base, 0, Value())
      requires Waiting(U, base, Value().down)
      modifies Repr, store`has
      ensures Valid() && fresh(Repr - old(Repr)) && Grown(flags, old(store.has), store.has)
      ensures Value().count == old(Value().count)
      ensures upTo <= |U| && (ok ==> upTo == |U| && LevelFits(U, base) && skip == Inner(U, |base|))
      ensures Scanning(tight && (ok || !flags.repair), keep, flags, store.hash, store.has, U, base, upTo, Value())
      ensures Able(flags, store.writable, old(store.has), U) ==> ok
      decreases |cache|, if cache == [] then 0 else |cache[0].name| - |base|, 3
    {
      hide Scanning, Waiting, Skipping, Inner, Outer, Able, Skips, Valid, Value, LevelOf, Cut, IsDir, Dirs, Component;
      var i := 0;
      skip := 0;
      SkippingStarts(U, base);
      while i < |cache| && In(cache[i], base)
        invariant 0 <= i <= |U| && Cut(U, base, i) && Skipping(U, base, i, skip)
        invariant Valid() && fresh(Repr - old(Repr)) && Grown(flags, old(store.has), store.has)
        invariant Value().count == old(Value().count) && Waiting(U, base, Value().down)
        invariant Scanning(tight, keep, flags, store.hash, store.has, U, base, i, Value())
      {
        InLevel(cache, base, U, i);
        if !IsDir(cache[i], |base|) {
          AtLevel(cache, base, U, i);
          FileStep(U, base, i);
          SkipFile(tight, keep, flags, store.hash, store.has, U, base, i, Value());
          SkippingFile(store.hash, U, base, i, skip);
          i := i + 1;
        } else {
          AbleLater(flags, store.writable, old(store.has), store.has, U);
          var subcnt;
          subcnt, skip := UpdateSub(store, cache, base, flags, i, tight, keep, U, skip);
          if subcnt < 0 {
            return false, skip, i;
          }
          i := i + subcnt;
        }
      }
      LevelEnds(cache, base, U, i);
      SkippingDone(U, base, skip);
      return true, skip, i;
    }

    /** One step of the first loop: the subdirectory that entry `i` lies in. */
    method UpdateSub(store: ObjectStore, cache: seq<Entry>, base: string, flags: WriteFlags, i: nat, ghost tight: bool,
        ghost keep: bool, ghost U: seq<Entry>, skip0: nat)
      returns (subcnt: int, skip: nat)
      requires LevelOf(cache, base, U) && i < |U| && Cut(U, base, i) && i < |cache| && IsDir(cache[i], |base|)
      requires Valid() && (keep ==> !flags.repair) && !(flags.dryRun && flags.repair)
      requires Scanning(tight, keep, flags, store.hash, store.has, U, base, i, Value())
      requires Waiting(U, base, Value().down) && Skipping(U, base, i, skip0)
      modifies Repr, store`has
      ensures Valid() && fresh(Repr - old(Repr)) && Grown(flags, old(store.has), store.has)
      ensures Value().count == old(Value().count)
      ensures subcnt >= 0 ==> 0 < subcnt <= |U| - i && Cut(U, base, i + subcnt)
      ensures subcnt >= 0 ==> Waiting(U, base, Value().down) && Skipping(U, base, i + subcnt, skip)
      ensures subcnt >= 0 ==>
                Scanning(tight, keep, flags, store.hash, store.has, U, base, i + subcnt, Value())
      ensures subcnt < 0 ==> Scanning(tight && !flags.repair, keep, flags, store.hash, store.has, U, base, i, Value())
      ensures Able(flags, store.writable, old(store.has), U) ==> subcnt >= 0
      decreases |cache|, |cache[0].name| - |base|, 2
    {
      hide *;
      Owned();
      AtLevel(cache, base, U, i);
      var name := Component(cache[i], |base|);
      var below := Front(cache[i], |base|);
      ghost var k, t := Run(U[i..], below), Value();
      ComponentPlain(cache[i], base);
      DirStep(U, base, i, name, below, k);
      AbleBelow(flags, store.writable, store.has, U, below);
      SubLevel(cache, base, U, i, name, below, k);
      ScanningShape(tight, keep, flags, store.hash, store.has, U, base, i, t);
      var pos := OpenSub(name);
      OpenKeepsScanning(tight, keep, flags, store.hash, store.has, U, base, i, t, name, pos, Value().down);
      WaitingOpened(U, base, t.down, name, pos, Value().down);
      WaitingSub(U, base, Value().down, pos, cache[i..], below);
      SkippingDir(store.hash, U, base, i, skip0, name, below, k);
      SameHash(store.hash, cache[i..], U, below);
      ghost var t1, has := Value(), store.has;
      SubStarts(tight, keep, flags, store.hash, has, U, base, i, t1, pos, cache, name, below);
      ghost var after;
      var subskip;
      subcnt, subskip, after := RunSub(store, cache[i..], below, flags, tight, pos);
      skip := skip0 + subskip;
      SubEnds(tight, keep, flags, store.hash, has, store.has, U, base, i, t1, pos, cache, name, below, after, subcnt);
      if subcnt < 0 {
        return;
      }
      ghost var t2 := Value();
      MarkSlot(pos, subcnt);
      SubMarked(tight, keep, flags, store.hash, store.has, U, base, i, t2, pos, name, subcnt);
      WaitingMarked(U, base, t1.down, pos, Value().down[pos]);
      assert Value().down == t1.down[pos := Value().down[pos]];
    }

    lemma Owned()
      requires Valid()
      ensures this in Repr
    {
    }

    /** The recursive call, seen from the parent. */
    method RunSub(store: ObjectStore, cache: seq<Entry>, below: string, flags: WriteFlags, ghost tight: bool, pos: nat)
      returns (subcnt: int, subskip: nat, ghost after: Tree)
      requires Valid() && pos < |down| && down[pos].tree != null && !(flags.dryRun && flags.repair)
      requires Value().down[pos].tree.Some? && Shaped(Value().down[pos].tree.value)
      requires Sorted(cache) && cache != [] && In(cache[0], below)
      requires Sound(tight, store.hash, cache, Value().down[pos].tree.value, below)
      requires Unskipped(cache, Value().down[pos].tree.value, below)
      modifies Repr, store`has
      ensures Valid() && fresh(Repr - old(Repr)) && Grown(flags, old(store.has), store.has) && |down| == |old(down)|
      ensures Value() == var t := old(Value()); t.(down := t.down[pos := t.down[pos].(tree := Some(after))])
      ensures Updated(tight, flags, store.hash, store.has, cache, below, old(Value()).down[pos].tree.value, after,
        subcnt)
      ensures subcnt >= 0 ==> subskip == Skips(cache, below)
      ensures Able(flags, store.writable, old(store.has), Under(cache, below)) ==> subcnt >= 0
      decreases |cache|, |cache[0].name| - |below|, 6
    {
      hide Updated, Able, Sound, Shaped, Sorted, Under, In, Unskipped, Skips;
      ghost var was := Value();
      var sub := down[pos].tree;
      subcnt, subskip := sub.UpdateOne(store, cache, below, flags, tight);
      after := sub.Value();
      OthersKept(pos);
      Repr := Repr + sub.Repr;
      assert Valid();
      assert Value().down == was.down[pos := was.down[pos].(tree := Some(after))];
    }

    /** What happens below one subtree does not touch the others. */
    twostate lemma OthersKept(pos: nat)
      requires old(Valid()) && unchanged(this) && pos < |down| && down[pos].tree != null && down[pos].tree.Valid()
      requires forall n :: n in old(Repr) && n !in old(down[pos].tree.Repr) ==> unchanged(n)
      requires fresh(down[pos].tree.Repr - old(down[pos].tree.Repr))
      ensures forall i {:trigger down[i]} :: 0 <= i < |down| && i != pos && down[i].tree != null ==>
        && down[i].tree.Valid() && down[i].tree.Repr == old(down[i].tree.Repr)
        && down[i].tree.Repr !! down[pos].tree.Repr && SubOf(down[i]) == old(SubOf(down[i]))
    {
    }

    /** Hang a tree into a slot. */
    method AttachSub(pos: nat, sub: CacheTree)
      requires Valid() && pos < |down| && sub.Valid() && sub.Repr !! Repr
      modifies this`down, this`Repr
      ensures Valid() && Repr == old(Repr) + sub.Repr
      ensures Value() == var t := old(Value()); t.(down := t.down[pos := t.down[pos].(tree := Some(sub.Value()))])
    {
      ghost var was := Value();
      down := down[pos := down[pos].(tree := sub)];
      Repr := Repr + sub.Repr;
      assert Valid();
      assert Value().down == was.down[pos := was.down[pos].(tree := Some(sub.Value()))];
    }

    /** `sub->count = subcnt; sub->used = 1`. */
    method MarkSlot(pos: nat, subcnt: int)
      requires Valid() && pos < |down|
      modifies this`down
      ensures Valid()
      ensures Value() == var t := old(Value()); t.(down := t.down[pos := t.down[pos].(count := subcnt, used := true)])
    {
      ghost var was := Value();
      down := down[pos := down[pos].(count := subcnt, used := true)];
      assert Valid();
      assert Value().down == was.down[pos := was.down[pos].(count := subcnt, used := true)];
    }

    /** discard_unused_subtrees: move the used subtrees to the front and cut off the rest. */
    method DiscardUnusedSubtrees()
      requires Valid()
      modifies this`down
      ensures Valid() && Value() == var t := old(Value()); t.(down := UsedOnly(t.down))
    {
      ghost var was, wasDown := Value(), down;
      ghost var at;
      var dst;
      dst, at := MoveUsedUp(was.down);
      PickedAll(was.down, at);
      assert forall j {:trigger at[j]} :: 0 <= j < dst ==> SubOf(wasDown[at[j]]) == was.down[at[j]];
      hide UsedOnly;
      down := down[..dst];
      assert Valid();
      assert Value().down == UsedOnly(was.down);
    }

    /** The loop of discard_unused_subtrees: the used slot that comes j-th ends up at place j. */
    method MoveUsedUp(ghost was: seq<Sub>) returns (dst: nat, ghost at: seq<nat>)
      requires |was| == |down| && forall j {:trigger down[j]} :: 0 <= j < |down| ==> down[j].used == was[j].used
      modifies this`down
      ensures |at| == dst <= |down| == |old(down)| && Picked(was, |was|, at)
      ensures forall j {:trigger down[j]} :: 0 <= j < dst ==> down[j] == old(down)[at[j]]
    {
      at := [];
      PickStarts(was);
      hide Picked;
      ghost var wasDown := down;
      var nr, src := |down|, 0;
      dst := 0;
      while src < nr
        invariant 0 <= dst <= src <= nr == |down| == |wasDown| && |at| == dst
        invariant forall j {:trigger down[j]} :: src <= j < nr ==> down[j] == wasDown[j]
        invariant Picked(was, src, at) && forall j {:trigger at[j]} :: 0 <= j < |at| ==> at[j] < src
        invariant forall j {:trigger down[j]} :: 0 <= j < dst ==> down[j] == wasDown[at[j]]
      {
        PickNext(was, src, at);
        if down[src].used {
          at := at + [src];
          down := down[dst := down[src]];
          dst := dst + 1;
        }
        src := src + 1;
      }
    }

    /** The second loop: the lines of the tree object, unless some object is missing. */
    method BuildTree(store: ObjectStore, cache: seq<Entry>, base: string, flags: WriteFlags, ghost tight: bool,
        ghost keep: bool, ghost U: seq<Entry>, skip0: nat)
      returns (ok: bool, buffer: string, toInvalidate: bool, i: nat, skip: nat)
      requires LevelOf(cache, base, U) && Cut(U, base, 0) && LevelFits(U, base) && skip0 == Inner(U, |base|)
      requires Valid() && Collected(tight, keep, flags, store.hash, store.has, U, base, Value())
      ensures ok ==> i == |U|
      ensures ok ==> Building(flags, store.hash, store.has, U, base, Value().down, i, buffer, toInvalidate, skip)
      ensures Able(flags, store.writable, store.has, U) ==> ok
    {
      ok, buffer, toInvalidate, i, skip := true, "", false, 0, skip0;
      assert WellNamed(U) && AllIn(U, base);
      BuildStarts(flags, store.hash, store.has, U, base, Value().down);
      hide Building, Collected, Able, Valid, Value, LevelOf, Cut;
      while i < |cache| && In(cache[i], base)
        invariant 0 <= i <= |U| && Cut(U, base, i)
        invariant Building(flags, store.hash, store.has, U, base, Value().down, i, buffer, toInvalidate, skip)
      {
        InLevel(cache, base, U, i);
        ok, buffer, toInvalidate, i, skip :=
          NextLine(store, cache, base, flags, tight, keep, U, buffer, toInvalidate, i, skip);
        if !ok {
          return;
        }
      }
      LevelEnds(cache, base, U, i);
    }

    /** One step of the second loop. */
    method NextLine(store: ObjectStore, cache: seq<Entry>, base: string, flags: WriteFlags, ghost tight: bool,
        ghost keep: bool, ghost U: seq<Entry>, before: string, unknown: bool, i: nat, skip0: nat)
      returns (ok: bool, buffer: string, toInvalidate: bool, next: nat, skip: nat)
      requires LevelOf(cache, base, U) && i < |U| && Cut(U, base, i) && i < |cache| && cache[i] == U[i]
      requires Valid() && Collected(tight, keep, flags, store.hash, store.has, U, base, Value())
      requires Building(flags, store.hash, store.has, U, base, Value().down, i, before, unknown, skip0)
      ensures ok ==> i < next <= |U| && Cut(U, base, next)
      ensures ok ==> Building(flags, store.hash, store.has, U, base, Value().down, next, buffer, toInvalidate, skip)
      ensures Able(flags, store.writable, store.has, U) ==> ok
    {
      hide *;
      AtLevel(cache, base, U, i);
      var ce := cache[i];
      var name, mode, sha1;
      ok, buffer, toInvalidate, skip := false, before, unknown, skip0;
      if IsDir(ce, |base|) {
        name, mode := Component(ce, |base|), S_IFDIR;
        var pos := FindSub(store, cache, base, flags, tight, keep, U, i, name);
        sha1 := down[pos].tree.sha1;
        next := i + down[pos].count;
        if down[pos].tree.entryCount < 0 {
          toInvalidate := true;
        }
        BuildSub(tight, keep, flags, store.hash, store.has, U, base, i, Value(), pos, name,
          Value().down[pos].tree.value, next, before, unknown, skip0, Line(S_IFDIR, name, sha1));
        AbleSub(tight, keep, flags, store.writable, store.hash, store.has, U, base, Value(), pos);
      } else {
        name, mode, sha1 := ce.name[|base|..], ce.mode, ce.sha1;
        next := i + 1;
        BuildEntry(flags, store.hash, store.has, U, base, Value().down, i, before, unknown, skip0);
        AbleEntry(flags, store.writable, store.has, U, i);
      }
      if mode != S_IFGITLINK && !flags.missingOk && sha1 !in store.has {
        return;
      }
      ok := true;
      Marks(ce, Line(mode, name, sha1));
      Unit(before);
      if ce.mark.Removed? {
        skip := skip + 1;
      } else if ce.mark.Intended? {
        toInvalidate := true;
      } else {
        buffer := before + Line(mode, name, sha1);
      }
    }

    /** The subtree for the directory that entry `i` lies in; the first loop has left one. */
    method FindSub(store: ObjectStore, cache: seq<Entry>, base: string, flags: WriteFlags, ghost tight: bool,
        ghost keep: bool, ghost U: seq<Entry>, i: nat, name: string)
      returns (pos: nat)
      requires Valid() && i < |U| && AllIn(U, base) && WellNamed(U)
      requires Collected(tight, keep, flags, store.hash, store.has, U, base, Value())
      requires IsDir(U[i], |base|) && name == Component(U[i], |base|)
      ensures pos < |down| && down[pos].tree != null && Value().down[pos].name == name
      ensures Value().down[pos].tree.Some? && Value().down[pos].count == down[pos].count >= 0
      ensures Value().down[pos].tree.value.sha1 == down[pos].tree.sha1
      ensures Value().down[pos].tree.value.count == down[pos].tree.entryCount
    {
      hide Collected, AllIn, WellNamed, IsDir, Component;
      SubInDirs(U, base, i);
      SubsListed(tight, keep, flags, store.hash, store.has, U, base, Value());
      var found := FindSubtree(name);
      assert found >= 0;
      pos := found;
      assert Value().down[pos] in Value().down;
    }

    /** Make the tree object and record it in the node. */
    method WriteTree(store: ObjectStore, cache: seq<Entry>, base: string, flags: WriteFlags, ghost tight: bool,
        ghost keep: bool, ghost U: seq<Entry>, ghost before: Tree, skip0: nat)
      returns (r: int, skip: nat)
      requires LevelOf(cache, base, U) && Cut(U, base, 0) && keep == Keeps(tight, flags, before)
      requires Valid() && before.count == Value().count && !(flags.dryRun && flags.repair)
      requires LevelFits(U, base) && skip0 == Inner(U, |base|)
      requires !flags.repair && before.count >= 0 ==> Sure(flags, store.hash, store.has, U, base)
      requires Collected(tight, keep, flags, store.hash, store.has, U, base, Value())
      modifies this`entryCount, this`sha1, store`has
      ensures Valid() && Grown(flags, old(store.has), store.has)
      ensures Updated(tight, flags, store.hash, store.has, U, base, before, Value(), r)
      ensures r >= 0 ==> skip == Skips(U, base)
      ensures Able(flags, store.writable, old(store.has), U) ==> r >= 0
    {
      assert AllIn(U, base) && WellNamed(U);
      hide *;
      ghost var t, has := Value(), store.has;
      KeptKnown(tight, flags, keep, before, t);
      NoneAdded(flags, has);
      var ok, buffer, toInvalidate, n;
      ok, buffer, toInvalidate, n, skip := BuildTree(store, cache, base, flags, tight, keep, U, skip0);
      if !ok {
        GivenUpLate(tight, keep, flags, store.hash, has, U, base, before, t, t.sha1);
        assert t.(sha1 := t.sha1) == t;
        return -1, skip;
      }
      r := RecordTree(store, flags, buffer, toInvalidate, n, skip, tight, keep, U, base, before);
    }

    /** The last part of update_one: name or write the tree object. */
    method RecordTree(store: ObjectStore, flags: WriteFlags, buffer: string, unknown: bool, n: nat, skip: nat,
        ghost tight: bool, ghost keep: bool, ghost U: seq<Entry>, ghost base: string, ghost before: Tree)
      returns (r: int)
      requires WellNamed(U) && AllIn(U, base) && n == |U| && keep == Keeps(tight, flags, before)
      requires Valid() && before.count == Value().count
      requires Collected(tight, keep, flags, store.hash, store.has, U, base, Value())
      requires Building(flags, store.hash, store.has, U, base, Value().down, n, buffer, unknown, skip)
      requires !flags.repair && before.count >= 0 ==> Sure(flags, store.hash, store.has, U, base)
      modifies this`entryCount, this`sha1, store`has
      ensures Valid() && Grown(flags, old(store.has), store.has)
      ensures Updated(tight, flags, store.hash, store.has, U, base, before, Value(), r)
      ensures r >= 0 ==> skip == Skips(U, base)
      ensures Able(flags, store.writable, old(store.has), U) ==> r >= 0
    {
      hide *;
      ghost var t, has := Value(), store.has;
      CollectedNames(tight, keep, flags, store.hash, has, U, base, t);
      KeptKnown(tight, flags, keep, before, t);
      Built(flags, store.hash, has, U, base, t.down, buffer, unknown, skip);
      AbleWrites(flags, store.writable, has, U);
      var ok, name, toInvalidate := NameTree(store, flags, buffer, unknown);
      NamedRight(flags, store.hash, has, U, base, buffer, unknown, sha1, name, toInvalidate);
      if !ok {
        SetHash(entryCount, name);
        GivenUpLate(tight, keep, flags, store.hash, has, U, base, before, t, name);
        return -1;
      }
      Finished(tight, keep, flags, store.hash, has, U, base, before, t, name, toInvalidate, skip, store.has);
      SetHash(if toInvalidate then -1 else n - skip, name);
      return n;
    }

    /** Only look for the tree object, only name it, or write it; a repair keeps the old name without one. */
    method NameTree(store: ObjectStore, flags: WriteFlags, buffer: string, unknown: bool)
      returns (ok: bool, name: Sha, toInvalidate: bool)
      modifies store`has
      ensures Chosen(flags, store.hash, old(store.has), buffer, unknown, sha1, name, toInvalidate)
      ensures Grown(flags, old(store.has), store.has)
      ensures !ok ==> Writes(flags) && !store.writable && store.has == old(store.has)
      ensures ok && Writes(flags) ==> name in store.has
    {
      ok, toInvalidate := true, unknown;
      if flags.repair {
        name := store.hash(buffer);
        if name !in store.has {
          name, toInvalidate := sha1, true;
        }
      } else if flags.dryRun {
        name := store.hash(buffer);
      } else {
        ok, name := store.Write(buffer);
      }
    }

    method SetHash(count: int, name: Sha)
      requires Valid()
      modifies this`entryCount, this`sha1
      ensures Valid() && Value() == old(Value()).(count := count, sha1 := name)
    {
      ghost var was := Value();
      entryCount, sha1 := count, name;
      assert Value().down == was.down;
    }
  }

  /** What the marks of an entry do to its line. */
  lemma Marks(e: Entry, line: string)
    ensures e.mark.Live? ==> Shown(e, line) == line
    ensures !e.mark.Live? ==> Shown(e, line) == ""
    ensures One(e) == if e.mark.Removed? then 1 else 0
  {}

  lemma LevelStarts(tight: bool, hash: string -> Sha, cache: seq<Entry>, base: string, U: seq<Entry>, t: Tree)
    requires Sorted(cache) && (cache != [] ==> In(cache[0], base)) && U == Under(cache, base)
    requires Sound(tight, hash, cache, t, base) && Unskipped(cache, t, base)
    ensures LevelOf(cache, base, U) && Cut(U, base, 0) && WellNamed(U) && AllIn(U, base) && WellNamed(cache)
    ensures Under(U, base) == U && Sound(tight, hash, U, t, base) && Unskipped(U, t, base)
    ensures NodeRight(hash, cache, t, base) && NodeRight(hash, U, t, base)
  {
    FrontLevel(cache, base);
    SoundSame(tight, hash, cache, U, t, base);
    UnskippedSame(cache, U, t, base);
    hide Sound, Unskipped, Skips, TreeHash, Under, In;
    SoundNode(tight, hash, cache, t, base);
    SoundNode(tight, hash, U, t, base);
  }

  lemma NoneAdded(flags: WriteFlags, has: set<Sha>)
    ensures Grown(flags, has, has)
  {}

  lemma CollectedNames(tight: bool, keep: bool, flags: WriteFlags, hash: string -> Sha, has: set<Sha>,
      U: seq<Entry>, base: string, t: Tree)
    requires Collected(tight, keep, flags, hash, has, U, base, t)
    ensures Names(t.down) == Dirs(U, base)
  {}

  lemma KeptKnown(tight: bool, flags: WriteFlags, keep: bool, before: Tree, t: Tree)
    requires keep == Keeps(tight, flags, before) && before.count == t.count
    ensures tight && !flags.repair && t.count >= 0 ==> keep
  {}

  /** The name given to a node: that of its tree object, or in a repair without one the old name. */
  ghost predicate Chosen(flags: WriteFlags, hash: string -> Sha, has: set<Sha>, buffer: string, unknown: bool,
      was: Sha, name: Sha, toInvalidate: bool)
  {
    var lacks := flags.repair && hash(buffer) !in has;
    name == (if lacks then was else hash(buffer)) && toInvalidate == (unknown || lacks)
  }

  lemma NamedRight(flags: WriteFlags, hash: string -> Sha, has: set<Sha>, U: seq<Entry>, base: string,
      buffer: string, unknown: bool, was: Sha, name: Sha, toInvalidate: bool)
    requires WellNamed(U) && Chosen(flags, hash, has, buffer, unknown, was, name, toInvalidate)
    requires Right(flags, unknown) ==> hash(buffer) == TreeHash(hash, U, base)
    requires Sure(flags, hash, has, U, base) ==> !unknown
    ensures Right(flags, toInvalidate) ==> name == TreeHash(hash, U, base)
    ensures Writes(flags) ==> name == TreeHash(hash, U, base)
    ensures Sure(flags, hash, has, U, base) ==> !toInvalidate
    ensures unknown ==> toInvalidate
  {
    if Sure(flags, hash, has, U, base) && flags.repair {
      SureHas(flags, hash, has, U, base);
    }
    hide TreeHash, Sure;
  }

  /** A node that is known and stored needs no update. */
  lemma StillKnown(tight: bool, flags: WriteFlags, hash: string -> Sha, has: set<Sha>, E: seq<Entry>, base: string,
      t: Tree)
    requires WellNamed(E) && Shaped(t) && Sound(tight, hash, E, t, base) && t.count >= 0 && t.sha1 in has
    requires Unskipped(E, t, base)
    ensures Updated(tight, flags, hash, has, E, base, t, t, t.count) && Skips(E, base) == 0
  {
    KnownUnskipped(E, t, base);
    NoneSkipped(E, base);
    if tight && flags.repair {
      SoundLoosely(hash, E, t, base);
    }
    hide Skips, TreeHash, Under, NoneRemoved;
  }

  lemma InvalidatedUnfolds(t: Tree, path: string)
    ensures Shaped(t) ==> InOrder(t.down) && Shaped(t.(count := -1))
    ensures var s, u := Slash(path, 0), t.(count := -1); var p := IndexOf(t.down, path[..s]);
      Invalidated(t, path) ==
      if s == |path| then (if p == |u.down| then u else u.(down := u.down[..p] + u.down[p + 1..]))
      else if p == |u.down| || u.down[p].tree.None? then u
      else u.(down := u.down[p := u.down[p].(tree := Some(Invalidated(u.down[p].tree.value, path[s + 1..])))])
  {
    hide Shaped, Invalidated;
    InvalidatedCases(t, path);
    if Shaped(t) {
      ShapedBelow(t);
      ShapedFrom(t.(count := -1));
    }
  }

  /** All that stands before `pos` comes before `name`, all that stands after comes after. */
  ghost predicate Fits(down: seq<Sub>, name: string, pos: nat) {
    && pos <= |down|
    && (forall i {:trigger down[i]} :: 0 <= i < pos ==> Before(down[i].name, name))
    && (forall i {:trigger down[i]} :: pos <= i < |down| ==> Before(name, down[i].name))
  }

  lemma NotThere(down: seq<Sub>, name: string, pos: nat)
    requires Fits(down, name, pos)
    ensures forall s :: s in down ==> s.name != name
  {
    BeforeTotal(name, name);
  }

  lemma InsertedInOrder(down: seq<Sub>, name: string, pos: nat)
    requires InOrder(down) && Fits(down, name, pos)
    ensures InOrder(down[..pos] + [Sub(name, None, 0, false)] + down[pos..])
  {
    hide Before;
    var after := down[..pos] + [Sub(name, None, 0, false)] + down[pos..];
    forall i, j {:trigger after[i], after[j]} | 0 <= i < j < |after| ensures Before(after[i].name, after[j].name) {
      assert i < pos ==> after[i] == down[i];
      assert i > pos ==> after[i] == down[i - 1];
      assert j < pos ==> after[j] == down[j];
      assert j > pos ==> after[j] == down[j - 1];
    }
  }

  lemma BeforeTotal(a: string, b: string)
    ensures a == b || Before(a, b) || Before(b, a)
    ensures !(Before(a, b) && Before(b, a)) && !Before(a, a)
  {
    LessTotal(a, b);
    LessTotal(a, a);
  }

  lemma BeforeTrans(a: string, b: string, c: string)
    requires Before(a, b) && Before(b, c)
    ensures Before(a, c)
  {
    if |a| == |b| == |c| {
      LessTrans(a, b, c);
    }
  }
}
