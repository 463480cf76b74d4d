/** The index with its cache tree: invalidation after each change, and cache_tree_update. */
module IndexCache {
  import opened Basics
  import opened CacheIndex
  import opened CachedTree
  import opened CacheUpdate
  import opened IndexMarks
  import opened CacheTreeNodes
  import opened TreeText

  /** `a` may stand before `b`. */
  predicate Precedes(a: Entry, b: Entry) {
    Less(a.name, b.name) || (a.name == b.name && a.stage < b.stage)
  }

  /** Sorted by name, unmerged entries of one name by stage. */
  ghost predicate Ordered(E: seq<Entry>) {
    && WellNamed(E)
    && forall i, j {:trigger E[i], E[j]} :: 0 <= i < j < |E| ==>
         Precedes(E[i], E[j])
  }

  predicate Merged(E: seq<Entry>) {
    forall i :: 0 <= i < |E| ==> E[i].stage == 0
  }

  /** `next` lies in a directory that has the name of the file `this`. */
  predicate Conflict(one: Entry, next: Entry) {
    |one.name| < |next.name| && one.name <= next.name && next.name[|one.name|] == '/'
  }

  predicate NoNeighboursConflict(E: seq<Entry>) {
    forall i :: 0 <= i < |E| - 1 ==> !Conflict(E[i], E[i + 1])
  }

  lemma MergedIsSorted(E: seq<Entry>)
    requires Ordered(E) && Merged(E)
    ensures Sorted(E)
  {
  }

  /** verify_cache: no entry is unmerged, and no entry conflicts with the next one. */
  method VerifyCache(cache: seq<Entry>) returns (ok: bool)
    ensures ok <==> Merged(cache) && NoNeighboursConflict(cache)
  {
    var i := 0;
    while i < |cache|
      invariant 0 <= i <= |cache| && forall j :: 0 <= j < i ==> cache[j].stage == 0
    {
      if cache[i].stage != 0 {
        return false;
      }
      i := i + 1;
    }
    i := 0;
    while i < |cache| - 1
      invariant 0 <= i <= |cache| && (i == |cache| ==> i == 0)
      invariant forall j :: 0 <= j < i ==> !Conflict(cache[j], cache[j + 1])
    {
      if Conflict(cache[i], cache[i + 1]) {
        return false;
      }
      i := i + 1;
    }
    return true;
  }

  /** Some name continues `p` with a character that sorts before the slash. */
  ghost predicate Intervenes(E: seq<Entry>, p: string) {
    exists e :: e in E && |p| < |e.name| && p <= e.name && e.name[|p|] < '/'
  }

  /**
   * A file in the way of a directory shows as a conflict between neighbours exactly if no name stands
   * between the two; verify_cache misses the others.
   */
  lemma ConflictShowsIff(E: seq<Entry>, i: nat, j: nat)
    requires Sorted(E) && i < j < |E| && Conflict(E[i], E[j])
    ensures Conflict(E[i], E[i + 1]) <==> !Intervenes(E, E[i].name)
  {
    var p := E[i].name;
    NextSharesPrefix(E, i, j);
    if Intervenes(E, p) {
      var e :| e in E && |p| < |e.name| && p <= e.name && e.name[|p|] < '/';
      var k :| 0 <= k < |E| && E[k] == e;
      PrefixLess(p, e.name);
      LessTotal(p, e.name);
      assert k > i;
      if k > i + 1 && E[i + 1].name[|p|] == '/' {
        ByNextCharacter(p, E[i + 1].name, e.name);
      }
    } else {
      assert E[i + 1] in E;
      if E[i + 1].name[|p|] > '/' {
        ByNextCharacter(p, E[i + 1].name, E[j].name);
      }
    }
  }

  lemma NextSharesPrefix(E: seq<Entry>, i: nat, j: nat)
    requires Sorted(E) && i < j < |E| && Conflict(E[i], E[j])
    ensures E[i].name <= E[i + 1].name && |E[i].name| < |E[i + 1].name|
  {
    var p := E[i].name;
    if i + 1 < j {
      Between(p, p, E[i + 1].name, E[j].name);
      LessTotal(p, p);
      assert E[i + 1].name != p;
    }
  }

  /** Names with a common beginning are ordered by the character that follows. */
  lemma {:induction false} ByNextCharacter(p: string, a: string, b: string)
    requires p <= a && p <= b && |p| < |a| && |p| < |b| && a[|p|] > b[|p|]
    ensures !Less(a, b)
  {
    if p != "" {
      assert a[1..][|p[1..]|] == a[|p|] && b[1..][|p[1..]|] == b[|p|];
      ByNextCharacter(p[1..], a[1..], b[1..]);
    }
  }

  /** A file named like a directory, with a name between them, passes as free of conflicts. */
  lemma MissedConflict(sha1: Sha)
    ensures var E := [Entry("a", 0, sha1, 0, Live), Entry("a-b", 0, sha1, 0, Live), Entry("a/c", 0, sha1, 0, Live)];
      Sorted(E) && NoNeighboursConflict(E) && Conflict(E[0], E[2])
  {
    assert "a-b"[1..] == "-b" && "a/c"[1..] == "/c" && "a"[1..] == "";
    assert Less("-b", "/c") && Less("a", "a-b") && Less("a-b", "a/c") && Less("a", "a/c");
  }

  /** No entry is marked for removal. */
  ghost predicate NoRemovals(E: seq<Entry>) {
    forall e :: e in E ==> !e.mark.Removed?
  }

  /** No entry is marked. */
  ghost predicate Unmarked(E: seq<Entry>) {
    forall e :: e in E ==> e.mark.Live?
  }

  class IndexState {
    var cache: seq<Entry>
    var cacheTree: CacheTree?
    var cacheChanged: bool

    ghost predicate Valid()
      reads this, cacheTree, if cacheTree == null then {} else cacheTree.Repr
    {
      Ordered(cache) && (cacheTree != null ==> cacheTree.Valid() && Shaped(cacheTree.Value()))
    }

    /** The cache tree claims nothing that the index does not bear out. */
    ghost predicate Claims(tight: bool, hash: string -> Sha)
      requires Valid()
      reads this, cacheTree, if cacheTree == null then {} else cacheTree.Repr
    {
      cacheTree != null ==> Sound(tight, hash, cache, cacheTree.Value(), "")
    }

    /** Besides, it knows nothing of directories with entries marked for removal. */
    ghost predicate Agrees(tight: bool, hash: string -> Sha)
      requires Valid()
      reads this, cacheTree, if cacheTree == null then {} else cacheTree.Repr
    {
      Claims(tight, hash) && (cacheTree != null ==> Unskipped(cache, cacheTree.Value(), ""))
    }

    /** cache_tree_invalidate_path. */
    method InvalidatePath(path: string)
      requires Valid()
      modifies this`cacheChanged, if cacheTree == null then {} else cacheTree.Repr
      ensures Valid() && cacheTree == old(cacheTree) && cache == old(cache)
      ensures cacheChanged == (old(cacheChanged) || cacheTree != null)
      ensures cacheTree != null ==> cacheTree.Value() == Invalidated(old(cacheTree.Value()), path)
    {
      if cacheTree != null {
        InvalidatedShaped(cacheTree.Value(), path);
        cacheTree.DoInvalidatePath(path);
        cacheChanged := true;
      }
    }

    /**
     * Any change to entries that one path touches, followed by the invalidation of that path: an
     * addition, a replacement, a removal, a mark, entries of other stages, a file in place of a whole
     * directory, or a directory in place of a file.
     */
    method Change(path: string, entries: seq<Entry>, ghost tight: bool, ghost hash: string -> Sha)
      requires Valid() && Agrees(tight, hash)
      requires Ordered(entries) && SameBut(cache, entries, path)
      modifies this`cache, this`cacheChanged, if cacheTree == null then {} else cacheTree.Repr
      ensures Valid() && cache == entries && cacheTree == old(cacheTree) && Agrees(tight, hash)
    {
      hide Sound, Shaped, SameBut, Ordered, Invalidated, Unskipped;
      if cacheTree != null {
        ChangeKeepsSound(tight, hash, cache, entries, cacheTree.Value(), path);
      }
      InvalidatePath(path);
      cache := entries;
    }

    /**
     * remove_marked_cache_entries: the entries marked for removal go, in place. What the cache tree
     * claimed stays true exactly if no subdirectory of a known directory begins with such an entry.
     */
    method RemoveMarked(ghost tight: bool, ghost hash: string -> Sha)
      requires Valid()
      modifies this`cache, this`cacheChanged
      ensures Valid() && cache == Kept(old(cache)) && cacheTree == old(cacheTree)
      ensures cacheChanged == (old(cacheChanged) || cache != old(cache))
      ensures cacheTree != null && old(Claims(tight, hash)) && Merged(old(cache)) ==>
        (Agrees(tight, hash) <==> KnownWell(old(cache), cacheTree.Value(), ""))
    {
      hide Sound, Unskipped, Shaped, Kept, KnownWell, Less, Proper, Merged;
      ghost var E := cache;
      if cacheTree != null && Claims(tight, hash) && Merged(E) {
        MergedIsSorted(E);
        RemovalExact(tight, hash, E, cacheTree.Value(), "");
      }
      Compact();
      KeptOrdered(E);
      KeptIn(E);
      if cacheTree != null {
        NothingRemoved(cache, cacheTree.Value(), "");
      }
    }

    /** The loop of remove_marked_cache_entries: what stays moves up. */
    method Compact()
      modifies this`cache, this`cacheChanged
      ensures cache == Kept(old(cache)) && cacheChanged == (old(cacheChanged) || cache != old(cache))
    {
      hide *;
      ghost var E := cache;
      var i, j := 0, 0;
      assert E[..0] == [];
      KeptNone();
      while i < |cache|
        invariant 0 <= j <= i <= |cache| == |E| && cache[..j] == Kept(E[..i]) && cache[i..] == E[i..]
        invariant cacheChanged == old(cacheChanged)
      {
        KeptNext(E, i);
        assert cache[i] == cache[i..][0] == E[i..][0] == E[i];
        assert cache[i + 1..] == E[i..][1..];
        if !cache[i].mark.Removed? {
          cache := cache[j := cache[i]];
          j := j + 1;
        }
        i := i + 1;
      }
      assert E[..i] == E;
      AllKept(E);
      if j < |cache| {
        cacheChanged := true;
        cache := cache[..j];
      } else {
        assert cache[..j] == cache;
      }
    }

    /** cache_tree_update. */
    method Update(store: ObjectStore, flags: WriteFlags, ghost tight: bool) returns (r: int)
      requires Valid() && cacheTree != null && Claims(tight, store.hash) && !(flags.dryRun && flags.repair)
      requires Unskipped(cache, cacheTree.Value(), "") || cacheTree.Stored(store)
      modifies this`cacheChanged, cacheTree.Repr, store`has
      ensures Valid() && cache == old(cache) && cacheTree == old(cacheTree)
      ensures Claims(tight && (r == 0 || !flags.repair), store.hash)
      ensures NoRemovals(cache) ==> Agrees(tight && (r == 0 || !flags.repair), store.hash)
      ensures r == 0 || r == -1
      ensures r == 0 ==> Merged(cache) && NoNeighboursConflict(cache) && cacheChanged
      ensures r == 0 ==> RootRight(tight, flags, store.hash, store.has, cache, cacheTree.Value())
      ensures Merged(cache) && NoNeighboursConflict(cache) && Able(flags, store.writable, old(store.has), cache) ==>
        r == 0
    {
      hide Sound, Shaped, Exact, Ordered, NoNeighboursConflict, Merged, Able, Updated, TreeHash, Unskipped, Skips, Sure;
      hide NoRemovals, Complete, NodeRight, RootRight;
      assert WellNamed(cache) by { OrderedNames(cache); }
      var ok := VerifyCache(cache);
      if !ok {
        if tight {
          SoundLoosely(store.hash, cache, cacheTree.Value(), "");
        }
        FreshWithout(cache, cacheTree.Value());
        return -1;
      }
      MergedIsSorted(cache);
      AllUnderRoot(cache);
      ghost var before := cacheTree.Value();
      var i, skip := cacheTree.UpdateOne(store, cache, "", flags, tight);
      FreshWithout(cache, cacheTree.Value());
      if old(Unskipped(cache, cacheTree.Value(), "")) {
        UpdatedAtRoot(tight, flags, store.hash, store.has, cache, before, cacheTree.Value(), i);
      } else {
        StoredAtRoot(tight, flags, store.hash, store.has, cache, before);
      }
      if i < 0 {
        return -1;
      }
      cacheChanged := true;
      return 0;
    }
  }

  lemma ChangeKeepsSound(tight: bool, hash: string -> Sha, E: seq<Entry>, F: seq<Entry>, t: Tree, path: string)
    requires Ordered(E) && Ordered(F) && SameBut(E, F, path) && Shaped(t) && Sound(tight, hash, E, t, "")
    ensures Ordered(F) && Sound(tight, hash, F, Invalidated(t, path), "")
    ensures Unskipped(E, t, "") ==> Unskipped(F, Invalidated(t, path), "")
  {
    assert "" + path == path;
    InvalidateKeepsSound(tight, hash, E, F, t, "", path);
    if Unskipped(E, t, "") {
      InvalidateKeepsUnskipped(E, F, t, "", path);
    }
  }

  lemma KeptNone()
    ensures Kept([]) == []
  {}

  lemma KeptNext(E: seq<Entry>, i: nat)
    requires i < |E|
    ensures Kept(E[..i + 1]) == Kept(E[..i]) + if E[i].mark.Removed? then [] else [E[i]]
  {
    assert E[..i + 1] == E[..i] + [E[i]];
    KeptConcat(E[..i], E[i]);
  }

  lemma {:induction false} KeptConcat(A: seq<Entry>, e: Entry)
    ensures Kept(A + [e]) == Kept(A) + if e.mark.Removed? then [] else [e]
  {
    if A == [] {
      assert A + [e] == [e] && [e][1..] == [];
    } else {
      assert (A + [e])[1..] == A[1..] + [e] && (A + [e])[0] == A[0];
      KeptConcat(A[1..], e);
      Assoc(if A[0].mark.Removed? then [] else [A[0]], Kept(A[1..]), if e.mark.Removed? then [] else [e]);
    }
  }

  lemma {:induction false} AllKept(E: seq<Entry>)
    ensures |Kept(E)| <= |E| && (|Kept(E)| == |E| ==> Kept(E) == E)
  {
    if E != [] {
      AllKept(E[1..]);
      assert E == [E[0]] + E[1..];
    }
  }

  lemma {:induction false} KeptOrdered(E: seq<Entry>)
    requires Ordered(E)
    ensures Ordered(Kept(E))
  {
    if E != [] {
      OrderedTail(E);
      KeptOrdered(E[1..]);
      KeptIn(E[1..]);
      KeptFirst(E);
      hide *;
      if !E[0].mark.Removed? {
        OrderedMore(E[0], Kept(E[1..]));
      } else {
        Unit(Kept(E[1..]));
      }
    }
  }

  lemma OrderedTail(E: seq<Entry>)
    requires Ordered(E) && E != []
    ensures Ordered(E[1..]) && Proper(E[0].name) && forall e :: e in E[1..] ==> Precedes(E[0], e)
  {
    hide Less, Proper;
    assert E[0] in E;
    forall e | e in E[1..] ensures Precedes(E[0], e) {
      var j :| 0 <= j < |E[1..]| && E[1..][j] == e;
      assert E[j + 1] == e;
    }
  }

  lemma OrderedMore(e: Entry, rest: seq<Entry>)
    requires Ordered(rest) && Proper(e.name) && forall x :: x in rest ==> Precedes(e, x)
    ensures Ordered([e] + rest)
  {
    hide Less, Proper;
    var all := [e] + rest;
    forall i, j {:trigger all[i], all[j]} | 0 <= i < j < |all| ensures Precedes(all[i], all[j]) {
      assert all[j] == rest[j - 1] && rest[j - 1] in rest;
      if i > 0 {
        assert all[i] == rest[i - 1];
      }
    }
  }

  lemma KeptFirst(E: seq<Entry>)
    requires E != []
    ensures Kept(E) == (if E[0].mark.Removed? then [] else [E[0]]) + Kept(E[1..])
  {}

  lemma FreshWithout(E: seq<Entry>, t: Tree)
    ensures NoRemovals(E) ==> Unskipped(E, t, "")
  {
    if NoRemovals(E) {
      NothingRemoved(E, t, "");
    }
  }

  /** Without marks a successful update is sure to make the root known, with all entries counted. */
  lemma AllLive(flags: WriteFlags, hash: string -> Sha, has: set<Sha>, E: seq<Entry>)
    requires WellNamed(E)
    ensures Unmarked(E) ==> Skips(E, "") == 0
    ensures Unmarked(E) && (flags.repair ==> AllStored(hash, has, E, "")) ==>
      Sure(flags, hash, has, E, "")
  {
    hide Skips, AllStored;
    if Unmarked(E) {
      UnderIn(E, "");
      forall p | "" <= p ensures Skips(E, p) == 0 {
        UnderIn(E, p);
        NoneSkipped(E, p);
      }
      assert "" <= "";
    }
  }

  lemma OrderedNames(E: seq<Entry>)
    requires Ordered(E)
    ensures WellNamed(E)
  {
  }

  lemma AllUnderRoot(E: seq<Entry>)
    requires WellNamed(E)
    ensures AllIn(E, "") && Under(E, "") == E
    ensures E != [] ==> In(E[0], "")
  {
    assert forall e :: e in E ==> In(e, "");
    UnderAll(E, "");
  }

  /**
   * The root after a successful update: its tree is in the database if it is to be written, its hash is
   * that of the tree made from scratch (unless a repair lacks trees), and it is known, with the count a
   * computation from scratch gives, if that is sure; what is more, if marks do no harm, hash and count
   * are those of the entries that stay, and without marks those of all entries; then no index that
   * holds anything else has this hash, unless tree objects collide.
   */
  ghost predicate RootRight(tight: bool, flags: WriteFlags, hash: string -> Sha, has: set<Sha>, E: seq<Entry>, t: Tree)
    requires WellNamed(E)
  {
    && (Writes(flags) ==> t.sha1 in has)
    && (!flags.repair ==> t.sha1 == TreeHash(hash, E, ""))
    && (Sure(flags, hash, has, E, "") ==>
          && t.count == |E| - Skips(E, "") && t.sha1 == TreeHash(hash, E, "")
          && (tight ==> Exact(hash, E, t, "")))
    && (Harmless(flags, hash, has, E) ==>
          WellNamed(Kept(E)) && t.count == |Kept(E)| && t.sha1 == TreeHash(hash, Kept(E), ""))
    && (Unmarked(E) && (flags.repair ==> AllStored(hash, has, E, "")) ==>
          t.count == |E| && t.sha1 == TreeHash(hash, E, ""))
    && (Recorded(E) && !flags.repair ==> Tells(hash, E, t.sha1))
  }

  /** Every index whose tree has this name holds what `E` holds, unless two tree objects of one directory collide. */
  ghost predicate Tells(hash: string -> Sha, E: seq<Entry>, sha1: Sha)
    requires WellNamed(E)
  {
    forall F :: Recorded(F) && TreeHash(hash, F, "") == sha1 ==>
      Contents(F) == Contents(E) || exists d :: Collide(hash, E, F, d)
  }

  lemma RootTells(hash: string -> Sha, E: seq<Entry>)
    requires WellNamed(E)
    ensures Recorded(E) ==> Tells(hash, E, TreeHash(hash, E, ""))
  {
    hide TreeHash, Collide, Contents;
    if Recorded(E) {
      forall F | Recorded(F) && TreeHash(hash, F, "") == TreeHash(hash, E, "")
        ensures Contents(F) == Contents(E) || exists d :: Collide(hash, E, F, d)
      {
        RootTellsAll(hash, E, F);
      }
    }
  }

  lemma HarmlessRoot(tight: bool, flags: WriteFlags, hash: string -> Sha, has: set<Sha>, E: seq<Entry>, t: Tree)
    requires Sorted(E) && Sound(tight, hash, E, t, "") && Harmless(flags, hash, has, E)
    requires Sure(flags, hash, has, E, "") ==> t.count == |Under(E, "")| - Skips(E, "")
    ensures WellNamed(Kept(E)) && t.count == |Kept(E)| && t.sha1 == TreeHash(hash, Kept(E), "")
  {
    SoundNode(tight, hash, E, t, "");
    SureCounts(flags, hash, has, E, "");
    hide *;
    RootOfKept(flags, hash, has, E, t);
  }

  /** A root that is known and stored is left as it is. */
  lemma StoredAtRoot(tight: bool, flags: WriteFlags, hash: string -> Sha, has: set<Sha>, E: seq<Entry>, t: Tree)
    requires Sorted(E) && Sound(tight, hash, E, t, "") && t.count >= 0 && t.sha1 in has
    ensures Sound(tight && !flags.repair, hash, E, t, "") && RootRight(tight, flags, hash, has, E, t)
  {
    AllUnderRoot(E);
    RootTells(hash, E);
    SoundNode(tight, hash, E, t, "");
    AllLive(flags, hash, has, E);
    if Harmless(flags, hash, has, E) {
      HarmlessRoot(tight, flags, hash, has, E, t);
    }
    hide Skips, TreeHash, Sure, AllStored, Under, Harmless, Unmarked, Exact, Sound, Kept, Less, Proper, Recorded, Tells;
    if tight {
      KnownIsExact(hash, E, t, "");
      SoundLoosely(hash, E, t, "");
    }
  }

  lemma UpdatedAtRoot(tight: bool, flags: WriteFlags, hash: string -> Sha, has: set<Sha>, E: seq<Entry>,
      before: Tree, after: Tree, r: int)
    requires Sorted(E) && Updated(tight, flags, hash, has, E, "", before, after, r)
    ensures Sound(tight && (r >= 0 || !flags.repair), hash, E, after, "") && Shaped(after)
    ensures r >= 0 ==> RootRight(tight, flags, hash, has, E, after)
  {
    AllUnderRoot(E);
    RootTells(hash, E);
    SureCounts(flags, hash, has, E, "");
    SoundNode(tight && (r >= 0 || !flags.repair), hash, E, after, "");
    AllLive(flags, hash, has, E);
    if r >= 0 && Harmless(flags, hash, has, E) {
      HarmlessRoot(tight, flags, hash, has, E, after);
    }
    hide Sure, Skips, TreeHash, AllStored, Harmless, Unmarked, Exact, Sound, Kept, Less, Proper, Under, Shaped,
      Recorded;
    hide Tells;
    if r >= 0 && Sure(flags, hash, has, E, "") && tight {
      KnownIsExact(hash, E, after, "");
    }
  }
}
