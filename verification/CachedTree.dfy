/** The values of cache trees, when they agree with the index, and what an invalidation keeps of that. */
module CachedTree {
  import opened Basics
  import opened CacheIndex

  // ---- Cached trees -------------------------------------------------------------------------

  /** The value of a cache tree: a negative count means that nothing is known. */
  datatype Tree = Tree(count: int, sha1: Sha, down: seq<Sub>)
  datatype Sub = Sub(name: string, tree: Option<Tree>, count: int, used: bool)

  /** Subtrees are kept by length, then by bytes. */
  predicate Before(a: string, b: string) {
    |a| < |b| || (|a| == |b| && Less(a, b))
  }

  ghost function Names(down: seq<Sub>): set<string> {
    set s | s in down :: s.name
  }

  /** The children are exactly the subdirectories, and nothing is unknown about them. */
  ghost predicate Complete(E: seq<Entry>, t: Tree, base: string) {
    && Names(t.down) == Dirs(E, base)
    && forall s :: s in t.down ==> s.tree.Some? && s.tree.value.count >= 0
  }

  /** What a node claims to know is what one finds from scratch. */
  ghost predicate NodeRight(hash: string -> Sha, E: seq<Entry>, t: Tree, base: string)
    requires WellNamed(E)
  {
    t.count >= 0 ==>
      t.count == |Under(E, base)| - Skips(E, base) && t.sha1 == TreeHash(hash, E, base) && NoIntent(E, base)
  }

  /** Every node is right; with `tight`, known nodes are also complete. */
  ghost predicate Sound(tight: bool, hash: string -> Sha, E: seq<Entry>, t: Tree, base: string)
    requires WellNamed(E)
    decreases t
  {
    && NodeRight(hash, E, t, base)
    && (tight && t.count >= 0 ==> Complete(E, t, base))
    && forall i {:trigger t.down[i]} :: 0 <= i < |t.down| && t.down[i].tree.Some? ==>
         Sound(tight, hash, E, t.down[i].tree.value, Deeper(base, t.down[i].name))
  }

  /** Every subdirectory on every level has its node, and each node has its directory's count and hash. */
  ghost predicate Exact(hash: string -> Sha, E: seq<Entry>, t: Tree, base: string)
    requires WellNamed(E)
    decreases t
  {
    && t.count == |Under(E, base)| - Skips(E, base) && t.sha1 == TreeHash(hash, E, base) && NoIntent(E, base)
    && Names(t.down) == Dirs(E, base)
    && forall i {:trigger t.down[i]} :: 0 <= i < |t.down| ==>
         t.down[i].tree.Some? && Exact(hash, E, t.down[i].tree.value, Deeper(base, t.down[i].name))
  }

  /** A known node of a tightly sound tree is exact all the way down. */
  lemma {:induction false} KnownIsExact(hash: string -> Sha, E: seq<Entry>, t: Tree, base: string)
    requires WellNamed(E)
    requires Sound(true, hash, E, t, base) && t.count >= 0
    ensures Exact(hash, E, t, base)
    decreases t
  {
    forall i | 0 <= i < |t.down|
      ensures t.down[i].tree.Some? && Exact(hash, E, t.down[i].tree.value, Deeper(base, t.down[i].name))
    {
      assert t.down[i] in t.down;
      KnownIsExact(hash, E, t.down[i].tree.value, Deeper(base, t.down[i].name));
    }
  }

  lemma {:induction false} SoundLoosely(hash: string -> Sha, E: seq<Entry>, t: Tree, base: string)
    requires WellNamed(E)
    requires Sound(true, hash, E, t, base)
    ensures Sound(false, hash, E, t, base)
    decreases t
  {
    forall i | 0 <= i < |t.down| && t.down[i].tree.Some?
      ensures Sound(false, hash, E, t.down[i].tree.value, Deeper(base, t.down[i].name))
    {
      SoundLoosely(hash, E, t.down[i].tree.value, Deeper(base, t.down[i].name));
    }
  }

  /** Below a known node no entry is marked for removal: whoever marks one invalidates its path. */
  ghost predicate Unskipped(E: seq<Entry>, t: Tree, base: string)
    decreases t
  {
    && (t.count >= 0 ==> NoneRemoved(E, base))
    && forall i {:trigger t.down[i]} :: 0 <= i < |t.down| && t.down[i].tree.Some? ==>
         Unskipped(E, t.down[i].tree.value, Deeper(base, t.down[i].name))
  }

  lemma {:induction false} UnskippedSame(E: seq<Entry>, F: seq<Entry>, t: Tree, base: string)
    requires Under(E, base) == Under(F, base) && Unskipped(E, t, base)
    ensures Unskipped(F, t, base)
    decreases t
  {
    forall i | 0 <= i < |t.down| && t.down[i].tree.Some?
      ensures Unskipped(F, t.down[i].tree.value, Deeper(base, t.down[i].name))
    {
      var below := Deeper(base, t.down[i].name);
      UnderUnder(E, base, below);
      UnderUnder(F, base, below);
      UnskippedSame(E, F, t.down[i].tree.value, below);
    }
  }

  lemma {:induction false} NothingRemoved(E: seq<Entry>, t: Tree, base: string)
    requires forall e :: e in E ==> !e.mark.Removed?
    ensures Unskipped(E, t, base)
    decreases t
  {
    UnderIn(E, base);
    forall i | 0 <= i < |t.down| && t.down[i].tree.Some?
      ensures Unskipped(E, t.down[i].tree.value, Deeper(base, t.down[i].name))
    {
      NothingRemoved(E, t.down[i].tree.value, Deeper(base, t.down[i].name));
    }
  }

  /** Soundness below a directory depends only on the entries below it. */
  lemma {:induction false} SoundSame(tight: bool, hash: string -> Sha, E: seq<Entry>, F: seq<Entry>, t: Tree,
      base: string)
    requires WellNamed(E) && WellNamed(F)
    requires Under(E, base) == Under(F, base) && Sound(tight, hash, E, t, base)
    ensures Sound(tight, hash, F, t, base)
    decreases t
  {
    hide Skips, TreeHash;
    SameHash(hash, E, F, base);
    DirsUnder(E, base);
    DirsUnder(F, base);
    forall i | 0 <= i < |t.down| && t.down[i].tree.Some?
      ensures Sound(tight, hash, F, t.down[i].tree.value, Deeper(base, t.down[i].name))
    {
      var below := Deeper(base, t.down[i].name);
      UnderUnder(E, base, below);
      UnderUnder(F, base, below);
      SoundSame(tight, hash, E, F, t.down[i].tree.value, below);
    }
  }

  lemma SameHash(hash: string -> Sha, E: seq<Entry>, F: seq<Entry>, p: string)
    requires WellNamed(E) && WellNamed(F) && Under(E, p) == Under(F, p)
    ensures TreeHash(hash, E, p) == TreeHash(hash, F, p) && Skips(E, p) == Skips(F, p)
    ensures NoIntent(E, p) <==> NoIntent(F, p)
  {
  }

  lemma SoundNode(tight: bool, hash: string -> Sha, E: seq<Entry>, t: Tree, base: string)
    requires WellNamed(E) && Sound(tight, hash, E, t, base)
    ensures NodeRight(hash, E, t, base)
  {
    hide NodeRight;
  }

  // ---- Invalidation -------------------------------------------------------------------------

  /** Subtrees strictly in order, their names without slashes, on every level. */
  ghost predicate Shaped(t: Tree)
    decreases t
  {
    && InOrder(t.down) && PlainNames(t.down)
    && (forall i {:trigger t.down[i]} :: 0 <= i < |t.down| && t.down[i].tree.Some? ==> Shaped(t.down[i].tree.value))
  }

  ghost predicate InOrder(down: seq<Sub>) {
    forall i, j {:trigger down[i], down[j]} :: 0 <= i < j < |down| ==> Before(down[i].name, down[j].name)
  }

  ghost predicate PlainNames(down: seq<Sub>) {
    forall s :: s in down ==> Plain(s.name)
  }

  /** Where `name` is, or the number of subtrees. */
  function IndexOf(down: seq<Sub>, name: string): (p: nat)
    ensures p <= |down| && (p < |down| ==> down[p].name == name) && forall j :: 0 <= j < p ==> down[j].name != name
  {
    if down == [] || down[0].name == name then 0 else 1 + IndexOf(down[1..], name)
  }

  /** Names occur once. */
  lemma FoundAt(down: seq<Sub>, i: nat)
    requires InOrder(down) && i < |down|
    ensures IndexOf(down, down[i].name) == i
  {
    var p := IndexOf(down, down[i].name);
    if p < i {
      assert Before(down[p].name, down[i].name);
      LessTotal(down[i].name, down[i].name);
    }
  }

  /** What invalidating `path` makes of a tree: the nodes on the way unknown, a subtree at its end gone. */
  ghost function Invalidated(t: Tree, path: string): Tree
    decreases |path|
  {
    var s := Slash(path, 0);
    var p := IndexOf(t.down, path[..s]);
    Tree(-1, t.sha1,
      if p == |t.down| then t.down
      else if s == |path| then t.down[..p] + t.down[p + 1..]
      else if t.down[p].tree.None? then t.down
      else t.down[p := t.down[p].(tree := Some(Invalidated(t.down[p].tree.value, path[s + 1..])))])
  }

  /** The three ways of invalidating a path. */
  lemma InvalidatedCases(t: Tree, path: string)
    ensures var s := Slash(path, 0); var p := IndexOf(t.down, path[..s]);
      Invalidated(t, path) == Tree(-1, t.sha1,
        if p == |t.down| then t.down
        else if s == |path| then t.down[..p] + t.down[p + 1..]
        else if t.down[p].tree.None? then t.down
        else t.down[p := t.down[p].(tree := Some(Invalidated(t.down[p].tree.value, path[s + 1..])))])
  {
    hide Slash, IndexOf;
  }

  // ---- What invalidation leaves -------------------------------------------------------------

  /** A path, split at its slashes. */
  ghost function Steps(path: string): (r: seq<string>)
    ensures r != []
    decreases |path|
  {
    var s := Slash(path, 0);
    if s == |path| then [path] else [path[..s]] + Steps(path[s + 1..])
  }

  /** The node of a directory, given by its names from the root on. */
  ghost function NodeAt(t: Tree, dirs: seq<string>): Option<Tree>
    decreases |dirs|
  {
    if dirs == [] then Some(t)
    else
      var p := IndexOf(t.down, dirs[0]);
      if p == |t.down| || t.down[p].tree.None? then None else NodeAt(t.down[p].tree.value, dirs[1..])
  }

  lemma IndexIs(down: seq<Sub>, name: string, k: nat)
    requires k <= |down| && (k < |down| ==> down[k].name == name) && forall j :: 0 <= j < k ==> down[j].name != name
    ensures IndexOf(down, name) == k
  {}

  /** A subtree of another name taken out does not show in a search. */
  lemma OtherGone(down: seq<Sub>, p: nat, name: string)
    requires p < |down| && down[p].name != name
    ensures var less := down[..p] + down[p + 1..]; var q := IndexOf(down, name);
      && IndexOf(less, name) == (if q < p then q else q - 1)
      && (q < |down| ==> less[IndexOf(less, name)] == down[q])
  {
    var less := down[..p] + down[p + 1..];
    var q := IndexOf(down, name);
    var k := if q < p then q else q - 1;
    forall j | 0 <= j < k ensures less[j].name != name {
      assert less[j] == if j < p then down[j] else down[j + 1];
    }
    assert q < |down| ==> less[k] == down[q];
    IndexIs(less, name, k);
  }

  /** Nor does one that is exchanged under its name. */
  lemma OtherChanged(down: seq<Sub>, p: nat, s: Sub, name: string)
    requires p < |down| && s.name == down[p].name
    ensures IndexOf(down[p := s], name) == IndexOf(down, name)
  {
    var now, q := down[p := s], IndexOf(down, name);
    forall j | 0 <= j < q ensures now[j].name != name {
      assert now[j].name == down[j].name;
    }
    IndexIs(now, name, q);
  }

  lemma GoneIndex(down: seq<Sub>, name: string)
    requires InOrder(down) && IndexOf(down, name) < |down|
    ensures var p := IndexOf(down, name); var less := down[..p] + down[p + 1..]; IndexOf(less, name) == |less|
  {
    var p := IndexOf(down, name);
    var less := down[..p] + down[p + 1..];
    var q := IndexOf(less, name);
    if q < |less| {
      var k := if q < p then q else q + 1;
      assert less[q] == down[k] && down[k].name == name;
      FoundAt(down, k);
    }
  }

  /** What the invalidation of `path` has done to the node of `dirs`. */
  ghost predicate NodeInvalidated(parts: seq<string>, dirs: seq<string>, before: Option<Tree>, after: Option<Tree>) {
    if parts <= dirs then after == None
    else if dirs <= parts then
      if before.None? then after.None?
      else after.Some? && after.value.count == -1 && after.value.sha1 == before.value.sha1
    else after == before
  }

  lemma NodeBelow(t: Tree, dirs: seq<string>)
    requires dirs != []
    ensures var p := IndexOf(t.down, dirs[0]);
      NodeAt(t, dirs) ==
      if p == |t.down| || t.down[p].tree.None? then None else NodeAt(t.down[p].tree.value, dirs[1..])
  {}

  /** A node below another subdirectory. */
  lemma OtherNode(t: Tree, path: string, dirs: seq<string>)
    requires dirs != [] && dirs[0] != path[..Slash(path, 0)]
    ensures NodeAt(Invalidated(t, path), dirs) == NodeAt(t, dirs)
  {
    InvalidatedCases(t, path);
    var u := Invalidated(t, path);
    var s := Slash(path, 0);
    var p := IndexOf(t.down, path[..s]);
    NodeBelow(t, dirs);
    NodeBelow(u, dirs);
    hide Slash, IndexOf, Invalidated, NodeAt;
    if p < |t.down| {
      if s == |path| {
        OtherGone(t.down, p, dirs[0]);
      } else if t.down[p].tree.Some? {
        OtherChanged(t.down, p, u.down[p], dirs[0]);
      }
    }
  }

  lemma StepsFirst(path: string)
    ensures var s := Slash(path, 0);
      Steps(path) == if s == |path| then [path[..s]] else [path[..s]] + Steps(path[s + 1..])
  {
    assert Slash(path, 0) == |path| ==> path[..|path|] == path;
  }

  lemma PrefixBehind<T>(a: T, r: seq<T>, d: seq<T>)
    requires d != [] && d[0] == a
    ensures [a] + r <= d <==> r <= d[1..]
    ensures d <= [a] + r <==> d[1..] <= r
  {
    assert d == [a] + d[1..];
    assert r <= d[1..] ==> d[1..] == r + d[1..][|r|..];
    assert d[1..] <= r ==> r == d[1..] + r[|d| - 1..];
    assert [a] + r <= d ==> r == d[..|r| + 1][1..] == d[1..][..|r|];
    assert d <= [a] + r ==> d[1..] == ([a] + r)[..|d|][1..] == r[..|d| - 1];
  }

  /**
   * Invalidating a path makes the nodes of the directories on the way to it unknown, and nothing else of
   * them changes; a node of the path's own name goes, with all below it; every other node stays as it is.
   */
  lemma {:induction false} InvalidatedNodes(t: Tree, path: string, dirs: seq<string>)
    requires Shaped(t)
    ensures NodeInvalidated(Steps(path), dirs, NodeAt(t, dirs), NodeAt(Invalidated(t, path), dirs))
    decreases |path|, 1
  {
    var s := Slash(path, 0);
    var first := path[..s];
    StepsFirst(path);
    InvalidatedCases(t, path);
    if dirs == [] {
      assert !(Steps(path) <= dirs);
    } else if dirs[0] != first {
      OtherNode(t, path, dirs);
      assert !(Steps(path) <= dirs) && !(dirs <= Steps(path));
    } else {
      NodeBelow(t, dirs);
      NodeBelow(Invalidated(t, path), dirs);
      OnTheWay(t, path, dirs);
    }
  }

  lemma OnTheWay(t: Tree, path: string, dirs: seq<string>)
    requires Shaped(t) && dirs != [] && dirs[0] == path[..Slash(path, 0)]
    ensures NodeInvalidated(Steps(path), dirs, NodeAt(t, dirs), NodeAt(Invalidated(t, path), dirs))
    decreases |path|, 0
  {
    hide Slash, IndexOf, Invalidated, NodeAt, Steps, Shaped, InOrder, PlainNames;
    var s := Slash(path, 0);
    var first := path[..s];
    var p := IndexOf(t.down, first);
    var u := Invalidated(t, path);
    StepsFirst(path);
    InvalidatedCases(t, path);
    ShapedBelow(t);
    NodeBelow(t, dirs);
    NodeBelow(u, dirs);
    var rest := if s == |path| then [] else Steps(path[s + 1..]);
    PrefixBehind(first, rest, dirs);
    assert [first] + [] == [first];
    if p < |t.down| {
      if s == |path| {
        GoneIndex(t.down, first);
      } else if t.down[p].tree.Some? {
        OtherChanged(t.down, p, u.down[p], first);
        InvalidatedNodes(t.down[p].tree.value, path[s + 1..], dirs[1..]);
      }
    }
  }

  /** Two versions of the index that differ only in entries `path` touches. */
  ghost predicate SameBut(E: seq<Entry>, F: seq<Entry>, path: string) {
    Others(E, path) == Others(F, path)
  }

  /** A directory that neither leads to `path` nor lies there sees no difference. */
  lemma Unaffected(tight: bool, hash: string -> Sha, E: seq<Entry>, F: seq<Entry>, t: Tree, base: string, path: string)
    requires WellNamed(E) && WellNamed(F) && SameBut(E, F, path) && Sound(tight, hash, E, t, base)
    requires !(base <= path) && !(path + "/" <= base)
    ensures Sound(tight, hash, F, t, base)
  {
    UnderOthers(E, path, base);
    UnderOthers(F, path, base);
    SoundSame(tight, hash, E, F, t, base);
  }

  lemma UnaffectedSkips(E: seq<Entry>, F: seq<Entry>, t: Tree, base: string, path: string)
    requires SameBut(E, F, path) && Unskipped(E, t, base) && !(base <= path) && !(path + "/" <= base)
    ensures Unskipped(F, t, base)
  {
    UnderOthers(E, path, base);
    UnderOthers(F, path, base);
    UnskippedSame(E, F, t, base);
  }

  /** A subdirectory `path` lies in is the one named by the first component after `base`. */
  lemma OnlyComponent(base: string, name: string, path: string)
    requires Plain(name) && Deeper(base, name) <= base + path
    ensures Slash(path, 0) < |path| && name == path[..Slash(path, 0)]
  {
    var s := Slash(path, 0);
    assert forall k :: 0 <= k < |name| ==>
      path[k] == (base + path)[|base| + k] == Deeper(base, name)[|base| + k] == name[k];
    assert path[|name|] == (base + path)[|base| + |name|] == Deeper(base, name)[|base| + |name|] == '/';
    assert s == |name|;
    assert path[..s] == name;
  }

  /** A subdirectory that lies at `path` bears its name. */
  lemma OnlyName(base: string, name: string, path: string)
    requires Plain(name) && base + path + "/" <= Deeper(base, name)
    ensures Slash(path, 0) == |path| && name == path == path[..Slash(path, 0)]
  {
    var whole, below := base + path + "/", Deeper(base, name);
    assert forall k :: 0 <= k < |path| ==> path[k] == whole[|base| + k] == below[|base| + k];
    assert forall k :: 0 <= k < |name| ==> below[|base| + k] == name[k];
    assert below[|base| + |path|] == whole[|base| + |path|] == '/';
    assert |path| == |name|;
    assert path == name;
  }

  /** A subtree other than the one on the way to `path` neither leads to it nor lies there. */
  lemma OffPath(down: seq<Sub>, base: string, path: string, i: nat)
    requires InOrder(down) && PlainNames(down) && i < |down| && i != IndexOf(down, path[..Slash(path, 0)])
    ensures var below := Deeper(base, down[i].name); !(below <= base + path) && !(base + path + "/" <= below)
  {
    hide InOrder;
    var below := Deeper(base, down[i].name);
    FoundAt(down, i);
    assert down[i] in down;
    if below <= base + path {
      OnlyComponent(base, down[i].name, path);
    }
    if base + path + "/" <= below {
      OnlyName(base, down[i].name, path);
    }
  }

  /** Changing entries that a path touches and invalidating the path keeps every claim of the tree true. */
  lemma {:induction false} InvalidateKeepsSound(tight: bool, hash: string -> Sha, E: seq<Entry>, F: seq<Entry>,
      t: Tree, base: string, path: string)
    requires WellNamed(E) && WellNamed(F) && SameBut(E, F, base + path)
    requires Shaped(t) && Sound(tight, hash, E, t, base)
    ensures Sound(tight, hash, F, Invalidated(t, path), base)
    decreases |path|
  {
    var s := Slash(path, 0);
    var p := IndexOf(t.down, path[..s]);
    SoundBelow(tight, hash, E, t, base);
    hide SameBut, InOrder, Sound, WellNamed, Deeper, Invalidated;
    forall i | 0 <= i < |t.down| && t.down[i].tree.Some? && i != p
      ensures Sound(tight, hash, F, t.down[i].tree.value, Deeper(base, t.down[i].name))
    {
      OffPath(t.down, base, path, i);
      Unaffected(tight, hash, E, F, t.down[i].tree.value, Deeper(base, t.down[i].name), base + path);
    }
    if p < |t.down| && s < |path| && t.down[p].tree.Some? {
      RestOfPath(base, path);
      InvalidateKeepsSound(tight, hash, E, F, t.down[p].tree.value, Deeper(base, t.down[p].name), path[s + 1..]);
    }
    SoundAfter(tight, hash, F, t, base, path);
  }

  /** Nor does any known node afterwards have entries marked for removal, if none had before. */
  lemma {:induction false} InvalidateKeepsUnskipped(E: seq<Entry>, F: seq<Entry>, t: Tree, base: string, path: string)
    requires SameBut(E, F, base + path) && Shaped(t) && Unskipped(E, t, base)
    ensures Unskipped(F, Invalidated(t, path), base)
    decreases |path|
  {
    var s := Slash(path, 0);
    var p := IndexOf(t.down, path[..s]);
    UnskippedBelow(E, t, base);
    hide SameBut, InOrder, Unskipped, Deeper, Invalidated;
    forall i | 0 <= i < |t.down| && t.down[i].tree.Some? && i != p
      ensures Unskipped(F, t.down[i].tree.value, Deeper(base, t.down[i].name))
    {
      OffPath(t.down, base, path, i);
      UnaffectedSkips(E, F, t.down[i].tree.value, Deeper(base, t.down[i].name), base + path);
    }
    if p < |t.down| && s < |path| && t.down[p].tree.Some? {
      RestOfPath(base, path);
      InvalidateKeepsUnskipped(E, F, t.down[p].tree.value, Deeper(base, t.down[p].name), path[s + 1..]);
    }
    UnskippedAfter(F, t, base, path);
  }

  lemma UnskippedAfter(F: seq<Entry>, t: Tree, base: string, path: string)
    requires var s := Slash(path, 0); var p := IndexOf(t.down, path[..s]);
      && (forall i {:trigger t.down[i]} :: 0 <= i < |t.down| && t.down[i].tree.Some? && i != p ==>
            Unskipped(F, t.down[i].tree.value, Deeper(base, t.down[i].name)))
      && (p < |t.down| && s < |path| && t.down[p].tree.Some? ==>
            Unskipped(F, Invalidated(t.down[p].tree.value, path[s + 1..]), Deeper(base, t.down[p].name)))
    ensures Unskipped(F, Invalidated(t, path), base)
  {
    hide *;
    var u := Invalidated(t, path);
    var s := Slash(path, 0);
    var p := IndexOf(t.down, path[..s]);
    InvalidatedCases(t, path);
    forall i {:trigger u.down[i]} | 0 <= i < |u.down| && u.down[i].tree.Some?
      ensures Unskipped(F, u.down[i].tree.value, Deeper(base, u.down[i].name))
    {
      var j := if s == |path| && p < |t.down| && i >= p then i + 1 else i;
      assert u.down[i].name == t.down[j].name;
    }
    UnknownUnskipped(F, u, base);
  }

  lemma UnskippedBelow(E: seq<Entry>, t: Tree, base: string)
    requires Unskipped(E, t, base)
    ensures forall i {:trigger t.down[i]} :: 0 <= i < |t.down| && t.down[i].tree.Some? ==>
      Unskipped(E, t.down[i].tree.value, Deeper(base, t.down[i].name))
  {}

  lemma UnknownUnskipped(F: seq<Entry>, u: Tree, base: string)
    requires u.count < 0
    requires forall i {:trigger u.down[i]} :: 0 <= i < |u.down| && u.down[i].tree.Some? ==>
      Unskipped(F, u.down[i].tree.value, Deeper(base, u.down[i].name))
    ensures Unskipped(F, u, base)
  {}

  lemma SoundBelow(tight: bool, hash: string -> Sha, E: seq<Entry>, t: Tree, base: string)
    requires WellNamed(E) && Sound(tight, hash, E, t, base)
    ensures forall i {:trigger t.down[i]} :: 0 <= i < |t.down| && t.down[i].tree.Some? ==>
      Sound(tight, hash, E, t.down[i].tree.value, Deeper(base, t.down[i].name))
  {}

  lemma RestOfPath(base: string, path: string)
    requires Slash(path, 0) < |path|
    ensures var s := Slash(path, 0); Deeper(base, path[..s]) + path[s + 1..] == base + path
  {
    hide *;
    var s := Slash(path, 0);
    var name, rest := path[..s], path[s + 1..];
    assert path[s..] == "/" + rest;
    assert path == name + path[s..];
    Assoc(base + name, "/", rest);
    Assoc(base, name, "/" + rest);
    DeeperIs(base, name);
  }

  lemma DeeperIs(base: string, name: string)
    ensures Deeper(base, name) == base + name + "/"
  {}

  /** The root is unknown afterwards, so only the subtrees matter. */
  lemma SoundAfter(tight: bool, hash: string -> Sha, F: seq<Entry>, t: Tree, base: string, path: string)
    requires WellNamed(F)
    requires var s := Slash(path, 0); var p := IndexOf(t.down, path[..s]);
      && (forall i {:trigger t.down[i]} :: 0 <= i < |t.down| && t.down[i].tree.Some? && i != p ==>
            Sound(tight, hash, F, t.down[i].tree.value, Deeper(base, t.down[i].name)))
      && (p < |t.down| && s < |path| && t.down[p].tree.Some? ==>
            Sound(tight, hash, F, Invalidated(t.down[p].tree.value, path[s + 1..]), Deeper(base, t.down[p].name)))
    ensures Sound(tight, hash, F, Invalidated(t, path), base)
  {
    hide *;
    var u := Invalidated(t, path);
    var s := Slash(path, 0);
    var p := IndexOf(t.down, path[..s]);
    InvalidatedCases(t, path);
    forall i {:trigger u.down[i]} | 0 <= i < |u.down| && u.down[i].tree.Some?
      ensures Sound(tight, hash, F, u.down[i].tree.value, Deeper(base, u.down[i].name))
    {
      var j := if s == |path| && p < |t.down| && i >= p then i + 1 else i;
      assert u.down[i].name == t.down[j].name;
    }
    UnknownSound(tight, hash, F, u, base);
  }

  lemma UnknownSound(tight: bool, hash: string -> Sha, F: seq<Entry>, u: Tree, base: string)
    requires WellNamed(F) && u.count < 0
    requires forall i {:trigger u.down[i]} :: 0 <= i < |u.down| && u.down[i].tree.Some? ==>
      Sound(tight, hash, F, u.down[i].tree.value, Deeper(base, u.down[i].name))
    ensures Sound(tight, hash, F, u, base)
  {}

  lemma StillInOrder(down: seq<Sub>, p: nat, s: Sub)
    requires InOrder(down) && p < |down| && s.name == down[p].name
    ensures InOrder(down[..p] + down[p + 1..]) && InOrder(down[p := s])
  {
    hide Before;
    var fewer, other := down[..p] + down[p + 1..], down[p := s];
    forall i, j {:trigger fewer[i], fewer[j]} | 0 <= i < j < |fewer| ensures Before(fewer[i].name, fewer[j].name) {
      assert fewer[i] == down[if i < p then i else i + 1] && fewer[j] == down[if j < p then j else j + 1];
    }
    forall i, j {:trigger other[i], other[j]} | 0 <= i < j < |other| ensures Before(other[i].name, other[j].name) {
      assert other[i].name == down[i].name && other[j].name == down[j].name;
    }
  }

  lemma ShapedBelow(t: Tree)
    requires Shaped(t)
    ensures InOrder(t.down) && PlainNames(t.down)
    ensures forall i {:trigger t.down[i]} :: 0 <= i < |t.down| && t.down[i].tree.Some? ==> Shaped(t.down[i].tree.value)
  {}

  lemma ShapedFrom(t: Tree)
    requires InOrder(t.down) && PlainNames(t.down)
    requires forall i {:trigger t.down[i]} :: 0 <= i < |t.down| && t.down[i].tree.Some? ==> Shaped(t.down[i].tree.value)
    ensures Shaped(t)
  {}

  lemma ShapedWithout(t: Tree, p: nat, u: Tree)
    requires Shaped(t) && p < |t.down| && u.down == t.down[..p] + t.down[p + 1..]
    ensures Shaped(u)
  {
    ShapedBelow(t);
    StillInOrder(t.down, p, t.down[p]);
    hide InOrder, Shaped;
    forall i {:trigger u.down[i]} | 0 <= i < |u.down|
      ensures u.down[i] in t.down && (u.down[i].tree.Some? ==> Shaped(u.down[i].tree.value))
    {
      assert u.down[i] == t.down[if i < p then i else i + 1];
    }
    ShapedFrom(u);
  }

  lemma ShapedWith(t: Tree, p: nat, below: Tree, u: Tree)
    requires Shaped(t) && p < |t.down| && Shaped(below) && u.down == t.down[p := t.down[p].(tree := Some(below))]
    ensures Shaped(u)
  {
    ShapedBelow(t);
    StillInOrder(t.down, p, u.down[p]);
    hide InOrder, Shaped;
    forall i {:trigger u.down[i]} | 0 <= i < |u.down|
      ensures Plain(u.down[i].name) && (u.down[i].tree.Some? ==> Shaped(u.down[i].tree.value))
    {
      assert t.down[i] in t.down && u.down[i].name == t.down[i].name;
    }
    ShapedFrom(u);
  }

  lemma {:induction false} InvalidatedShaped(t: Tree, path: string)
    requires Shaped(t)
    ensures Shaped(Invalidated(t, path))
    decreases |path|
  {
    hide Shaped, Invalidated;
    var s := Slash(path, 0);
    var p := IndexOf(t.down, path[..s]);
    InvalidatedCases(t, path);
    ShapedBelow(t);
    if p < |t.down| && s == |path| {
      ShapedWithout(t, p, Invalidated(t, path));
    } else if p < |t.down| && t.down[p].tree.Some? {
      InvalidatedShaped(t.down[p].tree.value, path[s + 1..]);
      ShapedWith(t, p, Invalidated(t.down[p].tree.value, path[s + 1..]), Invalidated(t, path));
    } else {
      ShapedFrom(Invalidated(t, path));
    }
  }
}
