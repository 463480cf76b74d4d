/** cache_tree_write and cache_tree_read: the cache tree in the index file. */
module CacheTreeFile {
  import opened Basics
  import opened CachedTree
  import opened CacheTreeNodes
  import opened CacheTreeText

  /** write_one; it dies on finding subtrees out of order, and otherwise appends the printed tree. */
  method WriteOne(buffer: string, it: CacheTree, path: string) returns (ok: bool, out: string)
    requires it.Valid() && There(it.Value())
    ensures ok <==> AllInOrder(it.Value())
    ensures ok ==> out == buffer + Printed(it.Value(), path)
    decreases it.Repr
  {
    hide *;
    ghost var t := it.Value();
    out := WriteHead(buffer, it, path);
    ok := true;
    StartWriting(t);
    var i := 0;
    while i < |it.down|
      invariant 0 <= i <= |it.down| && ok && Written(t, i)
      invariant out + PrintedSubs(t, i) == buffer + Printed(t, path)
    {
      Owns(it, i);
      if i > 0 {
        Owns(it, i - 1);
      }
      if i > 0 && !Before(it.down[i - 1].name, it.down[i].name) {
        NotInOrder(t, i);
        return false, out;
      }
      ghost var sofar := out;
      ok, out := WriteOne(out, it.down[i].tree, it.down[i].name);
      WriteNext(t, i, ok);
      if !ok {
        return;
      }
      Assoc(sofar, Printed(t.down[i].tree.value, t.down[i].name), PrintedSubs(t, i + 1));
      i := i + 1;
    }
    WrittenAll(t, out);
  }

  /** The first `n` subtrees are in order, on all levels. */
  ghost predicate Written(t: Tree, n: nat) {
    && There(t) && n <= |t.down| && FirstInOrder(t.down, n)
    && forall j {:trigger t.down[j]} :: 0 <= j < n ==> t.down[j].tree.Some? && AllInOrder(t.down[j].tree.value)
  }

  lemma StartWriting(t: Tree)
    requires There(t)
    ensures Written(t, 0)
  {
  }

  lemma Owns(it: CacheTree, i: nat)
    requires it.Valid() && i < |it.down| && There(it.Value())
    ensures it.down[i].tree != null && it.down[i].tree.Valid() && it.down[i].tree.Repr < it.Repr
    ensures There(it.down[i].tree.Value()) && it.Value().down[i].name == it.down[i].name
    ensures it.Value().down[i].tree == Some(it.down[i].tree.Value())
  {
  }

  lemma WriteNext(t: Tree, i: nat, ok: bool)
    requires Written(t, i) && i < |t.down| && (i > 0 ==> Before(t.down[i - 1].name, t.down[i].name))
    requires t.down[i].tree.Some? && (ok <==> AllInOrder(t.down[i].tree.value))
    ensures if ok then Written(t, i + 1) else !AllInOrder(t)
    ensures PrintedSubs(t, i) == Printed(t.down[i].tree.value, t.down[i].name) + PrintedSubs(t, i + 1)
  {
    NextInOrder(t.down, i);
  }

  lemma WrittenAll(t: Tree, out: string)
    requires Written(t, |t.down|)
    ensures AllInOrder(t) && out + PrintedSubs(t, |t.down|) == out
  {
    assert out + "" == out;
  }

  /** The part before the subtrees. */
  method WriteHead(buffer: string, it: CacheTree, path: string) returns (out: string)
    requires it.Valid()
    ensures out + PrintedSubs(it.Value(), 0) == buffer + Printed(it.Value(), path)
  {
    ghost var t := it.Value();
    ghost var subs := PrintedSubs(t, 0);
    out := buffer + path + "\0" + Decimal(it.entryCount) + " " + Decimal(|it.down|) + "\n";
    if 0 <= it.entryCount {
      out := out + it.sha1;
    }
    hide PrintedSubs, Decimal;
    var c, n, sha := Decimal(it.entryCount), Decimal(|it.down|), if it.entryCount >= 0 then it.sha1 else "";
    assert HeadText(t) == c + (" " + (n + ("\n" + sha)));
    Grouped(buffer, path, c, n, sha, subs, out);
  }

  lemma Grouped(buffer: string, path: string, c: string, n: string, sha: string, subs: string, out: string)
    requires out == buffer + path + "\0" + c + " " + n + "\n" + sha ||
      (sha == "" && out == buffer + path + "\0" + c + " " + n + "\n")
    ensures out + subs == buffer + (path + ("\0" + ((c + (" " + (n + ("\n" + sha)))) + subs)))
  {
  }

  ghost predicate FirstInOrder(down: seq<Sub>, n: nat) {
    forall i, j {:trigger down[i], down[j]} :: 0 <= i < j < n && j < |down| ==> Before(down[i].name, down[j].name)
  }

  lemma NextInOrder(down: seq<Sub>, n: nat)
    requires FirstInOrder(down, n) && n < |down| && (n > 0 ==> Before(down[n - 1].name, down[n].name))
    ensures FirstInOrder(down, n + 1)
  {
    forall i | 0 <= i < n ensures Before(down[i].name, down[n].name) {
      if i < n - 1 {
        BeforeTrans(down[i].name, down[n - 1].name, down[n].name);
      }
    }
  }

  lemma NotInOrder(t: Tree, i: nat)
    requires 0 < i < |t.down| && !Before(t.down[i - 1].name, t.down[i].name)
    ensures !AllInOrder(t)
  {
  }

  /** `it` holds the tree that was read, or nothing on a failure or an abort. */
  ghost predicate Outcome(r: Read, it: CacheTree?, died: bool, rest: string)
    reads it, if it == null then {} else it.Repr
  {
    && died == r.Die?
    && (r.Got? <==> it != null)
    && (it != null ==> it.Valid() && it.Value() == r.tree && InOrder(r.tree.down) && rest == r.rest)
  }

  /** cache_tree_read. */
  method CacheTreeRead(buffer: string) returns (it: CacheTree?, died: bool)
    ensures buffer == "" || buffer[0] != '\0' ==> it == null && !died
    ensures buffer != "" && buffer[0] == '\0' ==> exists rest :: Outcome(ReadTree(buffer), it, died, rest)
  {
    if buffer == "" || buffer[0] != '\0' {
      return null, false;
    }
    var rest;
    it, died, rest := ReadOne(buffer);
  }

  /** cache_tree_write. */
  method CacheTreeWrite(sb: string, root: CacheTree) returns (ok: bool, out: string)
    requires root.Valid() && There(root.Value())
    ensures ok <==> AllInOrder(root.Value())
    ensures ok ==> out == sb + Printed(root.Value(), "")
  {
    ok, out := WriteOne(sb, root, "");
  }

  /** A tree that is written and read again comes back with its names, order, counts and known hashes. */
  method WriteAndRead(root: CacheTree) returns (again: CacheTree?)
    requires root.Valid() && Writable(root.Value())
    ensures again != null && again.Valid() && again.Value() == Normal(root.Value())
  {
    WritableIsThere(root.Value());
    var ok, text := CacheTreeWrite("", root);
    ReadUndoesWrite(root.Value(), "", "");
    assert text == Printed(root.Value(), "") + "";
    var died;
    again, died := CacheTreeRead(text);
  }

  /** read_one: what ReadTree describes, as new nodes. */
  method ReadOne(s: string) returns (it: CacheTree?, died: bool, rest: string)
    ensures Outcome(ReadTree(s), it, died, rest)
    ensures it != null ==> fresh(it.Repr) && |rest| < |s|
    decreases |s|, 0
  {
    hide *;
    it, died, rest := null, false, s;
    var z := 0;
    while z < |s| && s[z] != '\0'
      invariant 0 <= z <= |s| && forall i :: 0 <= i < z ==> s[i] != '\0'
    {
      z := z + 1;
    }
    UntilIs(s, z);
    if z == |s| {
      NameUnended(s);
      return;
    }
    var head := ReadHead(s[z + 1..]);
    HeadRead(s, z, head);
    if head.None? {
      return;
    }
    var node := new CacheTree();
    node.SetHash(head.value.count, head.value.sha1);
    ghost var mine := node.Repr;
    var ok;
    ok, died, rest := ReadSubtrees(node, head.value.rest, head.value.nr);
    if ok {
      it := node;
      assert node.Repr <= mine + (node.Repr - mine);
    }
  }

  lemma NameUnended(s: string)
    requires Until(s, false) == |s|
    ensures Outcome(ReadTree(s), null, false, s)
  {}

  lemma HeadRead(s: string, z: nat, head: Option<Head>)
    requires Until(s, false) == z < |s| && head == ReadHead(s[z + 1..])
    ensures head.None? ==> Outcome(ReadTree(s), null, false, s)
    ensures head.Some? ==> var h := head.value;
      |h.rest| < |s| && ReadTree(s) == ReadSubs(h.rest, h.nr, h.nr, Tree(h.count, h.sha1, []))
  {
    hide *;
    HeadFirst(s, z, head);
    if head.None? {
      NothingGot(s);
    }
  }

  lemma NothingGot(s: string)
    requires ReadTree(s) == Fail
    ensures Outcome(ReadTree(s), null, false, s)
  {
    hide ReadTree;
  }

  lemma {:induction false} UntilIs(s: string, z: nat)
    requires z <= |s| && (z < |s| ==> s[z] == '\0') && forall i :: 0 <= i < z ==> s[i] != '\0'
    ensures Until(s, false) == z
  {
  }

  /** The loop over the subtrees. */
  method ReadSubtrees(it: CacheTree, s: string, nr: int) returns (ok: bool, died: bool, rest: string)
    requires it.Valid() && it.Value().down == []
    modifies it
    ensures ok ==> it.Valid() && fresh(it.Repr - old(it.Repr))
    ensures Outcome(ReadSubs(s, nr, nr, old(it.Value())), if ok then it else null, died, rest)
    ensures ok ==> |rest| <= |s|
    decreases |s|, 2
  {
    hide *;
    ok, died, rest := false, false, s;
    var i := 0;
    NothingRead(it);
    while i < nr
      invariant 0 <= i && (i <= nr || i == 0) && |rest| <= |s|
      invariant it.Valid() && fresh(it.Repr - old(it.Repr)) && InOrder(it.Value().down)
      invariant ReadSubs(rest, nr - i, nr, it.Value()) == ReadSubs(s, nr, nr, old(it.Value()))
    {
      ok, died, rest := ReadSubtree(it, rest, nr - i, nr);
      if !ok {
        return;
      }
      i := i + 1;
    }
    ReadDone(it, rest, nr - i, nr);
    if nr != |it.down| {
      return false, true, rest;
    }
    ok, died := true, false;
  }

  lemma NothingRead(it: CacheTree)
    requires it.Valid() && it.Value().down == []
    ensures InOrder(it.Value().down) && it in it.Repr
  {
  }

  lemma ReadDone(it: CacheTree, rest: string, left: int, nr: int)
    requires it.Valid() && InOrder(it.Value().down) && left <= 0
    ensures Outcome(ReadSubs(rest, left, nr, it.Value()), if nr == |it.down| then it else null, nr != |it.down|, rest)
  {
  }

  /** One round of the loop: read a subtree and hang it into the slot of its name. */
  method ReadSubtree(it: CacheTree, s: string, ghost left: nat, ghost nr: int)
    returns (ok: bool, died: bool, rest: string)
    requires it.Valid() && InOrder(it.Value().down) && left > 0
    modifies it
    ensures ok ==> it.Valid() && fresh(it.Repr - old(it.Repr)) && InOrder(it.Value().down) && |rest| < |s|
    ensures ok ==> ReadSubs(rest, left - 1, nr, it.Value()) == ReadSubs(s, left, nr, old(it.Value()))
    ensures !ok ==> Outcome(ReadSubs(s, left, nr, old(it.Value())), null, died, rest)
    decreases |s|, 1
  {
    hide *;
    var name := s[..Until(s, false)];
    ghost var t := it.Value();
    var sub;
    sub, died, rest := ReadOne(s);
    ghost var r := ReadTree(s);
    OutcomeOfSub(s, left, nr, t, sub, died, rest);
    if sub == null {
      return false, died, rest;
    }
    var pos := it.FindOrAddSubtree(name);
    ghost var mid := it.Value().down;
    it.AttachSub(pos, sub);
    PutIntoSlot(t.down, name, pos, mid, r.tree);
    PutInOrder(mid, pos, r.tree);
    ok := true;
  }

  lemma OutcomeOfSub(s: string, left: nat, nr: int, t: Tree, sub: CacheTree?, died: bool, rest: string)
    requires left > 0 && Outcome(ReadTree(s), sub, died, rest)
    ensures sub == null ==> Outcome(ReadSubs(s, left, nr, t), null, died, rest)
    ensures sub != null ==> ReadTree(s).Got? && sub.Valid() && sub.Value() == ReadTree(s).tree
    ensures sub != null ==>
      ReadSubs(rest, left - 1, nr, t.(down := Put(t.down, s[..Until(s, false)], ReadTree(s).tree))) ==
        ReadSubs(s, left, nr, t)
  {
    if sub != null {
      ReadNext(s, left, nr, t, s[..Until(s, false)], ReadTree(s).tree, rest);
    }
  }

  lemma PutInOrder(mid: seq<Sub>, pos: nat, sub: Tree)
    requires InOrder(mid) && pos < |mid|
    ensures InOrder(mid[pos := mid[pos].(tree := Some(sub))])
  {
    StillInOrder(mid, pos, mid[pos].(tree := Some(sub)));
  }
}
