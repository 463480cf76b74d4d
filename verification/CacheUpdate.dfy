/** What update_one knows about a directory while it brings the subdirectories up to date. */
module CacheUpdate {
  import opened Basics
  import opened CacheIndex
  import opened CachedTree

  const NULL_SHA: Sha := "\0\0\0\0\0\0\0\0\0\0\0\0\0\0\0\0\0\0\0\0"

  datatype WriteFlags = WriteFlags(missingOk: bool, dryRun: bool, repair: bool)

  predicate Writes(flags: WriteFlags) {
    !flags.dryRun && !flags.repair
  }

  ghost predicate Children(tight: bool, hash: string -> Sha, U: seq<Entry>, base: string, down: seq<Sub>)
    requires WellNamed(U)
  {
    forall i {:trigger down[i]} :: 0 <= i < |down| && down[i].tree.Some? ==>
      Sound(tight, hash, U, down[i].tree.value, Deeper(base, down[i].name))
  }

  /** The database has the tree of this directory and of every directory below it. */
  ghost predicate AllStored(hash: string -> Sha, has: set<Sha>, E: seq<Entry>, base: string)
    requires WellNamed(E)
  {
    forall p {:trigger Under(E, p)} ::
      base <= p && (p == base || (Under(E, p) != [] && p != "" && p[|p| - 1] == '/')) ==>
      TreeHash(hash, E, p) in has
  }

  /** No directory from `base` down counts more as skipped than it has entries. */
  ghost predicate Counted(E: seq<Entry>, base: string)
    requires WellNamed(E)
  {
    forall p {:trigger Under(E, p)} :: base <= p ==> Skips(E, p) <= |Under(E, p)|
  }

  /**
   * A successful update makes the directory known if nothing in it is marked as intent to add and no
   * more is skipped than there is; repairing needs the trees in the database besides.
   */
  ghost predicate Sure(flags: WriteFlags, hash: string -> Sha, has: set<Sha>, E: seq<Entry>, base: string)
    requires WellNamed(E)
  {
    NoIntent(E, base) && Counted(E, base) && (flags.repair ==> AllStored(hash, has, E, base))
  }

  lemma SureSame(flags: WriteFlags, hash: string -> Sha, has: set<Sha>, E: seq<Entry>, F: seq<Entry>, base: string)
    requires WellNamed(E) && WellNamed(F) && Under(E, base) == Under(F, base)
    ensures Sure(flags, hash, has, E, base) ==> Sure(flags, hash, has, F, base)
  {
    forall p | base <= p
      ensures Under(E, p) == Under(F, p) && TreeHash(hash, E, p) == TreeHash(hash, F, p) && Skips(E, p) == Skips(F, p)
    {
      UnderUnder(E, base, p);
      UnderUnder(F, base, p);
      SameHash(hash, E, F, p);
    }
    hide TreeHash, Skips;
  }

  lemma SureBelow(flags: WriteFlags, hash: string -> Sha, has: set<Sha>, U: seq<Entry>, base: string, name: string,
      below: string)
    requires WellNamed(U) && below == Deeper(base, name) && Under(U, below) != []
    ensures Sure(flags, hash, has, U, base) ==> Sure(flags, hash, has, U, below)
  {
    hide TreeHash, Skips;
    assert below[|below| - 1] == '/';
    UnderIn(U, base);
    UnderIn(U, below);
    hide Deeper;
  }

  lemma SureHas(flags: WriteFlags, hash: string -> Sha, has: set<Sha>, U: seq<Entry>, base: string)
    requires WellNamed(U) && Sure(flags, hash, has, U, base) && flags.repair
    ensures TreeHash(hash, U, base) in has
  {
    hide TreeHash;
    assert Under(U, base) == Under(U, base);
  }

  /** Objects are only added, and none when repairing. */
  predicate Grown(flags: WriteFlags, before: set<Sha>, after: set<Sha>) {
    before <= after && (flags.repair ==> after == before)
  }

  /** A subtree that has been updated in this round. */
  ghost predicate Done(flags: WriteFlags, hash: string -> Sha, has: set<Sha>, U: seq<Entry>, base: string, s: Sub) {
    && WellNamed(U)
    && s.tree.Some? && s.count == |Under(U, Deeper(base, s.name))|
    && (Sure(flags, hash, has, U, Deeper(base, s.name)) ==> s.tree.value.count >= 0)
    && (!flags.repair ==> s.tree.value.sha1 == TreeHash(hash, U, Deeper(base, s.name)))
    && (Writes(flags) ==> s.tree.value.sha1 in has)
  }

  ghost function UsedNames(down: seq<Sub>): set<string> {
    set s | s in down && s.used :: s.name
  }

  /** The used subtrees are those met among the first `i` entries, and they are done. */
  ghost predicate Scanned(flags: WriteFlags, hash: string -> Sha, has: set<Sha>, U: seq<Entry>, base: string, i: nat,
      down: seq<Sub>)
    requires i <= |U|
  {
    && UsedNames(down) == Dirs(U[..i], base)
    && (forall s :: s in down && s.used ==> Done(flags, hash, has, U, base, s))
  }

  /** All that holds of a node during the first loop; `keep` says that it was known and complete before. */
  ghost predicate Scanning(tight: bool, keep: bool, flags: WriteFlags, hash: string -> Sha, has: set<Sha>,
      U: seq<Entry>, base: string, i: nat, t: Tree)
  {
    && WellNamed(U) && i <= |U|
    && Shaped(t) && NodeRight(hash, U, t, base) && Children(tight, hash, U, base, t.down)
    && Scanned(flags, hash, has, U, base, i, t.down)
    && (keep ==> Complete(U, t, base))
  }

  lemma ScanningShape(tight: bool, keep: bool, flags: WriteFlags, hash: string -> Sha, has: set<Sha>,
      U: seq<Entry>, base: string, i: nat, t: Tree)
    requires Scanning(tight, keep, flags, hash, has, U, base, i, t)
    ensures InOrder(t.down) && Shaped(t)
  {
  }

  /** An empty slot for a name that was missing. */
  ghost predicate Inserted(before: seq<Sub>, name: string, pos: nat, after: seq<Sub>) {
    && pos <= |before| && after == before[..pos] + [Sub(name, None, 0, false)] + before[pos..]
    && forall s :: s in before ==> s.name != name
  }

  lemma InsertedContents(before: seq<Sub>, name: string, pos: nat, after: seq<Sub>)
    requires Inserted(before, name, pos, after)
    ensures forall s :: s in after <==> s in before || s == Sub(name, None, 0, false)
  {
    assert before == before[..pos] + before[pos..];
    assert after[pos] == Sub(name, None, 0, false);
    forall s | s in before ensures s in after {
      var i :| 0 <= i < |before| && before[i] == s;
      assert after[if i < pos then i else i + 1] == s;
    }
  }

  lemma InsertKeepsScanning(tight: bool, keep: bool, flags: WriteFlags, hash: string -> Sha, has: set<Sha>,
      U: seq<Entry>, base: string, i: nat, t: Tree, name: string, pos: nat, after: seq<Sub>)
    requires WellNamed(U) && i <= |U| && Scanning(tight, keep, flags, hash, has, U, base, i, t)
    requires Inserted(t.down, name, pos, after) && InOrder(after) && name in Dirs(U, base)
    ensures Scanning(tight, keep, flags, hash, has, U, base, i, t.(down := after))
    ensures !keep
  {
    var t' := t.(down := after);
    InsertedContents(t.down, name, pos, after);
    assert keep ==> name in Names(t.down);
    assert UsedNames(after) == UsedNames(t.down);
    forall j | 0 <= j < |after| && after[j].tree.Some?
      ensures Sound(tight, hash, U, after[j].tree.value, Deeper(base, after[j].name)) && Shaped(after[j].tree.value)
    {
      assert after[j] == t.down[if j < pos then j else j - 1];
    }
  }

  /** A new node knows nothing. */
  lemma NewNodeSound(tight: bool, hash: string -> Sha, U: seq<Entry>, sha1: Sha, base: string)
    requires WellNamed(U)
    ensures Sound(tight, hash, U, Tree(-1, sha1, []), base) && Shaped(Tree(-1, sha1, []))
  {
  }

  /** Exchanging the subtree of a slot keeps names, order and what is said of the other slots. */
  lemma Replaced(down: seq<Sub>, pos: nat, r: Sub)
    requires InOrder(down) && pos < |down| && !down[pos].used && r == down[pos].(tree := r.tree)
    ensures InOrder(down[pos := r])
    ensures Names(down[pos := r]) == Names(down) && UsedNames(down[pos := r]) == UsedNames(down)
    ensures forall s :: s in down[pos := r] ==> s == r || s in down
  {
    StillInOrder(down, pos, r);
    var after := down[pos := r];
    hide InOrder;
    forall s | s in down ensures exists s' :: s' in after && s'.name == s.name && s'.used == s.used {
      var i :| 0 <= i < |down| && down[i] == s;
      assert after[i] in after;
    }
    assert after[pos] in after && down[pos] in down;
  }

  lemma ChildrenReplaced(tight: bool, hash: string -> Sha, U: seq<Entry>, base: string, down: seq<Sub>, pos: nat,
      sub: Tree, tight': bool)
    requires WellNamed(U) && Children(tight, hash, U, base, down) && pos < |down| && (tight' ==> tight)
    requires Sound(tight', hash, U, sub, Deeper(base, down[pos].name))
    ensures Children(tight', hash, U, base, down[pos := down[pos].(tree := Some(sub))])
  {
    forall i | 0 <= i < |down| && down[i].tree.Some?
      ensures Sound(tight', hash, U, down[i].tree.value, Deeper(base, down[i].name))
    {
      if tight && !tight' {
        SoundLoosely(hash, U, down[i].tree.value, Deeper(base, down[i].name));
      }
    }
  }

  lemma ReplaceKeepsScanning(tight: bool, keep: bool, flags: WriteFlags, hash: string -> Sha, has: set<Sha>,
      U: seq<Entry>, base: string, i: nat, t: Tree, pos: nat, sub: Tree, tight': bool, has': set<Sha>)
    requires WellNamed(U) && i <= |U| && Scanning(tight, keep, flags, hash, has, U, base, i, t)
    requires pos < |t.down| && !t.down[pos].used && has <= has' && (flags.repair ==> has' == has)
    requires Sound(tight', hash, U, sub, Deeper(base, t.down[pos].name)) && Shaped(sub)
    requires (tight' ==> tight) && (keep ==> sub.count >= 0)
    ensures Scanning(tight', keep, flags, hash, has', U, base, i,
      t.(down := t.down[pos := t.down[pos].(tree := Some(sub))]))
  {
    var r := t.down[pos].(tree := Some(sub));
    Replaced(t.down, pos, r);
    ChildrenReplaced(tight, hash, U, base, t.down, pos, sub, tight');
    hide InOrder, Children, Names, UsedNames, Dirs, NodeRight, Sound, TreeHash;
  }

  /** Marking a slot as used, with the number of entries it stands for. */
  lemma MarkUsed(tight: bool, keep: bool, flags: WriteFlags, hash: string -> Sha, has: set<Sha>,
      U: seq<Entry>, base: string, i: nat, t: Tree, pos: nat, k: nat)
    requires WellNamed(U) && i + k <= |U| && Scanning(tight, keep, flags, hash, has, U, base, i, t)
    requires pos < |t.down| && Done(flags, hash, has, U, base, t.down[pos].(count := k))
    requires Dirs(U[..i + k], base) == Dirs(U[..i], base) + {t.down[pos].name}
    ensures Scanning(tight, keep, flags, hash, has, U, base, i + k,
      t.(down := t.down[pos := t.down[pos].(count := k, used := true)]))
  {
    hide Sound, TreeHash, Sorted, Under, Run, Before;
    var r := t.down[pos].(count := k, used := true);
    Marked(t.down, pos, r);
    hide InOrder, Names, UsedNames, Dirs;
  }

  lemma Marked(down: seq<Sub>, pos: nat, r: Sub)
    requires InOrder(down) && pos < |down| && r == down[pos].(count := r.count, used := true)
    ensures InOrder(down[pos := r])
    ensures Names(down[pos := r]) == Names(down) && UsedNames(down[pos := r]) == UsedNames(down) + {r.name}
    ensures forall s :: s in down[pos := r] ==> s == r || s in down
  {
    StillInOrder(down, pos, r);
    var after := down[pos := r];
    assert after[pos] in after && down[pos] in down;
    forall i | 0 <= i < |down|
      ensures down[i].name in Names(after) && (down[i].used ==> down[i].name in UsedNames(after))
    {
      assert after[i] in after;
    }
    FoundAt(down, pos);
    hide InOrder;
    forall s | s in after && s.used ensures s == r || (s in down && s.name in UsedNames(down)) {}
  }

  function Unused(down: seq<Sub>): (r: seq<Sub>)
    ensures |r| == |down|
  {
    seq(|down|, i requires 0 <= i < |down| => down[i].(used := false))
  }

  /** The slot for `name` at `pos`, made if it was missing, and given an empty node if it had none. */
  ghost predicate Opened(before: seq<Sub>, name: string, pos: nat, after: seq<Sub>) {
    exists mid: seq<Sub> ::
      && (mid == before || Inserted(before, name, pos, mid))
      && pos < |mid| && mid[pos].name == name
      && after == if mid[pos].tree.Some? then mid
                  else mid[pos := mid[pos].(tree := Some(Tree(-1, NULL_SHA, [])))]
  }

  lemma OpenKeepsScanning(tight: bool, keep: bool, flags: WriteFlags, hash: string -> Sha, has: set<Sha>,
      U: seq<Entry>, base: string, i: nat, t: Tree, name: string, pos: nat, after: seq<Sub>)
    requires WellNamed(U) && i <= |U| && Scanning(tight, keep, flags, hash, has, U, base, i, t)
    requires Opened(t.down, name, pos, after) && InOrder(after)
    requires name in Dirs(U, base) && name !in Dirs(U[..i], base)
    ensures Scanning(tight, keep, flags, hash, has, U, base, i, t.(down := after))
    ensures pos < |after| && after[pos].tree.Some? && !after[pos].used && after[pos].name == name
  {
    hide *;
    var mid := OpenedMid(t.down, name, pos, after);
    ScanningShape(tight, keep, flags, hash, has, U, base, i, t);
    if mid != t.down {
      InsertKeepsScanning(tight, keep, flags, hash, has, U, base, i, t, name, pos, mid);
    } else {
      assert t.(down := t.down) == t;
    }
    var m := t.(down := mid);
    NotYetUsed(tight, keep, flags, hash, has, U, base, i, m, pos);
    if mid[pos].tree.None? {
      NewNodeSound(tight, hash, U, NULL_SHA, Deeper(base, name));
      ReplaceKeepsScanning(tight, keep, flags, hash, has, U, base, i, m, pos, Tree(-1, NULL_SHA, []), tight, has);
    }
  }

  lemma OpenedMid(before: seq<Sub>, name: string, pos: nat, after: seq<Sub>) returns (mid: seq<Sub>)
    requires Opened(before, name, pos, after) && InOrder(after)
    ensures (mid == before || Inserted(before, name, pos, mid)) && InOrder(mid)
    ensures pos < |mid| && mid[pos].name == name
    ensures after == if mid[pos].tree.Some? then mid
                     else mid[pos := mid[pos].(tree := Some(Tree(-1, NULL_SHA, [])))]
  {
    mid :|
      && (mid == before || Inserted(before, name, pos, mid))
      && pos < |mid| && mid[pos].name == name
      && after == if mid[pos].tree.Some? then mid
                  else mid[pos := mid[pos].(tree := Some(Tree(-1, NULL_SHA, [])))];
    StillInOrder(after, pos, mid[pos]);
    assert after[pos := mid[pos]] == mid;
  }

  lemma NotYetUsed(tight: bool, keep: bool, flags: WriteFlags, hash: string -> Sha, has: set<Sha>,
      U: seq<Entry>, base: string, i: nat, t: Tree, pos: nat)
    requires Scanning(tight, keep, flags, hash, has, U, base, i, t) && pos < |t.down|
    requires i <= |U| && t.down[pos].name !in Dirs(U[..i], base)
    ensures !t.down[pos].used && (keep ==> t.down[pos].tree.Some?)
  {
    assert t.down[pos] in t.down;
  }

  // ---- What one update promises -------------------------------------------------------------

  /** The conditions under which an update cannot fail. */
  ghost predicate Able(flags: WriteFlags, writable: bool, has: set<Sha>, U: seq<Entry>) {
    || (flags.missingOk && (Writes(flags) ==> writable))
    || (Writes(flags) && writable && forall e :: e in U ==> e.mode == S_IFGITLINK || e.sha1 in has)
  }

  /** The tree after an update that returned `r`, compared with the tree before. */
  ghost predicate Updated(tight: bool, flags: WriteFlags, hash: string -> Sha, has: set<Sha>, E: seq<Entry>,
      base: string, before: Tree, after: Tree, r: int)
  {
    && WellNamed(E)
    && Shaped(after) && Sound(tight && (r >= 0 || !flags.repair), hash, E, after, base)
    && (r >= 0 ==>
          && r == |Under(E, base)| && (Sure(flags, hash, has, E, base) ==> after.count == r - Skips(E, base))
          && (!flags.repair ==> after.sha1 == TreeHash(hash, E, base))
          && (Writes(flags) ==> after.sha1 in has))
    && (!flags.repair && before.count >= 0 ==> after.count >= 0)
  }

  lemma UpdatedSame(tight: bool, flags: WriteFlags, hash: string -> Sha, has: set<Sha>, E: seq<Entry>, F: seq<Entry>,
      base: string, before: Tree, after: Tree, r: int)
    requires WellNamed(E) && WellNamed(F) && Under(E, base) == Under(F, base)
    requires Updated(tight, flags, hash, has, E, base, before, after, r)
    ensures Updated(tight, flags, hash, has, F, base, before, after, r)
  {
    SoundSame(tight && (r >= 0 || !flags.repair), hash, E, F, after, base);
    SureSame(flags, hash, has, F, E, base);
    SameHash(hash, E, F, base);
    hide TreeHash, Skips, Sure, Sound, Shaped;
  }

  /** The first loop is through and the unused subtrees are gone. */
  ghost predicate Collected(tight: bool, keep: bool, flags: WriteFlags, hash: string -> Sha, has: set<Sha>,
      U: seq<Entry>, base: string, t: Tree)
  {
    && WellNamed(U)
    && Shaped(t) && NodeRight(hash, U, t, base) && Children(tight, hash, U, base, t.down)
    && Names(t.down) == Dirs(U, base)
    && (forall s :: s in t.down ==> Done(flags, hash, has, U, base, s))
    && (keep ==> Complete(U, t, base))
  }

  /** Giving up after a failure leaves the node itself as it was. */
  lemma GivenUp(tight: bool, keep: bool, flags: WriteFlags, hash: string -> Sha, has: set<Sha>,
      U: seq<Entry>, base: string, i: nat, before: Tree, t: Tree)
    requires WellNamed(U) && i <= |U| && Scanning(tight, keep, flags, hash, has, U, base, i, t)
    requires before.count == t.count && (tight && !flags.repair && t.count >= 0 ==> keep)
    ensures Updated(tight, flags, hash, has, U, base, before, t, -1)
  {
    if tight && flags.repair {
      Loosely(hash, U, base, t.down);
    }
  }

  lemma Loosely(hash: string -> Sha, U: seq<Entry>, base: string, down: seq<Sub>)
    requires WellNamed(U) && Children(true, hash, U, base, down)
    ensures Children(false, hash, U, base, down)
  {
    forall i | 0 <= i < |down| && down[i].tree.Some?
      ensures Sound(false, hash, U, down[i].tree.value, Deeper(base, down[i].name))
    {
      SoundLoosely(hash, U, down[i].tree.value, Deeper(base, down[i].name));
    }
  }

  lemma GivenUpLate(tight: bool, keep: bool, flags: WriteFlags, hash: string -> Sha, has: set<Sha>,
      U: seq<Entry>, base: string, before: Tree, t: Tree, sha1: Sha)
    requires WellNamed(U) && Collected(tight, keep, flags, hash, has, U, base, t)
    requires before.count == t.count && (tight && !flags.repair && t.count >= 0 ==> keep)
    requires sha1 == t.sha1 || sha1 == TreeHash(hash, U, base)
    ensures Updated(tight, flags, hash, has, U, base, before, t.(sha1 := sha1), -1)
  {
    if tight && flags.repair {
      Loosely(hash, U, base, t.down);
    }
  }

  /** The node's own data after its tree object has been made. */
  lemma Finished(tight: bool, keep: bool, flags: WriteFlags, hash: string -> Sha, has: set<Sha>,
      U: seq<Entry>, base: string, before: Tree, t: Tree, sha1: Sha, toInvalidate: bool, skip: nat, has': set<Sha>)
    requires WellNamed(U) && AllIn(U, base) && Collected(tight, keep, flags, hash, has, U, base, t)
    requires Sure(flags, hash, has, U, base) ==> !toInvalidate
    requires !flags.repair && before.count >= 0 ==> Sure(flags, hash, has, U, base)
    requires !toInvalidate ==> NoIntent(U, base) && forall s :: s in t.down ==>
      s.tree.Some? && s.tree.value.count >= 0
    requires Right(flags, toInvalidate) ==> sha1 == TreeHash(hash, U, base)
    requires skip == Skips(U, base) && (Writes(flags) ==> sha1 in has') && (flags.repair ==> has' == has)
    ensures Updated(tight, flags, hash, has', U, base, before,
              t.(sha1 := sha1, count := if toInvalidate then -1 else |U| - skip), |U|)
  {
    UnderAll(U, base);
    SureNow(flags, hash, has, has', U, base);
    SureCounts(flags, hash, has', U, base);
    hide TreeHash, Skips, Under, Sure, NoIntent, Counted;
  }

  lemma SureNow(flags: WriteFlags, hash: string -> Sha, has: set<Sha>, has': set<Sha>, U: seq<Entry>, base: string)
    requires WellNamed(U) && (flags.repair ==> has' == has)
    ensures Sure(flags, hash, has, U, base) <==> Sure(flags, hash, has', U, base)
  {}

  /** What is sure to become known does not count below zero. */
  lemma SureCounts(flags: WriteFlags, hash: string -> Sha, has: set<Sha>, U: seq<Entry>, base: string)
    requires WellNamed(U)
    ensures Sure(flags, hash, has, U, base) ==> Skips(U, base) <= |Under(U, base)|
  {
    hide Skips;
    assert |Under(U, base)| == |Under(U, base)|;
  }

  /** The hash of the lines made is the right one: always, except that repairing needs all subtrees known. */
  predicate Right(flags: WriteFlags, toInvalidate: bool) {
    !flags.repair || !toInvalidate
  }

  // ---- Throwing unused subtrees away --------------------------------------------------------

  function UsedOnly(down: seq<Sub>): seq<Sub> {
    if down == [] then [] else UsedOnly(down[..|down| - 1]) + if down[|down| - 1].used then [down[|down| - 1]] else []
  }

  lemma {:induction false} UsedOnlyContents(down: seq<Sub>)
    ensures forall s :: s in UsedOnly(down) <==> s in down && s.used
    ensures |UsedOnly(down)| <= |down|
  {
    if down != [] {
      var n := |down| - 1;
      UsedOnlyContents(down[..n]);
      assert down == down[..n] + [down[n]];
    }
  }

  lemma {:induction false} UsedOnlyInOrder(down: seq<Sub>)
    requires InOrder(down)
    ensures InOrder(UsedOnly(down))
  {
    hide Before, Plain;
    if down != [] {
      var n := |down| - 1;
      var first := UsedOnly(down[..n]);
      UsedOnlyInOrder(down[..n]);
      UsedOnlyContents(down[..n]);
      forall i | 0 <= i < |first| ensures Before(first[i].name, down[n].name) {
        assert first[i] in first;
        var j :| 0 <= j < n && down[j] == first[i];
      }
    }
  }

  lemma DiscardCollects(tight: bool, keep: bool, flags: WriteFlags, hash: string -> Sha, has: set<Sha>,
      U: seq<Entry>, base: string, t: Tree)
    requires WellNamed(U) && Scanning(tight, keep, flags, hash, has, U, base, |U|, t)
    ensures Collected(tight, keep, flags, hash, has, U, base, t.(down := UsedOnly(t.down)))
  {
    assert U[..|U|] == U;
    UsedOnlyContents(t.down);
    UsedOnlyInOrder(t.down);
    var after := UsedOnly(t.down);
    assert Names(after) == UsedNames(t.down);
    hide InOrder, Names, UsedNames, Dirs, NodeRight, Sound, TreeHash, UsedOnly;
    forall i | 0 <= i < |after| ensures after[i] in t.down {
      assert after[i] in after;
    }
    InEither(t.down);
    InEither(after);
    ChildrenKept(tight, hash, U, base, t.down, after);
  }

  lemma InEither(down: seq<Sub>)
    ensures (forall i {:trigger down[i]} :: 0 <= i < |down| && down[i].tree.Some? ==> Shaped(down[i].tree.value)) <==>
            (forall s :: s in down && s.tree.Some? ==> Shaped(s.tree.value))
  {
    assert forall i {:trigger down[i]} :: 0 <= i < |down| ==> down[i] in down;
  }

  lemma ChildrenKept(tight: bool, hash: string -> Sha, U: seq<Entry>, base: string, down: seq<Sub>, after: seq<Sub>)
    requires WellNamed(U) && Children(tight, hash, U, base, down)
    requires forall s :: s in after ==> s in down
    ensures Children(tight, hash, U, base, after)
  {
    forall i | 0 <= i < |after| && after[i].tree.Some?
      ensures Sound(tight, hash, U, after[i].tree.value, Deeper(base, after[i].name))
    {
      assert after[i] in after;
      var j :| 0 <= j < |down| && down[j] == after[i];
    }
  }

  // ---- The tree object ----------------------------------------------------------------------

  /** A subtree whose hash is known contributes the line a computation from scratch would. */
  lemma ChildLine(tight: bool, keep: bool, flags: WriteFlags, hash: string -> Sha, has: set<Sha>,
      U: seq<Entry>, base: string, t: Tree, pos: nat)
    requires WellNamed(U) && Collected(tight, keep, flags, hash, has, U, base, t) && pos < |t.down|
    ensures Done(flags, hash, has, U, base, t.down[pos]) && InOrder(t.down)
    ensures !flags.repair || t.down[pos].tree.value.count >= 0 ==>
      t.down[pos].tree.value.sha1 == TreeHash(hash, U, Deeper(base, t.down[pos].name))
    ensures t.down[pos].tree.value.count >= 0 ==> NoIntent(U, Deeper(base, t.down[pos].name))
  {
    hide TreeHash, Skips, NoIntent, Sure;
    assert t.down[pos] in t.down;
  }

  /** After the first loop the subtrees are the subdirectories, each with its node and count. */
  lemma SubsListed(tight: bool, keep: bool, flags: WriteFlags, hash: string -> Sha, has: set<Sha>,
      U: seq<Entry>, base: string, t: Tree)
    requires Collected(tight, keep, flags, hash, has, U, base, t)
    ensures InOrder(t.down) && Names(t.down) == Dirs(U, base)
    ensures forall s :: s in t.down ==> s.tree.Some? && s.count >= 0
  {}

  // ---- One subdirectory of the first loop ---------------------------------------------------

  /** The node was known and complete before an update that cannot lose that. */
  predicate Keeps(tight: bool, flags: WriteFlags, before: Tree) {
    tight && !flags.repair && before.count >= 0
  }

  lemma SubStarts(tight: bool, keep: bool, flags: WriteFlags, hash: string -> Sha, has: set<Sha>,
      U: seq<Entry>, base: string, i: nat, t: Tree, pos: nat, cache: seq<Entry>, name: string, below: string)
    requires WellNamed(U) && i <= |U| && Scanning(tight, keep, flags, hash, has, U, base, i, t)
    requires pos < |t.down| && t.down[pos].tree.Some? && t.down[pos].name == name && below == Deeper(base, name)
    requires WellNamed(cache) && i <= |cache| && Under(cache[i..], below) == Under(U, below)
    ensures Shaped(t.down[pos].tree.value) && Sound(tight, hash, cache[i..], t.down[pos].tree.value, below)
  {
    SoundSame(tight, hash, U, cache[i..], t.down[pos].tree.value, below);
  }

  lemma SubEnds(tight: bool, keep: bool, flags: WriteFlags, hash: string -> Sha, has: set<Sha>, has': set<Sha>,
      U: seq<Entry>, base: string, i: nat, t: Tree, pos: nat, cache: seq<Entry>, name: string, below: string,
      after: Tree, r: int)
    requires WellNamed(U) && i <= |U| && Scanning(tight, keep, flags, hash, has, U, base, i, t) &&
      Grown(flags, has, has')
    requires pos < |t.down| && t.down[pos].tree.Some? && t.down[pos].name == name && below == Deeper(base, name)
    requires WellNamed(cache) && i <= |cache| && Under(cache[i..], below) == Under(U, below)
    requires !t.down[pos].used && (keep ==> !flags.repair)
    requires Updated(tight, flags, hash, has', cache[i..], below, t.down[pos].tree.value, after, r)
    ensures Scanning(tight && (r >= 0 || !flags.repair), keep, flags, hash, has', U, base, i,
              t.(down := t.down[pos := t.down[pos].(tree := Some(after))]))
    ensures r >= 0 ==> Done(flags, hash, has', U, base, Sub(name, Some(after), r, true)) && r == |Under(U, below)|
  {
    UpdatedSame(tight, flags, hash, has', cache[i..], U, below, t.down[pos].tree.value, after, r);
    assert t.down[pos] in t.down;
    hide Children, Sound, NodeRight, Under;
    ReplaceKeepsScanning(tight, keep, flags, hash, has, U, base, i, t, pos, after,
      tight && (r >= 0 || !flags.repair), has');
  }

  lemma SubMarked(tight: bool, keep: bool, flags: WriteFlags, hash: string -> Sha, has: set<Sha>,
      U: seq<Entry>, base: string, i: nat, t: Tree, pos: nat, name: string, r: nat)
    requires WellNamed(U) && i + r <= |U| && pos < |t.down| && t.down[pos].name == name
    requires Scanning(tight, keep, flags, hash, has, U, base, i, t)
    requires t.down[pos].tree.Some? && Done(flags, hash, has, U, base, Sub(name, t.down[pos].tree, r, true))
    requires Dirs(U[..i + r], base) == Dirs(U[..i], base) + {name}
    ensures Scanning(tight, keep, flags, hash, has, U, base, i + r,
              t.(down := t.down[pos := t.down[pos].(count := r, used := true)]))
  {
    hide Scanning;
    MarkUsed(tight, keep, flags, hash, has, U, base, i, t, pos, r);
  }

  lemma SkipFile(tight: bool, keep: bool, flags: WriteFlags, hash: string -> Sha, has: set<Sha>,
      U: seq<Entry>, base: string, i: nat, t: Tree)
    requires WellNamed(U) && i < |U| && Dirs(U[..i + 1], base) == Dirs(U[..i], base)
    requires Scanning(tight, keep, flags, hash, has, U, base, i, t)
    ensures Scanning(tight, keep, flags, hash, has, U, base, i + 1, t)
  {
  }

  lemma AbleLater(flags: WriteFlags, writable: bool, has: set<Sha>, has': set<Sha>, U: seq<Entry>)
    requires has <= has'
    ensures Able(flags, writable, has, U) ==> Able(flags, writable, has', U)
  {
  }

  lemma AbleBelow(flags: WriteFlags, writable: bool, has: set<Sha>, U: seq<Entry>, below: string)
    ensures Able(flags, writable, has, U) ==> Able(flags, writable, has, Under(U, below))
  {
    UnderIn(U, below);
  }

  /** After a failure only what needs no success is claimed. */
  lemma GivenUpTight(tight: bool, flags: WriteFlags, hash: string -> Sha, has: set<Sha>, E: seq<Entry>,
      base: string, before: Tree, after: Tree)
    requires WellNamed(E) && Updated(tight && !flags.repair, flags, hash, has, E, base, before, after, -1)
    ensures Updated(tight, flags, hash, has, E, base, before, after, -1)
  {
    hide Sound, Shaped;
  }

  // ---- The second loop ----------------------------------------------------------------------

  /** All subdirectories among the first `i` entries are known, and none of these entries is an intent to add. */
  ghost predicate Noted(U: seq<Entry>, base: string, down: seq<Sub>, i: nat) {
    && i <= |U|
    && (forall s :: s in down && s.name in Dirs(U[..i], base) ==> s.tree.Some? && s.tree.value.count >= 0)
    && forall e :: e in U[..i] ==> !e.mark.Intended?
  }

  /**
   * The lines so far and the lines still to come make the tree object, and what is skipped so far and
   * still to be skipped makes the number that is skipped.
   */
  ghost predicate Building(flags: WriteFlags, hash: string -> Sha, has: set<Sha>, U: seq<Entry>, base: string,
      down: seq<Sub>, i: nat, buffer: string, toInvalidate: bool, skip: nat)
  {
    && i <= |U| && Level(U, |base|) && Level(U[i..], |base|)
    && WellNamed(U) && (Sure(flags, hash, has, U, base) ==> !toInvalidate)
    && (Right(flags, toInvalidate) ==> buffer + Buffer(hash, U[i..], |base|) == Buffer(hash, U, |base|))
    && (!toInvalidate ==> Noted(U, base, down, i))
    && skip + Outer(U[i..], |base|) == Inner(U, |base|) + Outer(U, |base|)
  }

  lemma LevelFrom(U: seq<Entry>, base: string, i: nat)
    requires WellNamed(U) && AllIn(U, base) && i <= |U|
    ensures Level(U, |base|) && Level(U[i..], |base|)
  {
  }

  lemma BuildFile(flags: WriteFlags, hash: string -> Sha, has: set<Sha>, U: seq<Entry>, base: string, down: seq<Sub>,
      i: nat, buffer: string, toInvalidate: bool, skip: nat, line: string)
    requires i < |U| && AllIn(U, base) && Level(U[i + 1..], |base|)
    requires Building(flags, hash, has, U, base, down, i, buffer, toInvalidate, skip)
    requires !IsDir(U[i], |base|) && Dirs(U[..i + 1], base) == Dirs(U[..i], base)
    requires line == Line(U[i].mode, U[i].name[|base|..], U[i].sha1)
    ensures Building(flags, hash, has, U, base, down, i + 1, buffer + Shown(U[i], line),
      toInvalidate || U[i].mark.Intended?, skip + One(U[i]))
  {
    BufferFile(hash, U, |base|, i);
    SureShows(flags, hash, has, U, base, i);
    assert U[..i + 1] == U[..i] + [U[i]];
    hide Buffer, Line, Dirs, Shown, Sure, Inner, Outer, IsDir;
    LineThenRest(buffer, Shown(U[i], line), Buffer(hash, U[i + 1..], |base|));
  }

  lemma SureShows(flags: WriteFlags, hash: string -> Sha, has: set<Sha>, U: seq<Entry>, base: string, i: nat)
    requires WellNamed(U) && AllIn(U, base) && i < |U|
    ensures Sure(flags, hash, has, U, base) ==> !U[i].mark.Intended?
  {
    UnderAll(U, base);
    assert U[i] in U;
    hide Counted, AllStored;
  }

  lemma LineThenRest(a: string, b: string, c: string)
    ensures a + Then(b, c) == a + b + c
  {
  }

  lemma BuildDir(flags: WriteFlags, hash: string -> Sha, has: set<Sha>, U: seq<Entry>, base: string, down: seq<Sub>,
      i: nat, buffer: string, toInvalidate: bool, skip: nat, name: string, below: string, k: nat, pos: nat,
      line: string)
    requires WellNamed(U) && AllIn(U, base) && i < |U| && IsDir(U[i], |base|) && k > 0 && i + k <= |U|
    requires Level(U[i + k..], |base|)
    requires name == Component(U[i], |base|) && below == Deeper(base, name) && k == Run(U[i..], below)
    requires Under(U, below) == U[i..i + k] && Dirs(U[..i + k], base) == Dirs(U[..i], base) + {name}
    requires Building(flags, hash, has, U, base, down, i, buffer, toInvalidate, skip)
    requires InOrder(down) && pos < |down| && down[pos].name == name && down[pos].tree.Some?
    requires Sure(flags, hash, has, U, base) ==> down[pos].tree.value.count >= 0
    requires line == Line(S_IFDIR, name, down[pos].tree.value.sha1)
    requires !flags.repair || down[pos].tree.value.count >= 0 ==>
      down[pos].tree.value.sha1 == TreeHash(hash, U, below)
    requires down[pos].tree.value.count >= 0 ==> NoIntent(U, below)
    ensures Building(flags, hash, has, U, base, down, i + k, buffer + Shown(U[i], line),
      toInvalidate || down[pos].tree.value.count < 0 || U[i].mark.Intended?, skip + One(U[i]))
  {
    hide *;
    BufferDir(hash, U, base, i, name, below, k);
    SureShows(flags, hash, has, U, base, i);
    SureSoFar(flags, hash, has, U, base, down, i, buffer, toInvalidate, skip);
    RightOnly(flags, toInvalidate, down[pos].tree.value.count < 0 || U[i].mark.Intended?);
    RightOnly(flags, down[pos].tree.value.count < 0, toInvalidate || U[i].mark.Intended?);
    LineThenRest(buffer, Shown(U[i], line), Buffer(hash, U[i + k..], |base|));
    if down[pos].tree.value.count >= 0 {
      NoIntentIn(U, below, U[i..i + k]);
      KnownFurther(U, base, down, i, i + k, pos);
    }
    BuildingStep(flags, hash, has, U, base, down, i, buffer, toInvalidate, skip, i + k, Shown(U[i], line),
      toInvalidate || down[pos].tree.value.count < 0 || U[i].mark.Intended?, One(U[i]));
  }

  lemma SureSoFar(flags: WriteFlags, hash: string -> Sha, has: set<Sha>, U: seq<Entry>, base: string,
      down: seq<Sub>, i: nat, buffer: string, toInvalidate: bool, skip: nat)
    requires Building(flags, hash, has, U, base, down, i, buffer, toInvalidate, skip)
    ensures Sure(flags, hash, has, U, base) ==> !toInvalidate
  {
    hide Sure;
  }

  lemma RightOnly(flags: WriteFlags, a: bool, b: bool)
    ensures Right(flags, a || b) ==> Right(flags, a) && (!flags.repair || !a)
    ensures Right(flags, b || a) ==> Right(flags, a) && (!flags.repair || !a)
  {}

  /** The next piece of the tree object has been made. */
  lemma BuildingStep(flags: WriteFlags, hash: string -> Sha, has: set<Sha>, U: seq<Entry>, base: string,
      down: seq<Sub>, i: nat, buffer: string, toInvalidate: bool, skip: nat, next: nat, piece: string, now: bool,
      one: nat)
    requires Building(flags, hash, has, U, base, down, i, buffer, toInvalidate, skip)
    requires i <= next <= |U| && Level(U[next..], |base|) && (toInvalidate ==> now)
    requires Sure(flags, hash, has, U, base) ==> !now
    requires Right(flags, now) ==>
      buffer + Buffer(hash, U[i..], |base|) == buffer + piece + Buffer(hash, U[next..], |base|)
    requires !now && Noted(U, base, down, i) ==> Noted(U, base, down, next)
    requires Outer(U[i..], |base|) == one + Outer(U[next..], |base|)
    ensures Building(flags, hash, has, U, base, down, next, buffer + piece, now, skip + one)
  {
    hide Sure, Buffer, Inner, Outer, Noted, Level;
  }

  lemma KnownFurther(U: seq<Entry>, base: string, down: seq<Sub>, i: nat, next: nat, pos: nat)
    requires i <= next <= |U| && InOrder(down) && pos < |down|
    requires Dirs(U[..next], base) == Dirs(U[..i], base) + {down[pos].name}
    requires down[pos].tree.Some? && down[pos].tree.value.count >= 0
    requires forall e :: e in U[i..next] ==> !e.mark.Intended?
    ensures Noted(U, base, down, i) ==> Noted(U, base, down, next)
  {
    OnlyOne(down, pos);
    assert U[..next] == U[..i] + U[i..next];
    hide Dirs, InOrder;
  }

  lemma NoIntentIn(U: seq<Entry>, below: string, V: seq<Entry>)
    requires NoIntent(U, below) && Under(U, below) == V
    ensures forall e :: e in V ==> !e.mark.Intended?
  {
    hide Under;
  }

  lemma OnlyOne(down: seq<Sub>, pos: nat)
    requires InOrder(down) && pos < |down|
    ensures forall s :: s in down && s.name == down[pos].name ==> s == down[pos]
  {
    forall s | s in down && s.name == down[pos].name ensures s == down[pos] {
      var j :| 0 <= j < |down| && down[j] == s;
      FoundAt(down, j);
      FoundAt(down, pos);
    }
  }

  lemma BuildStarts(flags: WriteFlags, hash: string -> Sha, has: set<Sha>, U: seq<Entry>, base: string, down: seq<Sub>)
    requires WellNamed(U) && AllIn(U, base) && Level(U, |base|)
    ensures Building(flags, hash, has, U, base, down, 0, "", false, Inner(U, |base|))
  {
    assert U[0..] == U && U[..0] == [];
  }

  /** The step over a subdirectory, from what the first loop left. */
  lemma BuildSub(tight: bool, keep: bool, flags: WriteFlags, hash: string -> Sha, has: set<Sha>,
      U: seq<Entry>, base: string, i: nat, t: Tree, pos: nat, name: string, sub: Tree, next: int, buffer: string,
      toInvalidate: bool, skip: nat, line: string)
    requires Sorted(U) && AllIn(U, base) && i < |U| && Cut(U, base, i) && IsDir(U[i], |base|)
    requires Collected(tight, keep, flags, hash, has, U, base, t)
    requires pos < |t.down| && t.down[pos].name == name == Component(U[i], |base|)
    requires t.down[pos].tree == Some(sub) && next == i + t.down[pos].count && line == Line(S_IFDIR, name, sub.sha1)
    requires Building(flags, hash, has, U, base, t.down, i, buffer, toInvalidate, skip)
    ensures i < next <= |U| && Cut(U, base, next)
    ensures Building(flags, hash, has, U, base, t.down, next, buffer + Shown(U[i], line),
              toInvalidate || sub.count < 0 || U[i].mark.Intended?, skip + One(U[i]))
  {
    hide *;
    Longer(U, base, i);
    var below := Deeper(base, name);
    var k := Run(U[i..], below);
    DirStep(U, base, i, name, below, k);
    ChildLine(tight, keep, flags, hash, has, U, base, t, pos);
    CountIsRun(flags, hash, has, U, base, t.down[pos], i, k);
    SureBelow(flags, hash, has, U, base, name, below);
    LevelFrom(U, base, next);
    BuildDir(flags, hash, has, U, base, t.down, i, buffer, toInvalidate, skip, name, below, k, pos, line);
  }

  lemma Longer(U: seq<Entry>, base: string, i: nat)
    requires Sorted(U) && AllIn(U, base) && i < |U|
    ensures WellNamed(U) && |base| < |U[i].name|
  {
    assert U[i] in U;
  }

  lemma CountIsRun(flags: WriteFlags, hash: string -> Sha, has: set<Sha>, U: seq<Entry>, base: string, s: Sub, i: nat,
      k: nat)
    requires Done(flags, hash, has, U, base, s) && i + k <= |U| && Under(U, Deeper(base, s.name)) == U[i..i + k]
    ensures s.count == k && s.tree.Some? &&
      (Sure(flags, hash, has, U, Deeper(base, s.name)) ==> s.tree.value.count >= 0)
  {
  }

  lemma BuildEntry(flags: WriteFlags, hash: string -> Sha, has: set<Sha>, U: seq<Entry>, base: string, down: seq<Sub>,
      i: nat, buffer: string, toInvalidate: bool, skip: nat)
    requires Sorted(U) && AllIn(U, base) && i < |U| && Cut(U, base, i) && !IsDir(U[i], |base|)
    requires Building(flags, hash, has, U, base, down, i, buffer, toInvalidate, skip)
    ensures Cut(U, base, i + 1)
    ensures Building(flags, hash, has, U, base, down, i + 1,
              buffer + Shown(U[i], Line(U[i].mode, U[i].name[|base|..], U[i].sha1)),
              toInvalidate || U[i].mark.Intended?, skip + One(U[i]))
  {
    FileStep(U, base, i);
    LevelFrom(U, base, i + 1);
    hide Line, Buffer, Sorted, Cut, Dirs, Building, Shown;
    BuildFile(flags, hash, has, U, base, down, i, buffer, toInvalidate, skip,
      Line(U[i].mode, U[i].name[|base|..], U[i].sha1));
  }

  lemma AbleSub(tight: bool, keep: bool, flags: WriteFlags, writable: bool, hash: string -> Sha, has: set<Sha>,
      U: seq<Entry>, base: string, t: Tree, pos: nat)
    requires WellNamed(U) && Collected(tight, keep, flags, hash, has, U, base, t) && pos < |t.down|
    requires t.down[pos].tree.Some?
    ensures Able(flags, writable, has, U) ==> flags.missingOk || t.down[pos].tree.value.sha1 in has
  {
    ChildLine(tight, keep, flags, hash, has, U, base, t, pos);
  }

  lemma AbleEntry(flags: WriteFlags, writable: bool, has: set<Sha>, U: seq<Entry>, i: nat)
    requires i < |U|
    ensures Able(flags, writable, has, U) ==> flags.missingOk || U[i].mode == S_IFGITLINK || U[i].sha1 in has
  {
    assert U[i] in U;
  }

  /** All lines made: the buffer is the tree object made from scratch. */
  lemma Built(flags: WriteFlags, hash: string -> Sha, has: set<Sha>, U: seq<Entry>, base: string, down: seq<Sub>,
      buffer: string, toInvalidate: bool, skip: nat)
    requires WellNamed(U) && AllIn(U, base)
    requires Names(down) == Dirs(U, base)
    requires Building(flags, hash, has, U, base, down, |U|, buffer, toInvalidate, skip)
    ensures Sure(flags, hash, has, U, base) ==> !toInvalidate
    ensures Right(flags, toInvalidate) ==> hash(buffer) == TreeHash(hash, U, base)
    ensures !toInvalidate ==> NoIntent(U, base) && forall s :: s in down ==> s.tree.Some? && s.tree.value.count >= 0
    ensures skip == Skips(U, base)
  {
    UnderAll(U, base);
    assert U[..|U|] == U && U[|U|..] == [];
    assert buffer + "" == buffer;
    hide Sure, Dirs;
  }

  // ---- What is skipped in the first loop ----------------------------------------------------

  /** The subdirectories so far and those still to come make what the subdirectories count as skipped. */
  ghost predicate Skipping(U: seq<Entry>, base: string, i: nat, skip: nat) {
    && i <= |U| && Level(U, |base|) && Level(U[i..], |base|)
    && skip + Inner(U[i..], |base|) == Inner(U, |base|)
  }

  lemma SkippingStarts(U: seq<Entry>, base: string)
    requires WellNamed(U) && AllIn(U, base)
    ensures Skipping(U, base, 0, 0)
  {
    assert U[0..] == U;
    LevelFrom(U, base, 0);
  }

  lemma SkippingFile(hash: string -> Sha, U: seq<Entry>, base: string, i: nat, skip: nat)
    requires Skipping(U, base, i, skip) && i < |U| && !IsDir(U[i], |base|)
    ensures Skipping(U, base, i + 1, skip)
  {
    BufferFile(hash, U, |base|, i);
    hide Inner, Outer, Buffer, IsDir;
  }

  lemma SkippingDir(hash: string -> Sha, U: seq<Entry>, base: string, i: nat, skip: nat, name: string, below: string,
      k: nat)
    requires WellNamed(U) && AllIn(U, base) && i < |U| && IsDir(U[i], |base|) && k > 0 && i + k <= |U|
    requires name == Component(U[i], |base|) && below == Deeper(base, name) && k == Run(U[i..], below)
    requires Under(U, below) == U[i..i + k] && Skipping(U, base, i, skip)
    ensures Skipping(U, base, i + k, skip + Skips(U, below))
  {
    BufferDir(hash, U, base, i, name, below, k);
    hide Inner, Outer, Buffer, IsDir, Skips, Run, Component, Under, Deeper, In;
  }

  ghost predicate LevelFits(U: seq<Entry>, base: string) {
    Level(U, |base|)
  }

  lemma SkippingDone(U: seq<Entry>, base: string, skip: nat)
    requires Skipping(U, base, |U|, skip)
    ensures LevelFits(U, base) && skip == Inner(U, |base|)
  {
    assert U[|U|..] == [];
  }

  // ---- What still waits for the first loop --------------------------------------------------

  /** Below a known subtree not used yet no entry is marked for removal. */
  ghost predicate Waiting(U: seq<Entry>, base: string, down: seq<Sub>) {
    forall i {:trigger down[i]} :: 0 <= i < |down| && !down[i].used && down[i].tree.Some? ==>
      Unskipped(U, down[i].tree.value, Deeper(base, down[i].name))
  }

  lemma WaitingStarts(U: seq<Entry>, base: string, t: Tree)
    requires Unskipped(U, t, base)
    ensures Waiting(U, base, Unused(t.down))
  {
    hide Deeper;
    UnskippedBelow(U, t, base);
    hide Unskipped;
  }

  lemma WaitingOpened(U: seq<Entry>, base: string, before: seq<Sub>, name: string, pos: nat, after: seq<Sub>)
    requires Waiting(U, base, before) && Opened(before, name, pos, after) && InOrder(after)
    ensures Waiting(U, base, after)
  {
    var mid := OpenedMid(before, name, pos, after);
    UnknownUnskipped(U, Tree(-1, NULL_SHA, []), Deeper(base, name));
    hide Unskipped, Deeper, Opened, InOrder;
    forall i | 0 <= i < |mid| && !mid[i].used && mid[i].tree.Some?
      ensures Unskipped(U, mid[i].tree.value, Deeper(base, mid[i].name))
    {
      if mid != before {
        assert mid[i] == before[if i < pos then i else i - 1];
      }
    }
  }

  lemma WaitingSub(U: seq<Entry>, base: string, down: seq<Sub>, pos: nat, cache: seq<Entry>, below: string)
    requires Waiting(U, base, down) && pos < |down| && !down[pos].used && down[pos].tree.Some?
    requires below == Deeper(base, down[pos].name) && Under(cache, below) == Under(U, below)
    ensures Unskipped(cache, down[pos].tree.value, below)
  {
    UnskippedSame(U, cache, down[pos].tree.value, below);
  }

  lemma WaitingMarked(U: seq<Entry>, base: string, down: seq<Sub>, pos: nat, s: Sub)
    requires Waiting(U, base, down) && pos < |down| && s.used
    ensures Waiting(U, base, down[pos := s])
  {
    hide Unskipped, Deeper;
  }

  /** A known node without entries marked for removal is sure to stay known. */
  lemma KnownIsSure(flags: WriteFlags, hash: string -> Sha, has: set<Sha>, U: seq<Entry>, t: Tree, base: string)
    requires WellNamed(U) && NodeRight(hash, U, t, base) && Unskipped(U, t, base)
    ensures !flags.repair && t.count >= 0 ==> Sure(flags, hash, has, U, base) && Skips(U, base) == 0
  {
    hide Unskipped, TreeHash;
    if t.count >= 0 {
      KnownUnskipped(U, t, base);
      UnderIn(U, base);
      forall p | base <= p ensures Skips(U, p) == 0 {
        UnderIn(U, p);
        assert forall e :: e in Under(U, p) ==> e in U && In(e, p);
        assert NoneRemoved(U, p);
        NoneSkipped(U, p);
      }
    }
  }

  lemma KnownUnskipped(U: seq<Entry>, t: Tree, base: string)
    requires Unskipped(U, t, base) && t.count >= 0
    ensures NoneRemoved(U, base)
  {}

  lemma NoneSkipped(U: seq<Entry>, p: string)
    requires WellNamed(U) && NoneRemoved(U, p)
    ensures Skips(U, p) == 0
  {
    UnderIn(U, p);
    InnerNone(Under(U, p), |p|);
  }

  lemma {:induction false} InnerNone(E: seq<Entry>, n: nat)
    requires Level(E, n) && forall e :: e in E ==> !e.mark.Removed?
    ensures Inner(E, n) == 0 && Outer(E, n) == 0
    decreases |E|, if E == [] then 0 else |E[0].name| - n
  {
    if E != [] {
      if !IsDir(E[0], n) {
        InnerNone(E[1..], n);
      } else {
        var below := Front(E[0], n);
        var k := Run(E, below);
        FrontRuns(E, n);
        InnerNone(E[..k], |below|);
        InnerNone(E[k..], n);
      }
    }
  }

  lemma FrontRuns(E: seq<Entry>, n: nat)
    requires Level(E, n) && E != [] && IsDir(E[0], n)
    ensures var below := Front(E[0], n); var k := Run(E, below);
      k > 0 && Level(E[..k], |below|) && Level(E[k..], n) && n < |below| < |E[0].name|
  {
    assert In(E[0], Front(E[0], n));
    LevelBelow(E, n, Front(E[0], n), Run(E, Front(E[0], n)));
  }

  // ---- Picking the used ones ----------------------------------------------------------------

  /** The used ones among the first `src` stand at the places `at`. */
  ghost predicate Picked(down: seq<Sub>, src: nat, at: seq<nat>) {
    && src <= |down|
    && (forall j {:trigger at[j]} :: 0 <= j < |at| ==> at[j] < src)
    && (forall j, k {:trigger at[j], at[k]} :: 0 <= j < k < |at| ==> at[j] < at[k])
    && |UsedOnly(down[..src])| == |at|
    && (forall j {:trigger at[j]} :: 0 <= j < |at| ==> UsedOnly(down[..src])[j] == down[at[j]])
  }

  lemma PickNext(down: seq<Sub>, src: nat, at: seq<nat>)
    requires Picked(down, src, at) && src < |down|
    ensures Picked(down, src + 1, if down[src].used then at + [src] else at)
  {
    assert down[..src + 1][..src] == down[..src];
  }

  lemma PickedAll(down: seq<Sub>, at: seq<nat>)
    requires Picked(down, |down|, at)
    ensures |UsedOnly(down)| == |at|
    ensures forall j {:trigger at[j]} :: 0 <= j < |at| ==> UsedOnly(down)[j] == down[at[j]]
  {
    assert down[..|down|] == down;
  }

  lemma ScanStarts(tight: bool, flags: WriteFlags, hash: string -> Sha, has: set<Sha>, U: seq<Entry>, base: string,
      t: Tree)
    requires WellNamed(U) && Shaped(t) && Sound(tight, hash, U, t, base)
    ensures Scanning(tight, Keeps(tight, flags, t), flags, hash, has, U, base, 0, t.(down := Unused(t.down)))
  {
    var after := Unused(t.down);
    assert U[..0] == [];
    UnusedNames(t.down);
    hide Before, Dirs;
    assert forall i {:trigger after[i]} :: 0 <= i < |after| ==> after[i] == t.down[i].(used := false);
  }

  lemma UnusedNames(down: seq<Sub>)
    ensures Names(Unused(down)) == Names(down) && UsedNames(Unused(down)) == {}
    ensures forall s :: s in Unused(down) ==> !s.used && exists d :: d in down && s == d.(used := false)
  {
    var after := Unused(down);
    forall s | s in down ensures s.(used := false) in after {
      var i :| 0 <= i < |down| && down[i] == s;
      assert after[i] == s.(used := false);
    }
  }

  lemma PickStarts(down: seq<Sub>)
    ensures Picked(down, 0, [])
  {
  }

  lemma AbleWrites(flags: WriteFlags, writable: bool, has: set<Sha>, U: seq<Entry>)
    ensures Able(flags, writable, has, U) && Writes(flags) ==> writable
  {
  }
}
