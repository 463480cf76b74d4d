/** Tree objects read back: what a tree object, and so the hash of a tree, says of the index. */
module TreeText {
  import opened Basics
  import opened CacheIndex
  import opened CacheUpdate
  import opened IndexMarks

  // ---- Reading a tree object ----------------------------------------------------------------

  /** One line of a tree object, read. */
  datatype TreeLine = TreeLine(mode: nat, name: string, sha1: Sha)

  predicate IsOctal(c: char) {
    '0' <= c <= '7'
  }

  /** The mode in octal digits up to the blank. */
  function ReadMode(s: string, mode: nat): Option<(nat, string)> {
    if s == "" then None
    else if s[0] == ' ' then Some((mode, s[1..]))
    else if IsOctal(s[0]) then ReadMode(s[1..], 8 * mode + (s[0] - '0') as nat)
    else None
  }

  /** The name up to the NUL. */
  function ReadName(s: string): (r: Option<(string, string)>)
    ensures r.Some? ==> |r.value.1| < |s|
  {
    if s == "" then None
    else if s[0] == '\0' then Some(("", s[1..]))
    else
      var rest := ReadName(s[1..]);
      if rest.None? then None else Some(([s[0]] + rest.value.0, rest.value.1))
  }

  lemma {:induction false} ModeShortens(s: string, mode: nat)
    ensures ReadMode(s, mode).Some? ==> |ReadMode(s, mode).value.1| < |s|
  {
    if s != "" && s[0] != ' ' && IsOctal(s[0]) {
      ModeShortens(s[1..], 8 * mode + (s[0] - '0') as nat);
    }
  }

  /** A line: mode, name and the twenty bytes of an object name. */
  function ReadLine(s: string): (r: Option<(TreeLine, string)>)
    ensures r.Some? ==> |r.value.1| < |s|
  {
    ModeShortens(s, 0);
    var m := ReadMode(s, 0);
    if m.None? then None
    else
      var n := ReadName(m.value.1);
      if n.None? || |n.value.1| < 20 then None
      else
        var sha1: Sha := n.value.1[..20];
        Some((TreeLine(m.value.0, n.value.0, sha1), n.value.1[20..]))
  }

  function ReadTree(s: string): Option<seq<TreeLine>>
    decreases |s|
  {
    if s == "" then Some([])
    else
      var l := ReadLine(s);
      if l.None? then None
      else
        var rest := ReadTree(l.value.1);
        if rest.None? then None else Some([l.value.0] + rest.value)
  }

  // ---- Reading undoes writing ---------------------------------------------------------------

  lemma ReadDigit(d: nat, mode: nat, rest: string)
    requires d < 8
    ensures ReadMode([d as char + '0'] + rest, mode) == ReadMode(rest, 8 * mode + d)
  {
    assert ([d as char + '0'] + rest)[1..] == rest;
  }

  lemma {:induction false} ReadOctal(n: nat, rest: string)
    ensures ReadMode(Octal(n) + rest, 0) == ReadMode(rest, n)
    decreases n
  {
    hide ReadMode;
    if n < 8 {
      assert Octal(n) + rest == [n as char + '0'] + rest;
      ReadDigit(n, 0, rest);
    } else {
      var last := [(n % 8) as char + '0'];
      assert Octal(n) + rest == Octal(n / 8) + (last + rest);
      ReadOctal(n / 8, last + rest);
      ReadDigit(n % 8, n / 8, rest);
    }
  }

  lemma {:induction false} ReadPlainName(name: string, rest: string)
    requires '\0' !in name
    ensures ReadName(name + "\0" + rest) == Some((name, rest))
  {
    if name == "" {
      assert name + "\0" + rest == ['\0'] + rest;
    } else {
      ReadPlainName(name[1..], rest);
      assert (name + "\0" + rest)[1..] == name[1..] + "\0" + rest;
      assert [name[0]] + name[1..] == name;
    }
  }

  /** A line written is read back, whatever follows. */
  lemma LineReadBack(mode: nat, name: string, sha1: Sha, rest: string)
    requires '\0' !in name
    ensures ReadLine(Line(mode, name, sha1) + rest) == Some((TreeLine(mode, name, sha1), rest))
  {
    var s := Line(mode, name, sha1) + rest;
    var behind := name + "\0" + (sha1 + rest);
    assert s == Octal(mode) + (" " + behind);
    ReadOctal(mode, " " + behind);
    assert (" " + behind)[1..] == behind;
    assert ReadMode(s, 0) == Some((mode, behind));
    ReadPlainName(name, sha1 + rest);
    assert (sha1 + rest)[..20] == sha1 && (sha1 + rest)[20..] == rest;
  }

  // ---- The lines of a directory -------------------------------------------------------------

  /** What an index can hold: no name with a NUL, no file with the mode of a directory. */
  ghost predicate Storable(E: seq<Entry>) {
    forall e :: e in E ==> '\0' !in e.name && e.mode != S_IFDIR
  }

  /** The lines of a directory, given the entries below it, with the first `n` characters of each name common. */
  ghost function TreeLines(hash: string -> Sha, E: seq<Entry>, n: nat): seq<TreeLine>
    requires Level(E, n)
    decreases |E|
  {
    if E == [] then []
    else
      var isDir := IsDir(E[0], n);
      if isDir then FrontRuns(E, n); LinesOfDir(hash, E, n) + TreeLines(hash, E[Run(E, Front(E[0], n))..], n)
      else LinesOfFile(E[0], n) + TreeLines(hash, E[1..], n)
  }

  ghost function LinesOfFile(e: Entry, n: nat): seq<TreeLine>
    requires n < |e.name|
  {
    if e.mark.Live? then [TreeLine(e.mode, e.name[n..], e.sha1)] else []
  }

  ghost function LinesOfDir(hash: string -> Sha, E: seq<Entry>, n: nat): seq<TreeLine>
    requires Level(E, n) && E != [] && IsDir(E[0], n)
  {
    FrontRuns(E, n);
    var below := Front(E[0], n);
    if E[0].mark.Live? then
      [TreeLine(S_IFDIR, Component(E[0], n), hash(Buffer(hash, E[..Run(E, below)], |below|)))]
    else []
  }

  lemma PartsNulFree(e: Entry, n: nat)
    requires n < |e.name| && '\0' !in e.name
    ensures '\0' !in e.name[n..] && '\0' !in Component(e, n)
  {}

  /** Reading the tree object of a directory gives its lines. */
  lemma {:induction false} TreeReadBack(hash: string -> Sha, E: seq<Entry>, n: nat)
    requires Level(E, n) && Storable(E)
    ensures ReadTree(Buffer(hash, E, n)) == Some(TreeLines(hash, E, n))
    decreases |E|
  {
    if E != [] {
      PartsNulFree(E[0], n);
      if IsDir(E[0], n) {
        var below := Front(E[0], n);
        FrontRuns(E, n);
        TreeReadBack(hash, E[Run(E, below)..], n);
        BufferFirst(hash, E, n, below);
        var sha1 := hash(Buffer(hash, E[..Run(E, below)], |below|));
        OneLine(E[0], S_IFDIR, Component(E[0], n), sha1, Buffer(hash, E[Run(E, below)..], n));
      } else {
        TreeReadBack(hash, E[1..], n);
        OneLine(E[0], E[0].mode, E[0].name[n..], E[0].sha1, Buffer(hash, E[1..], n));
      }
    }
  }

  lemma OneLine(e: Entry, mode: nat, name: string, sha1: Sha, rest: string)
    requires '\0' !in name && ReadTree(rest).Some?
    ensures ReadTree(Then(Shown(e, Line(mode, name, sha1)), rest)) ==
      Some((if e.mark.Live? then [TreeLine(mode, name, sha1)] else []) + ReadTree(rest).value)
  {
    hide Line, ReadLine;
    if e.mark.Live? {
      LineReadBack(mode, name, sha1, rest);
      NothingToRead();
    } else {
      assert "" + rest == rest && [] + ReadTree(rest).value == ReadTree(rest).value;
    }
  }

  lemma NothingToRead()
    ensures ReadLine("") == None
  {}

  // ---- What the lines say -------------------------------------------------------------------

  /** A line for a file that stands directly in the directory. */
  ghost predicate FileSays(e: Entry, base: string, l: TreeLine) {
    && e.mark.Live? && '/' !in l.name && e.name == base + l.name
    && l.mode == e.mode && l.sha1 == e.sha1
  }

  /** A line for a subdirectory: its first entry is live, and the line holds the name of its tree object. */
  ghost predicate DirSays(hash: string -> Sha, E: seq<Entry>, e: Entry, base: string, l: TreeLine)
    requires WellNamed(E)
  {
    && e.mark.Live? && '/' !in l.name && base + l.name + "/" <= e.name
    && (forall d :: d in E && base + l.name + "/" <= d.name ==> d == e || Less(e.name, d.name))
    && l.mode == 0x4000 && l.sha1 == TreeHash(hash, E, base + l.name + "/")
  }

  lemma FileHas(e: Entry, base: string, l: TreeLine)
    requires In(e, base) && Proper(e.name) && !IsDir(e, |base|)
    ensures l in LinesOfFile(e, |base|) <==> FileSays(e, base, l)
    ensures '/' in l.name || !(base + l.name + "/" <= e.name)
  {
    var n := |base|;
    assert e.name[..n] == base && e.name == base + e.name[n..];
    ComponentPlain(e, base);
    assert Slash(e.name, n) == |e.name| && e.name[n..|e.name|] == e.name[n..];
    var k := n + |l.name|;
    assert (base + l.name + "/")[k] == '/';
    if k < |e.name| {
      assert e.name[k] != '/';
    }
  }

  lemma DirHas(e: Entry, base: string, l: TreeLine)
    requires In(e, base) && Proper(e.name) && IsDir(e, |base|)
    ensures !FileSays(e, base, l)
    ensures '/' !in l.name && base + l.name + "/" <= e.name <==> l.name == Component(e, |base|)
  {
    var n, c := |base|, Component(e, |base|);
    ComponentPlain(e, base);
    if '/' !in l.name {
      assert base + l.name + "/" == Deeper(base, l.name);
      ProperPrefix(e, Deeper(base, l.name));
      InDeeper(e, base, l.name);
    }
  }

  lemma ProperPrefix(e: Entry, below: string)
    requires Proper(e.name) && below != "" && below[|below| - 1] == '/'
    ensures In(e, below) <==> below <= e.name
  {
    assert below <= e.name && |below| == |e.name| ==> below == e.name;
  }

  /** Some entry of `S` accounts for the line. */
  ghost predicate Accounted(hash: string -> Sha, E: seq<Entry>, S: seq<Entry>, base: string, l: TreeLine)
    requires WellNamed(E)
  {
    exists e :: e in S && (FileSays(e, base, l) || DirSays(hash, E, e, base, l))
  }

  lemma AccountedBoth(hash: string -> Sha, E: seq<Entry>, S: seq<Entry>, T: seq<Entry>, base: string, l: TreeLine)
    requires WellNamed(E)
    ensures Accounted(hash, E, S + T, base, l) <==> Accounted(hash, E, S, base, l) || Accounted(hash, E, T, base, l)
  {
    hide FileSays, DirSays;
  }

  lemma LevelFrom(E: seq<Entry>, base: string, i: nat)
    requires Sorted(E) && AllIn(E, base) && i <= |E|
    ensures Level(E[i..], |base|) && WellNamed(E)
    ensures i < |E| ==>
      E[i..][0] == E[i] && E[i] in E && In(E[i], base) && Proper(E[i].name) && E[i..][1..] == E[i + 1..]
    ensures i < |E| ==> |base| < |E[i].name|
  {
    assert forall e :: e in E[i..] ==> e in E;
  }

  lemma LinesDir(hash: string -> Sha, rest: seq<Entry>, n: nat)
    requires Level(rest, n) && rest != [] && IsDir(rest[0], n)
    ensures var k := Run(rest, Front(rest[0], n));
      Level(rest[k..], n) && TreeLines(hash, rest, n) == LinesOfDir(hash, rest, n) + TreeLines(hash, rest[k..], n)
  {
    FrontRuns(rest, n);
    hide Run, LinesOfDir, Front, IsDir, Level;
  }

  lemma LinesFile(hash: string -> Sha, rest: seq<Entry>, n: nat)
    requires Level(rest, n) && rest != [] && !IsDir(rest[0], n)
    ensures n < |rest[0].name| && Level(rest[1..], n)
    ensures TreeLines(hash, rest, n) == LinesOfFile(rest[0], n) + TreeLines(hash, rest[1..], n)
  {
    hide LinesOfFile, LinesOfDir, IsDir;
  }

  lemma NoLines(hash: string -> Sha, E: seq<Entry>, base: string, l: TreeLine)
    requires WellNamed(E)
    ensures TreeLines(hash, [], |base|) == [] && !Accounted(hash, E, [], base, l)
  {}

  /** The lines from the i-th entry on. */
  lemma {:induction false} LinesFrom(hash: string -> Sha, E: seq<Entry>, base: string, i: nat, l: TreeLine)
    requires Sorted(E) && AllIn(E, base) && i <= |E| && Cut(E, base, i)
    ensures Level(E[i..], |base|) && WellNamed(E)
    ensures l in TreeLines(hash, E[i..], |base|) <==> Accounted(hash, E, E[i..], base, l)
    decreases |E| - i
  {
    hide *;
    var n, rest := |base|, E[i..];
    LevelFrom(E, base, i);
    if i == |E| {
      assert rest == [];
      NoLines(hash, E, base, l);
    } else if IsDir(E[i], n) {
      var name := Component(E[i], n);
      var below := Deeper(base, name);
      var k := Run(rest, below);
      ComponentPlain(E[i], base);
      DirStep(E, base, i, name, below, k);
      LinesFrom(hash, E, base, i + k, l);
      DirLinesAre(hash, E, base, i, k, l);
      LinesDir(hash, rest, n);
      Slices(E, i, k);
      assert rest == E[i..i + k] + E[i + k..];
      AccountedBoth(hash, E, E[i..i + k], E[i + k..], base, l);
    } else {
      FileStep(E, base, i);
      LinesFrom(hash, E, base, i + 1, l);
      FileIs(hash, E, E[i], base, l);
      LinesFile(hash, rest, n);
      assert rest == [E[i]] + E[i + 1..];
      AccountedBoth(hash, E, [E[i]], E[i + 1..], base, l);
    }
  }

  lemma FileIs(hash: string -> Sha, E: seq<Entry>, e: Entry, base: string, l: TreeLine)
    requires WellNamed(E) && In(e, base) && Proper(e.name) && !IsDir(e, |base|)
    ensures l in LinesOfFile(e, |base|) <==> Accounted(hash, E, [e], base, l)
  {
    FileHas(e, base, l);
    assert e in [e];
    hide FileSays, LinesOfFile, IsDir;
  }

  /** The line of the subdirectory that begins with the i-th entry. */
  lemma DirLinesAre(hash: string -> Sha, E: seq<Entry>, base: string, i: nat, k: nat, l: TreeLine)
    requires Sorted(E) && AllIn(E, base) && i < |E| && IsDir(E[i], |base|) && k > 0 && i + k <= |E|
    requires k == Run(E[i..], Deeper(base, Component(E[i], |base|)))
    requires Under(E, Deeper(base, Component(E[i], |base|))) == E[i..i + k]
    ensures Level(E[i..], |base|) && WellNamed(E) && E[i..][0] == E[i]
    ensures l in LinesOfDir(hash, E[i..], |base|) <==> Accounted(hash, E, E[i..i + k], base, l)
  {
    hide *;
    LevelFrom(E, base, i);
    var n, name := |base|, Component(E[i], |base|);
    var rest, run := E[i..], E[i..i + k];
    assert rest[..k] == run && run[0] == E[i] && E[i] in run;
    ComponentPlain(E[i], base);
    DirLinesHash(hash, E, rest, n, Deeper(base, name), k);
    forall e | e in run
      ensures FileSays(e, base, l) || DirSays(hash, E, e, base, l) <==> e == E[i] && l in LinesOfDir(hash, rest, n)
    {
      EntryOfRun(hash, E, base, i, k, name, e, l);
    }
    AccountedBy(hash, E, run, base, l);
  }

  lemma AccountedBy(hash: string -> Sha, E: seq<Entry>, S: seq<Entry>, base: string, l: TreeLine)
    requires WellNamed(E)
    ensures Accounted(hash, E, S, base, l) <==>
      exists e :: e in S && (FileSays(e, base, l) || DirSays(hash, E, e, base, l))
  {}

  lemma DirLinesHash(hash: string -> Sha, E: seq<Entry>, rest: seq<Entry>, n: nat, below: string, k: nat)
    requires Level(rest, n) && rest != [] && IsDir(rest[0], n) && below == Front(rest[0], n) && k == Run(rest, below)
    requires WellNamed(E) && Under(E, below) == rest[..k]
    ensures LinesOfDir(hash, rest, n) == if rest[0].mark.Live?
      then [TreeLine(S_IFDIR, Component(rest[0], n), TreeHash(hash, E, below))] else []
  {
    UnderIn(E, below);
    hide Buffer, Run, Component, IsDir, Front;
  }

  lemma EntryOfRun(hash: string -> Sha, E: seq<Entry>, base: string, i: nat, k: nat, name: string, e: Entry,
      l: TreeLine)
    requires Sorted(E) && AllIn(E, base) && i < |E| && IsDir(E[i], |base|) && k > 0 && i + k <= |E|
    requires name == Component(E[i], |base|) && Under(E, Deeper(base, name)) == E[i..i + k] && e in E[i..i + k]
    ensures !FileSays(e, base, l)
    ensures DirSays(hash, E, e, base, l) <==>
      e == E[i] && E[i].mark.Live? && l == TreeLine(S_IFDIR, name, TreeHash(hash, E, Deeper(base, name)))
  {
    var below := Deeper(base, name);
    ComponentPlain(E[i], base);
    UnderIn(E, below);
    InDeeper(e, base, name);
    DirHas(e, base, l);
    forall d | d in E ensures below <= d.name <==> d in E[i..i + k] {
      ProperPrefix(d, below);
    }
    FirstOfRun(E, i, k, e, below);
    hide TreeHash, Run, Under, Component, Slash, Sorted, IsDir, In, Less, FileSays;
  }

  /** Of the entries of a subdirectory only the first has none before it. */
  lemma FirstOfRun(E: seq<Entry>, i: nat, k: nat, e: Entry, below: string)
    requires Sorted(E) && i + k <= |E| && e in E[i..i + k]
    requires forall d :: d in E ==> (below <= d.name <==> d in E[i..i + k])
    ensures (forall d :: d in E && below <= d.name ==> d == e || Less(e.name, d.name)) <==> e == E[i]
  {
    hide Less, Proper;
    var m :| i <= m < i + k && E[m] == e;
    assert E[i] == E[i..i + k][0];
    LessTotal(E[i].name, e.name);
    forall d | d in E && below <= d.name ensures d == E[i] || Less(E[i].name, d.name) {
      var o :| 0 <= o < |E[i..i + k]| && E[i..i + k][o] == d;
      assert E[i + o] == d;
    }
  }

  /** Each line accounts for an entry of the directory, and each live one that is not lost has its line. */
  lemma TreeLinesAre(hash: string -> Sha, E: seq<Entry>, base: string, l: TreeLine)
    requires Sorted(E) && AllIn(E, base)
    ensures Level(E, |base|) && (l in TreeLines(hash, E, |base|) <==> Accounted(hash, E, E, base, l))
  {
    assert E[0..] == E && E[..0] == [];
    LinesFrom(hash, E, base, 0, l);
  }

  // ---- The order of the lines ---------------------------------------------------------------

  /** What a line is sorted by: a directory as if its name ended in a slash. */
  function Key(l: TreeLine): string {
    if l.mode == 0x4000 then l.name + "/" else l.name
  }

  ghost predicate Ascending(lines: seq<TreeLine>) {
    forall i, j :: 0 <= i < j < |lines| ==> Less(Key(lines[i]), Key(lines[j]))
  }

  /** A common beginning does not matter. */
  lemma {:induction false} LessBehind(base: string, p: string, q: string)
    requires base <= p && base <= q
    ensures Less(p, q) <==> Less(p[|base|..], q[|base|..])
  {
    if base != "" {
      assert p[0] == base[0] == q[0];
      LessBehind(base[1..], p[1..], q[1..]);
      assert p[1..][|base| - 1..] == p[|base|..] && q[1..][|base| - 1..] == q[|base|..];
    }
  }

  /** What is less than a text is less than what it begins with, unless it begins with that itself. */
  lemma {:induction false} LessThanFront(a: string, b: string, x: string)
    requires Less(a, x) && b <= x && !(b <= a)
    ensures Less(a, b)
  {
    if a != "" && a[0] == x[0] {
      assert b[0] == x[0];
      LessThanFront(a[1..], b[1..], x[1..]);
    }
  }

  /** A line that some entry accounts for is sorted by the front of the entry's name: all of it, or up to a slash. */
  lemma KeyOf(hash: string -> Sha, E: seq<Entry>, S: seq<Entry>, base: string, l: TreeLine) returns (e: Entry)
    requires WellNamed(E) && Storable(E) && (forall x :: x in S ==> x in E && In(x, base)) &&
      Accounted(hash, E, S, base, l)
    ensures e in S && In(e, base) && Key(l) <= e.name[|base|..]
    ensures Key(l) == e.name[|base|..] || (Key(l) == l.name + "/" && '/' !in l.name)
  {
    e :| e in S && (FileSays(e, base, l) || DirSays(hash, E, e, base, l));
    if FileSays(e, base, l) {
      assert e.name[|base|..] == l.name;
    } else {
      assert base + l.name + "/" == base + (l.name + "/");
      assert (base + (l.name + "/"))[|base|..] == l.name + "/";
    }
  }

  /** The line of a file comes before those of all entries behind it. */
  lemma FileBefore(a: string, x: string, key: string, name: string)
    requires Less(a, x) && '/' !in a && key <= x && (key == x || key == name + "/")
    ensures Less(a, key)
  {
    if key != x {
      assert key[|name|] == '/';
      LessThanFront(a, key, x);
    }
  }

  /** The line of a subdirectory comes before those of all entries behind it. */
  lemma DirBefore(comp: string, first: string, x: string, key: string, name: string)
    requires '/' !in comp && comp + "/" <= first && |comp| + 1 < |first| && Less(first, x) && !(comp + "/" <= x)
    requires key <= x && (key == x || (key == name + "/" && '/' !in name))
    ensures Less(comp + "/", key)
  {
    var a := comp + "/";
    PrefixLess(a, first);
    LessTrans(a, first, x);
    if key != x {
      assert key[|name|] == '/';
      assert key <= a && |name| == |comp| ==> key == a;
      LessThanFront(a, key, x);
    }
  }

  lemma AscendingMore(head: seq<TreeLine>, rest: seq<TreeLine>)
    requires |head| <= 1 && Ascending(rest)
    requires forall h, l :: h in head && l in rest ==> Less(Key(h), Key(l))
    ensures Ascending(head + rest)
  {
    hide Less, Key;
    var all := head + rest;
    forall i, j | 0 <= i < j < |all| ensures Less(Key(all[i]), Key(all[j])) {
      assert all[j] == rest[j - |head|];
      if i < |head| {
        assert all[i] == head[i] && all[i] in head && rest[j - |head|] in rest;
      } else {
        assert all[i] == rest[i - |head|];
      }
    }
  }

  lemma NoneAscending(hash: string -> Sha, base: string)
    ensures Ascending(TreeLines(hash, [], |base|))
  {}

  /** The lines of a directory ascend, each name once. */
  lemma {:induction false} OrderFrom(hash: string -> Sha, E: seq<Entry>, base: string, i: nat)
    requires Sorted(E) && AllIn(E, base) && Storable(E) && i <= |E| && Cut(E, base, i)
    ensures Level(E[i..], |base|) && Ascending(TreeLines(hash, E[i..], |base|))
    decreases |E| - i
  {
    hide *;
    LevelFrom(E, base, i);
    var n, rest := |base|, E[i..];
    if i == |E| {
      assert rest == [];
      NoneAscending(hash, base);
    } else if IsDir(E[i], n) {
      var name := Component(E[i], n);
      var k := Run(rest, Deeper(base, name));
      ComponentPlain(E[i], base);
      DirStep(E, base, i, name, Deeper(base, name), k);
      OrderFrom(hash, E, base, i + k);
      LinesDir(hash, rest, n);
      Slices(E, i, k);
      forall h, l | h in LinesOfDir(hash, rest, n) && l in TreeLines(hash, E[i + k..], n) ensures Less(Key(h), Key(l)) {
        DirInOrder(hash, E, base, i, k, h, l);
      }
      OneDirLine(hash, rest, n);
      AscendingMore(LinesOfDir(hash, rest, n), TreeLines(hash, E[i + k..], n));
    } else {
      FileStep(E, base, i);
      OrderFrom(hash, E, base, i + 1);
      LinesFile(hash, rest, n);
      forall h, l | h in LinesOfFile(E[i], n) && l in TreeLines(hash, E[i + 1..], n) ensures Less(Key(h), Key(l)) {
        FileInOrder(hash, E, base, i, h, l);
      }
      OneFileLine(E[i], n);
      AscendingMore(LinesOfFile(E[i], n), TreeLines(hash, E[i + 1..], n));
    }
  }

  lemma OneDirLine(hash: string -> Sha, E: seq<Entry>, n: nat)
    requires Level(E, n) && E != [] && IsDir(E[0], n)
    ensures |LinesOfDir(hash, E, n)| <= 1
  {}

  lemma OneFileLine(e: Entry, n: nat)
    requires n < |e.name|
    ensures |LinesOfFile(e, n)| <= 1
  {}

  /** An entry further behind has the greater name. */
  lemma Behind(E: seq<Entry>, base: string, i: nat, j: nat, x: Entry)
    requires Sorted(E) && AllIn(E, base) && i < j <= |E| && x in E[j..]
    ensures x in E && |base| < |x.name| && |base| < |E[i].name| && Less(E[i].name[|base|..], x.name[|base|..])
    ensures forall d :: d in E[j..] ==> d in E && In(d, base)
  {
    var m :| 0 <= m < |E[j..]| && E[j..][m] == x;
    assert E[j + m] == x && E[i] in E && x in E;
    assert Less(E[i].name, E[j + m].name);
    assert base <= E[i].name && base <= x.name;
    hide Less;
    LessBehind(base, E[i].name, x.name);
  }

  lemma FileInOrder(hash: string -> Sha, E: seq<Entry>, base: string, i: nat, h: TreeLine, l: TreeLine)
    requires Sorted(E) && AllIn(E, base) && Storable(E) && i < |E| && Cut(E, base, i + 1) && !IsDir(E[i], |base|)
    requires |base| < |E[i].name| && h in LinesOfFile(E[i], |base|)
    requires Level(E[i + 1..], |base|) && l in TreeLines(hash, E[i + 1..], |base|)
    ensures Less(Key(h), Key(l))
  {
    hide *;
    LevelFrom(E, base, i);
    LinesFrom(hash, E, base, i + 1, l);
    AllBehind(E, base, i + 1);
    var x := KeyOf(hash, E, E[i + 1..], base, l);
    Behind(E, base, i, i + 1, x);
    FileKey(E, E[i], base, h);
    FileBefore(Key(h), x.name[|base|..], Key(l), l.name);
  }

  lemma AllBehind(E: seq<Entry>, base: string, j: nat)
    requires AllIn(E, base) && j <= |E|
    ensures forall d :: d in E[j..] ==> d in E && In(d, base)
  {}

  lemma FileKey(E: seq<Entry>, e: Entry, base: string, h: TreeLine)
    requires e in E && Storable(E) && In(e, base) && !IsDir(e, |base|) && h in LinesOfFile(e, |base|)
    ensures Key(h) == e.name[|base|..] && '/' !in Key(h)
  {
    ComponentPlain(e, base);
    assert Slash(e.name, |base|) == |e.name| && e.name[|base|..] == e.name[|base|..|e.name|];
  }

  lemma DirInOrder(hash: string -> Sha, E: seq<Entry>, base: string, i: nat, k: nat, h: TreeLine, l: TreeLine)
    requires Sorted(E) && AllIn(E, base) && Storable(E) && i < i + k <= |E| && Cut(E, base, i + k) &&
      IsDir(E[i], |base|)
    requires k == Run(E[i..], Deeper(base, Component(E[i], |base|)))
    requires Level(E[i..], |base|) && E[i..][0] == E[i] && h in LinesOfDir(hash, E[i..], |base|)
    requires Level(E[i + k..], |base|) && l in TreeLines(hash, E[i + k..], |base|)
    requires Under(E, Deeper(base, Component(E[i], |base|))) == E[i..i + k]
    ensures Less(Key(h), Key(l))
  {
    hide *;
    LevelFrom(E, base, i);
    var n, name := |base|, Component(E[i], |base|);
    LinesFrom(hash, E, base, i + k, l);
    AllBehind(E, base, i + k);
    var x := KeyOf(hash, E, E[i + k..], base, l);
    Behind(E, base, i, i + k, x);
    BehindDir(E, base, i, k, x);
    DirKey(hash, E[i..], n, h);
    DirBefore(name, E[i].name[n..], x.name[n..], Key(l), l.name);
  }

  lemma PlainIs(name: string)
    ensures Plain(name) <==> '/' !in name
  {}

  lemma DirKey(hash: string -> Sha, rest: seq<Entry>, n: nat, h: TreeLine)
    requires Level(rest, n) && rest != [] && IsDir(rest[0], n) && h in LinesOfDir(hash, rest, n)
    ensures n < |rest[0].name| && Key(h) == Component(rest[0], n) + "/"
  {
    hide Buffer, Run, Front, Component;
  }

  lemma BehindDir(E: seq<Entry>, base: string, i: nat, k: nat, x: Entry)
    requires Sorted(E) && AllIn(E, base) && i < i + k <= |E| && IsDir(E[i], |base|) && x in E[i + k..]
    requires |base| < |E[i].name| && |base| < |x.name|
    requires Under(E, Deeper(base, Component(E[i], |base|))) == E[i..i + k]
    ensures var n, name := |base|, Component(E[i], |base|);
      && '/' !in name && name + "/" <= E[i].name[n..] && |name| + 1 < |E[i].name[n..]| && !(name + "/" <= x.name[n..])
  {
    hide *;
    LevelFrom(E, base, i);
    AllBehind(E, base, i + k);
    var n, name := |base|, Component(E[i], |base|);
    var below := Deeper(base, name);
    assert base + (name + "/") == base + name + "/";
    ComponentPlain(E[i], base);
    PlainIs(name);
    NotInRun(E, i, k, x);
    UnderIn(E, below);
    BelowFirst(E, E[i], base, name, below);
    BelowFirst(E, x, base, name, below);
  }

  lemma NotInRun(E: seq<Entry>, i: nat, k: nat, x: Entry)
    requires Sorted(E) && i < i + k <= |E| && x in E[i + k..]
    ensures x !in E[i..i + k] && E[i] in E[i..i + k]
  {
    hide Less, Proper;
    assert E[i..i + k][0] == E[i];
    var m :| 0 <= m < |E[i + k..]| && E[i + k..][m] == x;
    assert E[i + k + m] == x;
    LessTotal(x.name, x.name);
    var run := E[i..i + k];
    forall e | e in run ensures e != x {
      var o :| 0 <= o < k && run[o] == e;
      assert E[i + o] == e && Less(E[i + o].name, E[i + k + m].name);
    }
  }

  /** Below a subdirectory, seen from the directory. */
  lemma BelowFirst(E: seq<Entry>, e: Entry, base: string, name: string, below: string)
    requires WellNamed(E) && e in E && In(e, base) && below == Deeper(base, name)
    ensures |base| < |e.name| && (In(e, below) <==> name + "/" <= e.name[|base|..])
    ensures In(e, below) ==> |name| + 1 < |e.name[|base|..]|
  {
    ProperPrefix(e, below);
    SplitPrefix(base, name + "/", e.name);
    assert base + (name + "/") == below;
  }

  lemma SplitPrefix(a: string, b: string, s: string)
    requires a <= s
    ensures a + b <= s <==> b <= s[|a|..]
  {
    assert s == a + s[|a|..];
    assert a + b <= s ==> b == (a + b)[|a|..] == s[..|a + b|][|a|..] == s[|a|..][..|b|];
  }

  /** The lines of a directory ascend, each name once, a directory sorted as if its name ended in a slash. */
  lemma TreeOrdered(hash: string -> Sha, E: seq<Entry>, base: string)
    requires Sorted(E) && AllIn(E, base) && Storable(E)
    ensures Level(E, |base|) && Ascending(TreeLines(hash, E, |base|))
  {
    assert E[0..] == E && E[..0] == [];
    OrderFrom(hash, E, base, 0);
  }

  // ---- One hash, one index ------------------------------------------------------------------

  /** What a tree is to record of the index: names, modes and object names, in order. */
  function Contents(E: seq<Entry>): (r: seq<(string, nat, Sha)>)
    ensures |r| == |E|
  {
    seq(|E|, i requires 0 <= i < |E| => (E[i].name, E[i].mode, E[i].sha1))
  }

  /** The tree object of the directory with prefix `base`. */
  ghost function TreeOf(hash: string -> Sha, E: seq<Entry>, base: string): string
    requires WellNamed(E)
  {
    UnderIn(E, base);
    Buffer(hash, Under(E, base), |base|)
  }

  /** The prefix of a directory, or of the root. */
  predicate DirPrefix(base: string) {
    base == "" || base[|base| - 1] == '/'
  }

  /** Two different tree objects of one directory have the same name. */
  ghost predicate Collide(hash: string -> Sha, E: seq<Entry>, F: seq<Entry>, base: string)
    requires WellNamed(E) && WellNamed(F)
  {
    DirPrefix(base) && TreeOf(hash, E, base) != TreeOf(hash, F, base) &&
      TreeHash(hash, E, base) == TreeHash(hash, F, base)
  }

  ghost predicate NoneCollide(hash: string -> Sha, E: seq<Entry>, F: seq<Entry>)
    requires WellNamed(E) && WellNamed(F)
  {
    forall base :: !Collide(hash, E, F, base)
  }

  /** A live and storable index. */
  ghost predicate Recorded(E: seq<Entry>) {
    Sorted(E) && Storable(E) && forall e :: e in E ==> e.mark.Live?
  }

  /** The first line of what is left. */
  lemma FirstLine(mode: nat, name: string, sha1: Sha, rest: string, mode': nat, name': string, sha1': Sha,
      rest': string)
    requires '\0' !in name && '\0' !in name'
    requires Then(Line(mode, name, sha1), rest) == Then(Line(mode', name', sha1'), rest')
    ensures mode == mode' && name == name' && sha1 == sha1' && rest == rest'
  {
    hide Line, ReadLine;
    LineReadBack(mode, name, sha1, rest);
    LineReadBack(mode', name', sha1', rest');
  }

  lemma SomeLine(mode: nat, name: string, sha1: Sha, rest: string)
    ensures Then(Line(mode, name, sha1), rest) != ""
  {}

  lemma RecordedUnder(E: seq<Entry>, base: string)
    requires Recorded(E)
    ensures Recorded(Under(E, base)) && Sorted(Under(E, base)) && AllIn(Under(E, base), base)
    ensures WellNamed(E) && WellNamed(Under(E, base))
  {
    UnderIn(E, base);
    UnderSorted(E, base);
  }

  /** The first line of what is left of a directory, and how many entries it stands for. */
  lemma FirstIs(hash: string -> Sha, U: seq<Entry>, base: string, i: nat)
    returns (mode: nat, name: string, sha1: Sha, k: nat)
    requires Recorded(U) && AllIn(U, base) && i < |U| && Cut(U, base, i)
    ensures 0 < k && i + k <= |U| && Level(U[i..], |base|) && Level(U[i + k..], |base|) && Cut(U, base, i + k)
    ensures '\0' !in name && |base| < |U[i].name| && WellNamed(U)
    ensures Buffer(hash, U[i..], |base|) == Then(Line(mode, name, sha1), Buffer(hash, U[i + k..], |base|))
    ensures IsDir(U[i], |base|) <==> mode == S_IFDIR
    ensures !IsDir(U[i], |base|) ==>
      k == 1 && mode == U[i].mode && U[i].name == base + name && sha1 == U[i].sha1
    ensures IsDir(U[i], |base|) ==>
      && name == Component(U[i], |base|) && sha1 == TreeHash(hash, U, Deeper(base, name))
      && Under(U, Deeper(base, name)) == U[i..i + k]
  {
    hide *;
    RecordedAt(U, base, i);
    if IsDir(U[i], |base|) {
      mode, name := S_IFDIR, Component(U[i], |base|);
      var below := Deeper(base, name);
      k := Run(U[i..], below);
      DirStep(U, base, i, name, below, k);
      BufferDir(hash, U, base, i, name, below, k);
      sha1 := TreeHash(hash, U, below);
      LiveShown(U[i], Line(mode, name, sha1));
    } else {
      mode, name, sha1, k := U[i].mode, U[i].name[|base|..], U[i].sha1, 1;
      FileStep(U, base, i);
      BufferFile(hash, U, |base|, i);
      LiveShown(U[i], Line(mode, name, sha1));
    }
  }

  lemma LiveShown(e: Entry, line: string)
    requires e.mark.Live?
    ensures Shown(e, line) == line
  {}

  lemma RecordedAt(U: seq<Entry>, base: string, i: nat)
    requires Recorded(U) && AllIn(U, base) && i < |U|
    ensures Sorted(U) && WellNamed(U) && Level(U, |base|) && |base| < |U[i].name| && U[i].mark.Live?
    ensures U[i].mode != S_IFDIR && '\0' !in U[i].name[|base|..] && '\0' !in Component(U[i], |base|)
    ensures U[i].name == base + U[i].name[|base|..]
  {
    assert U[i] in U;
    PartsNulFree(U[i], |base|);
  }

  lemma NotEmpty(hash: string -> Sha, U: seq<Entry>, base: string, i: nat)
    requires Recorded(U) && AllIn(U, base) && i <= |U| && Cut(U, base, i) && Level(U[i..], |base|)
    ensures Buffer(hash, U[i..], |base|) == "" <==> i == |U|
  {
    if i < |U| {
      var mode, name, sha1, k := FirstIs(hash, U, base, i);
      SomeLine(mode, name, sha1, Buffer(hash, U[i + k..], |base|));
    }
  }

  lemma HashUnder(hash: string -> Sha, E: seq<Entry>, base: string, below: string)
    requires WellNamed(E) && base <= below
    ensures WellNamed(Under(E, base)) && TreeHash(hash, Under(E, base), below) == TreeHash(hash, E, below)
    ensures Under(Under(E, base), below) == Under(E, below)
  {
    UnderIn(E, base);
    UnderUnder(E, base, below);
  }

  lemma SameTree(hash: string -> Sha, E: seq<Entry>, F: seq<Entry>, base: string)
    requires WellNamed(E) && WellNamed(F) && NoneCollide(hash, E, F) && DirPrefix(base)
    requires TreeHash(hash, E, base) == TreeHash(hash, F, base)
    ensures TreeOf(hash, E, base) == TreeOf(hash, F, base)
  {
    assert !Collide(hash, E, F, base);
  }

  lemma FromStart(hash: string -> Sha, E: seq<Entry>, base: string)
    requires Recorded(E)
    ensures WellNamed(E) && Under(E, base)[0..] == Under(E, base) && Cut(Under(E, base), base, 0)
    ensures Level(Under(E, base), |base|) && TreeOf(hash, E, base) == Buffer(hash, Under(E, base), |base|)
  {
    UnderIn(E, base);
    assert Under(E, base)[..0] == [];
  }

  lemma ContentsParts(U: seq<Entry>, V: seq<Entry>, i: nat, k: nat, j: nat, m: nat)
    requires i + k <= |U| && j + m <= |V|
    requires Contents(U[i..i + k]) == Contents(V[j..j + m]) && Contents(U[i + k..]) == Contents(V[j + m..])
    ensures Contents(U[i..]) == Contents(V[j..])
  {
    assert |U[i..i + k]| == |V[j..j + m]|;
    var a, b := U[i..], V[j..];
    assert |U[i + k..]| == |V[j + m..]|;
    forall x | 0 <= x < |a| ensures Contents(a)[x] == Contents(b)[x] {
      if x < k {
        assert a[x] == U[i..i + k][x] && b[x] == V[j..j + m][x];
        assert Contents(U[i..i + k])[x] == Contents(V[j..j + m])[x];
      } else {
        assert a[x] == U[i + k..][x - k] && b[x] == V[j + m..][x - k];
        assert Contents(U[i + k..])[x - k] == Contents(V[j + m..])[x - k];
      }
    }
  }

  lemma SameOne(U: seq<Entry>, V: seq<Entry>, i: nat, j: nat)
    requires i < |U| && j < |V| && U[i].name == V[j].name && U[i].mode == V[j].mode && U[i].sha1 == V[j].sha1
    ensures Contents(U[i..i + 1]) == Contents(V[j..j + 1])
  {}

  lemma NothingLeft(U: seq<Entry>, V: seq<Entry>, i: nat, j: nat)
    requires i == |U| && j == |V|
    ensures Contents(U[i..]) == Contents(V[j..])
  {}

  lemma DeeperDir(base: string, name: string)
    ensures DirPrefix(Deeper(base, name))
  {}

  /** Equal tree objects hold equal contents, from some entry on. */
  lemma {:induction false} SameFrom(hash: string -> Sha, E: seq<Entry>, F: seq<Entry>, base: string, i: nat, j: nat)
    requires Recorded(E) && Recorded(F) && WellNamed(E) && WellNamed(F) && NoneCollide(hash, E, F)
    requires i <= |Under(E, base)| && j <= |Under(F, base)|
    requires Cut(Under(E, base), base, i) && Cut(Under(F, base), base, j)
    requires Level(Under(E, base)[i..], |base|) && Level(Under(F, base)[j..], |base|)
    requires Buffer(hash, Under(E, base)[i..], |base|) == Buffer(hash, Under(F, base)[j..], |base|)
    ensures Contents(Under(E, base)[i..]) == Contents(Under(F, base)[j..])
    decreases |Under(E, base)| - i, if i < |Under(E, base)| then |Under(E, base)[i].name| - |base| else 0
  {
    hide *;
    var U, V := Under(E, base), Under(F, base);
    RecordedUnder(E, base);
    RecordedUnder(F, base);
    NotEmpty(hash, U, base, i);
    NotEmpty(hash, V, base, j);
    if i == |U| {
      NothingLeft(U, V, i, j);
    } else {
      var mode, name, sha1, k := FirstIs(hash, U, base, i);
      var mode', name', sha1', m := FirstIs(hash, V, base, j);
      FirstLine(mode, name, sha1, Buffer(hash, U[i + k..], |base|), mode', name', sha1',
        Buffer(hash, V[j + m..], |base|));
      SameFrom(hash, E, F, base, i + k, j + m);
      if IsDir(U[i], |base|) {
        var below := Deeper(base, name);
        HashUnder(hash, E, base, below);
        HashUnder(hash, F, base, below);
        DeeperDir(base, name);
        SameTree(hash, E, F, below);
        FromStart(hash, E, below);
        FromStart(hash, F, below);
        assert Under(E, below)[0] == U[i];
        SameFrom(hash, E, F, below, 0, 0);
      } else {
        SameOne(U, V, i, j);
      }
      ContentsParts(U, V, i, k, j, m);
    }
  }

  /**
   * The name of a directory's tree object tells all that stands below it: two indexes for which it is the
   * same hold the same there, unless two different tree objects of one directory have the same name.
   */
  lemma HashTellsAll(hash: string -> Sha, E: seq<Entry>, F: seq<Entry>, base: string)
    requires Recorded(E) && Recorded(F) && DirPrefix(base)
    ensures WellNamed(E) && WellNamed(F)
    ensures TreeHash(hash, E, base) == TreeHash(hash, F, base) ==>
      Contents(Under(E, base)) == Contents(Under(F, base)) || exists d :: Collide(hash, E, F, d)
  {
    hide *;
    RecordedUnder(E, base);
    RecordedUnder(F, base);
    if TreeHash(hash, E, base) == TreeHash(hash, F, base) && !exists d :: Collide(hash, E, F, d) {
      NoneDo(hash, E, F);
      SameTree(hash, E, F, base);
      FromStart(hash, E, base);
      FromStart(hash, F, base);
      SameFrom(hash, E, F, base, 0, 0);
    }
  }

  lemma NoneDo(hash: string -> Sha, E: seq<Entry>, F: seq<Entry>)
    requires WellNamed(E) && WellNamed(F) && !exists d :: Collide(hash, E, F, d)
    ensures NoneCollide(hash, E, F)
  {}

  /** An index is told by the name of its tree. */
  lemma RootTellsAll(hash: string -> Sha, E: seq<Entry>, F: seq<Entry>)
    requires Recorded(E) && Recorded(F)
    ensures WellNamed(E) && WellNamed(F)
    ensures TreeHash(hash, E, "") == TreeHash(hash, F, "") ==>
      Contents(E) == Contents(F) || exists d :: Collide(hash, E, F, d)
  {
    hide *;
    RootPrefix();
    HashTellsAll(hash, E, F, "");
    UnderRoot(E);
    UnderRoot(F);
  }

  lemma RootPrefix()
    ensures DirPrefix("")
  {}

  lemma UnderRoot(E: seq<Entry>)
    requires Recorded(E)
    ensures Under(E, "") == E
  {
    UnderAll(E, "");
  }

  // ---- An example ---------------------------------------------------------------------------

  lemma Modes()
    ensures Octal(0x81A4) == "100644" && Octal(0x81ED) == "100755" && Octal(S_IFDIR) == "40000"
  {
    assert Octal(1) == "1" && Octal(0x8) == "10" && Octal(0x40) == "100" && Octal(0x206) == "1006";
    assert Octal(0x1034) == "10064" && Octal(0x207) == "1007" && Octal(0x103D) == "10075";
    assert Octal(4) == "4" && Octal(0x20) == "40" && Octal(0x100) == "400" && Octal(0x800) == "4000";
  }

  /** How a line begins. */
  function FrontText(mode: nat, name: string): string {
    Octal(mode) + " " + name + "\0"
  }

  lemma Fronts()
    ensures FrontText(0x81A4, "a") == "100644 a\0" && FrontText(0x81ED, "f") == "100755 f\0"
    ensures FrontText(S_IFDIR, "d") == "40000 d\0"
  {
    Modes();
    hide Octal;
  }

  lemma LineText(e: Entry, mode: nat, name: string, sha1: Sha, rest: string)
    requires e.mark.Live?
    ensures Then(Shown(e, Line(mode, name, sha1)), rest) == FrontText(mode, name) + sha1 + rest
  {
    hide Octal;
  }

  /** A file, and an executable one in a subdirectory. */
  lemma TwoFiles(hash: string -> Sha, x: Sha, y: Sha)
    ensures var E := [Entry("a", 0x81A4, x, 0, Live), Entry("d/f", 0x81ED, y, 0, Live)];
      && WellNamed(E)
      && TreeHash(hash, E, "") == hash("100644 a\0" + x + ("40000 d\0" + hash("100755 f\0" + y)))
  {
    var a, f := Entry("a", 0x81A4, x, 0, Live), Entry("d/f", 0x81ED, y, 0, Live);
    hide *;
    Fronts();
    FileAndDir(hash, a, f);
  }

  /** A file in front of a subdirectory with one file. */
  lemma FileAndDir(hash: string -> Sha, a: Entry, f: Entry)
    requires a.name == "a" && f.name == "d/f" && a.mark.Live? && f.mark.Live?
    ensures WellNamed([a, f])
    ensures TreeHash(hash, [a, f], "") ==
      hash(FrontText(a.mode, "a") + a.sha1 + (FrontText(S_IFDIR, "d") + hash(FrontText(f.mode, "f") + f.sha1)))
  {
    var E := [a, f];
    hide *;
    TwoNames(a, f);
    LevelOfTwo(a, f);
    InSubdirectory(hash, a, f);
    BufferFile(hash, E, 0, 0);
    assert E[0..] == E && E[1..] == [f];
    LineText(a, a.mode, "a", a.sha1, Buffer(hash, [f], 0));
    HashOfTwo(hash, E);
  }

  lemma HashOfTwo(hash: string -> Sha, E: seq<Entry>)
    requires WellNamed(E) && AllIn(E, "") && Level(E, 0)
    ensures TreeHash(hash, E, "") == hash(Buffer(hash, E, 0))
  {
    UnderAll(E, "");
  }

  lemma LevelOfTwo(a: Entry, f: Entry)
    requires Proper(a.name) && Proper(f.name) && In(a, "") && In(f, "") && 2 < |f.name|
    ensures Level([a, f], 0) && WellNamed([a, f]) && AllIn([a, f], "") && Level([f], 0) && Level([f], 2) && Level([], 0)
    ensures Level([], 2)
  {}

  /** The tree object of the directory, and its line. */
  lemma InSubdirectory(hash: string -> Sha, a: Entry, f: Entry)
    requires a.name == "a" && f.name == "d/f" && f.mark.Live?
    ensures Level([f], 0)
    ensures Buffer(hash, [f], 0) == FrontText(S_IFDIR, "d") + hash(FrontText(f.mode, "f") + f.sha1)
  {
    hide *;
    TwoNames(a, f);
    LevelOfTwo(a, f);
    Empties(hash);
    var inner: string := FrontText(f.mode, "f") + f.sha1;
    assert [f][0..] == [f] && [f][1..] == [] && [f][..1] == [f];
    BufferFile(hash, [f], 2, 0);
    LineText(f, f.mode, "f", f.sha1, "");
    Unit(inner);
    BufferFirst(hash, [f], 0, "d/");
    LineText(f, S_IFDIR, "d", hash(inner), "");
    Unit(FrontText(S_IFDIR, "d") + hash(inner));
  }

  lemma Empties(hash: string -> Sha)
    ensures Level([], 0) && Level([], 2) && Buffer(hash, [], 0) == "" == Buffer(hash, [], 2)
  {}

  lemma TwoNames(a: Entry, f: Entry)
    requires a.name == "a" && f.name == "d/f"
    ensures !IsDir(a, 0) && IsDir(f, 0) && !IsDir(f, 2) && Front(f, 0) == "d/" && Component(f, 0) == "d"
    ensures Run([f], "d/") == 1 && Proper(a.name) && Proper(f.name) && a.name[0..] == "a" && f.name[2..] == "f"
    ensures In(a, "") && In(f, "")
  {
    assert Slash("a", 0) == 1 && Slash("d/f", 0) == 1 && Slash("d/f", 2) == 3;
    assert "d/f"[..2] == "d/" && "d/f"[0..1] == "d" && "d/" <= "d/f";
    assert [f][1..] == [];
  }
}
