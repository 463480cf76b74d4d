/** The sorted index, and the hash of each of its directories computed from scratch. */
module CacheIndex {

  /** An object name: twenty bytes. Characters stand for bytes throughout. */
  type Sha = s: string | |s| == 20 witness seq(20, _ => '\0')

  /** An entry of the index; it may be marked for removal (CE_REMOVE) or as intent to add (CE_INTENT_TO_ADD). */
  datatype Entry = Entry(name: string, mode: nat, sha1: Sha, stage: nat, mark: Mark)

  datatype Mark = Live | Removed | Intended

  const S_IFDIR: nat := 0x4000
  const S_IFGITLINK: nat := 0xE000

  // ---- Names --------------------------------------------------------------------------------

  /** Strict byte order, shorter first where one name is a prefix of the other. */
  predicate Less(a: string, b: string) {
    b != "" && (a == "" || a[0] < b[0] || (a[0] == b[0] && Less(a[1..], b[1..])))
  }

  lemma {:induction false} LessTotal(a: string, b: string)
    ensures Less(a, b) || a == b || Less(b, a)
    ensures !(Less(a, b) && Less(b, a)) && !Less(a, a)
  {
    if a != "" && b != "" {
      LessTotal(a[1..], b[1..]);
      assert a == [a[0]] + a[1..] && b == [b[0]] + b[1..];
    }
    if a != "" {
      LessTotal(a[1..], a[1..]);
    }
  }

  lemma {:induction false} LessTrans(a: string, b: string, c: string)
    requires Less(a, b) && Less(b, c)
    ensures Less(a, c)
  {
    if a != "" && a[0] == b[0] == c[0] {
      LessTrans(a[1..], b[1..], c[1..]);
    }
  }

  /** Names below one directory are neighbours. */
  lemma {:induction false} Between(p: string, a: string, b: string, c: string)
    requires Less(a, b) && Less(b, c) && p <= a && p <= c
    ensures p <= b
  {
    if p != "" {
      assert p[0] == a[0] == c[0] == b[0];
      assert p[1..] <= a[1..] && p[1..] <= c[1..];
      Between(p[1..], a[1..], b[1..], c[1..]);
      assert p == [p[0]] + p[1..] && b == [b[0]] + b[1..];
    }
  }

  /** strchrnul(s + n, '/') as an offset. */
  function Slash(s: string, n: nat): (k: nat)
    requires n <= |s|
    ensures n <= k <= |s| && (k < |s| ==> s[k] == '/') && forall j :: n <= j < k ==> s[j] != '/'
    decreases |s| - n
  {
    if n == |s| || s[n] == '/' then n else Slash(s, n + 1)
  }

  /** A path as the index holds it: not empty and not ending in a slash. */
  predicate Proper(name: string) {
    name != "" && name[|name| - 1] != '/'
  }

  predicate Plain(name: string) {
    '/' !in name
  }

  /** `e` lies below the directory with prefix `base`. */
  predicate In(e: Entry, base: string) {
    |base| < |e.name| && base <= e.name
  }

  /** The name of the subdirectory of `base` that `e` lies in, with |base| == n. */
  function Component(e: Entry, n: nat): string
    requires n < |e.name|
  {
    e.name[n..Slash(e.name, n)]
  }

  /** The prefix of that subdirectory. */
  function Front(e: Entry, n: nat): string
    requires IsDir(e, n)
  {
    e.name[..Slash(e.name, n) + 1]
  }

  predicate IsDir(e: Entry, n: nat) {
    n < |e.name| && Slash(e.name, n) < |e.name|
  }

  // ---- The index ----------------------------------------------------------------------------

  ghost predicate WellNamed(E: seq<Entry>) {
    forall e :: e in E ==> Proper(e.name)
  }

  /** Sorted by name, each name once, as an index without unmerged entries is. */
  ghost predicate Sorted(E: seq<Entry>) {
    && WellNamed(E)
    && (forall i, j {:trigger E[i], E[j]} :: 0 <= i < j < |E| ==> Less(E[i].name, E[j].name))
  }

  /** The entries below `base`, in order. */
  ghost function Under(E: seq<Entry>, base: string): seq<Entry> {
    if E == [] then [] else (if In(E[0], base) then [E[0]] else []) + Under(E[1..], base)
  }

  /** How many entries at the front lie below `base`. */
  function Run(E: seq<Entry>, base: string): (n: nat)
    ensures n <= |E| && (n < |E| ==> !In(E[n], base)) && forall i :: 0 <= i < n ==> In(E[i], base)
  {
    if E == [] || !In(E[0], base) then 0 else 1 + Run(E[1..], base)
  }

  ghost predicate AllIn(E: seq<Entry>, base: string) {
    forall e :: e in E ==> In(e, base)
  }

  ghost predicate NoneIn(E: seq<Entry>, base: string) {
    forall e :: e in E ==> !In(e, base)
  }

  lemma {:induction false} UnderConcat(A: seq<Entry>, B: seq<Entry>, base: string)
    ensures Under(A + B, base) == Under(A, base) + Under(B, base)
  {
    hide In;
    if A == [] {
      assert A + B == B;
    } else {
      assert (A + B)[1..] == A[1..] + B && (A + B)[0] == A[0];
      UnderConcat(A[1..], B, base);
      var first := if In(A[0], base) then [A[0]] else [];
      assert first + (Under(A[1..], base) + Under(B, base)) == (first + Under(A[1..], base)) + Under(B, base);
    }
  }

  lemma {:induction false} UnderAll(E: seq<Entry>, base: string)
    requires AllIn(E, base)
    ensures Under(E, base) == E
  {
    if E != [] {
      UnderAll(E[1..], base);
    }
  }

  lemma {:induction false} UnderNone(E: seq<Entry>, base: string)
    requires NoneIn(E, base)
    ensures Under(E, base) == []
  {
    if E != [] {
      UnderNone(E[1..], base);
    }
  }

  /** Looking below a deeper directory, only what lies below the outer one matters. */
  lemma {:induction false} UnderUnder(E: seq<Entry>, base: string, deeper: string)
    requires base <= deeper
    ensures Under(Under(E, base), deeper) == Under(E, deeper)
  {
    if E != [] {
      UnderUnder(E[1..], base, deeper);
      var first := if In(E[0], base) then [E[0]] else [];
      UnderConcat(first, Under(E[1..], base), deeper);
      if In(E[0], base) {
        assert Under([E[0]], deeper) == (if In(E[0], deeper) then [E[0]] else []) + Under([], deeper);
      }
    }
  }

  /** `name` is `path`, lies below it, or is a file where `path` needs a directory. */
  ghost predicate Touched(name: string, path: string) {
    name == path || path + "/" <= name || name + "/" <= path
  }

  /** The entries that `path` does not touch. */
  ghost function Others(E: seq<Entry>, path: string): seq<Entry> {
    if E == [] then [] else (if Touched(E[0].name, path) then [] else [E[0]]) + Others(E[1..], path)
  }

  /** What lies below a directory that neither leads to `path` nor lies there is not touched. */
  lemma NotTouched(e: Entry, path: string, base: string)
    requires In(e, base) && !(base <= path) && !(path + "/" <= base)
    ensures !Touched(e.name, path)
  {
    Nested(base, path + "/", e.name);
    Nested(base, path, path + "/");
    Nested(base, e.name + "/", path);
    Nested(base, e.name, e.name + "/");
  }

  /** Prefixes are transitive, and of two prefixes of one text one is a prefix of the other. */
  lemma Nested(a: string, b: string, c: string)
    ensures a <= b && b <= c ==> a <= c
    ensures a <= c && b <= c ==> if |a| <= |b| then a <= b else b <= a
  {
    assert a <= b && b <= c ==> a == b[..|a|] == c[..|a|];
    assert a <= c && b <= c && |a| <= |b| ==> a == c[..|a|] == b[..|a|];
    assert a <= c && b <= c && |b| <= |a| ==> b == c[..|b|] == a[..|b|];
  }

  lemma {:induction false} UnderOthers(E: seq<Entry>, path: string, base: string)
    requires !(base <= path) && !(path + "/" <= base)
    ensures Under(Others(E, path), base) == Under(E, base)
  {
    hide Touched, In;
    if E != [] {
      UnderOthers(E[1..], path, base);
      var first := if Touched(E[0].name, path) then [] else [E[0]];
      UnderConcat(first, Others(E[1..], path), base);
      if In(E[0], base) {
        NotTouched(E[0], path, base);
      }
    }
  }

  /** In a sorted index the entries below a directory stand together. */
  lemma RunIsAll(E: seq<Entry>, base: string)
    requires Sorted(E) && E != [] && In(E[0], base)
    ensures NoneIn(E[Run(E, base)..], base)
    ensures Under(E, base) == E[..Run(E, base)]
  {
    var n := Run(E, base);
    forall j | n <= j < |E| ensures !In(E[j], base) {
      if In(E[j], base) && n < j {
        Between(base, E[0].name, E[n].name, E[j].name);
        if E[n].name == base {
          PrefixLess(base, E[0].name);
          LessTotal(E[0].name, base);
        }
      }
    }
    assert E == E[..n] + E[n..];
    UnderConcat(E[..n], E[n..], base);
    UnderAll(E[..n], base);
    UnderNone(E[n..], base);
  }

  lemma {:induction false} PrefixLess(p: string, s: string)
    requires p <= s && |p| < |s|
    ensures Less(p, s)
  {
    if p != "" {
      PrefixLess(p[1..], s[1..]);
    }
  }

  // ---- Hashes from scratch ------------------------------------------------------------------

  function Octal(n: nat): string {
    (if n < 8 then "" else Octal(n / 8)) + [(n % 8) as char + '0']
  }

  /** One line of a tree object. */
  function Line(mode: nat, name: string, sha1: Sha): string {
    Octal(mode) + " " + name + "\0" + sha1
  }

  function Then(a: string, b: string): string {
    a + b
  }

  ghost predicate Level(E: seq<Entry>, n: nat) {
    forall e :: e in E ==> n < |e.name| && Proper(e.name)
  }

  /** The line of a file or of a directory is left out if the entry, or the directory's first entry, is marked. */
  function Shown(e: Entry, line: string): string {
    if e.mark.Live? then line else ""
  }

  /** The tree object of a directory, given the entries below it, with the first `n` characters of each name common. */
  ghost function Buffer(hash: string -> Sha, E: seq<Entry>, n: nat): string
    requires Level(E, n)
    decreases |E|, if E == [] then 0 else |E[0].name| - n
  {
    if E == [] then ""
    else if !IsDir(E[0], n) then Then(Shown(E[0], Line(E[0].mode, E[0].name[n..], E[0].sha1)), Buffer(hash, E[1..], n))
    else
      var below := Front(E[0], n);
      var k := Run(E, below);
      Then(Shown(E[0], Line(S_IFDIR, Component(E[0], n), hash(Buffer(hash, E[..k], |below|)))), Buffer(hash, E[k..], n))
  }

  function One(e: Entry): nat {
    if e.mark.Removed? then 1 else 0
  }

  /** What the subdirectories count as skipped. */
  ghost function Inner(E: seq<Entry>, n: nat): nat
    requires Level(E, n)
    decreases |E|, if E == [] then 0 else |E[0].name| - n
  {
    if E == [] then 0
    else if !IsDir(E[0], n) then Inner(E[1..], n)
    else
      var below := Front(E[0], n);
      var k := Run(E, below);
      Inner(E[..k], |below|) + Outer(E[..k], |below|) + Inner(E[k..], n)
  }

  /** How many lines are skipped because the entry, or the directory's first entry, is marked for removal. */
  ghost function Outer(E: seq<Entry>, n: nat): nat
    requires Level(E, n)
    decreases |E|
  {
    if E == [] then 0
    else if !IsDir(E[0], n) then One(E[0]) + Outer(E[1..], n)
    else One(E[0]) + Outer(E[Run(E, Front(E[0], n))..], n)
  }

  /** What update_one counts as skipped below `base`. */
  ghost function Skips(E: seq<Entry>, base: string): nat
    requires WellNamed(E)
  {
    UnderIn(E, base);
    Inner(Under(E, base), |base|) + Outer(Under(E, base), |base|)
  }

  /** Nothing below `base` is marked as intent to add. */
  ghost predicate NoIntent(E: seq<Entry>, base: string) {
    forall e :: e in Under(E, base) ==> !e.mark.Intended?
  }

  /** Nothing below `base` is marked for removal. */
  ghost predicate NoneRemoved(E: seq<Entry>, base: string) {
    forall e :: e in Under(E, base) ==> !e.mark.Removed?
  }

  /** The hash of the directory with prefix `base`, from scratch. */
  ghost function TreeHash(hash: string -> Sha, E: seq<Entry>, base: string): Sha
    requires WellNamed(E)
  {
    UnderIn(E, base);
    hash(Buffer(hash, Under(E, base), |base|))
  }

  lemma {:induction false} UnderIn(E: seq<Entry>, base: string)
    ensures forall e :: e in Under(E, base) <==> e in E && In(e, base)
  {
    if E != [] {
      UnderIn(E[1..], base);
    }
  }

  // ---- Reading a directory from its entries -------------------------------------------------

  function Deeper(base: string, name: string): (d: string)
    ensures base <= d && |d| == |base| + |name| + 1
  {
    base + name + "/"
  }

  /** The subdirectories directly below `base`. */
  ghost function Dirs(E: seq<Entry>, base: string): set<string> {
    set e | e in E && In(e, base) && IsDir(e, |base|) :: Component(e, |base|)
  }

  lemma DirsUnder(E: seq<Entry>, base: string)
    ensures Dirs(Under(E, base), base) == Dirs(E, base)
  {
    UnderIn(E, base);
  }

  /** The entries with a given first component are those below that subdirectory. */
  lemma InDeeper(e: Entry, base: string, name: string)
    requires In(e, base) && Proper(e.name) && Plain(name)
    ensures In(e, Deeper(base, name)) <==> IsDir(e, |base|) && Component(e, |base|) == name
  {
    var n, s, below := |base|, Slash(e.name, |base|), Deeper(base, name);
    if IsDir(e, n) && Component(e, n) == name {
      assert below == e.name[..s + 1];
    }
    if In(e, below) {
      assert forall k :: 0 <= k < |below| ==> below[k] == e.name[k];
      assert below[n + |name|] == '/';
      assert forall k :: n <= k < n + |name| ==> e.name[k] == below[k] == name[k - n];
      assert s == n + |name|;
      assert e.name[n..s] == name;
    }
  }

  lemma ComponentPlain(e: Entry, base: string)
    requires In(e, base)
    ensures Plain(Component(e, |base|))
    ensures IsDir(e, |base|) ==> Deeper(base, Component(e, |base|)) == Front(e, |base|)
  {
    var n, s := |base|, Slash(e.name, |base|);
    NoSlashBefore(e.name, n);
    if s < |e.name| {
      FirstPart(e.name, base, s);
    }
  }

  lemma NoSlashBefore(name: string, n: nat)
    requires n <= |name|
    ensures Plain(name[n..Slash(name, n)])
  {
    var s := Slash(name, n);
    forall j | 0 <= j < s - n ensures name[n..s][j] != '/' {
      assert name[n..s][j] == name[n + j];
    }
  }

  lemma FirstPart(name: string, base: string, s: nat)
    requires base <= name && |base| <= s < |name|
    ensures base + name[|base|..s] + [name[s]] == name[..s + 1]
  {
    assert name[..|base|] == base;
  }

  /** No subdirectory has entries both before and from `i` on. */
  ghost predicate Cut(U: seq<Entry>, base: string, i: nat) {
    && i <= |U|
    && forall name :: Plain(name) ==> NoneIn(U[..i], Deeper(base, name)) || NoneIn(U[i..], Deeper(base, name))
  }

  /** Passing a file. */
  lemma FileStep(U: seq<Entry>, base: string, i: nat)
    requires Sorted(U) && AllIn(U, base) && i < |U| && Cut(U, base, i) && !IsDir(U[i], |base|)
    ensures Cut(U, base, i + 1) && Dirs(U[..i + 1], base) == Dirs(U[..i], base)
  {
    assert U[..i + 1] == U[..i] + [U[i]] && U[i..] == [U[i]] + U[i + 1..];
    forall name | Plain(name)
      ensures NoneIn(U[..i + 1], Deeper(base, name)) || NoneIn(U[i + 1..], Deeper(base, name))
    {
      InDeeper(U[i], base, name);
    }
  }

  /** Passing a subdirectory: its entries are exactly the next ones, all of them. */
  lemma DirStep(U: seq<Entry>, base: string, i: nat, name: string, below: string, k: nat)
    requires Sorted(U) && AllIn(U, base) && i < |U| && Cut(U, base, i) && IsDir(U[i], |base|)
    requires name == Component(U[i], |base|) && below == Deeper(base, name) && k == Run(U[i..], below)
    ensures k > 0 && i + k <= |U| && Under(U, below) == U[i..i + k] == Under(U[i..], below)
    ensures Cut(U, base, i + k)
    ensures Dirs(U[..i + k], base) == Dirs(U[..i], base) + {name} && name !in Dirs(U[..i], base)
  {
    var rest := U[i..];
    assert rest[0] == U[i] && rest[0] in U;
    SortedTail(U, i);
    assert AllIn(rest, base);
    DirRun(rest, base);
    assert rest[0] in rest[..k];
    assert NoneIn(U[..i], below);
    hide In, Sorted, Component, Deeper, Dirs, Plain, Under, Slash, Run, Cut, AllIn, NoneIn, IsDir;
    Slices(U, i, k);
    UnderConcat(U[..i], rest, below);
    UnderNone(U[..i], below);
    assert [] + rest[..k] == rest[..k];
    CutAfter(U, base, i, k, name);
    DirsAfter(U, base, i, k, name);
  }

  lemma Slices<T>(s: seq<T>, i: nat, k: nat)
    requires i + k <= |s|
    ensures s == s[..i] + s[i..] && s[i..][..k] == s[i..i + k] && s[i..][k..] == s[i + k..]
  {
  }

  lemma SortedTail(U: seq<Entry>, i: nat)
    requires Sorted(U) && i <= |U|
    ensures Sorted(U[i..]) && WellNamed(U)
  {
  }

  lemma DirRun(rest: seq<Entry>, base: string)
    requires Sorted(rest) && AllIn(rest, base) && rest != [] && IsDir(rest[0], |base|)
    ensures var name := Component(rest[0], |base|); var below := Deeper(base, name); var k := Run(rest, below);
      && k > 0 && Plain(name)
      && Under(rest, below) == rest[..k] && AllIn(rest[..k], below) && NoneIn(rest[k..], below)
  {
    var name := Component(rest[0], |base|);
    var below := Deeper(base, name);
    ComponentPlain(rest[0], base);
    InDeeper(rest[0], base, name);
    RunIsAll(rest, below);
  }

  lemma CutAfter(U: seq<Entry>, base: string, i: nat, k: nat, name: string)
    requires WellNamed(U) && AllIn(U, base) && i < i + k <= |U| && Cut(U, base, i) && Plain(name)
    requires AllIn(U[i..i + k], Deeper(base, name)) && NoneIn(U[i + k..], Deeper(base, name))
    ensures Cut(U, base, i + k)
  {
    assert U[..i + k] == U[..i] + U[i..i + k] && U[i..] == U[i..i + k] + U[i + k..];
    forall other | Plain(other)
      ensures NoneIn(U[..i + k], Deeper(base, other)) || NoneIn(U[i + k..], Deeper(base, other))
    {
      if other != name {
        forall e | e in U[i..i + k] ensures !In(e, Deeper(base, other)) {
          InDeeper(e, base, name);
          InDeeper(e, base, other);
        }
      }
    }
  }

  lemma DirsAfter(U: seq<Entry>, base: string, i: nat, k: nat, name: string)
    requires WellNamed(U) && AllIn(U, base) && i < i + k <= |U| && Plain(name)
    requires AllIn(U[i..i + k], Deeper(base, name)) && NoneIn(U[..i], Deeper(base, name))
    ensures Dirs(U[..i + k], base) == Dirs(U[..i], base) + {name} && name !in Dirs(U[..i], base)
  {
    assert U[..i + k] == U[..i] + U[i..i + k];
    forall e | e in U[..i + k] ensures In(e, Deeper(base, name)) <==> IsDir(e, |base|) && Component(e, |base|) == name {
      InDeeper(e, base, name);
    }
    assert U[i] in U[i..i + k];
  }

  // ---- The tree object, line by line --------------------------------------------------------

  lemma BufferFile(hash: string -> Sha, U: seq<Entry>, n: nat, i: nat)
    requires Level(U, n) && i < |U| && !IsDir(U[i], n)
    ensures Level(U[i..], n) && Level(U[i + 1..], n)
    ensures Buffer(hash, U[i..], n) ==
      Then(Shown(U[i], Line(U[i].mode, U[i].name[n..], U[i].sha1)), Buffer(hash, U[i + 1..], n))
    ensures Inner(U[i..], n) == Inner(U[i + 1..], n) && Outer(U[i..], n) == One(U[i]) + Outer(U[i + 1..], n)
  {
    assert U[i] in U && U[i..][0] == U[i] && U[i..][1..] == U[i + 1..];
    hide Then, Line, Shown;
  }

  lemma BufferDir(hash: string -> Sha, U: seq<Entry>, base: string, i: nat, name: string, below: string, k: nat)
    requires WellNamed(U) && AllIn(U, base) && i < |U| && IsDir(U[i], |base|) && k > 0 && i + k <= |U|
    requires name == Component(U[i], |base|) && below == Deeper(base, name) && k == Run(U[i..], below)
    requires Under(U, below) == U[i..i + k]
    ensures Level(U[i..], |base|) && Level(U[i + k..], |base|)
    ensures Buffer(hash, U[i..], |base|) ==
            Then(Shown(U[i], Line(S_IFDIR, name, TreeHash(hash, U, below))), Buffer(hash, U[i + k..], |base|))
    ensures Inner(U[i..], |base|) == Skips(U, below) + Inner(U[i + k..], |base|)
    ensures Outer(U[i..], |base|) == One(U[i]) + Outer(U[i + k..], |base|)
  {
    var rest := U[i..];
    ComponentPlain(U[i], base);
    UnderIn(U, below);
    Slices(U, i, k);
    assert rest[0] == U[i] && rest[0] in U;
    assert Level(rest, |base|);
    hide Buffer, Inner, Outer, Slash, Under, In, Line, Then, Shown;
    BufferFirst(hash, rest, |base|, below);
  }

  lemma BufferFirst(hash: string -> Sha, rest: seq<Entry>, n: nat, below: string)
    requires Level(rest, n) && rest != [] && IsDir(rest[0], n)
    requires below == Front(rest[0], n) && Run(rest, below) > 0
    ensures var k := Run(rest, below);
      && Level(rest[..k], |below|) && Level(rest[k..], n)
      && Buffer(hash, rest, n) ==
         Then(Shown(rest[0], Line(S_IFDIR, Component(rest[0], n), hash(Buffer(hash, rest[..k], |below|)))),
           Buffer(hash, rest[k..], n))
      && Inner(rest, n) == Inner(rest[..k], |below|) + Outer(rest[..k], |below|) + Inner(rest[k..], n)
      && Outer(rest, n) == One(rest[0]) + Outer(rest[k..], n)
  {
    hide Run, Slash, In, Line, Proper, Then, IsDir, Component, Front, Octal, Level, Shown, One;
    LevelBelow(rest, n, below, Run(rest, below));
  }

  lemma LevelBelow(rest: seq<Entry>, n: nat, below: string, k: nat)
    requires Level(rest, n) && k == Run(rest, below)
    ensures Level(rest[..k], |below|) && Level(rest[k..], n)
  {
  }

  /** `U` is what lies below `base`, and it stands at the front of `cache`. */
  ghost predicate LevelOf(cache: seq<Entry>, base: string, U: seq<Entry>) {
    && Sorted(cache) && Sorted(U) && AllIn(U, base)
    && |U| == Run(cache, base) && U == cache[..|U|] && U == Under(cache, base) == Under(U, base)
  }

  lemma FrontLevel(cache: seq<Entry>, base: string)
    requires Sorted(cache) && (cache != [] ==> In(cache[0], base))
    ensures LevelOf(cache, base, Under(cache, base)) && Cut(Under(cache, base), base, 0)
  {
    if cache != [] {
      RunIsAll(cache, base);
    }
    UnderAll(cache[..Run(cache, base)], base);
  }

  /** The entries below a subdirectory stand at the front of what is left when it is reached. */
  lemma SubLevel(cache: seq<Entry>, base: string, U: seq<Entry>, i: nat, name: string, below: string, k: nat)
    requires LevelOf(cache, base, U) && i < |U| && Cut(U, base, i) && IsDir(U[i], |base|)
    requires name == Component(U[i], |base|) && below == Deeper(base, name) && k == Run(U[i..], below)
    ensures Sorted(cache[i..]) && In(U[i], below)
    ensures i + k <= |U| && Under(cache[i..], below) == Under(U, below) == U[i..i + k] && k > 0
    ensures name in Dirs(U, base) && name !in Dirs(U[..i], base)
  {
    assert U[i] in U;
    SubName(U[i], base, name, below);
    SubInDirs(U, base, i);
    DirStep(U, base, i, name, below, k);
    SortedTail(cache, i);
    hide In, Sorted, Component, Dirs, Plain, Slash, Cut, IsDir, Deeper, Run;
    UnderFrom(cache, base, U, i, below);
  }

  lemma SubName(e: Entry, base: string, name: string, below: string)
    requires In(e, base) && Proper(e.name) && IsDir(e, |base|)
    requires name == Component(e, |base|) && below == Deeper(base, name)
    ensures Plain(name) && In(e, below)
  {
    ComponentPlain(e, base);
    InDeeper(e, base, name);
  }

  lemma SubInDirs(U: seq<Entry>, base: string, i: nat)
    requires AllIn(U, base) && i < |U| && IsDir(U[i], |base|)
    ensures Component(U[i], |base|) in Dirs(U, base)
  {
    assert U[i] in U;
    hide Slash, Component;
  }

  lemma UnderFrom(cache: seq<Entry>, base: string, U: seq<Entry>, i: nat, below: string)
    requires |U| <= |cache| && U == Under(cache, base) == cache[..|U|] && i <= |U| && base <= below
    requires Under(U, below) == Under(U[i..], below)
    ensures Under(cache[i..], below) == Under(U, below)
  {
    assert cache == U + cache[|U|..] && cache[i..] == U[i..] + cache[|U|..];
    UnderUnder(cache, base, below);
    UnderConcat(U, cache[|U|..], below);
    UnderConcat(U[i..], cache[|U|..], below);
  }

  lemma InLevel(cache: seq<Entry>, base: string, U: seq<Entry>, i: nat)
    requires LevelOf(cache, base, U) && i <= |U| && i < |cache| && In(cache[i], base)
    ensures i < |U| && U[i] == cache[i] && U[i] in U
  {
  }

  lemma LevelEnds(cache: seq<Entry>, base: string, U: seq<Entry>, i: nat)
    requires LevelOf(cache, base, U) && i <= |U| && (i < |cache| ==> !In(cache[i], base))
    ensures i == |U|
  {
    assert forall j :: 0 <= j < |U| ==> In(U[j], base);
  }

  /** What is known of an entry of the level. */
  lemma AtLevel(cache: seq<Entry>, base: string, U: seq<Entry>, i: nat)
    requires LevelOf(cache, base, U) && i < |U|
    ensures i < |cache| && cache[i] == U[i] && |base| < |U[i].name| && In(U[i], base)
    ensures Sorted(cache) && WellNamed(cache) && Sorted(U) && WellNamed(U) && AllIn(U, base) && Under(U, base) == U
    ensures IsDir(U[i], |base|) ==> Slash(U[i].name, |base|) < |U[i].name|
  {
    assert U[i] in U;
  }
}
