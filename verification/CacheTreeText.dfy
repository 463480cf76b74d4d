/** The text form of a cache tree in the index file: what write_one prints and read_one makes of it. */
module CacheTreeText {
  import opened Basics
  import opened CacheIndex
  import opened CachedTree
  import opened CacheUpdate

  // ---- Numbers ------------------------------------------------------------------------------

  predicate IsDigit(c: char) {
    '0' <= c <= '9'
  }

  predicate IsSpace(c: char) {
    c == ' ' || '\t' <= c <= '\r'
  }

  function Digits(n: nat): (s: string)
    ensures |s| > 0 && AllDigits(s)
  {
    (if n < 10 then "" else Digits(n / 10)) + [(n % 10) as char + '0']
  }

  /** `%d`. */
  function Decimal(n: int): string {
    if n < 0 then "-" + Digits(-n) else Digits(n)
  }

  /** The value of the digits at the front, continuing from `acc`. */
  function Number(s: string, acc: nat): (r: (nat, string))
    ensures |r.1| <= |s|
  {
    if s == "" || !IsDigit(s[0]) then (acc, s) else Number(s[1..], 10 * acc + (s[0] - '0') as nat)
  }

  function SkipSpace(s: string): (r: string)
    ensures |r| <= |s|
  {
    if s != "" && IsSpace(s[0]) then SkipSpace(s[1..]) else s
  }

  const LONG_MAX: int := 0x7fff_ffff_ffff_ffff

  function Clamp(v: int): int {
    if v > LONG_MAX then LONG_MAX else if v < -LONG_MAX - 1 then -LONG_MAX - 1 else v
  }

  /** strtol in base ten, clamped as on a 64-bit machine; nothing if there is no number. */
  function Strtol(s: string): (r: Option<(int, string)>)
    ensures r.Some? ==> |r.value.1| < |s|
  {
    var t := SkipSpace(s);
    var negative := t != "" && t[0] == '-';
    var u := if t != "" && (t[0] == '-' || t[0] == '+') then t[1..] else t;
    if u == "" || !IsDigit(u[0]) then None
    else
      var (n, rest) := Number(u[1..], (u[0] - '0') as nat);
      Some((Clamp(if negative then -(n as int) else n), rest))
  }

  /** Storing a long in an int. */
  function ToInt(v: int): int {
    var m := v % 0x1_0000_0000;
    if m < 0x8000_0000 then m else m - 0x1_0000_0000
  }

  predicate IsInt(n: int) {
    -0x8000_0000 <= n < 0x8000_0000
  }

  predicate AllDigits(s: string) {
    forall i :: 0 <= i < |s| ==> IsDigit(s[i])
  }

  function Value(digits: string, acc: nat): nat
    requires AllDigits(digits)
  {
    if digits == "" then acc else Value(digits[1..], 10 * acc + (digits[0] - '0') as nat)
  }

  lemma {:induction false} ValueAppend(digits: string, d: char, acc: nat)
    requires AllDigits(digits) && IsDigit(d)
    ensures AllDigits(digits + [d]) && Value(digits + [d], acc) == 10 * Value(digits, acc) + (d - '0') as nat
  {
    if digits == "" {
      assert digits + [d] == [d] && [d][1..] == "";
    } else {
      assert (digits + [d])[1..] == digits[1..] + [d];
      ValueAppend(digits[1..], d, 10 * acc + (digits[0] - '0') as nat);
    }
  }

  lemma {:induction false} ValueOfDigits(n: nat)
    ensures Value(Digits(n), 0) == n
  {
    var d := (n % 10) as char + '0';
    if n < 10 {
      assert Digits(n) == [d] && [d][1..] == "";
    } else {
      ValueOfDigits(n / 10);
      ValueAppend(Digits(n / 10), d, 0);
    }
  }

  /** The digits at the front are read to the end. */
  lemma {:induction false} NumberPrefix(digits: string, rest: string, acc: nat)
    requires AllDigits(digits) && (rest == "" || !IsDigit(rest[0]))
    ensures Number(digits + rest, acc) == (Value(digits, acc), rest)
  {
    if digits == "" {
      assert digits + rest == rest;
    } else {
      assert (digits + rest)[1..] == digits[1..] + rest;
      NumberPrefix(digits[1..], rest, 10 * acc + (digits[0] - '0') as nat);
    }
  }

  lemma NumberOfDigits(n: nat, rest: string)
    requires rest == "" || !IsDigit(rest[0])
    ensures Number(Digits(n) + rest, 0) == (n, rest)
  {
    NumberPrefix(Digits(n), rest, 0);
    ValueOfDigits(n);
  }

  lemma StrtolPlain(u: string)
    requires u != "" && IsDigit(u[0])
    ensures Strtol(u) == Some((Clamp(Number(u, 0).0), Number(u, 0).1))
    ensures Strtol("-" + u) == Some((Clamp(-(Number(u, 0).0 as int)), Number(u, 0).1))
  {
    assert ("-" + u)[1..] == u && ("-" + u)[0] == '-';
    assert SkipSpace(u) == u && SkipSpace("-" + u) == "-" + u;
    NumberFirst(u);
    hide SkipSpace, Number;
  }

  lemma NumberFirst(u: string)
    requires u != "" && IsDigit(u[0])
    ensures Number(u, 0) == Number(u[1..], (u[0] - '0') as nat)
  {
  }

  lemma StrtolBlank(t: string)
    requires t != "" && !IsSpace(t[0])
    ensures Strtol(" " + t) == Strtol(t)
  {
    assert (" " + t)[1..] == t;
    assert SkipSpace(" " + t) == SkipSpace(t);
  }

  /** strtol undoes %d, whatever follows. */
  lemma StrtolDecimal(n: int, rest: string)
    requires IsInt(n) && (rest == "" || !IsDigit(rest[0]))
    ensures Strtol(Decimal(n) + rest) == Some((n, rest)) == Strtol(" " + (Decimal(n) + rest)) && ToInt(n) == n
  {
    var size := if n < 0 then -n else n;
    var u := Digits(size) + rest;
    NumberOfDigits(size, rest);
    assert IsDigit(u[0]);
    StrtolPlain(u);
    DecimalFirst(n, rest);
    hide *;
    StrtolBlank(Decimal(n) + rest);
  }

  lemma DecimalFirst(n: int, rest: string)
    ensures Decimal(n) + rest == if n < 0 then "-" + (Digits(-n) + rest) else Digits(n) + rest
    ensures Decimal(n) != "" && !IsSpace((Decimal(n) + rest)[0])
    ensures IsInt(n) ==> Clamp(n) == n && ToInt(n) == n
  {
    var digits := Digits(if n < 0 then -n else n);
    assert IsDigit(digits[0]);
    SignFirst(digits, rest);
    hide Digits;
  }

  lemma SignFirst(digits: string, rest: string)
    requires digits != "" && IsDigit(digits[0])
    ensures "-" + digits + rest == "-" + (digits + rest)
    ensures (digits + rest)[0] == digits[0] && ("-" + (digits + rest))[0] == '-'
  {
  }

  // ---- Writing ------------------------------------------------------------------------------

  /** What a tree needs to be written: every subtree there, in order, names without NUL, counts that are ints. */
  ghost predicate Writable(t: Tree)
    decreases t
  {
    && IsInt(t.count) && IsInt(|t.down|) && InOrder(t.down)
    && (forall i {:trigger t.down[i]} :: 0 <= i < |t.down| ==>
          t.down[i].tree.Some? && '\0' !in t.down[i].name && Writable(t.down[i].tree.value))
  }

  /** The line of a node and its hash, if it is known. */
  ghost function HeadText(t: Tree): string {
    Decimal(t.count) + (" " + (Decimal(|t.down|) + ("\n" + if t.count >= 0 then t.sha1 else "")))
  }

  /** What write_one appends for a node under that name. */
  ghost function Printed(t: Tree, name: string): string
    decreases t, |t.down| + 1
  {
    name + ("\0" + (HeadText(t) + PrintedSubs(t, 0)))
  }

  /** The subtrees from the i-th on. */
  ghost function PrintedSubs(t: Tree, i: nat): string
    requires i <= |t.down|
    decreases t, |t.down| - i
  {
    if i == |t.down| then ""
    else (if t.down[i].tree.None? then "" else Printed(t.down[i].tree.value, t.down[i].name)) + PrintedSubs(t, i + 1)
  }

  /** Every subtree slot holds a tree. */
  ghost predicate There(t: Tree)
    decreases t
  {
    forall i {:trigger t.down[i]} :: 0 <= i < |t.down| ==> t.down[i].tree.Some? && There(t.down[i].tree.value)
  }

  /** On every level the subtrees are strictly in order. */
  ghost predicate AllInOrder(t: Tree)
    decreases t
  {
    && InOrder(t.down)
    && forall i {:trigger t.down[i]} :: 0 <= i < |t.down| && t.down[i].tree.Some? ==> AllInOrder(t.down[i].tree.value)
  }

  // ---- Reading ------------------------------------------------------------------------------

  /** Where the first NUL is, or, if asked for, the first newline; or the end. */
  function Until(s: string, newline: bool): (k: nat)
    ensures k <= |s| && (k < |s| ==> s[k] == '\0' || (newline && s[k] == '\n'))
    ensures forall i :: 0 <= i < k ==> s[i] != '\0' && (newline ==> s[i] != '\n')
  {
    if s == "" || s[0] == '\0' || (newline && s[0] == '\n') then 0 else 1 + Until(s[1..], newline)
  }

  datatype Head = Head(count: int, nr: int, sha1: Sha, rest: string)

  /** The line of a node and its hash. */
  function ReadHead(a: string): (r: Option<Head>)
    ensures r.Some? ==> |r.value.rest| < |a|
  {
    var first := Strtol(a);
    if first.None? then None
    else
      var second := Strtol(first.value.1);
      var l := Until(a, true);
      if second.None? || l == |a| then None
      else
        var count, nr, e := ToInt(first.value.0), ToInt(second.value.0), a[l + 1..];
        if count < 0 then Some(Head(count, nr, NULL_SHA, e))
        else if |e| < 20 then None
        else Some(Head(count, nr, e[..20], e[20..]))
  }

  /** The outcome of reading: a failure, the abort on duplicate names, or a tree and the text behind it. */
  datatype Read = Fail | Die | Got(tree: Tree, rest: string)

  /** Put a subtree where find_subtree would: over the one of that name, or in between in order. */
  function Put(down: seq<Sub>, name: string, sub: Tree): (r: seq<Sub>)
    ensures |down| <= |r| <= |down| + 1
  {
    if down == [] then [Sub(name, Some(sub), 0, false)]
    else if down[0].name == name then [down[0].(tree := Some(sub))] + down[1..]
    else if Before(name, down[0].name) then [Sub(name, Some(sub), 0, false)] + down
    else [down[0]] + Put(down[1..], name, sub)
  }

  /** read_one. */
  function ReadTree(s: string): (r: Read)
    ensures r.Got? ==> |r.rest| < |s|
    decreases |s|, 0
  {
    var z := Until(s, false);
    if z == |s| then Fail
    else
      var head := ReadHead(s[z + 1..]);
      if head.None? then Fail
      else
        var h := head.value;
        ReadSubs(h.rest, h.nr, h.nr, Tree(h.count, h.sha1, []))
  }

  lemma HeadFirst(s: string, z: nat, head: Option<Head>)
    requires Until(s, false) == z < |s| && head == ReadHead(s[z + 1..])
    ensures head.None? ==> ReadTree(s) == Fail
    ensures head.Some? ==> var h := head.value;
      |h.rest| < |s| && ReadTree(s) == ReadSubs(h.rest, h.nr, h.nr, Tree(h.count, h.sha1, []))
  {
    hide *;
    ReadTreeIs(s);
  }

  lemma ReadTreeIs(s: string)
    ensures Until(s, false) == |s| ==> ReadTree(s) == Fail
    ensures Until(s, false) < |s| ==>
      var head := ReadHead(s[Until(s, false) + 1..]);
      && (head.None? ==> ReadTree(s) == Fail)
      && (head.Some? ==> var h := head.value;
           |h.rest| < |s| && ReadTree(s) == ReadSubs(h.rest, h.nr, h.nr, Tree(h.count, h.sha1, [])))
  {
    hide Until, ReadHead, ReadSubs, Put;
  }

  /** Read `left` more subtrees into `it`. */
  function ReadSubs(s: string, left: int, nr: int, it: Tree): (r: Read)
    ensures r.Got? ==> |r.rest| <= |s|
    decreases |s|, 1 + if left < 0 then 0 else left
  {
    if left <= 0 then if |it.down| == nr then Got(it, s) else Die
    else
      var sub := ReadTree(s);
      if !sub.Got? then sub
      else ReadSubs(sub.rest, left - 1, nr, it.(down := Put(it.down, s[..Until(s, false)], sub.tree)))
  }

  // ---- Reading undoes writing ---------------------------------------------------------------

  /** What remains of a tree: names, order, counts, and the hashes of the known nodes. */
  ghost function Normal(t: Tree): (r: Tree)
    requires Writable(t)
    ensures r.count == t.count && |r.down| == |t.down|
    ensures forall i {:trigger r.down[i]} :: 0 <= i < |t.down| ==>
      r.down[i] == Sub(t.down[i].name, Some(Normal(t.down[i].tree.value)), 0, false)
    decreases t
  {
    Tree(t.count, if t.count >= 0 then t.sha1 else NULL_SHA,
      seq(|t.down|, i requires 0 <= i < |t.down| => Sub(t.down[i].name, Some(Normal(t.down[i].tree.value)), 0, false)))
  }

  lemma {:induction false} UntilEnd(s: string, newline: bool, c: char, rest: string)
    requires '\0' !in s && (newline ==> '\n' !in s) && (c == '\0' || (newline && c == '\n'))
    ensures Until(s + ([c] + rest), newline) == |s|
  {
    if s == "" {
      assert s + ([c] + rest) == [c] + rest;
    } else {
      assert (s + ([c] + rest))[1..] == s[1..] + ([c] + rest);
      UntilEnd(s[1..], newline, c, rest);
    }
  }

  /** The line itself has no newline and no NUL before its end. */
  lemma NumbersOnly(m: int, n: int)
    ensures var line := Decimal(m) + (" " + Decimal(n)); '\0' !in line && '\n' !in line
  {
  }

  /** A later subtree goes to the end. */
  lemma {:induction false} PutLast(down: seq<Sub>, name: string, sub: Tree)
    requires forall i {:trigger down[i]} :: 0 <= i < |down| ==> Before(down[i].name, name)
    ensures Put(down, name, sub) == down + [Sub(name, Some(sub), 0, false)]
  {
    if down != [] {
      LessTotal(down[0].name, name);
      LessTotal(name, name);
      PutLast(down[1..], name, sub);
      assert down == [down[0]] + down[1..];
    }
  }

  lemma HeadGroups(t: Tree, x: string)
    requires Writable(t)
    ensures var y := (if t.count >= 0 then t.sha1 else "") + x; var n := Decimal(|t.down|);
      && HeadText(t) + x == Decimal(t.count) + (" " + (n + ("\n" + y)))
      && HeadText(t) + x == (Decimal(t.count) + (" " + n)) + (['\n'] + y)
  {
    hide Writable, Decimal;
    var sha, n, c := if t.count >= 0 then t.sha1 else "", Decimal(|t.down|), Decimal(t.count);
    assert "\n" + sha + x == "\n" + (sha + x);
    assert n + ("\n" + sha) + x == n + ("\n" + (sha + x));
    assert " " + (n + ("\n" + sha)) + x == " " + (n + ("\n" + (sha + x)));
    assert c + (" " + (n + ("\n" + sha))) + x == c + (" " + (n + ("\n" + (sha + x))));
    assert c + (" " + (n + ("\n" + (sha + x)))) == (c + (" " + n)) + (['\n'] + (sha + x));
  }

  /** The head of a node is read back. */
  lemma HeadRead(t: Tree, x: string)
    requires Writable(t)
    ensures ReadHead(HeadText(t) + x) == Some(Head(t.count, |t.down|, if t.count >= 0 then t.sha1 else NULL_SHA, x))
  {
    hide *;
    var sha := if t.count >= 0 then t.sha1 else "";
    var y, n, c := sha + x, Decimal(|t.down|), Decimal(t.count);
    var r2 := "\n" + y;
    var r1 := " " + (n + r2);
    HeadGroups(t, x);
    CountsAreInts(t);
    HeadReadFrom(HeadText(t) + x, t.count, |t.down|, c + (" " + n), r1, r2, y);
    if t.count >= 0 {
      TwentyAndRest(t.sha1, x);
      KnownHead(HeadText(t) + x, t.count, |t.down|, y, t.sha1, x);
    } else {
      Unit(x);
      UnknownHead(HeadText(t) + x, t.count, |t.down|, x);
    }
  }

  /** Both numbers and the end of the line are found. */
  ghost predicate HeadLine(a: string, count: int, nr: int, y: string) {
    var first := Strtol(a);
    && first.Some? && ToInt(first.value.0) == count
    && Strtol(first.value.1).Some? && ToInt(Strtol(first.value.1).value.0) == nr
    && Until(a, true) < |a| && a[Until(a, true) + 1..] == y
  }

  lemma HeadReadFrom(a: string, count: int, nr: int, line: string, r1: string, r2: string, y: string)
    requires IsInt(count) && IsInt(nr) && line == Decimal(count) + (" " + Decimal(nr))
    requires a == Decimal(count) + r1 && r1 == " " + (Decimal(nr) + r2) && r2 == "\n" + y
    requires a == line + (['\n'] + y)
    ensures HeadLine(a, count, nr, y)
  {
    hide Strtol, Decimal, ToInt, Until, IsDigit, IsInt;
    NotADigit(r2, r1);
    StrtolDecimal(nr, r2);
    StrtolDecimal(count, r1);
    NumbersOnly(count, nr);
    UntilEnd(line, true, '\n', y);
    AfterLine(line, '\n', y);
  }

  lemma KnownHead(a: string, count: int, nr: int, y: string, sha1: Sha, x: string)
    requires HeadLine(a, count, nr, y) && count >= 0 && |y| >= 20 && y[..20] == sha1 && y[20..] == x
    ensures ReadHead(a) == Some(Head(count, nr, sha1, x))
  {
    hide Strtol, ToInt, Until;
  }

  lemma UnknownHead(a: string, count: int, nr: int, x: string)
    requires HeadLine(a, count, nr, x) && count < 0
    ensures ReadHead(a) == Some(Head(count, nr, NULL_SHA, x))
  {
    hide Strtol, ToInt, Until;
  }

  lemma CountsAreInts(t: Tree)
    requires Writable(t)
    ensures IsInt(t.count) && IsInt(|t.down|)
  {
  }

  lemma NotADigit(r2: string, r1: string)
    requires r2 != "" && r2[0] == '\n' && r1 != "" && r1[0] == ' '
    ensures !IsDigit(r2[0]) && !IsDigit(r1[0])
  {
  }

  lemma AfterLine(line: string, c: char, y: string)
    ensures var a := line + ([c] + y); |line| < |a| && a[|line| + 1..] == y && a[..|line|] == line
  {
  }

  lemma TwentyAndRest(sha1: Sha, x: string)
    ensures (sha1 + x)[..20] == sha1 && (sha1 + x)[20..] == x
  {
  }

  /** Reading what was written gives the tree back, and stops exactly where it ends. */
  lemma {:induction false} ReadUndoesWrite(t: Tree, name: string, rest: string)
    requires Writable(t) && '\0' !in name
    ensures ReadTree(Printed(t, name) + rest) == Got(Normal(t), rest)
    ensures Until(Printed(t, name) + rest, false) == |name| && (Printed(t, name) + rest)[..|name|] == name
    decreases t, |t.down| + 1
  {
    var body := HeadText(t) + (PrintedSubs(t, 0) + rest);
    PrintedGroups(t, name, rest);
    UntilEnd(name, false, '\0', body);
    AfterLine(name, '\0', body);
    HeadRead(t, PrintedSubs(t, 0) + rest);
    SubsReadBack(t, 0, rest);
    assert Normal(t).down[..0] == [];
    hide HeadText, Printed, PrintedSubs, ReadHead, Until, Writable, ReadSubs;
    assert ReadTree(Printed(t, name) + rest) == ReadSubs(PrintedSubs(t, 0) + rest, |t.down|, |t.down|,
      Tree(t.count, if t.count >= 0 then t.sha1 else NULL_SHA, []));
  }

  lemma PrintedGroups(t: Tree, name: string, rest: string)
    requires Writable(t)
    ensures Printed(t, name) + rest == name + (['\0'] + (HeadText(t) + (PrintedSubs(t, 0) + rest)))
  {
    var h, p := HeadText(t), PrintedSubs(t, 0);
    assert Printed(t, name) == name + ("\0" + (h + p));
    hide *;
    Assoc(name, "\0" + (h + p), rest);
    Assoc("\0", h + p, rest);
    Assoc(h, p, rest);
  }

  /** The subtrees from the i-th on are read back behind the first ones. */
  lemma {:induction false} SubsReadBack(t: Tree, i: nat, rest: string)
    requires Writable(t) && i <= |t.down|
    ensures ReadSubs(PrintedSubs(t, i) + rest, |t.down| - i, |t.down|,
              Tree(t.count, if t.count >= 0 then t.sha1 else NULL_SHA, Normal(t).down[..i])) == Got(Normal(t), rest)
    decreases t, |t.down| - i
  {
    hide *;
    var sha1 := if t.count >= 0 then t.sha1 else NULL_SHA;
    NormalHead(t);
    if i == |t.down| {
      SubsEnd(t, rest);
    } else {
      SubAt(t, i);
      var sub, name := t.down[i].tree.value, t.down[i].name;
      var down, more := Normal(t).down[..i], PrintedSubs(t, i + 1) + rest;
      PrintedNext(t, i, rest);
      ReadUndoesWrite(sub, name, more);
      NextSub(t, i, down, Normal(sub));
      SubsReadBack(t, i + 1, rest);
      ReadNext(PrintedSubs(t, i) + rest, |t.down| - i, |t.down|, Tree(t.count, sha1, down), name, Normal(sub), more);
    }
  }

  lemma NormalHead(t: Tree)
    requires Writable(t)
    ensures Normal(t) == Tree(t.count, if t.count >= 0 then t.sha1 else NULL_SHA, Normal(t).down)
  {
  }

  lemma SubAt(t: Tree, i: nat)
    requires Writable(t) && i < |t.down|
    ensures t.down[i].tree.Some? && '\0' !in t.down[i].name && Writable(t.down[i].tree.value)
  {
  }

  lemma SubsEnd(t: Tree, rest: string)
    requires Writable(t)
    ensures ReadSubs(PrintedSubs(t, |t.down|) + rest, 0, |t.down|, Normal(t)) == Got(Normal(t), rest)
    ensures Normal(t).down[..|t.down|] == Normal(t).down
  {
    assert "" + rest == rest;
  }

  lemma PrintedNext(t: Tree, i: nat, rest: string)
    requires Writable(t) && i < |t.down|
    ensures PrintedSubs(t, i) + rest ==
            Printed(t.down[i].tree.value, t.down[i].name) + (PrintedSubs(t, i + 1) + rest)
  {
    var p, q := Printed(t.down[i].tree.value, t.down[i].name), PrintedSubs(t, i + 1);
    assert PrintedSubs(t, i) == p + q;
    hide *;
    assert p + q + rest == p + (q + rest);
  }

  lemma ReadNext(s: string, left: nat, nr: int, it: Tree, name: string, sub: Tree, more: string)
    requires left > 0 && ReadTree(s) == Got(sub, more) && s[..Until(s, false)] == name
    ensures ReadSubs(s, left, nr, it) == ReadSubs(more, left - 1, nr, it.(down := Put(it.down, name, sub)))
  {
    hide ReadTree, Put;
  }

  lemma NextSub(t: Tree, i: nat, down: seq<Sub>, sub: Tree)
    requires Writable(t) && i < |t.down| && down == Normal(t).down[..i] && sub == Normal(t.down[i].tree.value)
    ensures Put(down, t.down[i].name, sub) == Normal(t).down[..i + 1]
  {
    var all := Normal(t).down;
    assert all[i] == Sub(t.down[i].name, Some(sub), 0, false);
    forall j | 0 <= j < |down| ensures Before(down[j].name, t.down[i].name) {
      assert down[j] == all[j] && all[j].name == t.down[j].name;
    }
    PutLast(down, t.down[i].name, sub);
    assert all[..i + 1] == all[..i] + [all[i]];
  }

  // ---- Placing what was read ----------------------------------------------------------------

  /** Filling the slot that find_subtree found or made is what Put does. */
  lemma {:induction false} PutIntoSlot(down: seq<Sub>, name: string, pos: nat, mid: seq<Sub>, sub: Tree)
    requires mid == down || Inserted(down, name, pos, mid)
    requires InOrder(mid) && pos < |mid| && mid[pos].name == name
    ensures mid[pos := mid[pos].(tree := Some(sub))] == Put(down, name, sub)
  {
    if pos == 0 {
      if mid != down && down != [] {
        assert mid[1] == down[0] && Before(mid[0].name, mid[1].name);
        assert down[0] in down;
      }
    } else {
      BehindFirst(down, name, pos, mid);
      hide Before, InOrder, Inserted, Put;
      PutIntoSlot(down[1..], name, pos - 1, mid[1..], sub);
      PutBehind(down, name, sub);
      assert mid == [mid[0]] + mid[1..];
    }
  }

  /** The slot is not the first one: what is said of it is said of the rest. */
  lemma BehindFirst(down: seq<Sub>, name: string, pos: nat, mid: seq<Sub>)
    requires mid == down || Inserted(down, name, pos, mid)
    requires InOrder(mid) && 0 < pos < |mid| && mid[pos].name == name
    ensures down != [] && mid[0] == down[0] && down[0].name != name && !Before(name, down[0].name)
    ensures mid[1..] == down[1..] || Inserted(down[1..], name, pos - 1, mid[1..])
    ensures InOrder(mid[1..])
  {
    assert Before(mid[0].name, mid[pos].name);
    LessTotal(mid[0].name, name);
    LessTotal(name, name);
    hide Less;
    assert mid[0] == down[0];
    assert down == [down[0]] + down[1..];
    assert mid == down || mid[1..] == down[1..][..pos - 1] + [Sub(name, None, 0, false)] + down[1..][pos - 1..];
  }

  lemma PutBehind(down: seq<Sub>, name: string, sub: Tree)
    requires down != [] && down[0].name != name && !Before(name, down[0].name)
    ensures Put(down, name, sub) == [down[0]] + Put(down[1..], name, sub)
  {
    hide Before;
  }

  lemma {:induction false} WritableIsThere(t: Tree)
    requires Writable(t)
    ensures There(t) && AllInOrder(t)
    decreases t
  {
    forall i | 0 <= i < |t.down|
      ensures t.down[i].tree.Some? && There(t.down[i].tree.value) && AllInOrder(t.down[i].tree.value)
    {
      WritableIsThere(t.down[i].tree.value);
    }
  }

  // ---- A sample -----------------------------------------------------------------------------

  lemma SampleNumbers()
    ensures Decimal(-1) == "-1" && Decimal(0) == "0" && Decimal(1) == "1" && Decimal(12) == "12"
  {
    assert Digits(0) == "0" && Digits(1) == "1" && Digits(12) == Digits(1) + ['2'];
  }

  /** A root that is not known, with one subtree of twelve entries that is. */
  lemma SamplePrinted(before: Sha, sha1: Sha)
    ensures var sub := Tree(12, sha1, []);
      Printed(Tree(-1, before, [Sub("a", Some(sub), 12, true)]), "") ==
      "" + ("\0" + ("-1" + (" " + ("1" + ("\n" + "")))
                   + (("a" + ("\0" + ("12" + (" " + ("0" + ("\n" + sha1))) + ""))) + "")))
  {
    var sub := Tree(12, sha1, []);
    var t := Tree(-1, before, [Sub("a", Some(sub), 12, true)]);
    SampleNumbers();
    hide Decimal;
    assert PrintedSubs(sub, 0) == "" && PrintedSubs(t, 1) == "";
    assert HeadText(sub) == "12" + (" " + ("0" + ("\n" + sha1)));
    assert HeadText(t) == "-1" + (" " + ("1" + ("\n" + "")));
    assert Printed(sub, "a") == "a" + ("\0" + (HeadText(sub) + ""));
    assert t.down[0].tree.value == sub && PrintedSubs(t, 0) == Printed(sub, "a") + "";
  }

  /** A subtree of a shorter name stands before one of a longer name, whatever the letters. */
  lemma SamplePut(t: Tree, other: Tree)
    ensures Put([Sub("aa", Some(other), 0, false)], "b", t) ==
      [Sub("b", Some(t), 0, false), Sub("aa", Some(other), 0, false)]
    ensures Put([Sub("b", Some(other), 0, false)], "a", t) ==
      [Sub("a", Some(t), 0, false), Sub("b", Some(other), 0, false)]
  {}
}
