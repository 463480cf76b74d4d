/** diffcore-delta.c: how much of one file is copied into another, counted by hashes of short spans. */
module CountChanges {
  import opened Basics
  import opened SpanHash

  // ---- Spans --------------------------------------------------------------------------------

  const WORD: nat := 0x1_0000_0000

  /** The accumulators of the span being read, words of 32 bits, and its length so far. */
  datatype Acc = Acc(a: nat, b: nat, n: nat)

  const START: Acc := Acc(0, 0, 0)

  /** The bits that `^` joins in the source do not overlap, so that it is an addition. */
  function Mix(acc: Acc, c: char): Acc {
    Acc((acc.a * 0x80 % WORD + acc.b / 0x200_0000 + c as int % 256) % WORD,
      acc.b * 0x80 % WORD + acc.a / 0x200_0000, acc.n + 1)
  }

  function HashOf(acc: Acc): (h: nat)
    ensures h < HASHBASE
  {
    (acc.a + acc.b * 0x61) % WORD % HASHBASE
  }

  /** A carriage return before a line feed is not counted in text. */
  predicate Ignored(buf: string, i: nat, isText: bool)
    requires i < |buf|
  {
    isText && buf[i] == '\r' && i + 1 < |buf| && buf[i + 1] == '\n'
  }

  /** The spans of the text from `i` on: they end with a line feed or after 64 characters. */
  function Spans(buf: string, i: nat, isText: bool, acc: Acc): (s: seq<Span>)
    requires i <= |buf|
    decreases |buf| - i
  {
    if i == |buf| then []
    else if Ignored(buf, i, isText) then Spans(buf, i + 1, isText, acc)
    else
      var next := Mix(acc, buf[i]);
      if next.n < 64 && buf[i] != '\n' then Spans(buf, i + 1, isText, next)
      else [Span(HashOf(next), next.n)] + Spans(buf, i + 1, isText, START)
  }

  /** The bytes of a file counted under `h`. */
  function Bytes(buf: string, isText: bool, h: nat): nat {
    CountOf(Spans(buf, 0, isText, START), h)
  }

  lemma {:induction false} CountFirst(s: Span, d: seq<Span>, h: nat)
    ensures CountOf([s] + d, h) == CountOf(d, h) + if s.hashval == h then s.cnt else 0
  {
    if d != [] {
      CountFirst(s, d[..|d| - 1], h);
      assert ([s] + d)[..|d|] == [s] + d[..|d| - 1];
    } else {
      assert [s] + d == [s] && [s][..0] == [];
    }
  }

  // ---- What is hashed -----------------------------------------------------------------------

  lemma BitsApart(a: bv32, b: bv32)
    ensures (a << 7) ^ (b >> 25) == (a << 7) + (b >> 25)
  {}

  /** The accumulators are the halves of a word of 64 bits that is rotated by seven before the byte is added. */
  lemma MixRotates(acc: Acc, c: char)
    requires acc.a < WORD && acc.b < WORD
    ensures var word := acc.b * WORD + acc.a;
      var turned := word * 0x80 % (WORD * WORD) + word / 0x200_0000_0000_0000;
      && Mix(acc, c).b == turned / WORD < WORD
      && Mix(acc, c).a == (turned % WORD + c as int % 256) % WORD
  {
    TurnedParts(acc.a, acc.b);
  }

  lemma TurnedParts(a: nat, b: nat)
    requires a < WORD && b < WORD
    ensures var word := b * WORD + a; var turned := word * 0x80 % (WORD * WORD) + word / 0x200_0000_0000_0000;
      && b * 0x80 % WORD + a / 0x200_0000 == turned / WORD < WORD
      && turned % WORD == a * 0x80 % WORD + b / 0x200_0000
  {
    var p, q, r, s := a / 0x200_0000, a % 0x200_0000, b / 0x200_0000, b % 0x200_0000;
    SplitsAt(a, p, q);
    SplitsAt(b, r, s);
    WordTurns(p, q, r, s);
    assert b * WORD + a == 0x200_0000_0000_0000 * r + (s * WORD + 0x200_0000 * p + q);
  }

  lemma SplitsAt(a: nat, p: nat, q: nat)
    requires a < WORD && p == a / 0x200_0000 && q == a % 0x200_0000
    ensures a == 0x200_0000 * p + q && p < 0x80 && a * 0x80 % WORD == 0x80 * q
  {
    assert a * 0x80 == WORD * p + 0x80 * q;
  }

  lemma WordTurns(p: nat, q: nat, r: nat, s: nat)
    requires p < 0x80 && q < 0x200_0000 && r < 0x80 && s < 0x200_0000
    ensures var word := 0x200_0000_0000_0000 * r + (s * WORD + 0x200_0000 * p + q);
      var turned := word * 0x80 % (WORD * WORD) + word / 0x200_0000_0000_0000;
      turned / WORD == 0x80 * s + p < WORD && turned % WORD == 0x80 * q + r
  {
    var low := s * WORD + 0x200_0000 * p + q;
    var word := 0x200_0000_0000_0000 * r + low;
    assert low < 0x200_0000_0000_0000 && word / 0x200_0000_0000_0000 == r;
    assert word * 0x80 == WORD * WORD * r + 0x80 * low && 0x80 * low < WORD * WORD;
    assert word * 0x80 % (WORD * WORD) == 0x80 * low;
    assert 0x80 * low + r == WORD * (0x80 * s + p) + (0x80 * q + r) && 0x80 * q + r < WORD;
  }

  /** Spans that differ in their last byte alone have different hash values. */
  lemma LastByteCounts(acc: Acc, c: char, d: char)
    requires c as int % 256 != d as int % 256
    ensures HashOf(Mix(acc, c)) != HashOf(Mix(acc, d))
  {
    var x := acc.a * 0x80 % WORD + acc.b / 0x200_0000 + (acc.b * 0x80 % WORD + acc.a / 0x200_0000) * 0x61;
    HashIs(acc, c, x);
    HashIs(acc, d, x);
    hide *;
    Differ(x, c as int % 256, d as int % 256);
  }

  lemma HashIs(acc: Acc, c: char, x: nat)
    requires x == acc.a * 0x80 % WORD + acc.b / 0x200_0000 + (acc.b * 0x80 % WORD + acc.a / 0x200_0000) * 0x61
    ensures HashOf(Mix(acc, c)) == (x + c as int % 256) % WORD % HASHBASE
  {
    var p: nat, q: nat := acc.a * 0x80 % WORD + acc.b / 0x200_0000, acc.b * 0x80 % WORD + acc.a / 0x200_0000;
    HashParts(acc, c, p, q);
    hide *;
    ReducedBefore(p + c as int % 256, q * 0x61);
    assert p + c as int % 256 + q * 0x61 == x + c as int % 256;
  }

  lemma HashParts(acc: Acc, c: char, p: nat, q: nat)
    requires p == acc.a * 0x80 % WORD + acc.b / 0x200_0000 && q == acc.b * 0x80 % WORD + acc.a / 0x200_0000
    ensures HashOf(Mix(acc, c)) == ((p + c as int % 256) % WORD + q * 0x61) % WORD % HASHBASE
  {}

  lemma {:induction false} WholeWords(n: nat, k: nat)
    ensures (n + WORD * k) % WORD == n % WORD
  {
    if k > 0 {
      WholeWords(n, k - 1);
      assert n + WORD * k == n + WORD * (k - 1) + WORD;
    }
  }

  lemma ReducedBefore(m: nat, y: nat)
    ensures (m % WORD + y) % WORD == (m + y) % WORD
  {
    WholeWords(m % WORD + y, m / WORD);
    assert m % WORD + y + WORD * (m / WORD) == m + y;
  }

  lemma NoMultiple(e: int, k: int)
    requires 0 < e < HASHBASE
    ensures HASHBASE * k != e
  {}

  /** Numbers that differ by less than the base are not congruent. */
  lemma NotCongruent(r: nat, s: nat, whole: int, e: int)
    requires s - r == HASHBASE * whole + e && 0 < e < HASHBASE
    ensures r % HASHBASE != s % HASHBASE
  {
    NoMultiple(e, s / HASHBASE - r / HASHBASE - whole);
    assert r == HASHBASE * (r / HASHBASE) + r % HASHBASE && s == HASHBASE * (s / HASHBASE) + s % HASHBASE;
  }

  lemma DifferUp(x: nat, c: nat, d: nat)
    requires c < d < 256
    ensures (x + c) % WORD % HASHBASE != (x + d) % WORD % HASHBASE
  {
    var r, s := (x + c) % WORD, (x + d) % WORD;
    ReducedBefore(x + c, d - c);
    assert s == (r + (d - c)) % WORD;
    assert s == r + (d - c) || s == r + (d - c) - WORD;
    hide *;
    if s == r + (d - c) {
      NotCongruent(r, s, 0, d - c);
    } else {
      // WORD == 39795 * HASHBASE + 12331
      NotCongruent(s, r, 39795, 12331 - (d - c));
    }
  }

  lemma Differ(x: nat, c: nat, d: nat)
    requires c < 256 && d < 256 && c != d
    ensures (x + c) % WORD % HASHBASE != (x + d) % WORD % HASHBASE
  {
    if c < d {
      DifferUp(x, c, d);
    } else {
      DifferUp(x, d, c);
    }
  }

  /** What is read from the beginning of a line on does not depend on what stands before it. */
  lemma {:induction false} SpansBehind(a: string, b: string, i: nat, isText: bool, acc: Acc)
    requires i <= |b|
    ensures Spans(a + b, |a| + i, isText, acc) == Spans(b, i, isText, acc)
    decreases |b| - i
  {
    hide Mix, HashOf;
    if i < |b| {
      assert (a + b)[|a| + i] == b[i];
      assert i + 1 < |b| ==> (a + b)[|a| + i + 1] == b[i + 1];
      SpansBehind(a, b, i + 1, isText, acc);
      SpansBehind(a, b, i + 1, isText, Mix(acc, b[i]));
      SpansBehind(a, b, i + 1, isText, START);
    }
  }

  /** Lines are counted by themselves: the spans of whole lines and what follows are those of each. */
  lemma {:induction false} LinesApart(a: string, b: string, i: nat, isText: bool, acc: Acc)
    requires i <= |a| && (a == "" || a[|a| - 1] == '\n') && (i == |a| ==> acc == START)
    ensures Spans(a + b, i, isText, acc) == Spans(a, i, isText, acc) + Spans(b, 0, isText, START)
    decreases |a| - i
  {
    hide Mix, HashOf;
    if i == |a| {
      SpansBehind(a, b, 0, isText, START);
      Unit(Spans(b, 0, isText, START));
    } else {
      assert (a + b)[i] == a[i] && (i + 1 < |a| ==> (a + b)[i + 1] == a[i + 1]);
      var next := Mix(acc, a[i]);
      if Ignored(a, i, isText) {
        LinesApart(a, b, i + 1, isText, acc);
      } else if next.n < 64 && a[i] != '\n' {
        LinesApart(a, b, i + 1, isText, next);
      } else {
        LinesApart(a, b, i + 1, isText, START);
        Assoc([Span(HashOf(next), next.n)], Spans(a, i + 1, isText, START), Spans(b, 0, isText, START));
      }
    }
  }

  /** So the order of lines does not matter to what is counted. */
  lemma LinesSwapped(a: string, b: string, isText: bool, h: nat)
    requires (a == "" || a[|a| - 1] == '\n') && (b == "" || b[|b| - 1] == '\n')
    ensures Bytes(a + b, isText, h) == Bytes(a, isText, h) + Bytes(b, isText, h) == Bytes(b + a, isText, h)
  {
    LinesApart(a, b, 0, isText, START);
    LinesApart(b, a, 0, isText, START);
    CountBoth(Spans(a, 0, isText, START), Spans(b, 0, isText, START), h);
    CountBoth(Spans(b, 0, isText, START), Spans(a, 0, isText, START), h);
  }

  lemma {:induction false} CountBoth(c: seq<Span>, d: seq<Span>, h: nat)
    ensures CountOf(c + d, h) == CountOf(c, h) + CountOf(d, h)
  {
    if c == [] {
      Unit(d);
    } else {
      CountBoth(c[1..], d, h);
      assert c == [c[0]] + c[1..] && c + d == [c[0]] + (c[1..] + d);
      CountFirst(c[0], c[1..], h);
      CountFirst(c[0], c[1..] + d, h);
    }
  }

  /** Without a line feed a span goes on to 64 characters; what is left of less than that is not counted. */
  lemma {:induction false} SpanGoesOn(buf: string, i: nat, k: nat, acc: Acc)
    requires i <= k <= |buf| && acc.n == k - i < 64
    requires forall j :: i <= j < i + 64 && j < |buf| ==> buf[j] != '\n'
    ensures i + 64 <= |buf| ==>
      exists h :: Spans(buf, k, false, acc) == [Span(h, 64)] + Spans(buf, i + 64, false, START)
    ensures i + 64 > |buf| ==> Spans(buf, k, false, acc) == []
    decreases |buf| - k
  {
    hide HashOf;
    if k < |buf| {
      var next := Mix(acc, buf[k]);
      if next.n < 64 {
        SpanGoesOn(buf, i, k + 1, next);
      } else {
        assert Spans(buf, k, false, acc) == [Span(HashOf(next), 64)] + Spans(buf, i + 64, false, START);
      }
    }
  }

  /** A line of seven characters: the accumulators, and the one span. */
  lemma OneLine()
    ensures Spans("abcdef\n", 0, true, START) == [Span(15094, 7)]
  {
    var s := "abcdef\n";
    assert Mix(START, 'a') == Acc(0x61, 0, 1);
    assert Mix(Acc(0x61, 0, 1), 'b') == Acc(0x30e2, 0, 2);
    assert Mix(Acc(0x30e2, 0, 2), 'c') == Acc(0x187163, 0, 3);
    assert Mix(Acc(0x187163, 0, 3), 'd') == Acc(0xc38b1e4, 0, 4);
    assert Mix(Acc(0xc38b1e4, 0, 4), 'e') == Acc(0x1c58f265, 6, 5);
    assert Mix(Acc(0x1c58f265, 6, 5), 'f') == Acc(0x2c7932e6, 0x30e, 6);
    assert Mix(Acc(0x2c7932e6, 0x30e, 6), '\n') == Acc(0x3c99730a, 0x18716, 7);
    assert HashOf(Acc(0x3c99730a, 0x18716, 7)) == 15094;
    hide Mix, HashOf;
    assert Spans(s, 7, true, START) == [];
    assert Spans(s, 6, true, Acc(0x2c7932e6, 0x30e, 6)) == [Span(15094, 7)];
    assert Spans(s, 5, true, Acc(0x1c58f265, 6, 5)) == [Span(15094, 7)];
    assert Spans(s, 4, true, Acc(0xc38b1e4, 0, 4)) == [Span(15094, 7)];
    assert Spans(s, 3, true, Acc(0x187163, 0, 3)) == [Span(15094, 7)];
    assert Spans(s, 2, true, Acc(0x30e2, 0, 2)) == [Span(15094, 7)];
    assert Spans(s, 1, true, Acc(0x61, 0, 1)) == [Span(15094, 7)];
  }

  // ---- Sorting ------------------------------------------------------------------------------

  /** spanhash_cmp: empty slots come last. */
  function SpanHashCmp(a: Span, b: Span): int {
    if a.cnt == 0 then if b.cnt == 0 then 0 else 1
    else if b.cnt == 0 then -1
    else if a.hashval < b.hashval then -1
    else if a.hashval > b.hashval then 1
    else 0
  }

  ghost predicate Sorted(d: seq<Span>) {
    forall i, j {:trigger d[i], d[j]} :: 0 <= i < j < |d| ==> SpanHashCmp(d[i], d[j]) <= 0
  }

  function InsertSpan(s: Span, d: seq<Span>): (r: seq<Span>)
    ensures |r| == |d| + 1
  {
    if d == [] || SpanHashCmp(s, d[0]) <= 0 then [s] + d else [d[0]] + InsertSpan(s, d[1..])
  }

  lemma {:induction false} InsertSorts(s: Span, d: seq<Span>)
    requires Sorted(d)
    ensures Sorted(InsertSpan(s, d)) && forall x :: x in InsertSpan(s, d) <==> x == s || x in d
  {
    if d != [] && SpanHashCmp(s, d[0]) > 0 {
      InsertSorts(s, d[1..]);
      var rest := InsertSpan(s, d[1..]);
      forall k | 0 <= k < |rest| ensures SpanHashCmp(d[0], rest[k]) <= 0 {
        assert rest[k] in rest;
      }
    }
  }

  lemma {:induction false} InsertCounts(s: Span, d: seq<Span>, h: nat)
    ensures CountOf(InsertSpan(s, d), h) == CountOf(d, h) + (if s.hashval == h then s.cnt else 0)
    ensures Used(InsertSpan(s, d)) == Used(d) + if s.cnt > 0 then 1 else 0
  {
    CountFirst(s, d, h);
    UsedFirst(s, d);
    if d != [] && SpanHashCmp(s, d[0]) > 0 {
      InsertCounts(s, d[1..], h);
      CountFirst(d[0], d[1..], h);
      CountFirst(d[0], InsertSpan(s, d[1..]), h);
      UsedFirst(d[0], d[1..]);
      UsedFirst(d[0], InsertSpan(s, d[1..]));
      assert d == [d[0]] + d[1..];
    }
  }

  lemma {:induction false} UsedFirst(s: Span, d: seq<Span>)
    ensures Used([s] + d) == Used(d) + if s.cnt > 0 then 1 else 0
  {
    if d != [] {
      UsedFirst(s, d[..|d| - 1]);
      assert ([s] + d)[..|d|] == [s] + d[..|d| - 1];
    } else {
      assert [s] + d == [s] && [s][..0] == [];
    }
  }

  /** What qsort does with that comparison. */
  function SortSpans(d: seq<Span>): (r: seq<Span>)
    ensures |r| == |d|
  {
    if d == [] then [] else InsertSpan(d[0], SortSpans(d[1..]))
  }

  lemma {:induction false} SortSorts(d: seq<Span>)
    ensures Sorted(SortSpans(d)) && forall x :: x in SortSpans(d) <==> x in d
    ensures Used(SortSpans(d)) == Used(d) && forall h :: CountOf(SortSpans(d), h) == CountOf(d, h)
  {
    if d != [] {
      SortSorts(d[1..]);
      InsertSorts(d[0], SortSpans(d[1..]));
      assert d == [d[0]] + d[1..];
      UsedFirst(d[0], d[1..]);
      InsertCounts(d[0], SortSpans(d[1..]), 0);
      forall h ensures CountOf(SortSpans(d), h) == CountOf(d, h) {
        InsertCounts(d[0], SortSpans(d[1..]), h);
        CountFirst(d[0], d[1..], h);
      }
    }
  }

  ghost predicate OnceEach(d: seq<Span>) {
    forall i, j {:trigger d[i], d[j]} :: 0 <= i < j < |d| && d[i].cnt > 0 && d[j].cnt > 0 ==>
      d[i].hashval != d[j].hashval
  }

  lemma {:induction false} InsertDistinct(s: Span, d: seq<Span>)
    requires OnceEach(d) && (s.cnt > 0 ==> forall x :: x in d && x.cnt > 0 ==> x.hashval != s.hashval)
    requires Sorted(d)
    ensures OnceEach(InsertSpan(s, d))
  {
    if d != [] && SpanHashCmp(s, d[0]) > 0 {
      InsertDistinct(s, d[1..]);
      InsertSorts(s, d[1..]);
      var rest := InsertSpan(s, d[1..]);
      forall k | 0 <= k < |rest| && d[0].cnt > 0 && rest[k].cnt > 0 ensures d[0].hashval != rest[k].hashval {
        assert rest[k] in rest;
        if rest[k] != s {
          var j :| 0 <= j < |d[1..]| && d[1..][j] == rest[k];
          assert d[j + 1] == rest[k];
        }
      }
    } else {
      forall k | 0 <= k < |d| ensures d[k] in d {}
    }
  }

  lemma {:induction false} SortDistinct(d: seq<Span>)
    requires OnceEach(d)
    ensures OnceEach(SortSpans(d))
  {
    if d != [] {
      SortDistinct(d[1..]);
      SortSorts(d[1..]);
      forall x | x in d[1..] && x.cnt > 0 && d[0].cnt > 0 ensures x.hashval != d[0].hashval {
        var j :| 0 <= j < |d[1..]| && d[1..][j] == x;
        assert d[j + 1] == x;
      }
      InsertDistinct(d[0], SortSpans(d[1..]));
    }
  }

  /** Sorting a table that is not full. */
  lemma SortedTable(hash: SpanHashTop)
    requires hash.Valid()
    ensures Counted(SortSpans(hash.data[..]))
    ensures forall h :: CountOf(SortSpans(hash.data[..]), h) == CountOf(hash.data[..], h)
  {
    hide InitialFree, Pow2, Reached, CountOf, SortSpans;
    var d := hash.data[..];
    var r := SortSpans(d);
    SortSorts(d);
    SortDistinct(d);
    RoomToGrow(hash.allocLog2);
    if r[|r| - 1].cnt > 0 {
      forall k | 0 <= k < |r| ensures r[k].cnt > 0 {
        assert SpanHashCmp(r[k], r[|r| - 1]) <= 0;
      }
      AllUsed(r);
    }
    assert forall k :: 0 <= k < |r| ==> r[k] in d;
  }

  /** A sorted table: the entries by hash value, then at least one empty slot. */
  ghost predicate Counted(d: seq<Span>) {
    && Sorted(d) && d != [] && d[|d| - 1].cnt == 0
    && (forall i, j {:trigger d[i], d[j]} :: 0 <= i < j < |d| && d[j].cnt > 0 ==>
         d[i].cnt > 0 && d[i].hashval < d[j].hashval)
    && (forall i {:trigger d[i]} :: 0 <= i < |d| && d[i].cnt > 0 ==> d[i].hashval < HASHBASE)
  }

  // ---- hash_chars ---------------------------------------------------------------------------

  /** hash_chars: the sorted table of a file's span counts. */
  method HashChars(buf: string, isText: bool) returns (d: seq<Span>)
    ensures TableOf(d, buf, isText)
  {
    var hash := new SpanHashTop(INITIAL_HASH_SIZE);
    var acc := START;
    var i := 0;
    while i < |buf|
      invariant 0 <= i <= |buf| && hash.Valid() && fresh(hash) && fresh(hash.data)
      invariant Remaining(hash.data[..], Spans(buf, i, isText, acc), Spans(buf, 0, isText, START))
    {
      if !Ignored(buf, i, isText) {
        acc := Mix(acc, buf[i]);
        if acc.n >= 64 || buf[i] == '\n' {
          ghost var was := hash.data[..];
          hash := hash.AddSpanHash(HashOf(acc), acc.n);
          CountedOne(was, hash.data[..], Span(HashOf(acc), acc.n), Spans(buf, i + 1, isText, START),
            Spans(buf, 0, isText, START));
          acc := START;
        }
      }
      i := i + 1;
    }
    d := SortSpans(hash.data[..]);
    SortedTable(hash);
  }

  /** What is in the table and what is still to come make up the whole. */
  ghost predicate Remaining(table: seq<Span>, rest: seq<Span>, all: seq<Span>) {
    forall h :: CountOf(table, h) + CountOf(rest, h) == CountOf(all, h)
  }

  lemma CountedOne(was: seq<Span>, now: seq<Span>, s: Span, rest: seq<Span>, all: seq<Span>)
    requires Remaining(was, [s] + rest, all)
    requires forall h :: CountOf(now, h) == CountOf(was, h) + if h == s.hashval then s.cnt else 0
    ensures Remaining(now, rest, all)
  {
    forall h ensures CountOf(now, h) + CountOf(rest, h) == CountOf(all, h) {
      CountFirst(s, rest, h);
    }
  }

  // ---- diffcore_count_changes ---------------------------------------------------------------

  function Min(a: nat, b: nat): nat {
    if a < b then a else b
  }

  function Excess(a: nat, b: nat): nat {
    if a < b then b - a else 0
  }

  /** The bytes of `d` that `s` has under the same hash, over all hash values below `n`. */
  ghost function Copied(s: seq<Span>, d: seq<Span>, n: nat): nat {
    if n == 0 then 0 else Copied(s, d, n - 1) + Min(CountOf(s, n - 1), CountOf(d, n - 1))
  }

  /** The bytes of `d` beyond those of `s` under the same hash. */
  ghost function Added(s: seq<Span>, d: seq<Span>, n: nat): nat {
    if n == 0 then 0 else Added(s, d, n - 1) + Excess(CountOf(s, n - 1), CountOf(d, n - 1))
  }

  ghost function Sum(d: seq<Span>, n: nat): nat {
    if n == 0 then 0 else Sum(d, n - 1) + CountOf(d, n - 1)
  }

  /** Together they are all the bytes of `d`. */
  lemma {:induction false} CopiedAndAdded(s: seq<Span>, d: seq<Span>, n: nat)
    ensures Copied(s, d, n) + Added(s, d, n) == Sum(d, n)
  {
    if n > 0 {
      CopiedAndAdded(s, d, n - 1);
    }
  }

  lemma {:induction false} NothingAdded(s: seq<Span>, d: seq<Span>, n: nat)
    requires forall h :: CountOf(d, h) <= CountOf(s, h)
    ensures Added(s, d, n) == 0
  {
    if n > 0 {
      NothingAdded(s, d, n - 1);
    }
  }

  /** A file whose lines are put into another order has nothing new. */
  lemma SwapAddsNothing(a: string, b: string, isText: bool)
    requires (a == "" || a[|a| - 1] == '\n') && (b == "" || b[|b| - 1] == '\n')
    ensures Added(Spans(a + b, 0, isText, START), Spans(b + a, 0, isText, START), HASHBASE) == 0
  {
    var s, d := Spans(a + b, 0, isText, START), Spans(b + a, 0, isText, START);
    hide Spans;
    forall h ensures CountOf(d, h) <= CountOf(s, h) {
      LinesSwapped(a, b, isText, h);
    }
    NothingAdded(s, d, HASHBASE);
  }

  /** All the bytes of the spans. */
  ghost function Total(d: seq<Span>): nat {
    if d == [] then 0 else d[0].cnt + Total(d[1..])
  }

  lemma {:induction false} SumFirst(s: Span, d: seq<Span>, n: nat)
    ensures Sum([s] + d, n) == Sum(d, n) + if s.hashval < n then s.cnt else 0
  {
    if n > 0 {
      SumFirst(s, d, n - 1);
      CountFirst(s, d, n - 1);
    }
  }

  lemma {:induction false} SumNothing(n: nat)
    ensures Sum([], n) == 0
  {
    if n > 0 {
      SumNothing(n - 1);
    }
  }

  lemma {:induction false} SumIsTotal(d: seq<Span>)
    requires forall s :: s in d ==> s.hashval < HASHBASE
    ensures Sum(d, HASHBASE) == Total(d)
  {
    if d == [] {
      SumNothing(HASHBASE);
    } else {
      SumIsTotal(d[1..]);
      SumFirst(d[0], d[1..], HASHBASE);
      assert d == [d[0]] + d[1..];
    }
  }

  /** What the next character does to the spans. */
  lemma SpansNext(buf: string, i: nat, isText: bool, acc: Acc)
    requires i < |buf|
    ensures var all, next := Spans(buf, i, isText, acc), Mix(acc, buf[i]);
      all == if Ignored(buf, i, isText) then Spans(buf, i + 1, isText, acc)
             else if next.n < 64 && buf[i] != '\n' then Spans(buf, i + 1, isText, next)
             else [Span(HashOf(next), next.n)] + Spans(buf, i + 1, isText, START)
    ensures Mix(acc, buf[i]).n == acc.n + 1
  {
    hide Ignored;
  }

  lemma NoSpans(buf: string, isText: bool, acc: Acc)
    ensures Spans(buf, |buf|, isText, acc) == []
  {}

  /** Every hash value is below HASHBASE. */
  lemma {:induction false} SpansHashed(buf: string, i: nat, isText: bool, acc: Acc)
    requires i <= |buf|
    ensures forall s :: s in Spans(buf, i, isText, acc) ==> s.hashval < HASHBASE
    decreases |buf| - i
  {
    hide Spans, Mix, Ignored;
    if i == |buf| {
      NoSpans(buf, isText, acc);
    } else {
      SpansNext(buf, i, isText, acc);
      SpansHashed(buf, i + 1, isText, acc);
      SpansHashed(buf, i + 1, isText, Mix(acc, buf[i]));
      SpansHashed(buf, i + 1, isText, START);
    }
  }

  /** No byte is counted twice. */
  lemma {:induction false} SpansBelow(buf: string, i: nat, isText: bool, acc: Acc)
    requires i <= |buf|
    ensures Total(Spans(buf, i, isText, acc)) <= acc.n + |buf| - i
    decreases |buf| - i
  {
    hide Spans, Mix, Ignored, Total;
    if i == |buf| {
      NoSpans(buf, isText, acc);
      TotalNone();
    } else {
      SpansNext(buf, i, isText, acc);
      SpansBelow(buf, i + 1, isText, acc);
      SpansBelow(buf, i + 1, isText, Mix(acc, buf[i]));
      SpansBelow(buf, i + 1, isText, START);
      TotalFirst(Span(HashOf(Mix(acc, buf[i])), Mix(acc, buf[i]).n), Spans(buf, i + 1, isText, START));
    }
  }

  lemma TotalNone()
    ensures Total([]) == 0
  {}

  lemma TotalFirst(s: Span, rest: seq<Span>)
    ensures Total([s] + rest) == s.cnt + Total(rest)
  {
    assert ([s] + rest)[1..] == rest;
  }

  lemma {:induction false} SameSums(s: seq<Span>, d: seq<Span>, s': seq<Span>, d': seq<Span>, n: nat)
    requires forall h :: CountOf(s, h) == CountOf(s', h) && CountOf(d, h) == CountOf(d', h)
    ensures Copied(s, d, n) == Copied(s', d', n) && Added(s, d, n) == Added(s', d', n)
  {
    if n > 0 {
      SameSums(s, d, s', d', n - 1);
    }
  }

  /** Hash values that neither side has add nothing. */
  lemma {:induction false} Gap(s: seq<Span>, d: seq<Span>, p: nat, q: nat)
    requires p <= q && forall h :: p <= h < q ==> CountOf(d, h) == 0
    ensures Copied(s, d, q) == Copied(s, d, p) && Added(s, d, q) == Added(s, d, p)
    decreases q
  {
    if p < q {
      Gap(s, d, p, q - 1);
    }
  }

  /** In a sorted table a hash value is counted where it stands, and nowhere else. */
  lemma CountAt(d: seq<Span>, i: nat)
    requires Counted(d) && i < |d| && d[i].cnt > 0
    ensures CountOf(d, d[i].hashval) == d[i].cnt
  {
    CountSet(d, i, Span(d[i].hashval, 0), d[i].hashval);
    NotCounted(d[i := Span(d[i].hashval, 0)], d[i].hashval);
  }

  /** No entry stands between the i-th and the one before it. */
  lemma CountBetween(d: seq<Span>, i: nat, p: nat, h: nat)
    requires Counted(d) && i < |d| && p <= h && (d[i].cnt > 0 ==> h < d[i].hashval)
    requires forall k {:trigger d[k]} :: 0 <= k < i ==> d[k].hashval < p
    ensures CountOf(d, h) == 0
  {
    forall k | 0 <= k < |d| && d[k].hashval == h ensures d[k].cnt == 0 {}
    NotCounted(d, h);
  }

  /** The merge stands at entries `i` and `j`: all hash values below `p` are settled. */
  ghost predicate Merged(s: seq<Span>, d: seq<Span>, i: nat, j: nat, p: nat, sc: nat, la: nat) {
    && i < |s| && j < |d| && sc == Copied(s, d, p) && la == Added(s, d, p) && p <= HASHBASE
    && (forall k {:trigger s[k]} :: 0 <= k < i ==> s[k].hashval < p)
    && (forall k {:trigger d[k]} :: 0 <= k < j ==> d[k].hashval < p)
    && (s[i].cnt > 0 ==> p <= s[i].hashval) && (d[j].cnt > 0 ==> p <= d[j].hashval)
  }

  /** An entry of `d` that `s` does not have. */
  lemma OnlyAdded(s: seq<Span>, d: seq<Span>, i: nat, j: nat, p: nat, sc: nat, la: nat)
    requires Counted(s) && Counted(d) && Merged(s, d, i, j, p, sc, la)
    requires d[j].cnt > 0 && (s[i].cnt > 0 ==> d[j].hashval < s[i].hashval)
    ensures Merged(s, d, i, j + 1, d[j].hashval + 1, sc, la + d[j].cnt)
  {
    var h := d[j].hashval;
    forall x | p <= x < h ensures CountOf(d, x) == 0 { CountBetween(d, j, p, x); }
    Gap(s, d, p, h);
    CountAt(d, j);
    CountBetween(s, i, p, h);
  }

  /** An entry of `s`, with or without its like in `d`. */
  lemma Compared(s: seq<Span>, d: seq<Span>, i: nat, j: nat, p: nat, sc: nat, la: nat)
    requires Counted(s) && Counted(d) && Merged(s, d, i, j, p, sc, la)
    requires s[i].cnt > 0 && (d[j].cnt > 0 ==> s[i].hashval <= d[j].hashval)
    ensures var both := d[j].cnt > 0 && d[j].hashval == s[i].hashval;
      var dst := if both then d[j].cnt else 0;
      Merged(s, d, i + 1, if both then j + 1 else j, s[i].hashval + 1, sc + Min(s[i].cnt, dst),
        la + Excess(s[i].cnt, dst))
  {
    var h := s[i].hashval;
    forall x | p <= x < h ensures CountOf(d, x) == 0 { CountBetween(d, j, p, x); }
    Gap(s, d, p, h);
    CountAt(s, i);
    if d[j].cnt > 0 && d[j].hashval == h {
      CountAt(d, j);
    } else {
      CountBetween(d, j, p, h);
    }
  }

  lemma MergeEnds(s: seq<Span>, d: seq<Span>, i: nat, j: nat, p: nat, sc: nat, la: nat)
    requires Counted(s) && Counted(d) && Merged(s, d, i, j, p, sc, la) && s[i].cnt == 0 && d[j].cnt == 0
    ensures sc == Copied(s, d, HASHBASE) && la == Added(s, d, HASHBASE)
  {
    forall x | p <= x < HASHBASE ensures CountOf(d, x) == 0 { CountBetween(d, j, p, x); }
    Gap(s, d, p, HASHBASE);
  }

  /** The merge of two sorted tables. */
  method Merge(s: seq<Span>, d: seq<Span>) returns (sc: nat, la: nat)
    requires Counted(s) && Counted(d)
    ensures sc == Copied(s, d, HASHBASE) && la == Added(s, d, HASHBASE)
  {
    hide Counted, Merged, Copied, Added;
    sc, la := 0, 0;
    var i: nat, j: nat := 0, 0;
    ghost var p: nat := 0;
    MergeStarts(s, d);
    while true
      invariant Merged(s, d, i, j, p, sc, la)
      decreases |s| - i
    {
      Bounds(s, d, i, j, p, sc, la);
      if s[i].cnt == 0 {
        break;
      }
      while d[j].cnt != 0 && d[j].hashval < s[i].hashval
        invariant Merged(s, d, i, j, p, sc, la) && i < |s| && j < |d|
        decreases |d| - j
      {
        OnlyAdded(s, d, i, j, p, sc, la);
        la, p, j := la + d[j].cnt, d[j].hashval + 1, j + 1;
        Bounds(s, d, i, j, p, sc, la);
      }
      Compared(s, d, i, j, p, sc, la);
      var srcCnt, dstCnt, next := s[i].cnt, 0, j;
      if d[j].cnt != 0 && d[j].hashval == s[i].hashval {
        dstCnt, next := d[j].cnt, j + 1;
      }
      if srcCnt < dstCnt {
        la, sc := la + (dstCnt - srcCnt), sc + srcCnt;
      } else {
        sc := sc + dstCnt;
      }
      p, i, j := s[i].hashval + 1, i + 1, next;
    }
    while d[j].cnt != 0
      invariant Merged(s, d, i, j, p, sc, la) && i < |s| && j < |d| && s[i].cnt == 0
      decreases |d| - j
    {
      OnlyAdded(s, d, i, j, p, sc, la);
      la, p, j := la + d[j].cnt, d[j].hashval + 1, j + 1;
      Bounds(s, d, i, j, p, sc, la);
    }
    MergeEnds(s, d, i, j, p, sc, la);
  }

  lemma MergeStarts(s: seq<Span>, d: seq<Span>)
    requires Counted(s) && Counted(d)
    ensures Merged(s, d, 0, 0, 0, 0, 0)
  {
  }

  lemma Bounds(s: seq<Span>, d: seq<Span>, i: nat, j: nat, p: nat, sc: nat, la: nat)
    requires Merged(s, d, i, j, p, sc, la)
    ensures i < |s| && j < |d|
  {
  }

  /** The sorted table of a file's span counts. */
  ghost predicate TableOf(d: seq<Span>, buf: string, isText: bool) {
    Counted(d) && forall h :: CountOf(d, h) == Bytes(buf, isText, h)
  }

  /** Where a file's table is kept for later calls. */
  class CountCache {
    var table: Option<seq<Span>>

    ghost predicate Fits(buf: string, isText: bool)
      reads this
    {
      table.Some? ==> TableOf(table.value, buf, isText)
    }
  }

  /** The table kept from an earlier call, or else a new one, which is kept if there is a place for it. */
  method TableFor(cache: CountCache?, buf: string, isText: bool) returns (d: seq<Span>)
    requires cache != null ==> cache.Fits(buf, isText)
    modifies cache
    ensures TableOf(d, buf, isText) && (cache != null ==> cache.table == Some(d))
    ensures cache != null && old(cache.table).Some? ==> d == old(cache.table).value
  {
    if cache != null && cache.table.Some? {
      return cache.table.value;
    }
    d := HashChars(buf, isText);
    if cache != null {
      cache.table := Some(d);
    }
  }

  /**
   * diffcore_count_changes: the bytes copied and added, hash by hash; they add up to the counted bytes
   * of the destination. Tables from earlier calls are used, and new ones kept; two files may share a
   * place for them only if they are the same.
   */
  method DiffcoreCountChanges(src: string, srcText: bool, dst: string, dstText: bool, srcCount: CountCache?,
      dstCount: CountCache?)
    returns (srcCopied: nat, literalAdded: nat)
    requires srcCount != null ==> srcCount.Fits(src, srcText)
    requires dstCount != null ==> dstCount.Fits(dst, dstText)
    requires srcCount != null && srcCount == dstCount ==> src == dst && srcText == dstText
    modifies srcCount, dstCount
    ensures var S, D := Spans(src, 0, srcText, START), Spans(dst, 0, dstText, START);
      srcCopied == Copied(S, D, HASHBASE) && literalAdded == Added(S, D, HASHBASE)
      && srcCopied + literalAdded == Total(D)
    ensures srcCount != null ==> srcCount.table.Some? && srcCount.Fits(src, srcText)
    ensures dstCount != null ==> dstCount.table.Some? && dstCount.Fits(dst, dstText)
  {
    hide Counted, CountOf, Bytes;
    var s := TableFor(srcCount, src, srcText);
    var d := TableFor(dstCount, dst, dstText);
    srcCopied, literalAdded := Merge(s, d);
    ghost var S, D := Spans(src, 0, srcText, START), Spans(dst, 0, dstText, START);
    TableSums(s, d, S, D, src, srcText, dst, dstText);
    CopiedAndAdded(S, D, HASHBASE);
    SpansHashed(dst, 0, dstText, START);
    SpansBelow(dst, 0, dstText, START);
    SumIsTotal(D);
  }

  lemma TableSums(s: seq<Span>, d: seq<Span>, S: seq<Span>, D: seq<Span>, src: string, srcText: bool, dst: string,
      dstText: bool)
    requires TableOf(s, src, srcText) && S == Spans(src, 0, srcText, START)
    requires TableOf(d, dst, dstText) && D == Spans(dst, 0, dstText, START)
    ensures Copied(s, d, HASHBASE) == Copied(S, D, HASHBASE) && Added(s, d, HASHBASE) == Added(S, D, HASHBASE)
  {
    SameSums(s, d, S, D, HASHBASE);
  }
}
