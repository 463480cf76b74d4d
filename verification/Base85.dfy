/** base85.c: four bytes as five characters, with 32-bit arithmetic. */
module Base85 {
  import opened Basics
  import opened DeltaFormat

  const WORD: nat := 0x1_0000_0000

  // ---- The alphabet -------------------------------------------------------------------------

  /** The table en85, by its runs of consecutive characters. */
  function En85(i: nat): char
    requires i < 85
  {
    if i < 10 then '0' + i as char
    else if i < 36 then 'A' + (i - 10) as char
    else if i < 62 then 'a' + (i - 36) as char
    else if i < 63 then '!'
    else if i < 67 then '#' + (i - 63) as char
    else if i < 71 then '(' + (i - 67) as char
    else if i < 72 then '-'
    else if i < 78 then ';' + (i - 72) as char
    else if i < 81 then '^' + (i - 78) as char
    else '{' + (i - 81) as char
  }

  /** The place of a character in the alphabet plus one, or zero: what the table de85 holds. */
  function De85(c: char): (d: nat)
    ensures d <= 85
  {
    if '0' <= c <= '9' then (c - '0') as nat + 1
    else if 'A' <= c <= 'Z' then (c - 'A') as nat + 11
    else if 'a' <= c <= 'z' then (c - 'a') as nat + 37
    else if c == '!' then 63
    else if '#' <= c <= '&' then (c - '#') as nat + 64
    else if '(' <= c <= '+' then (c - '(') as nat + 68
    else if c == '-' then 72
    else if ';' <= c <= '@' then (c - ';') as nat + 73
    else if '^' <= c <= '`' then (c - '^') as nat + 79
    else if '{' <= c <= '~' then (c - '{') as nat + 82
    else 0
  }

  lemma AlphabetInverse(i: nat, c: char)
    ensures i < 85 ==> De85(En85(i)) == i + 1 && En85(i) as int < 256
    ensures De85(c) > 0 ==> En85(De85(c) - 1) == c
  {
  }

  /** The decoding table holds the place of every character in the alphabet, counted from one. */
  ghost predicate Filled(de85: array<nat>)
    reads de85
  {
    de85.Length == 256 && forall c: char {:trigger De85(c)} :: (c as int) < 256 ==> de85[c as int] == De85(c)
  }

  /** The decoding table as it is at first. */
  ghost predicate Empty(de85: array<nat>)
    reads de85
  {
    de85.Length == 256 && forall k :: 0 <= k < 256 ==> de85[k] == 0
  }

  /** prep_base85: fill the decoding table, unless that has been done. */
  method PrepBase85(de85: array<nat>)
    requires Empty(de85) || Filled(de85)
    modifies de85
    ensures Filled(de85)
  {
    if de85['Z' as int] != 0 {
      return;
    }
    assert De85('Z') == 36;
    var i := 0;
    while i < 85
      invariant 0 <= i <= 85
      invariant forall c: char {:trigger De85(c)} :: (c as int) < 256 ==>
        de85[c as int] == if De85(c) <= i then De85(c) else 0
    {
      AlphabetInverse(i, '0');
      forall c: char ensures De85(c) == i + 1 ==> c == En85(i) { AlphabetInverse(i, c); }
      de85[En85(i) as int] := i + 1;
      i := i + 1;
    }
  }

  // ---- Groups -------------------------------------------------------------------------------

  function Pack(a: byte, b: byte, c: byte, d: byte): (v: nat)
    ensures v < WORD
  {
    a as nat * 0x100_0000 + b as nat * 0x1_0000 + c as nat * 0x100 + d as nat
  }

  function ByteAt(data: seq<byte>, i: nat): byte {
    if i < |data| then data[i] else 0
  }

  /** A group of up to four bytes as a number, missing bytes as zero. */
  function Group(data: seq<byte>): (v: nat)
    ensures v < WORD
  {
    Pack(ByteAt(data, 0), ByteAt(data, 1), ByteAt(data, 2), ByteAt(data, 3))
  }

  /** A number as five characters, the most significant first. */
  function Five(v: nat): (s: string)
    ensures |s| == 5
  {
    [En85(v / 52200625 % 85), En85(v / 614125 % 85), En85(v / 7225 % 85), En85(v / 85 % 85), En85(v % 85)]
  }

  /** What encode_85 makes of a byte string. */
  function Encoded(data: seq<byte>): string {
    if data == [] then ""
    else Five(Group(data[..First(|data|)])) + Encoded(data[First(|data|)..])
  }

  function First(n: nat): (k: nat)
    ensures k <= n && k <= 4 && (n > 0 ==> k > 0)
  {
    if n < 4 then n else 4
  }

  function CharAt(s: string, i: nat): char {
    if i < |s| then s[i] else '\0'
  }

  /** All five characters belong to the alphabet. */
  predicate InAlphabet(s: string) {
    forall i :: 0 <= i < 5 ==> De85(CharAt(s, i)) > 0
  }

  /** The number that five characters of the alphabet stand for. */
  function Number(s: string): int {
    ((((De85(CharAt(s, 0)) - 1) * 85 + (De85(CharAt(s, 1)) - 1)) * 85 + (De85(CharAt(s, 2)) - 1)) * 85
      + (De85(CharAt(s, 3)) - 1)) * 85 + (De85(CharAt(s, 4)) - 1)
  }

  /** The first `n` bytes of a number, the most significant first. */
  function BytesOf(v: nat, n: nat): (d: seq<byte>)
    requires n <= 4
    ensures |d| == n
  {
    [(v / 0x100_0000 % 0x100) as byte, (v / 0x1_0000 % 0x100) as byte, (v / 0x100 % 0x100) as byte,
      (v % 0x100) as byte][..n]
  }

  /** What decode_85 makes of a text that is to give `len` bytes: nothing if a group is not one. */
  function Decoded(s: string, len: nat): Option<seq<byte>>
    decreases len
  {
    if len == 0 then Some([])
    else if !InAlphabet(s) || Number(s) >= WORD then None
    else
      var rest := Decoded(if |s| >= 5 then s[5..] else "", len - First(len));
      if rest.None? then None else Some(BytesOf(Number(s), First(len)) + rest.value)
  }

  lemma FiveIsNumber(v: nat, rest: string)
    requires v < WORD
    ensures InAlphabet(Five(v) + rest) && Number(Five(v) + rest) == v && (Five(v) + rest)[5..] == rest
  {
    var s := Five(v) + rest;
    AlphabetInverse(v / 52200625 % 85, '0');
    AlphabetInverse(v / 614125 % 85, '0');
    AlphabetInverse(v / 7225 % 85, '0');
    AlphabetInverse(v / 85 % 85, '0');
    AlphabetInverse(v % 85, '0');
    assert forall i :: 0 <= i < 5 ==> CharAt(s, i) == Five(v)[i];
    Horner(v);
  }

  lemma Horner(v: nat)
    requires v < WORD
    ensures ((((v / 52200625 % 85) * 85 + v / 614125 % 85) * 85 + v / 7225 % 85) * 85 + v / 85 % 85) * 85 + v % 85 == v
  {
    var a, b, c := v / 85, v / 85 / 85, v / 85 / 85 / 85;
    assert v / 7225 == b && v / 614125 == c && v / 52200625 == c / 85 && c / 85 < 85;
  }

  lemma PackBytes(a: byte, b: byte, c: byte, d: byte)
    ensures BytesOf(Pack(a, b, c, d), 4) == [a, b, c, d]
  {
    var v := Pack(a, b, c, d);
    var x := a as nat * 0x1_0000 + b as nat * 0x100 + c as nat;
    var y := a as nat * 0x100 + b as nat;
    assert v == x * 0x100 + d as nat && x == y * 0x100 + c as nat;
    assert v / 0x100 == x && x / 0x100 == y && y / 0x100 == a as nat;
    assert v / 0x1_0000 == y && v / 0x100_0000 == a as nat;
  }

  lemma GroupBytes(data: seq<byte>)
    requires 0 < |data| <= 4
    ensures BytesOf(Group(data), |data|) == data
  {
    PackBytes(ByteAt(data, 0), ByteAt(data, 1), ByteAt(data, 2), ByteAt(data, 3));
    FirstBytes(Group(data), |data|);
    hide BytesOf, Pack;
  }

  /** Decoding undoes encoding, for every byte string. */
  lemma {:induction false} DecodeUndoesEncode(data: seq<byte>)
    ensures Decoded(Encoded(data), |data|) == Some(data)
  {
    if data != [] {
      var k := First(|data|);
      hide *;
      DecodeUndoesEncode(data[k..]);
      EncodedNext(data);
      FiveIsNumber(Group(data[..k]), Encoded(data[k..]));
      GroupBytes(data[..k]);
      DecodedNext(Encoded(data), Encoded(data[k..]), Group(data[..k]), |data|, data[k..]);
      assert data == data[..k] + data[k..];
    }
  }

  lemma EncodedNext(data: seq<byte>)
    requires data != []
    ensures var k := First(|data|);
      k > 0 && Encoded(data) == Five(Group(data[..k])) + Encoded(data[k..]) && |Encoded(data)| >= 5
  {}

  lemma DecodedNext(s: string, rest: string, v: nat, len: nat, more: seq<byte>)
    requires len > 0 && InAlphabet(s) && Number(s) == v < WORD && |s| >= 5 && s[5..] == rest
    requires Decoded(rest, len - First(len)) == Some(more)
    ensures Decoded(s, len) == Some(BytesOf(v, First(len)) + more)
  {
    hide InAlphabet, Number, BytesOf;
  }

  // ---- The functions ------------------------------------------------------------------------

  /** encode_85. */
  method Encode85(data: seq<byte>) returns (buf: string)
    ensures buf == Encoded(data)
  {
    hide Encoded, Five, Group, First;
    buf := "";
    var at := 0;
    assert data[0..] == data && "" + Encoded(data) == Encoded(data);
    while at < |data|
      invariant 0 <= at <= |data| && buf + Encoded(data[at..]) == Encoded(data)
    {
      var acc, k := EncodeGroup(data, at);
      var chars := DigitsOf(acc);
      EncodedNext(data[at..]);
      assert data[at..][..k] == data[at..at + k] && data[at..][k..] == data[at + k..];
      Assoc(buf, chars, Encoded(data[at + k..]));
      buf := buf + chars;
      at := at + k;
    }
    EncodedEnd(data, at);
    assert buf + "" == buf;
  }

  lemma EncodedEnd(data: seq<byte>, at: nat)
    requires at == |data|
    ensures Encoded(data[at..]) == ""
  {}

  /** The next group; `acc |= ch << cnt` adds, since those bits are still free. */
  method EncodeGroup(data: seq<byte>, at: nat) returns (acc: nat, k: nat)
    requires at < |data|
    ensures k == First(|data| - at) && acc == Group(data[at..at + k])
  {
    hide Group, Shift;
    GroupNext(data[at..], 0);
    acc, k := data[at] as nat * Shift(0), 1;
    while k < 4 && at + k < |data|
      invariant 1 <= k <= 4 && at + k <= |data| && acc == Group(data[at..][..k])
    {
      GroupNext(data[at..], k);
      acc := acc + data[at + k] as nat * Shift(k);
      k := k + 1;
    }
    assert data[at..][..k] == data[at..at + k];
  }

  /** One to the left by 24, 16, 8 and 0 bits. */
  function Shift(k: nat): nat {
    if k == 0 then 0x100_0000 else if k == 1 then 0x1_0000 else if k == 2 then 0x100 else 1
  }

  lemma GroupNext(data: seq<byte>, k: nat)
    requires k < 4 && k < |data|
    ensures Group(data[..k + 1]) == Group(data[..k]) + data[k] as nat * Shift(k)
    ensures Group(data[..0]) == 0
  {
    forall i: nat ensures ByteAt(data[..k + 1], i) == if i == k then data[k] else ByteAt(data[..k], i) {}
  }

  function Power85(k: nat): nat {
    if k == 0 then 1 else if k == 1 then 85 else if k == 2 then 7225 else if k == 3 then 614125 else 52200625
  }

  /** Five digits, the least significant first. */
  method DigitsOf(acc0: nat) returns (chars: string)
    ensures chars == Five(acc0)
  {
    chars := "";
    var acc := acc0;
    var cnt := 5;
    while cnt > 0
      invariant 0 <= cnt <= 5 && (cnt > 0 ==> acc == acc0 / Power85(5 - cnt))
      invariant chars == Five(acc0)[cnt..]
    {
      cnt := cnt - 1;
      chars := [En85(acc % 85)] + chars;
      Divisions(acc0);
      acc := acc / 85;
    }
  }

  lemma Divisions(v: nat)
    ensures v / 85 / 85 == v / 7225 && v / 7225 / 85 == v / 614125 && v / 614125 / 85 == v / 52200625
  {
  }

  /** decode_85, with the table that is kept between calls. */
  method Decode85(de85: array<nat>, buffer: string, len: nat) returns (dst: Option<seq<byte>>)
    requires Empty(de85) || Filled(de85)
    modifies de85
    ensures dst == Decoded(buffer, len) && Filled(de85)
  {
    PrepBase85(de85);
    var done: seq<byte> := [];
    var at: nat, left: nat := 0, len;
    assert buffer[0..] == buffer;
    Prefixed(done, Decoded(buffer, len));
    while left > 0
      invariant 0 <= at <= |buffer| && left <= len && Filled(de85)
      invariant Decoded(buffer, len) == After(done, Decoded(buffer[at..], left))
    {
      var acc := DecodeGroup(de85, buffer, at);
      var cnt := First(left);
      if acc.None? {
        return None;
      }
      Long(buffer[at..]);
      var out := Unpack(acc.value, cnt);
      assert buffer[at..][5..] == buffer[at + 5..];
      Appended(done, out, Decoded(buffer[at + 5..], left - cnt));
      done := done + out;
      at, left := at + 5, left - cnt;
    }
    assert done + [] == done;
    dst := Some(done);
  }

  function After(done: seq<byte>, rest: Option<seq<byte>>): Option<seq<byte>> {
    if rest.None? then None else Some(done + rest.value)
  }

  lemma Prefixed(done: seq<byte>, rest: Option<seq<byte>>)
    requires done == []
    ensures After(done, rest) == rest
  {
    if rest.Some? {
      assert done + rest.value == rest.value;
    }
  }

  lemma Appended(done: seq<byte>, out: seq<byte>, rest: Option<seq<byte>>)
    ensures After(done, After(out, rest)) == After(done + out, rest)
  {
    if rest.Some? {
      assert done + (out + rest.value) == done + out + rest.value;
    }
  }

  /** The terminating NUL is not in the alphabet. */
  lemma Long(s: string)
    requires InAlphabet(s)
    ensures |s| >= 5
  {
    assert De85(CharAt(s, 4)) > 0 && De85('\0') == 0;
  }

  /** The table's entry for a character; only bytes occur. */
  method LookUp(de85: array<nat>, c: char) returns (de: nat)
    requires Filled(de85)
    ensures de == De85(c)
  {
    de := if (c as int) < 256 then de85[c as int] else 0;
  }

  /** One group: a number exactly if all five characters are in the alphabet and it fits into 32 bits. */
  method DecodeGroup(de85: array<nat>, buffer: string, at: nat) returns (acc: Option<nat>)
    requires at <= |buffer| && Filled(de85)
    ensures acc == if InAlphabet(buffer[at..]) && Number(buffer[at..]) < WORD then Some(Number(buffer[at..])) else None
  {
    hide De85, Leading, Number, CharAt, InAlphabet;
    ghost var s := buffer[at..];
    NumberIsLeading(s);
    var word, cnt := 0, 0;
    while cnt < 4
      invariant 0 <= cnt <= 4 && word == Leading(s, cnt) && 0 <= word < Power85(cnt)
      invariant forall i :: 0 <= i < cnt ==> De85(CharAt(s, i)) > 0
    {
      LeadingNext(buffer, at, cnt);
      var de := LookUp(de85, CharAt(buffer, at + cnt));
      if de == 0 {
        return None;
      }
      word := (word * 85 + (de - 1)) % WORD;
      cnt := cnt + 1;
    }
    LeadingNext(buffer, at, 4);
    var de := LookUp(de85, CharAt(buffer, at + 4));
    if de == 0 {
      return None;
    }
    if 0xffff_ffff / 85 < word || 0xffff_ffff - (de - 1) < word * 85 % WORD {
      return None;
    }
    acc := Some(word * 85 % WORD + (de - 1));
  }

  /** The number that the first `n` characters stand for. */
  function Leading(s: string, n: nat): int
    requires n <= 4
  {
    if n == 0 then 0 else Leading(s, n - 1) * 85 + (De85(CharAt(s, n - 1)) - 1)
  }

  lemma LeadingNext(buffer: string, at: nat, n: nat)
    requires at <= |buffer| && n <= 4
    ensures CharAt(buffer, at + n) == CharAt(buffer[at..], n) && Leading(buffer[at..], 0) == 0
    ensures n < 4 ==> Leading(buffer[at..], n + 1) == Leading(buffer[at..], n) * 85 + (De85(CharAt(buffer, at + n)) - 1)
  {
    hide De85;
  }

  lemma NumberIsLeading(s: string)
    ensures Leading(s, 0) == 0 && Number(s) == Leading(s, 4) * 85 + (De85(CharAt(s, 4)) - 1)
    ensures InAlphabet(s) <==> (forall i :: 0 <= i < 4 ==> De85(CharAt(s, i)) > 0) && De85(CharAt(s, 4)) > 0
  {
    hide De85, CharAt;
    assert Leading(s, 1) == De85(CharAt(s, 0)) - 1;
    assert Leading(s, 2) == Leading(s, 1) * 85 + (De85(CharAt(s, 1)) - 1);
    assert Leading(s, 3) == Leading(s, 2) * 85 + (De85(CharAt(s, 2)) - 1);
  }

  /** The bytes of a word, by turning it to the left eight bits at a time. */
  method Unpack(word: nat, n: nat) returns (out: seq<byte>)
    requires word < WORD && n <= 4
    ensures out == BytesOf(word, n)
  {
    out := [];
    var acc := word;
    ghost var bytes := BytesOf(word, 4);
    WordOfBytes(word);
    hide Turned, BytesOf;
    var k := 0;
    assert bytes[..0] == [];
    while k < n
      invariant 0 <= k <= n && out == bytes[..k] && acc == Turned(bytes, k)
    {
      TurnNext(bytes, k);
      acc := acc * 0x100 % WORD + acc / 0x100_0000;
      out := out + [(acc % 0x100) as byte];
      k := k + 1;
    }
    FirstBytes(word, n);
  }

  /** The word after `k` turns. */
  ghost function Turned(b: seq<byte>, k: nat): nat
    requires |b| == 4 && k <= 4
  {
    if k == 0 || k == 4 then Pack(b[0], b[1], b[2], b[3])
    else if k == 1 then Pack(b[1], b[2], b[3], b[0])
    else if k == 2 then Pack(b[2], b[3], b[0], b[1])
    else Pack(b[3], b[0], b[1], b[2])
  }

  lemma TurnNext(b: seq<byte>, k: nat)
    requires |b| == 4 && k < 4
    ensures Turned(b, k) * 0x100 % WORD + Turned(b, k) / 0x100_0000 == Turned(b, k + 1)
    ensures Turned(b, k + 1) % 0x100 == b[k] as nat && b[..k + 1] == b[..k] + [b[k]]
  {
    TurnPack(b[0], b[1], b[2], b[3]);
    TurnPack(b[1], b[2], b[3], b[0]);
    TurnPack(b[2], b[3], b[0], b[1]);
    TurnPack(b[3], b[0], b[1], b[2]);
    hide Pack;
  }

  lemma TurnPack(a: byte, b: byte, c: byte, d: byte)
    ensures Pack(a, b, c, d) * 0x100 % WORD + Pack(a, b, c, d) / 0x100_0000 == Pack(b, c, d, a)
    ensures Pack(a, b, c, d) % 0x100 == d as nat
  {
    assert Pack(a, b, c, d) / 0x100_0000 == a as nat;
  }

  lemma WordOfBytes(word: nat)
    requires word < WORD
    ensures Turned(BytesOf(word, 4), 0) == word
  {
    var a, b := word / 0x100, word / 0x100 / 0x100;
    assert word / 0x1_0000 == b && word / 0x100_0000 == b / 0x100 < 0x100;
    assert word == (b / 0x100 * 0x100 + b % 0x100) * 0x1_0000 + a % 0x100 * 0x100 + word % 0x100;
  }

  lemma FirstBytes(word: nat, n: nat)
    requires n <= 4
    ensures BytesOf(word, 4)[..n] == BytesOf(word, n)
  {
  }

  // ---- Samples ------------------------------------------------------------------------------

  /** The alphabet: digits, capital letters, small letters, and what else is safe in mail. */
  lemma AlphabetIs()
    ensures forall i :: 0 <= i < 36 ==> En85(i) == "0123456789ABCDEFGHIJKLMNOPQRSTUVWXYZ"[i]
    ensures forall i :: 0 <= i < 26 ==> En85(36 + i) == "abcdefghijklmnopqrstuvwxyz"[i]
    ensures forall i :: 0 <= i < 23 ==> En85(62 + i) == "!#$%&()*+-;<=>?@^_`{|}~"[i]
  {}

  lemma SampleGroups()
    ensures Five(0) == "00000" && Five(0xffff_ffff) == "|NsC0" && Five(0x0102_0304) == "0RjUA"
    ensures Group([1, 2, 3, 4]) == 0x0102_0304 && Group([1]) == 0x0100_0000
  {}
}
