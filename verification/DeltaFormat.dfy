/** The delta format: two size headers, then copy and insert opcodes (delta.h and the patch_delta contract). */
module DeltaFormat {

  newtype byte = x: int | 0 <= x < 256

  import opened Basics

  /** The smallest possible delta size. */
  const DELTA_SIZE_MIN := 4

  // ---- Size headers -------------------------------------------------------------------------

  /** A size, seven bits to a byte, low bits first, with the top bit set on all bytes but the last. */
  function EncodeSize(n: nat): seq<byte> {
    if n >= 0x80 then [(n % 0x80 + 0x80) as byte] + EncodeSize(n / 0x80) else [n as byte]
  }

  /** What a size header at the front of `d` says, and how many bytes it takes. */
  function HdrSize(d: seq<byte>): (r: (nat, nat))
    requires d != []
    ensures 0 < r.1 <= |d|
  {
    if d[0] >= 0x80 && |d| > 1 then
      var (rest, used) := HdrSize(d[1..]);
      ((d[0] as int) % 0x80 + 0x80 * rest, used + 1)
    else ((d[0] as int) % 0x80, 1)
  }

  /** Reading a size header undoes writing it, whatever follows. */
  lemma {:induction false} SizeRoundTrip(n: nat, tail: seq<byte>)
    ensures EncodeSize(n) + tail != []
    ensures HdrSize(EncodeSize(n) + tail) == (n, |EncodeSize(n)|)
  {
    if n >= 0x80 {
      SizeRoundTrip(n / 0x80, tail);
      var d := EncodeSize(n) + tail;
      assert d[1..] == EncodeSize(n / 0x80) + tail;
      assert d[0] == (n % 0x80 + 0x80) as byte;
    }
  }

  /** A size below 2^32 takes at most five bytes. */
  lemma SizeLength(n: nat)
    requires n < 0x1_0000_0000
    ensures 1 <= |EncodeSize(n)| <= 5
  {
    var n1, n2, n3, n4 := n / 0x80, n / 0x80 / 0x80, n / 0x80 / 0x80 / 0x80, n / 0x80 / 0x80 / 0x80 / 0x80;
    assert |EncodeSize(n4)| == 1;
    assert |EncodeSize(n3)| <= 2;
    assert |EncodeSize(n2)| <= 3;
    assert |EncodeSize(n1)| <= 4;
  }

  /** 128 to the power `k`. */
  function Pow128(k: nat): nat {
    if k == 0 then 1 else 0x80 * Pow128(k - 1)
  }

  /** get_delta_hdr_size: the size, and the position after it. */
  method GetDeltaHdrSize(d: seq<byte>, start: nat) returns (size: nat, pos: nat)
    requires start < |d|
    ensures size == HdrSize(d[start..]).0 && pos == start + HdrSize(d[start..]).1
  {
    hide HdrSize;
    pos, size := start, 0;
    var cmd: byte := 0x80;
    ghost var k := 0;
    var shift := 1;
    while cmd >= 0x80 && (pos < |d|)
      invariant start <= pos <= |d| && k == pos - start && shift == Pow128(k)
      invariant cmd >= 0x80 && pos < |d| ==>
        HdrSize(d[start..]).0 == size + shift * HdrSize(d[pos..]).0 &&
        HdrSize(d[start..]).1 == k + HdrSize(d[pos..]).1
      invariant !(cmd >= 0x80 && pos < |d|) ==> HdrSize(d[start..]) == (size, k)
      decreases |d| - pos
    {
      cmd := d[pos];
      HdrSizeStep(d, pos);
      ghost var rest := if cmd >= 0x80 && pos + 1 < |d| then HdrSize(d[pos + 1..]).0 else 0;
      Shifted(shift, cmd as int % 0x80, rest);
      size := size + (cmd as int % 0x80) * shift;
      shift := shift * 0x80;
      k := k + 1;
      pos := pos + 1;
    }
  }

  lemma HdrSizeStep(d: seq<byte>, pos: nat)
    requires pos < |d|
    ensures HdrSize(d[pos..]) ==
      if d[pos] >= 0x80 && pos + 1 < |d| then
        (d[pos] as int % 0x80 + 0x80 * HdrSize(d[pos + 1..]).0, HdrSize(d[pos + 1..]).1 + 1)
      else (d[pos] as int % 0x80, 1)
  {
    assert d[pos..][1..] == d[pos + 1..];
  }

  lemma Shifted(shift: nat, low: nat, rest: nat)
    ensures shift * (low + 0x80 * rest) == low * shift + (shift * 0x80) * rest
  {}

  // ---- Opcodes ------------------------------------------------------------------------------

  /** The bit `bit` of a command byte. */
  predicate HasBit(cmd: byte, bit: nat)
    requires bit > 0
  {
    (cmd as int / bit) % 2 == 1
  }

  /** The next operand byte if the command announces it, and what follows. */
  function Operand(cmd: byte, bit: nat, ops: seq<byte>): (r: Option<(nat, seq<byte>)>)
    requires bit > 0
    ensures r.Some? ==> |r.value.1| <= |ops|
  {
    if !HasBit(cmd, bit) then Some((0, ops))
    else if ops == [] then None
    else Some((ops[0] as nat, ops[1..]))
  }

  /** The operands of a copy command: four offset bytes, then three size bytes, size zero standing for 0x10000. */
  function CopyOperands(cmd: byte, ops: seq<byte>): (r: Option<(nat, nat, seq<byte>)>)
    ensures r.Some? ==> |r.value.2| <= |ops|
  {
    var o0 := Operand(cmd, 0x01, ops);
    if o0.None? then None else
    var o1 := Operand(cmd, 0x02, o0.value.1);
    if o1.None? then None else
    var o2 := Operand(cmd, 0x04, o1.value.1);
    if o2.None? then None else
    var o3 := Operand(cmd, 0x08, o2.value.1);
    if o3.None? then None else
    var s0 := Operand(cmd, 0x10, o3.value.1);
    if s0.None? then None else
    var s1 := Operand(cmd, 0x20, s0.value.1);
    if s1.None? then None else
    var s2 := Operand(cmd, 0x40, s1.value.1);
    if s2.None? then None else
    var off := o0.value.0 + 0x100 * o1.value.0 + 0x1_0000 * o2.value.0 + 0x100_0000 * o3.value.0;
    var size := s0.value.0 + 0x100 * s1.value.0 + 0x1_0000 * s2.value.0;
    Some((off, if size == 0 then 0x1_0000 else size, s2.value.1))
  }

  /** The first command of `ops`: what it emits and what follows it. */
  function Command(src: seq<byte>, ops: seq<byte>): (r: Option<(seq<byte>, seq<byte>)>)
    requires ops != []
    ensures r.Some? ==> |r.value.1| < |ops|
  {
    var cmd := ops[0];
    if cmd >= 0x80 then
      var c := CopyOperands(cmd, ops[1..]);
      if c.None? || c.value.0 + c.value.1 > |src| then None
      else Some((src[c.value.0..c.value.0 + c.value.1], c.value.2))
    else if cmd == 0 || 1 + cmd as int > |ops| then None
    else Some((ops[1..1 + cmd as int], ops[1 + cmd as int..]))
  }

  /** `piece` stands in `src` at `off`. */
  ghost predicate SliceAt(src: seq<byte>, off: nat, piece: seq<byte>) {
    off + |piece| <= |src| && piece == src[off..off + |piece|]
  }

  /** `r` is what `ops` ends with. */
  ghost predicate EndOf(r: seq<byte>, ops: seq<byte>) {
    |r| <= |ops| && r == ops[|ops| - |r|..]
  }

  lemma OperandRest(cmd: byte, bit: nat, ops: seq<byte>)
    requires bit > 0 && Operand(cmd, bit, ops).Some?
    ensures var o := Operand(cmd, bit, ops).value;
      o.0 < 0x100 && EndOf(o.1, ops)
  {}

  /** One operand further. */
  lemma OperandNext(cmd: byte, bit: nat, ops: seq<byte>, r: seq<byte>) returns (r': seq<byte>)
    requires bit > 0 && Operand(cmd, bit, r).Some? && EndOf(r, ops)
    ensures r' == Operand(cmd, bit, r).value.1 && Operand(cmd, bit, r).value.0 < 0x100 && EndOf(r', ops)
  {
    hide HasBit, Operand;
    OperandRest(cmd, bit, r);
    r' := Operand(cmd, bit, r).value.1;
  }

  lemma OperandsRest(cmd: byte, ops: seq<byte>)
    requires CopyOperands(cmd, ops).Some? && EndOf(ops, ops)
    ensures var c := CopyOperands(cmd, ops).value;
      c.0 < 0x1_0000_0000 && 0 < c.1 < 0x100_0000 && EndOf(c.2, ops)
  {
    hide HasBit, Operand, EndOf;
    var r1 := OperandNext(cmd, 0x01, ops, ops);
    var r2 := OperandNext(cmd, 0x02, ops, r1);
    var r3 := OperandNext(cmd, 0x04, ops, r2);
    var r4 := OperandNext(cmd, 0x08, ops, r3);
    var r5 := OperandNext(cmd, 0x10, ops, r4);
    var r6 := OperandNext(cmd, 0x20, ops, r5);
    var r7 := OperandNext(cmd, 0x40, ops, r6);
  }

  /**
   * A command that is accepted emits something: the bytes behind it, as many as it says, or a piece of
   * the source; what follows it is the rest of the commands.
   */
  lemma CommandEmits(src: seq<byte>, ops: seq<byte>)
    requires ops != [] && Command(src, ops).Some?
    ensures var (out, rest) := Command(src, ops).value;
      out != [] && |rest| < |ops| && EndOf(rest, ops)
    ensures var (out, rest) := Command(src, ops).value;
      ops[0] < 0x80 ==> |out| == ops[0] as int && ops[1..] == out + rest
    ensures var (out, rest) := Command(src, ops).value;
      ops[0] >= 0x80 ==> exists off :: SliceAt(src, off, out)
  {
    hide CopyOperands;
    if ops[0] >= 0x80 {
      OperandsRest(ops[0], ops[1..]);
      var c := CopyOperands(ops[0], ops[1..]).value;
      assert SliceAt(src, c.0, Command(src, ops).value.0);
    }
  }

  /** What a sequence of commands emits. */
  function Apply(src: seq<byte>, ops: seq<byte>): Option<seq<byte>>
    decreases |ops|
  {
    if ops == [] then Some([])
    else
      var c := Command(src, ops);
      if c.None? then None
      else
        var rest := Apply(src, c.value.1);
        if rest.None? then None else Some(c.value.0 + rest.value)
  }

  /** patch_delta: recreate the target from the source and the delta, or fail. */
  function PatchDelta(src: seq<byte>, delta: seq<byte>): Option<seq<byte>> {
    if |delta| < DELTA_SIZE_MIN then None
    else
      var h := HdrSize(delta);
      if h.0 != |src| || h.1 == |delta| then None else PatchTarget(src, delta[h.1..])
  }

  /** The part of patch_delta behind the source size: the target size, and commands that emit that much. */
  function PatchTarget(src: seq<byte>, d: seq<byte>): Option<seq<byte>>
    requires d != []
  {
    var h := HdrSize(d);
    var out := Apply(src, d[h.1..]);
    if out.None? || |out.value| != h.0 then None else out
  }

  // ---- Commands one after another -----------------------------------------------------------

  lemma OperandStable(cmd: byte, bit: nat, ops: seq<byte>, tail: seq<byte>)
    requires bit > 0 && Operand(cmd, bit, ops).Some?
    ensures Operand(cmd, bit, ops + tail) ==
      Some((Operand(cmd, bit, ops).value.0, Operand(cmd, bit, ops).value.1 + tail))
  {
    if HasBit(cmd, bit) {
      assert (ops + tail)[1..] == ops[1..] + tail;
    }
  }

  lemma CopyStable(cmd: byte, ops: seq<byte>, tail: seq<byte>)
    requires CopyOperands(cmd, ops).Some?
    ensures var c := CopyOperands(cmd, ops).value; CopyOperands(cmd, ops + tail) == Some((c.0, c.1, c.2 + tail))
  {
    OperandStable(cmd, 0x01, ops, tail);
    var r := Operand(cmd, 0x01, ops).value.1;
    OperandStable(cmd, 0x02, r, tail);
    r := Operand(cmd, 0x02, r).value.1;
    OperandStable(cmd, 0x04, r, tail);
    r := Operand(cmd, 0x04, r).value.1;
    OperandStable(cmd, 0x08, r, tail);
    r := Operand(cmd, 0x08, r).value.1;
    OperandStable(cmd, 0x10, r, tail);
    r := Operand(cmd, 0x10, r).value.1;
    OperandStable(cmd, 0x20, r, tail);
    r := Operand(cmd, 0x20, r).value.1;
    OperandStable(cmd, 0x40, r, tail);
  }

  lemma CommandStable(src: seq<byte>, ops: seq<byte>, tail: seq<byte>)
    requires ops != [] && Command(src, ops).Some?
    ensures Command(src, ops + tail) == Some((Command(src, ops).value.0, Command(src, ops).value.1 + tail))
  {
    var cmd := ops[0];
    assert (ops + tail)[1..] == ops[1..] + tail;
    if cmd >= 0x80 {
      CopyStable(cmd, ops[1..], tail);
    } else {
      assert (ops + tail)[1 + cmd as int..] == ops[1 + cmd as int..] + tail;
      assert (ops + tail)[1..1 + cmd as int] == ops[1..1 + cmd as int];
    }
  }

  lemma ApplyStep(src: seq<byte>, ops: seq<byte>, out: seq<byte>, rest: seq<byte>, more: seq<byte>)
    requires ops != [] && Command(src, ops) == Some((out, rest)) && Apply(src, rest) == Some(more)
    ensures Apply(src, ops) == Some(out + more)
  {}

  lemma ApplyConcatStep(src: seq<byte>, a: seq<byte>, b: seq<byte>, out: seq<byte>, rest: seq<byte>, more: seq<byte>,
      last: seq<byte>)
    requires a != [] && Command(src, a) == Some((out, rest))
    requires Apply(src, rest + b) == Some(more + last)
    ensures Apply(src, a + b) == Some(out + more + last)
  {
    CommandStable(src, a, b);
    ApplyStep(src, a + b, out, rest + b, more + last);
    assert out + (more + last) == out + more + last;
  }

  /** Commands emit one after the other. */
  lemma {:induction false} ApplyConcat(src: seq<byte>, a: seq<byte>, b: seq<byte>, x: seq<byte>, y: seq<byte>)
    requires Apply(src, a) == Some(x) && Apply(src, b) == Some(y)
    ensures Apply(src, a + b) == Some(x + y)
    decreases |a|
  {
    if a == [] {
      assert a + b == b && x + y == y;
    } else {
      var c := Command(src, a).value;
      var more := Apply(src, c.1).value;
      ApplyConcat(src, c.1, b, more, y);
      ApplyConcatStep(src, a, b, c.0, c.1, more, y);
    }
  }

  /** An insert command emits its literal bytes. */
  lemma ApplyInsert(src: seq<byte>, n: byte, lits: seq<byte>)
    requires 0 < n < 0x80 && |lits| == n as int
    ensures Apply(src, [n] + lits) == Some(lits)
  {
    var ops := [n] + lits;
    assert ops[1..1 + n as int] == lits && ops[1 + n as int..] == [];
    ApplyStep(src, ops, lits, [], []);
    assert lits + [] == lits;
  }

  // ---- Samples ------------------------------------------------------------------------------

  /** Two bytes of a size: seven bits each, the low ones first. */
  lemma HeaderSpelledOut(a: byte, b: byte, rest: seq<byte>)
    requires a >= 0x80 && b < 0x80
    ensures HdrSize([a, b] + rest) == (a as int - 0x80 + 0x80 * b as int, 2)
    ensures HdrSize([b] + rest) == (b as int, 1)
  {
    var d := [a, b] + rest;
    assert d[1..] == [b] + rest && d[0] == a;
  }

  lemma OperandThere(cmd: byte, bit: nat, b: byte, rest: seq<byte>)
    requires bit > 0 && HasBit(cmd, bit)
    ensures Operand(cmd, bit, [b] + rest) == Some((b as nat, rest))
  {
    assert ([b] + rest)[1..] == rest;
  }

  lemma OperandAbsent(cmd: byte, bit: nat, rest: seq<byte>)
    requires bit > 0 && !HasBit(cmd, bit)
    ensures Operand(cmd, bit, rest) == Some((0, rest))
  {}

  /** A copy command with all its operands: four bytes of offset, then three of size, the low ones first. */
  lemma CopySpelledOut(o0: byte, o1: byte, o2: byte, o3: byte, s0: byte, s1: byte, s2: byte, rest: seq<byte>)
    ensures var size := s0 as nat + 0x100 * s1 as nat + 0x1_0000 * s2 as nat;
      CopyOperands(0xff, [o0] + ([o1] + ([o2] + ([o3] + ([s0] + ([s1] + ([s2] + rest))))))) ==
      Some((o0 as nat + 0x100 * o1 as nat + 0x1_0000 * o2 as nat + 0x100_0000 * o3 as nat,
        if size == 0 then 0x1_0000 else size, rest))
  {
    hide Operand;
    OperandThere(0xff, 0x01, o0, [o1] + ([o2] + ([o3] + ([s0] + ([s1] + ([s2] + rest))))));
    OperandThere(0xff, 0x02, o1, [o2] + ([o3] + ([s0] + ([s1] + ([s2] + rest)))));
    OperandThere(0xff, 0x04, o2, [o3] + ([s0] + ([s1] + ([s2] + rest))));
    OperandThere(0xff, 0x08, o3, [s0] + ([s1] + ([s2] + rest)));
    OperandThere(0xff, 0x10, s0, [s1] + ([s2] + rest));
    OperandThere(0xff, 0x20, s1, [s2] + rest);
    OperandThere(0xff, 0x40, s2, rest);
  }

  /** A command byte with one bit of size alone. */
  lemma ShortCopy(s0: byte, rest: seq<byte>)
    requires s0 != 0
    ensures CopyOperands(0x90, [s0] + rest) == Some((0, s0 as nat, rest))
  {
    hide Operand;
    OperandAbsent(0x90, 0x01, [s0] + rest);
    OperandAbsent(0x90, 0x02, [s0] + rest);
    OperandAbsent(0x90, 0x04, [s0] + rest);
    OperandAbsent(0x90, 0x08, [s0] + rest);
    OperandThere(0x90, 0x10, s0, rest);
    OperandAbsent(0x90, 0x20, rest);
    OperandAbsent(0x90, 0x40, rest);
  }

  /** The delta 40 40 90 40 gives back a source of 64 bytes. */
  lemma SampleDelta(src: seq<byte>)
    requires |src| == 0x40
    ensures PatchDelta(src, [0x40, 0x40, 0x90, 0x40]) == Some(src)
  {
    var delta: seq<byte> := [0x40, 0x40, 0x90, 0x40];
    HeaderSpelledOut(0x80, 0x40, [0x40, 0x90, 0x40]);
    HeaderSpelledOut(0x80, 0x40, [0x90, 0x40]);
    assert delta == [0x40] + [0x40, 0x90, 0x40] && delta[1..] == [0x40] + [0x90, 0x40] &&
      delta[1..][1..] == [0x90, 0x40];
    ShortCopy(0x40, []);
    assert [0x90, 0x40][1..] == [0x40] + [] && src[0..0x40] == src;
    hide HdrSize, CopyOperands;
    assert Command(src, [0x90, 0x40]) == Some((src, []));
    assert Apply(src, []) == Some([]) && src + [] == src;
    assert Apply(src, [0x90, 0x40]) == Some(src);
  }

  /** A command byte of zero, literals that are not there and a copy beyond the source are refused. */
  lemma BadCommands(src: seq<byte>, rest: seq<byte>, n: byte)
    ensures Apply(src, [0] + rest) == None
    ensures |rest| < n as int < 0x80 ==> Apply(src, [n] + rest) == None
    ensures |src| < n as int ==> Apply(src, [0x90] + ([n] + rest)) == None
  {
    if n != 0 {
      ShortCopy(n, rest);
      assert ([0x90] + ([n] + rest))[1..] == [n] + rest;
    }
    hide CopyOperands;
  }
}
