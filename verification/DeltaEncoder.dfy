/** create_delta: the encoder loop of diff-delta.c, and why its output decodes to the target. */
module DeltaEncoder {
  import opened Basics
  import opened DeltaFormat
  import opened DeltaHash

  /** The most a single round may write, with the headers and the first window. */
  const MAX_OP_SIZE: nat := 5 + 5 + 1 + RABIN_WINDOW + 7

  // ---- The index ----------------------------------------------------------------------------

  datatype IndexEntry = IndexEntry(ptr: nat, val: bv32)

  /** The number of a bucket. */
  datatype BucketNr = BucketNr(i: bv32)

  /** `val & hash_mask`: which bucket a hash value belongs to. */
  function BucketOf(val: bv32, mask: bv32): BucketNr {
    BucketNr(val & mask)
  }

  /** The index of a source buffer: buckets of entries, selected by the masked hash value. */
  datatype DeltaIndex = DeltaIndex(src: seq<byte>, hashMask: bv32, bucket: BucketNr -> seq<IndexEntry>) {
    /** Every entry points inside the source. */
    ghost predicate Valid() {
      |src| < 0x1_0000_0000 && forall val: bv32, e :: e in Bucket(val) ==> e.ptr <= |src|
    }

    /** Within each bucket the entries ascend in the source. */
    ghost predicate Sorted() {
      forall val: bv32 :: Ascending(Bucket(val))
    }

    /** The bucket of a hash value. */
    function Bucket(val: bv32): seq<IndexEntry> {
      bucket(BucketOf(val, hashMask))
    }
  }

  ghost predicate Ascending(es: seq<IndexEntry>) {
    forall j, k :: 0 <= j < k < |es| ==> es[j].ptr <= es[k].ptr
  }

  // ---- Matching -----------------------------------------------------------------------------

  /** `src` at `moff` agrees with `trg` at `data` for `msize` bytes. */
  ghost predicate Match(src: seq<byte>, trg: seq<byte>, data: nat, moff: nat, msize: nat) {
    moff + msize <= |src| && data + msize <= |trg| && src[moff..moff + msize] == trg[data..data + msize]
  }

  /** How long `src` from `p` and `trg` from `data` agree. */
  function Common(src: seq<byte>, trg: seq<byte>, p: nat, data: nat): (n: nat)
    requires p <= |src| && data <= |trg|
    ensures p + n <= |src| && data + n <= |trg|
    decreases |src| - p
  {
    if p < |src| && data < |trg| && src[p] == trg[data] then 1 + Common(src, trg, p + 1, data + 1) else 0
  }

  lemma {:induction false} CommonMatches(src: seq<byte>, trg: seq<byte>, p: nat, data: nat)
    requires p <= |src| && data <= |trg|
    ensures Match(src, trg, data, p, Common(src, trg, p, data))
    decreases |src| - p
  {
    if p < |src| && data < |trg| && src[p] == trg[data] {
      CommonMatches(src, trg, p + 1, data + 1);
      var n := Common(src, trg, p + 1, data + 1);
      assert src[p..p + 1 + n] == [src[p]] + src[p + 1..p + 1 + n];
      assert trg[data..data + 1 + n] == [trg[data]] + trg[data + 1..data + 1 + n];
    }
  }

  /** No entry agrees with the target for four bytes anywhere behind the first window. */
  ghost predicate OffersNothing(index: DeltaIndex, trg: seq<byte>) {
    forall val: bv32, e, data :: e in index.Bucket(val) && e.ptr <= |index.src| && RABIN_WINDOW <= data <= |trg| ==>
      Common(index.src, trg, e.ptr, data) < 4
  }

  /** The comparison loop: how far an entry agrees with the target, within `limit` bytes. */
  method MatchLength(src: seq<byte>, trg: seq<byte>, p: nat, data: nat, limit: nat) returns (n: nat)
    requires p + limit <= |src| && data + limit <= |trg|
    requires p + limit == |src| || data + limit == |trg|
    ensures n == Common(src, trg, p, data)
  {
    n := 0;
    while n < limit && trg[data + n] == src[p + n]
      invariant 0 <= n <= limit && Common(src, trg, p, data) == n + Common(src, trg, p + n, data + n)
    {
      n := n + 1;
    }
  }

  /** No entry tried so far agrees with the target for longer than the match kept. */
  ghost predicate BestOf(src: seq<byte>, trg: seq<byte>, data: nat, es: seq<IndexEntry>, val: bv32, msize: nat)
    requires data <= |trg|
  {
    forall e :: e in es && e.val == val && e.ptr <= |src| ==> Common(src, trg, e.ptr, data) <= msize
  }

  /**
   * The search through one bucket: a match at least as long as the one carried over, and, when the
   * bucket ascends, as long as any entry offers (or long enough to stop looking). Stopping at the
   * first entry too close to the end of the source loses nothing.
   */
  method FindMatch(src: seq<byte>, trg: seq<byte>, data: nat, es: seq<IndexEntry>, val: bv32, moff0: nat, msize0: nat)
    returns (moff: nat, msize: nat)
    requires data <= |trg| && Match(src, trg, data, moff0, msize0)
    requires forall e :: e in es ==> e.ptr <= |src|
    ensures Match(src, trg, data, moff, msize) && msize >= msize0
    ensures msize == msize0 || exists e :: e in es && e.ptr == moff && msize == Common(src, trg, e.ptr, data)
    ensures es != [] && es[0].val == val ==> msize >= Common(src, trg, es[0].ptr, data)
    ensures Ascending(es) ==> msize >= 4096 || BestOf(src, trg, data, es, val, msize)
  {
    moff, msize := moff0, msize0;
    var k := 0;
    while k < |es|
      invariant 0 <= k <= |es|
      invariant Match(src, trg, data, moff, msize) && msize >= msize0
      invariant msize == msize0 || exists e :: e in es && e.ptr == moff && msize == Common(src, trg, e.ptr, data)
      invariant BestOf(src, trg, data, es[..k], val, msize)
    {
      assert es[..k + 1] == es[..k] + [es[k]];
      var entry := es[k];
      assert entry in es;
      if entry.val == val {
        var refSize := |src| - entry.ptr;
        if refSize > |trg| - data {
          refSize := |trg| - data;
        }
        if refSize <= msize {
          if Ascending(es) {
            TooShortFromHere(src, trg, data, es, k, val, msize);
          }
          break;
        }
        var n := MatchLength(src, trg, entry.ptr, data, refSize);
        if msize < n {
          CommonMatches(src, trg, entry.ptr, data);
          msize, moff := n, entry.ptr;
          if msize >= 4096 {
            break;
          }
        }
      }
      k := k + 1;
    }
    assert k == |es| ==> es[..k] == es;
  }

  lemma TooShortFromHere(src: seq<byte>, trg: seq<byte>, data: nat, es: seq<IndexEntry>, k: nat, val: bv32, msize: nat)
    requires data <= |trg| && k < |es| && es[k].ptr <= |src| && Ascending(es)
    requires |src| - es[k].ptr <= msize || |trg| - data <= msize
    requires BestOf(src, trg, data, es[..k], val, msize)
    ensures BestOf(src, trg, data, es, val, msize)
  {
    forall e | e in es && e.val == val && e.ptr <= |src| ensures Common(src, trg, e.ptr, data) <= msize {
      var j :| 0 <= j < |es| && es[j] == e;
      if j < k {
        assert e in es[..k];
      } else {
        assert es[k].ptr <= es[j].ptr;
      }
    }
  }

  // ---- What has been written ----------------------------------------------------------------

  /** `done`, the headers and commands so far, emits the target up to the pending literals `pend`. */
  ghost predicate Emits(src: seq<byte>, trg: seq<byte>, hdr: seq<byte>, done: seq<byte>, pend: seq<byte>, data: nat) {
    && hdr <= done && |pend| <= data <= |trg|
    && Apply(src, done[|hdr|..]) == Some(trg[..data - |pend|])
    && pend == trg[data - |pend|..data]
  }

  /** The buffer holds `done` and, if literals are pending, a slot for their count and the literals. */
  ghost predicate Holds(buf: seq<byte>, done: seq<byte>, pend: seq<byte>) {
    if pend == [] then buf == done
    else |buf| == |done| + 1 + |pend| && buf[..|done|] == done && buf[|done| + 1..] == pend
  }

  /** A literal joins the pending ones. */
  lemma LiteralPends(src: seq<byte>, trg: seq<byte>, hdr: seq<byte>, done: seq<byte>, pend: seq<byte>, data: nat)
    requires Emits(src, trg, hdr, done, pend, data) && data < |trg|
    ensures Emits(src, trg, hdr, done, pend + [trg[data]], data + 1)
  {
    hide Apply;
    assert trg[data - |pend|..data + 1] == trg[data - |pend|..data] + [trg[data]];
  }

  /** The last pending literal is taken back. */
  lemma LiteralTakenBack(src: seq<byte>, trg: seq<byte>, hdr: seq<byte>, done: seq<byte>, pend: seq<byte>, data: nat)
    requires Emits(src, trg, hdr, done, pend, data) && pend != []
    ensures Emits(src, trg, hdr, done, pend[..|pend| - 1], data - 1)
    ensures pend[|pend| - 1] == trg[data - 1]
  {
    hide Apply;
    var n := |pend| - 1;
    assert trg[data - |pend|..data][..n] == trg[data - 1 - n..data - 1];
  }

  /** With their count in the slot, the pending literals are an insert command. */
  lemma LiteralsFlush(src: seq<byte>, trg: seq<byte>, hdr: seq<byte>, done: seq<byte>, pend: seq<byte>, data: nat)
    requires Emits(src, trg, hdr, done, pend, data) && 0 < |pend| < 0x80
    ensures Emits(src, trg, hdr, done + [|pend| as byte] + pend, [], data)
  {
    hide Apply;
    var ops := done[|hdr|..];
    var insert := [|pend| as byte] + pend;
    ApplyInsert(src, |pend| as byte, pend);
    ApplyConcat(src, ops, insert, trg[..data - |pend|], pend);
    assert (done + [|pend| as byte] + pend)[|hdr|..] == ops + insert;
    assert trg[..data - |pend|] + pend == trg[..data];
  }

  /** A matching byte before the match makes the match one byte longer. */
  lemma MatchExtends(src: seq<byte>, trg: seq<byte>, data: nat, moff: nat, msize: nat)
    requires Match(src, trg, data, moff, msize) && 0 < moff && 0 < data && src[moff - 1] == trg[data - 1]
    ensures Match(src, trg, data - 1, moff - 1, msize + 1)
  {
    assert src[moff - 1..moff + msize] == [src[moff - 1]] + src[moff..moff + msize];
    assert trg[data - 1..data + msize] == [trg[data - 1]] + trg[data..data + msize];
  }

  // ---- Copy commands ------------------------------------------------------------------------

  function OptByte(b: nat): seq<byte>
    requires b < 0x100
  {
    if b != 0 then [b as byte] else []
  }

  function Flag(b: nat, bit: nat): nat {
    if b != 0 then bit else 0
  }

  /** The command byte and operands for copying `msize` bytes from `moff`. */
  function CopyCommand(moff: nat, msize: nat): seq<byte>
    requires moff < 0x1_0000_0000 && msize <= 0x1_0000
  {
    var o0, o1, o2, o3 := moff % 0x100, moff / 0x100 % 0x100, moff / 0x1_0000 % 0x100, moff / 0x100_0000;
    var s0, s1 := msize % 0x100, msize / 0x100 % 0x100;
    [CopyByte(o0, o1, o2, o3, s0, s1)] + (OffsetBytes(o0, o1, o2, o3) + SizeBytes(s0, s1))
  }

  function OffsetBytes(o0: nat, o1: nat, o2: nat, o3: nat): seq<byte>
    requires o0 < 0x100 && o1 < 0x100 && o2 < 0x100 && o3 < 0x100
  {
    OptByte(o0) + OptByte(o1) + OptByte(o2) + OptByte(o3)
  }

  function SizeBytes(s0: nat, s1: nat): seq<byte>
    requires s0 < 0x100 && s1 < 0x100
  {
    OptByte(s0) + OptByte(s1)
  }

  function CopyByte(o0: nat, o1: nat, o2: nat, o3: nat, s0: nat, s1: nat): (cmd: byte)
    ensures cmd >= 0x80
  {
    (0x80 + Flag(o0, 1) + Flag(o1, 2) + Flag(o2, 4) + Flag(o3, 8) + Flag(s0, 0x10) + Flag(s1, 0x20)) as byte
  }

  lemma CopyByteBits(o0: nat, o1: nat, o2: nat, o3: nat, s0: nat, s1: nat)
    ensures var cmd := CopyByte(o0, o1, o2, o3, s0, s1);
      && (HasBit(cmd, 1) <==> o0 != 0) && (HasBit(cmd, 2) <==> o1 != 0)
      && (HasBit(cmd, 4) <==> o2 != 0) && (HasBit(cmd, 8) <==> o3 != 0)
      && (HasBit(cmd, 0x10) <==> s0 != 0) && (HasBit(cmd, 0x20) <==> s1 != 0) && !HasBit(cmd, 0x40)
  {}

  lemma OperandReads(cmd: byte, bit: nat, b: nat, tail: seq<byte>)
    requires bit > 0 && b < 0x100 && (HasBit(cmd, bit) <==> b != 0)
    ensures Operand(cmd, bit, OptByte(b) + tail) == Some((b, tail))
  {
    if b == 0 {
      assert OptByte(b) + tail == tail;
    }
  }

  lemma NoOperand(cmd: byte, bit: nat, tail: seq<byte>)
    requires bit > 0 && !HasBit(cmd, bit)
    ensures Operand(cmd, bit, tail) == Some((0, tail))
  {}

  /** Operand bytes written where they are not zero are read back, zero or not. */
  lemma OperandsReadBack(cmd: byte, o0: nat, o1: nat, o2: nat, o3: nat, s0: nat, s1: nat)
    requires o0 < 0x100 && o1 < 0x100 && o2 < 0x100 && o3 < 0x100 && s0 < 0x100 && s1 < 0x100
    requires cmd == CopyByte(o0, o1, o2, o3, s0, s1)
    ensures
      var size := s0 + 0x100 * s1;
      CopyOperands(cmd,
        OptByte(o0) + (OptByte(o1) + (OptByte(o2) + (OptByte(o3) + (OptByte(s0) + (OptByte(s1) + [])))))) ==
      Some((o0 + 0x100 * o1 + 0x1_0000 * o2 + 0x100_0000 * o3, if size == 0 then 0x1_0000 else size, []))
  {
    hide HasBit, Operand, OptByte, CopyByte;
    CopyByteBits(o0, o1, o2, o3, s0, s1);
    var t5 := OptByte(s1) + [];
    var t4 := OptByte(s0) + t5;
    var t3 := OptByte(o3) + t4;
    var t2 := OptByte(o2) + t3;
    var t1 := OptByte(o1) + t2;
    OperandReads(cmd, 0x01, o0, t1);
    OperandReads(cmd, 0x02, o1, t2);
    OperandReads(cmd, 0x04, o2, t3);
    OperandReads(cmd, 0x08, o3, t4);
    OperandReads(cmd, 0x10, s0, t5);
    OperandReads(cmd, 0x20, s1, []);
    NoOperand(cmd, 0x40, []);
  }

  lemma BytesMakeNumber(n: nat)
    requires n < 0x1_0000_0000
    ensures n ==
      n % 0x100 + 0x100 * (n / 0x100 % 0x100) + 0x1_0000 * (n / 0x1_0000 % 0x100) + 0x100_0000 * (n / 0x100_0000)
    ensures n / 0x100_0000 < 0x100
  {
    assert n / 0x1_0000 == n / 0x100 / 0x100 && n / 0x100_0000 == n / 0x100 / 0x100 / 0x100;
  }

  lemma SizeBytesMakeNumber(n: nat)
    requires 0 < n <= 0x1_0000
    ensures n % 0x100 + 0x100 * (n / 0x100 % 0x100) == if n == 0x1_0000 then 0 else n
  {}

  /** The decoder reads back the offset and size, a size of 0x10000 being written as no size at all. */
  lemma CopyReadsBack(moff: nat, msize: nat)
    requires moff < 0x1_0000_0000 && 0 < msize <= 0x1_0000
    ensures CopyOperands(CopyCommand(moff, msize)[0], CopyCommand(moff, msize)[1..]) == Some((moff, msize, []))
  {
    hide OptByte, Flag, Operand;
    var o0, o1, o2, o3 := moff % 0x100, moff / 0x100 % 0x100, moff / 0x1_0000 % 0x100, moff / 0x100_0000;
    var s0, s1 := msize % 0x100, msize / 0x100 % 0x100;
    BytesMakeNumber(moff);
    SizeBytesMakeNumber(msize);
    OperandsReadBack(CopyByte(o0, o1, o2, o3, s0, s1), o0, o1, o2, o3, s0, s1);
    Reassociate(OptByte(o0), OptByte(o1), OptByte(o2), OptByte(o3), OptByte(s0), OptByte(s1));
    assert CopyCommand(moff, msize)[1..] == OffsetBytes(o0, o1, o2, o3) + SizeBytes(s0, s1);
  }

  lemma Reassociate(a: seq<byte>, b: seq<byte>, c: seq<byte>, d: seq<byte>, e: seq<byte>, f: seq<byte>)
    ensures (a + b + c + d) + (e + f) == a + (b + (c + (d + (e + (f + [])))))
  {}

  lemma CopyEmits(src: seq<byte>, moff: nat, msize: nat)
    requires moff < 0x1_0000_0000 && 0 < msize <= 0x1_0000 && moff + msize <= |src|
    ensures Apply(src, CopyCommand(moff, msize)) == Some(src[moff..moff + msize])
  {
    CopyReadsBack(moff, msize);
    EmitsAlone(src, CopyCommand(moff, msize), moff, msize);
  }

  lemma NothingLeft(src: seq<byte>)
    ensures Apply(src, []) == Some([])
  {}

  lemma CopyEmitted(src: seq<byte>, c: seq<byte>, moff: nat, msize: nat)
    requires c != [] && c[0] >= 0x80 && CopyOperands(c[0], c[1..]) == Some((moff, msize, [])) && moff + msize <= |src|
    ensures Command(src, c) == Some((src[moff..moff + msize], []))
  {
    hide CopyOperands;
  }

  lemma EmitsAlone(src: seq<byte>, c: seq<byte>, moff: nat, msize: nat)
    requires c != [] && c[0] >= 0x80 && CopyOperands(c[0], c[1..]) == Some((moff, msize, [])) && moff + msize <= |src|
    ensures Apply(src, c) == Some(src[moff..moff + msize])
  {
    hide *;
    CopyEmitted(src, c, moff, msize);
    NothingLeft(src);
    ApplyStep(src, c, src[moff..moff + msize], [], []);
    assert src[moff..moff + msize] + [] == src[moff..moff + msize];
  }

  /** One more command that emits the next piece of the target. */
  lemma CommandAppended(src: seq<byte>, trg: seq<byte>, hdr: seq<byte>, done: seq<byte>, data: nat, c: seq<byte>,
      piece: seq<byte>)
    requires Emits(src, trg, hdr, done, [], data) && Apply(src, c) == Some(piece)
    requires data + |piece| <= |trg| && piece == trg[data..data + |piece|]
    ensures Emits(src, trg, hdr, done + c, [], data + |piece|)
  {
    hide Apply;
    ApplyConcat(src, done[|hdr|..], c, trg[..data], piece);
    assert (done + c)[|hdr|..] == done[|hdr|..] + c;
    assert trg[..data] + piece == trg[..data + |piece|];
  }

  /** After a copy command the target is emitted up to the end of the copied part. */
  lemma CopyAppended(src: seq<byte>, trg: seq<byte>, hdr: seq<byte>, done: seq<byte>, data: nat, moff: nat, msize: nat)
    requires Emits(src, trg, hdr, done, [], data) && Match(src, trg, data, moff, msize)
    requires moff < 0x1_0000_0000 && 0 < msize <= 0x1_0000
    ensures Emits(src, trg, hdr, done + CopyCommand(moff, msize), [], data + msize)
  {
    hide Apply, CopyCommand;
    CopyEmits(src, moff, msize);
    var c, piece := CopyCommand(moff, msize), src[moff..moff + msize];
    assert |piece| == msize && piece == trg[data..data + |piece|];
    CommandAppended(src, trg, hdr, done, data, c, piece);
  }

  /** The rest of a match that was cut for one copy command still matches behind it. */
  lemma MatchRest(src: seq<byte>, trg: seq<byte>, data: nat, moff: nat, msize: nat, cut: nat)
    requires Match(src, trg, data, moff, msize) && cut <= msize
    ensures Match(src, trg, data, moff, cut) && Match(src, trg, data + cut, moff + cut, msize - cut)
  {
    assert src[moff..moff + cut] == src[moff..moff + msize][..cut];
    assert trg[data..data + cut] == trg[data..data + msize][..cut];
    assert src[moff + cut..moff + msize] == src[moff..moff + msize][cut..];
    assert trg[data + cut..data + msize] == trg[data..data + msize][cut..];
  }

  // ---- Writing into the buffer --------------------------------------------------------------

  /** Write one byte at the end. */
  method Put(out: array<byte>, outpos: nat, b: byte) returns (pos: nat)
    requires outpos < out.Length
    modifies out
    ensures pos == outpos + 1 && out[..pos] == old(out[..outpos]) + [b]
  {
    out[outpos] := b;
    pos := outpos + 1;
  }

  /** Write one operand byte unless it is zero; say what that adds to the command byte. */
  method PutOperand(out: array<byte>, outpos: nat, b: nat, bit: nat) returns (pos: nat, flag: nat)
    requires outpos < out.Length && b < 0x100
    modifies out
    ensures out[..outpos] == old(out[..outpos])
    ensures pos == outpos + |OptByte(b)| && out[..pos] == old(out[..outpos]) + OptByte(b)
    ensures flag == Flag(b, bit)
  {
    pos, flag := outpos, 0;
    if b != 0 {
      out[outpos] := b as byte;
      pos := outpos + 1;
      flag := bit;
    }
  }

  /** Write the offset bytes that are not zero. */
  method PutOffset(out: array<byte>, outpos: nat, o0: nat, o1: nat, o2: nat, o3: nat) returns (pos: nat, flags: nat)
    requires outpos + 4 <= out.Length && o0 < 0x100 && o1 < 0x100 && o2 < 0x100 && o3 < 0x100
    modifies out
    ensures outpos <= pos <= outpos + 4
    ensures out[..pos] == old(out[..outpos]) + OffsetBytes(o0, o1, o2, o3)
    ensures flags == Flag(o0, 1) + Flag(o1, 2) + Flag(o2, 4) + Flag(o3, 8)
  {
    var f0, f1, f2, f3;
    pos, f0 := PutOperand(out, outpos, o0, 0x01);
    pos, f1 := PutOperand(out, pos, o1, 0x02);
    pos, f2 := PutOperand(out, pos, o2, 0x04);
    pos, f3 := PutOperand(out, pos, o3, 0x08);
    flags := f0 + f1 + f2 + f3;
  }

  /** Write the size bytes that are not zero. */
  method PutSize(out: array<byte>, outpos: nat, s0: nat, s1: nat) returns (pos: nat, flags: nat)
    requires outpos + 2 <= out.Length && s0 < 0x100 && s1 < 0x100
    modifies out
    ensures outpos <= pos <= outpos + 2
    ensures out[..pos] == old(out[..outpos]) + SizeBytes(s0, s1)
    ensures flags == Flag(s0, 0x10) + Flag(s1, 0x20)
  {
    var f0, f1;
    pos, f0 := PutOperand(out, outpos, s0, 0x10);
    pos, f1 := PutOperand(out, pos, s1, 0x20);
    flags := f0 + f1;
  }

  /** Write a copy command: its operands first, then the command byte before them. */
  method PutCopy(out: array<byte>, outpos: nat, moff: nat, msize: nat) returns (pos: nat)
    requires outpos + 7 <= out.Length && moff < 0x1_0000_0000 && msize <= 0x1_0000
    modifies out
    ensures outpos < pos <= outpos + 7
    ensures out[..pos] == old(out[..outpos]) + CopyCommand(moff, msize)
  {
    hide OptByte;
    ghost var before, slot := out[..outpos], out[outpos];
    assert out[..outpos + 1] == before + [slot];
    BytesMakeNumber(moff);
    var i, j;
    pos, i :=
      PutOffset(out, outpos + 1, moff % 0x100, moff / 0x100 % 0x100, moff / 0x1_0000 % 0x100, moff / 0x100_0000);
    pos, j := PutSize(out, pos, msize % 0x100, msize / 0x100 % 0x100);
    ghost var operands := OffsetBytes(moff % 0x100, moff / 0x100 % 0x100, moff / 0x1_0000 % 0x100, moff / 0x100_0000) +
      SizeBytes(msize % 0x100, msize / 0x100 % 0x100);
    PutSlot(out, outpos, pos, (0x80 + i + j) as byte, before, slot, operands);
    assert out[..pos] == before + ([out[outpos]] + operands);
  }

  /** Fill in a byte that was skipped. */
  method PutSlot(out: array<byte>, op: nat, outpos: nat, b: byte, ghost before: seq<byte>, ghost slot: byte,
      ghost after: seq<byte>)
    requires op < outpos <= out.Length && |before| == op && out[..outpos] == before + [slot] + after
    modifies out
    ensures out[..outpos] == before + [b] + after && out[op] == b
  {
    assert out[..outpos][op] == slot;
    out[op] := b;
    assert out[..outpos] == (before + [slot] + after)[op := b];
  }

  // ---- The rounds of the encoder ------------------------------------------------------------

  /** The buffer holds what `done` and `pend` say, and that is the target up to `data`. */
  ghost predicate Writing(out: array<byte>, outpos: nat, src: seq<byte>, trg: seq<byte>, hdr: seq<byte>,
      done: seq<byte>, pend: seq<byte>, data: nat)
    reads out
  {
    outpos <= out.Length && Holds(out[..outpos], done, pend) && Emits(src, trg, hdr, done, pend, data)
  }

  /** `out[outpos - inscnt - 1] = inscnt`: fill in the count of the pending literals. */
  method FlushCount(out: array<byte>, outpos: nat, inscnt: nat, src: seq<byte>, trg: seq<byte>, ghost hdr: seq<byte>,
      ghost done: seq<byte>, ghost pend: seq<byte>, data: nat)
    returns (ghost done': seq<byte>)
    requires Writing(out, outpos, src, trg, hdr, done, pend, data) && 0 < inscnt == |pend| < 0x80
    modifies out
    ensures Writing(out, outpos, src, trg, hdr, done', [], data)
  {
    hide Emits;
    ghost var slot := out[|done|];
    assert out[..outpos] == done + [slot] + pend;
    PutSlot(out, outpos - inscnt - 1, outpos, inscnt as byte, done, slot, pend);
    LiteralsFlush(src, trg, hdr, done, pend, data);
    done' := done + [inscnt as byte] + pend;
  }

  /** A round without a usable match: one more literal. */
  method LiteralRound(out: array<byte>, outpos0: nat, inscnt0: nat, src: seq<byte>, trg: seq<byte>,
      ghost hdr: seq<byte>, ghost done0: seq<byte>, ghost pend0: seq<byte>, data: nat)
    returns (outpos: nat, inscnt: nat, ghost done: seq<byte>, ghost pend: seq<byte>)
    requires Writing(out, outpos0, src, trg, hdr, done0, pend0, data) && data < |trg|
    requires outpos0 + 2 <= out.Length && inscnt0 == |pend0| < 0x7f
    modifies out
    ensures Writing(out, outpos, src, trg, hdr, done, pend, data + 1)
    ensures inscnt == |pend| < 0x7f && inscnt == (inscnt0 + 1) % 0x7f
    ensures outpos == outpos0 + if inscnt0 == 0 then 2 else 1
  {
    hide Emits, Holds;
    outpos, inscnt, done, pend := outpos0, inscnt0, done0, pend0;
    if inscnt == 0 {
      outpos := outpos + 1;
    }
    LiteralPends(src, trg, hdr, done, pend, data);
    LiteralHeld(out[..outpos], out[..outpos0], done, pend, trg[data]);
    outpos := Put(out, outpos, trg[data]);
    inscnt := inscnt + 1;
    pend := pend + [trg[data]];
    if inscnt == 0x7f {
      done := FlushCount(out, outpos, inscnt, src, trg, hdr, done, pend, data + 1);
      inscnt, pend := 0, [];
    }
  }

  lemma LiteralHeld(buf: seq<byte>, buf0: seq<byte>, done: seq<byte>, pend: seq<byte>, b: byte)
    requires Holds(buf0, done, pend)
    requires if pend == [] then |buf| == |buf0| + 1 && buf[..|buf0|] == buf0 else buf == buf0
    ensures Holds(buf + [b], done, pend + [b])
  {
    if pend != [] {
      assert (buf + [b])[|done| + 1..] == buf[|done| + 1..] + [b];
    }
  }

  /** Extend a match backwards over pending literals; they are taken out of the buffer again. */
  method ExtendBack(out: array<byte>, outpos0: nat, inscnt0: nat, src: seq<byte>, trg: seq<byte>, ghost hdr: seq<byte>,
      ghost done: seq<byte>, ghost pend0: seq<byte>, data0: nat, moff0: nat, msize0: nat)
    returns (outpos: nat, inscnt: int, data: nat, moff: nat, msize: nat, ghost pend: seq<byte>)
    requires 0 < inscnt0 == |pend0|
    requires Extending(out, outpos0, src, trg, hdr, done, pend0, data0, moff0, msize0)
    ensures Extending(out, outpos, src, trg, hdr, done, pend, data, moff, msize)
    ensures data + msize == data0 + msize0 && msize0 <= msize <= msize0 + inscnt0 && outpos <= outpos0
    ensures if pend == [] then inscnt == -1 && outpos == outpos0 - inscnt0 - 1
            else inscnt == |pend| <= inscnt0 && outpos == outpos0 - inscnt0 + inscnt
    ensures pend == [] || moff == 0 || src[moff - 1] != trg[data - 1]
    ensures moff + inscnt0 == moff0 + |pend| && msize + |pend| == msize0 + inscnt0
  {
    hide Apply, Holds;
    outpos, inscnt, data, moff, msize, pend := outpos0, inscnt0, data0, moff0, msize0, pend0;
    while inscnt > 0 && moff != 0 && src[moff - 1] == trg[data - 1]
      invariant 0 <= inscnt == |pend| <= inscnt0
      invariant Extending(out, outpos, src, trg, hdr, done, pend, data, moff, msize)
      invariant data + msize == data0 + msize0 && msize + inscnt == msize0 + inscnt0 && moff + inscnt0 == moff0 + inscnt
      invariant outpos + inscnt0 == outpos0 + inscnt - if inscnt == 0 then 1 else 0
    {
      BackStep(out, outpos, src, trg, hdr, done, pend, data, moff, msize);
      msize, moff, data := msize + 1, moff - 1, data - 1;
      outpos := outpos - 1;
      inscnt := inscnt - 1;
      pend := pend[..|pend| - 1];
      if inscnt == 0 {
        outpos := outpos - 1;
      }
    }
    if inscnt == 0 {
      inscnt := -1;
    }
  }

  /** What extending backwards keeps: the buffer is right and the match holds. */
  ghost predicate Extending(out: array<byte>, outpos: nat, src: seq<byte>, trg: seq<byte>, hdr: seq<byte>,
      done: seq<byte>, pend: seq<byte>, data: nat, moff: nat, msize: nat)
    reads out
  {
    Writing(out, outpos, src, trg, hdr, done, pend, data) && Match(src, trg, data, moff, msize)
  }

  /** One matching byte before the match: the last literal goes, and with the last one the slot. */
  lemma BackStep(out: array<byte>, outpos: nat, src: seq<byte>, trg: seq<byte>, hdr: seq<byte>, done: seq<byte>,
      pend: seq<byte>, data: nat, moff: nat, msize: nat)
    requires Extending(out, outpos, src, trg, hdr, done, pend, data, moff, msize) && pend != []
    requires moff > 0 && src[moff - 1] == trg[data - 1]
    ensures outpos >= 2
    ensures Extending(out, if |pend| == 1 then outpos - 2 else outpos - 1, src, trg, hdr, done, pend[..|pend| - 1],
                      data - 1, moff - 1, msize + 1)
  {
    hide Apply;
    MatchExtends(src, trg, data, moff, msize);
    LiteralTakenBack(src, trg, hdr, done, pend, data);
    LiteralDropped(out[..outpos], done, pend);
    assert out[..outpos - 1] == out[..outpos][..outpos - 1];
    assert outpos >= 2 ==> out[..outpos - 2] == out[..outpos][..outpos - 2];
  }

  lemma LiteralDropped(buf: seq<byte>, done: seq<byte>, pend: seq<byte>)
    requires Holds(buf, done, pend) && pend != []
    ensures |buf| >= 2
    ensures Holds(if |pend| == 1 then buf[..|buf| - 2] else buf[..|buf| - 1], done, pend[..|pend| - 1])
  {
    if |pend| == 1 {
      assert buf[..|buf| - 2] == buf[..|done|];
    } else {
      var buf' := buf[..|buf| - 1];
      assert buf'[..|done|] == buf[..|done|] && buf'[|done| + 1..] == buf[|done| + 1..][..|pend| - 1];
    }
  }

  lemma ExtendingBounds(out: array<byte>, outpos: nat, src: seq<byte>, trg: seq<byte>, hdr: seq<byte>,
      done: seq<byte>, pend: seq<byte>, data: nat, moff: nat, msize: nat)
    requires Extending(out, outpos, src, trg, hdr, done, pend, data, moff, msize)
    ensures moff <= |src| && |pend| <= data <= |trg|
  {
    hide Apply, Holds;
  }

  /** As many literals taken back as are there and match. */
  ghost predicate TakenBack(src: seq<byte>, trg: seq<byte>, inscnt0: nat, data0: nat, moff0: nat, msize0: nat,
      data: nat, moff: nat, msize: nat, back: nat)
  {
    && back <= inscnt0 && data + back == data0 && moff + back == moff0 && msize == msize0 + back
    && (back == inscnt0 || moff == 0 || (moff <= |src| && 0 < data <= |trg| && src[moff - 1] != trg[data - 1]))
  }

  /** The part of a copying round before the command: extend backwards and settle the pending literals. */
  method SettleLiterals(out: array<byte>, outpos0: nat, inscnt0: nat, src: seq<byte>, trg: seq<byte>,
      ghost hdr: seq<byte>, ghost done0: seq<byte>, ghost pend0: seq<byte>, data0: nat, moff0: nat, msize0: nat)
    returns (outpos: nat, data: nat, moff: nat, msize: nat, ghost done: seq<byte>, ghost back: nat)
    requires inscnt0 == |pend0| < 0x7f
    requires Extending(out, outpos0, src, trg, hdr, done0, pend0, data0, moff0, msize0)
    modifies out
    ensures Extending(out, outpos, src, trg, hdr, done, [], data, moff, msize)
    ensures TakenBack(src, trg, inscnt0, data0, moff0, msize0, data, moff, msize, back)
    ensures outpos <= outpos0 - if 0 < back == inscnt0 then back + 1 else back
  {
    hide Emits, Match;
    outpos, data, moff, msize, done, back := outpos0, data0, moff0, msize0, done0, 0;
    if inscnt0 != 0 {
      var inscnt;
      ghost var pend;
      outpos, inscnt, data, moff, msize, pend :=
        ExtendBack(out, outpos, inscnt0, src, trg, hdr, done, pend0, data, moff, msize);
      back := inscnt0 - |pend|;
      ExtendingBounds(out, outpos, src, trg, hdr, done, pend, data, moff, msize);
      if inscnt == -1 {
        // the count of the removed slot lands on the byte the command is about to overwrite
        out[outpos - inscnt - 1] := 0xff;
      } else {
        done := FlushCount(out, outpos, inscnt, src, trg, hdr, done, pend, data);
      }
    }
  }

  /** The match, extended backwards as far as literals are pending and agree, is copied, up to 64KB of it. */
  ghost predicate Copied(src: seq<byte>, trg: seq<byte>, inscnt0: nat, data0: nat, moff0: nat, msize0: nat,
      outpos0: nat, outpos: nat, data: nat, moff: nat, msize: nat, back: nat)
  {
    var cut := if msize0 + back < 0x1_0000 then msize0 + back else 0x1_0000;
    && back <= data0 && back <= moff0
    && TakenBack(src, trg, inscnt0, data0, moff0, msize0, data0 - back, moff0 - back, msize0 + back, back)
    && data + back == data0 + cut && moff + back == moff0 + cut && msize + cut == msize0 + back
    && outpos <= outpos0 + 7 - if 0 < back == inscnt0 then back + 1 else back
  }

  /** A round with a match of at least four bytes: settle the literals, then copy up to 64KB. */
  method CopyRound(out: array<byte>, outpos0: nat, inscnt0: nat, src: seq<byte>, trg: seq<byte>,
      ghost hdr: seq<byte>, ghost done0: seq<byte>, ghost pend0: seq<byte>, data0: nat, moff0: nat, msize0: nat)
    returns (outpos: nat, data: nat, moff: nat, msize: nat, ghost done: seq<byte>, ghost back: nat)
    requires inscnt0 == |pend0| < 0x7f && msize0 >= 4 && |src| < 0x1_0000_0000 && outpos0 + 7 <= out.Length
    requires Extending(out, outpos0, src, trg, hdr, done0, pend0, data0, moff0, msize0)
    modifies out
    ensures Extending(out, outpos, src, trg, hdr, done, [], data, moff, msize)
    ensures Copied(src, trg, inscnt0, data0, moff0, msize0, outpos0, outpos, data, moff, msize, back)
  {
    hide Apply, CopyCommand;
    outpos, data, moff, msize, done, back :=
      SettleLiterals(out, outpos0, inscnt0, src, trg, hdr, done0, pend0, data0, moff0, msize0);
    var left := if msize < 0x1_0000 then 0 else msize - 0x1_0000;
    var cut := msize - left;
    MatchRest(src, trg, data, moff, msize, cut);
    CopyAppended(src, trg, hdr, done, data, moff, cut);
    outpos := PutCopy(out, outpos, moff, cut);
    done := done + CopyCommand(moff, cut);
    data, moff, msize := data + cut, moff + cut, left;
  }

  /** The hash of the sixteen bytes before `data`. */
  method RollWindow(t: Tables, trg: seq<byte>, data: nat) returns (val: bv32)
    requires t.Valid() && RABIN_WINDOW <= data <= |trg|
    ensures val == Hash(t, trg[data - RABIN_WINDOW..data])
  {
    val := 0;
    ghost var start := data - RABIN_WINDOW;
    var j := data - RABIN_WINDOW;
    NoHash(t);
    assert trg[start..start] == [];
    hide Roll;
    while j < data
      invariant start <= j <= data && val == Hash(t, trg[start..j])
    {
      HashNext(t, trg[start..j], trg[j]);
      assert trg[start..j + 1] == trg[start..j] + [trg[j]];
      val := Roll(t, val, trg[j]);
      j := j + 1;
    }
  }

  // ---- The buffer size ----------------------------------------------------------------------

  /** `outsize * 3 / 2` in 32-bit arithmetic. */
  function Grown(outsize: nat): nat {
    outsize * 3 % 0x1_0000_0000 / 2
  }

  /** The length after growing `k` times. */
  function NthLength(k: nat): nat {
    if k == 0 then 8192 else Grown(NthLength(k - 1))
  }

  /** The length that is meant: half as large again each time. */
  function IntendedLength(k: nat): nat {
    if k == 0 then 8192 else IntendedLength(k - 1) * 3 / 2
  }

  /** The length reached by growing thirty times, the last one that is right. */
  const LAST: nat := 1570824171

  lemma GrowsByHalf(length: nat)
    ensures Grown(length) == length * 3 / 2 <==> length * 3 < 0x1_0000_0000
  {}

  lemma IntendedStart()
    ensures IntendedLength(0) == 8192
  {}

  lemma IntendedOnce(k: nat, n: nat)
    requires IntendedLength(k) == n
    ensures IntendedLength(k + 1) == n * 3 / 2
  {}

  lemma IntendedThrice(k: nat, n: nat)
    requires IntendedLength(k) == n
    ensures IntendedLength(k + 3) == n * 3 / 2 * 3 / 2 * 3 / 2
  {
    hide IntendedLength;
    IntendedOnce(k, n);
    IntendedOnce(k + 1, n * 3 / 2);
    IntendedOnce(k + 2, n * 3 / 2 * 3 / 2);
  }

  lemma IntendedValues()
    ensures IntendedLength(29) == 1047216114 && IntendedLength(30) == LAST && IntendedLength(31) >= 0x8000_0000
  {
    hide IntendedLength;
    IntendedStart();
    IntendedThrice(0, 8192);
    IntendedThrice(3, 27648);
    IntendedThrice(6, 93312);
    IntendedThrice(9, 314928);
    IntendedThrice(12, 1062882);
    IntendedThrice(15, 3587226);
    IntendedThrice(18, 12106887);
    IntendedThrice(21, 40860742);
    IntendedThrice(24, 137905003);
    IntendedOnce(27, 465429384);
    IntendedOnce(28, 698144076);
    IntendedOnce(29, 1047216114);
    IntendedOnce(30, LAST);
  }

  lemma {:induction false} IntendedGrows(j: nat, k: nat)
    requires j <= k
    ensures 8192 <= IntendedLength(j) <= IntendedLength(k)
    decreases k
  {
    if j < k {
      IntendedGrows(j, k - 1);
    } else if 0 < k {
      IntendedGrows(k - 1, k - 1);
    }
  }

  lemma {:induction false} LengthIsIntended(k: nat)
    requires k <= 30
    ensures NthLength(k) == IntendedLength(k)
  {
    hide IntendedLength;
    if k == 0 {
      IntendedStart();
    } else {
      LengthIsIntended(k - 1);
      IntendedValues();
      IntendedGrows(k - 1, 29);
      IntendedOnce(k - 1, IntendedLength(k - 1));
      GrowsByHalf(NthLength(k - 1));
    }
  }

  lemma LengthBelow(k: nat)
    ensures k > 0 ==> NthLength(k) < 0x8000_0000
  {}

  /** The buffer has the length that is meant exactly as long as it has grown at most thirty times. */
  lemma LengthsRight(k: nat)
    ensures NthLength(k) == IntendedLength(k) <==> k <= 30
  {
    hide *;
    if k <= 30 {
      LengthIsIntended(k);
    } else {
      IntendedValues();
      IntendedGrows(31, k);
      LengthBelow(k);
    }
  }

  /** Growing for the thirty-first time leaves a buffer far smaller than what it holds by then. */
  lemma LastGrowth()
    ensures NthLength(30) == LAST && NthLength(31) == Grown(LAST) == 208752608 < LAST - MAX_OP_SIZE
  {
    LengthIsIntended(30);
    IntendedValues();
    hide IntendedLength;
  }

  /** Before that, growing makes room for a round and more. */
  lemma GrowthMakesRoom(k: nat)
    requires k < 30
    ensures 8192 <= NthLength(k) && NthLength(k) + MAX_OP_SIZE < NthLength(k + 1) == Grown(NthLength(k)) <= LAST
  {
    LengthIsIntended(k);
    LengthIsIntended(k + 1);
    IntendedValues();
    IntendedGrows(k, 29);
    IntendedGrows(k + 1, 30);
    IntendedOnce(k, IntendedLength(k));
    hide IntendedLength;
  }

  /** Nothing keeps the buffer from growing to the last length and beyond. */
  predicate Unlimited(maxSize: nat) {
    maxSize == 0 || maxSize > LAST
  }

  /** The sizes for which the buffer is never too small, whatever is written. */
  predicate SizesFit(trgSize: nat, maxSize: nat) {
    Unlimited(maxSize) ==> 12 + 2 * trgSize + MAX_OP_SIZE < LAST
  }

  /** realloc: a buffer of another size with the same beginning. */
  method Realloc(out: array<byte>, outpos: nat, outsize: nat) returns (out': array<byte>)
    requires outpos <= out.Length && outpos <= outsize
    ensures fresh(out') && out'.Length == outsize && out'[..outpos] == out[..outpos]
  {
    out' := new byte[outsize](i reads out => if 0 <= i < out.Length then out[i] else 0);
  }

  /** EncodeSize, byte by byte into the buffer. */
  method PutHeader(out: array<byte>, outpos0: nat, size: nat) returns (outpos: nat)
    requires size < 0x1_0000_0000 && outpos0 + 5 <= out.Length
    modifies out
    ensures outpos0 < outpos <= outpos0 + 5 && out[..outpos] == old(out[..outpos0]) + EncodeSize(size)
  {
    hide EncodeSize;
    SizeLength(size);
    ghost var before := out[..outpos0];
    ghost var done := [];
    outpos := outpos0;
    var i := size;
    while i >= 0x80
      invariant done + EncodeSize(i) == EncodeSize(size)
      invariant outpos == outpos0 + |done| && out[..outpos] == before + done
    {
      ghost var b := (i % 0x80 + 0x80) as byte;
      SizeStep(done, i);
      outpos := Put(out, outpos, (i % 0x80 + 0x80) as byte);
      assert out[..outpos] == before + (done + [b]);
      done := done + [b];
      i := i / 0x80;
    }
    SizeEnd(i);
    outpos := Put(out, outpos, i as byte);
    assert out[..outpos] == before + (done + [i as byte]);
  }

  lemma SizeEnd(i: nat)
    requires i < 0x80
    ensures EncodeSize(i) == [i as byte]
  {}

  lemma SizeStep(done: seq<byte>, i: nat)
    requires i >= 0x80
    ensures |EncodeSize(i)| >= 2
    ensures done + [(i % 0x80 + 0x80) as byte] + EncodeSize(i / 0x80) == done + EncodeSize(i)
  {}

  // ---- The whole delta ----------------------------------------------------------------------

  function Headers(src: seq<byte>, trg: seq<byte>): seq<byte> {
    EncodeSize(|src|) + EncodeSize(|trg|)
  }

  /** A single byte can only be a copy of 64KB from the front. */
  lemma OneByteCommand(src: seq<byte>, cmd: byte, out: seq<byte>, rest: seq<byte>)
    requires Command(src, [cmd]) == Some((out, rest))
    ensures |out| == 0x1_0000 && rest == []
  {
    assert [cmd][1..] == [];
  }

  lemma CommandsLongEnough(src: seq<byte>, trg: seq<byte>, ops: seq<byte>)
    requires Apply(src, ops) == Some(trg) && trg != []
    ensures |ops| >= 2 || (|ops| == 1 && |trg| == 0x1_0000)
  {
    if |ops| == 1 {
      var c := Command(src, ops).value;
      assert ops == [ops[0]];
      OneByteCommand(src, ops[0], c.0, c.1);
      assert trg == c.0 + [];
    }
  }

  lemma SomeHeader(n: nat)
    ensures |EncodeSize(n)| >= if n == 0x1_0000 then 3 else 1
  {
    if n == 0x1_0000 {
      assert EncodeSize(n) == [0x80] + EncodeSize(512);
    }
  }

  /** So the smallest delta has four bytes. */
  lemma DeltaLongEnough(src: seq<byte>, trg: seq<byte>, ops: seq<byte>)
    requires Apply(src, ops) == Some(trg) && trg != []
    ensures |EncodeSize(|src|)| + |EncodeSize(|trg|)| + |ops| >= DELTA_SIZE_MIN
  {
    CommandsLongEnough(src, trg, ops);
    SomeHeader(|src|);
    SomeHeader(|trg|);
    hide *;
  }

  lemma TargetRead(src: seq<byte>, trg: seq<byte>, ops: seq<byte>)
    requires Apply(src, ops) == Some(trg)
    ensures EncodeSize(|trg|) + ops != [] && PatchTarget(src, EncodeSize(|trg|) + ops) == Some(trg)
  {
    SizeRoundTrip(|trg|, ops);
    assert (EncodeSize(|trg|) + ops)[|EncodeSize(|trg|)|..] == ops;
  }

  lemma DeltaRead(src: seq<byte>, trg: seq<byte>, ops: seq<byte>)
    requires Apply(src, ops) == Some(trg) && trg != []
    ensures PatchDelta(src, EncodeSize(|src|) + (EncodeSize(|trg|) + ops)) == Some(trg)
  {
    var rest := EncodeSize(|trg|) + ops;
    DeltaLongEnough(src, trg, ops);
    TargetRead(src, trg, ops);
    SizeRoundTrip(|src|, rest);
    assert (EncodeSize(|src|) + rest)[|EncodeSize(|src|)|..] == rest;
  }

  lemma HeadersThenCommands(src: seq<byte>, trg: seq<byte>, delta: seq<byte>)
    requires Headers(src, trg) <= delta
    ensures delta == EncodeSize(|src|) + (EncodeSize(|trg|) + delta[|Headers(src, trg)|..])
  {
    assert delta == Headers(src, trg) + delta[|Headers(src, trg)|..];
  }

  /** Commands that emit the whole target, behind the two headers, are a delta for it. */
  lemma EmitsAllPatches(src: seq<byte>, trg: seq<byte>, delta: seq<byte>)
    requires Headers(src, trg) <= delta && Apply(src, delta[|Headers(src, trg)|..]) == Some(trg) && trg != []
    ensures PatchDelta(src, delta) == Some(trg)
  {
    DeltaRead(src, trg, delta[|Headers(src, trg)|..]);
    HeadersThenCommands(src, trg, delta);
  }

  // ---- How short a delta can be -------------------------------------------------------------

  /** How many bytes of `s` do not occur in the source. */
  ghost function Foreign(src: seq<byte>, s: seq<byte>): nat {
    if s == [] then 0 else Foreign(src, s[1..]) + if s[0] in src then 0 else 1
  }

  lemma {:induction false} ForeignConcat(src: seq<byte>, a: seq<byte>, b: seq<byte>)
    ensures Foreign(src, a + b) == Foreign(src, a) + Foreign(src, b)
  {
    if a == [] {
      assert a + b == b;
    } else {
      ForeignConcat(src, a[1..], b);
      assert (a + b)[1..] == a[1..] + b && (a + b)[0] == a[0];
    }
  }

  lemma {:induction false} ForeignBounds(src: seq<byte>, s: seq<byte>)
    ensures Foreign(src, s) <= |s|
    ensures (forall b :: b in s ==> b in src) ==> Foreign(src, s) == 0
    ensures (forall b :: b in s ==> b !in src) ==> Foreign(src, s) == |s|
  {
    if s != [] {
      ForeignBounds(src, s[1..]);
      assert s[0] in s && forall b :: b in s[1..] ==> b in s;
    }
  }

  /** The bytes `n` literals take at least, with a count for every 127 of them. */
  function WithCounts(n: nat): nat {
    n + (n + 0x7e) / 0x7f
  }

  lemma CountsAdd(a: nat, b: nat)
    ensures WithCounts(a + b) <= WithCounts(a) + WithCounts(b)
    ensures a < 0x80 ==> WithCounts(a) <= 1 + a
    ensures a <= b ==> WithCounts(a) <= WithCounts(b)
  {}

  /** Whatever the commands, the bytes the source does not have stand among them as literals. */
  lemma {:induction false} FewestCommands(src: seq<byte>, ops: seq<byte>, out: seq<byte>)
    requires Apply(src, ops) == Some(out)
    ensures |ops| >= WithCounts(Foreign(src, out))
    decreases |ops|
  {
    if ops != [] {
      var c := Command(src, ops).value;
      var more := Apply(src, c.1).value;
      hide Apply, Command, Foreign, WithCounts;
      CommandEmits(src, ops);
      FewestCommands(src, c.1, more);
      ForeignConcat(src, c.0, more);
      OneCommand(src, ops, c.0, c.1);
      CountsAdd(Foreign(src, c.0), Foreign(src, more));
    } else {
      ForeignBounds(src, out);
    }
  }

  lemma OneCommand(src: seq<byte>, ops: seq<byte>, out: seq<byte>, rest: seq<byte>)
    requires ops != [] && |rest| < |ops|
    requires ops[0] < 0x80 ==> |out| == ops[0] as int && ops[1..] == out + rest
    requires ops[0] >= 0x80 ==> exists off :: SliceAt(src, off, out)
    ensures |ops| - |rest| >= WithCounts(Foreign(src, out))
  {
    hide Foreign, WithCounts;
    ForeignBounds(src, out);
    CountsAdd(Foreign(src, out), |out|);
    if ops[0] >= 0x80 {
      var off :| SliceAt(src, off, out);
      assert forall b :: b in out ==> b in src;
    }
  }

  /** The bytes that any delta takes at least. */
  ghost function FewestBytes(src: seq<byte>, trg: seq<byte>): nat {
    |Headers(src, trg)| + WithCounts(Foreign(src, trg))
  }

  lemma FewestNeeded(src: seq<byte>, trg: seq<byte>, delta: seq<byte>)
    requires Headers(src, trg) <= delta && Apply(src, delta[|Headers(src, trg)|..]) == Some(trg)
    ensures |delta| >= FewestBytes(src, trg)
  {
    FewestCommands(src, delta[|Headers(src, trg)|..], trg);
    hide Headers, WithCounts, Foreign, Apply;
  }

  /** A target that has no byte in common with the source is offered nothing, and takes as much as literals do. */
  lemma NothingInCommon(index: DeltaIndex, trg: seq<byte>)
    requires forall b :: b in trg ==> b !in index.src
    ensures OffersNothing(index, trg) && FewestBytes(index.src, trg) == LiteralSize(index.src, trg, |trg|)
  {
    ForeignBounds(index.src, trg);
    hide Headers, Foreign;
    forall val: bv32, e, data | e in index.Bucket(val) && e.ptr <= |index.src| && RABIN_WINDOW <= data <= |trg|
      ensures Common(index.src, trg, e.ptr, data) < 4
    {
      if e.ptr < |index.src| && data < |trg| {
        assert trg[data] in trg && index.src[e.ptr] in index.src;
      }
    }
  }

  /** The headers and the first window of literals. */
  method Begin(t: Tables, out: array<byte>, src: seq<byte>, trg: seq<byte>)
    returns (outpos: nat, data: nat, val: bv32)
    requires t.Valid() && |src| < 0x1_0000_0000 && 0 < |trg| < 0x1_0000_0000 && out.Length >= MAX_OP_SIZE + 1
    modifies out
    ensures 0 < data <= RABIN_WINDOW && data <= |trg| && (data == |trg| || data == RABIN_WINDOW)
    ensures outpos == |Headers(src, trg)| + 1 + data && outpos <= 11 + data && val == Hash(t, trg[..data])
    ensures Writing(out, outpos, src, trg, Headers(src, trg), Headers(src, trg), trg[..data], data)
  {
    hide Emits;
    outpos := PutHeader(out, 0, |src|);
    outpos := PutHeader(out, outpos, |trg|);
    assert out[..outpos] == Headers(src, trg);
    outpos, data, val := FirstLiterals(t, out, outpos, trg, Headers(src, trg));
    NothingEmitted(src, trg, Headers(src, trg), data);
  }

  lemma NothingEmitted(src: seq<byte>, trg: seq<byte>, hdr: seq<byte>, data: nat)
    requires data <= |trg|
    ensures Emits(src, trg, hdr, hdr, trg[..data], data)
  {
    assert hdr[|hdr|..] == [] && trg[..0] == [];
  }

  /** The first window goes into the buffer as pending literals. */
  method FirstLiterals(t: Tables, out: array<byte>, outpos0: nat, trg: seq<byte>, ghost hdr: seq<byte>)
    returns (outpos: nat, data: nat, val: bv32)
    requires t.Valid() && trg != [] && outpos0 + 1 + RABIN_WINDOW <= out.Length && out[..outpos0] == hdr
    modifies out
    ensures 0 < data <= RABIN_WINDOW && data <= |trg| && (data == |trg| || data == RABIN_WINDOW)
    ensures outpos == outpos0 + 1 + data && val == Hash(t, trg[..data])
    ensures Holds(out[..outpos], hdr, trg[..data])
  {
    data, val := 0, 0;
    NoHash(t);
    assert trg[..0] == [];
    hide Roll;
    outpos := outpos0 + 1;
    ghost var slot := out[outpos0];
    assert out[..outpos] == hdr + [slot];
    hide Hash, Holds, Tables.Valid;
    while data < RABIN_WINDOW && data < |trg|
      invariant 0 <= data <= RABIN_WINDOW && data <= |trg| && val == Hash(t, trg[..data])
      invariant outpos == outpos0 + 1 + data && out[..outpos] == hdr + [slot] + trg[..data]
    {
      outpos := Put(out, outpos, trg[data]);
      HashNext(t, trg[..data], trg[data]);
      assert trg[..data + 1] == trg[..data] + [trg[data]];
      assert hdr + [slot] + trg[..data + 1] == hdr + [slot] + trg[..data] + [trg[data]];
      val := Roll(t, val, trg[data]);
      data := data + 1;
    }
    WindowHeld(out[..outpos], hdr, slot, trg[..data]);
  }

  lemma WindowHeld(buf: seq<byte>, hdr: seq<byte>, slot: byte, w: seq<byte>)
    requires buf == hdr + [slot] + w && w != []
    ensures Holds(buf, hdr, w)
  {}

  /** The lengths the buffer can have: one of those it grows through, or what the limit needs. */
  ghost predicate RoomKept(length: nat, maxSize: nat) {
    || (0 < maxSize <= LAST && length == maxSize + MAX_OP_SIZE + 1)
    || ((maxSize == 0 || length < maxSize) && exists k :: 0 <= k <= 30 && length == NthLength(k))
  }

  /** After a round: there is room for the next one, the limit is exceeded, or the buffer has become too small. */
  datatype Room = Enough | OverLimit | Overrun

  /**
   * Keep room for the next round. The buffer becomes smaller than what it holds exactly if nothing
   * limits it and it is within one round of the last length.
   */
  method MakeRoom(out0: array<byte>, outpos: nat, maxSize: nat) returns (out: array<byte>, room: Room)
    requires outpos <= out0.Length && RoomKept(out0.Length, maxSize)
    ensures outpos <= out.Length && out[..outpos] == out0[..outpos] && (out == out0 || fresh(out))
    ensures RoomKept(out.Length, maxSize)
    ensures room.Enough? ==> outpos + 7 <= out.Length
    ensures room.OverLimit? ==> maxSize != 0 && outpos > maxSize
    ensures room.Overrun? <==> Unlimited(maxSize) && outpos + MAX_OP_SIZE >= LAST
  {
    hide NthLength, Grown;
    out, room := out0, Enough;
    RoomBounds(out.Length, maxSize);
    if outpos + MAX_OP_SIZE >= out.Length {
      RoomGrows(out.Length, maxSize);
      var outsize := Grown(out.Length);
      if maxSize != 0 && outsize >= maxSize {
        outsize := maxSize + MAX_OP_SIZE + 1;
      }
      if maxSize != 0 && outpos > maxSize {
        return out, OverLimit;
      }
      if outsize < outpos {
        return out, Overrun;
      }
      out := Realloc(out, outpos, outsize);
    }
  }

  lemma RoomBounds(length: nat, maxSize: nat)
    requires RoomKept(length, maxSize)
    ensures Unlimited(maxSize) ==> length <= LAST
  {
    if exists k :: 0 <= k <= 30 && length == NthLength(k) {
      var k :| 0 <= k <= 30 && length == NthLength(k);
      hide NthLength;
      if k < 30 {
        GrowthMakesRoom(k);
      } else {
        LastGrowth();
      }
    }
  }

  lemma RoomGrows(length: nat, maxSize: nat)
    requires RoomKept(length, maxSize)
    ensures
      || (0 < maxSize <= LAST && length == maxSize + MAX_OP_SIZE + 1)
      || (length == LAST && Unlimited(maxSize) && Grown(length) == 208752608)
      || (length + MAX_OP_SIZE < Grown(length) <= LAST && (maxSize == 0 || length < maxSize) &&
          exists k :: 0 <= k <= 30 && Grown(length) == NthLength(k))
  {
    hide NthLength, Grown;
    if !(0 < maxSize <= LAST && length == maxSize + MAX_OP_SIZE + 1) {
      var k :| 0 <= k <= 30 && length == NthLength(k);
      LastGrowth();
      if k < 30 {
        GrowthMakesRoom(k);
      }
    }
  }

  /** The hash of the window moved on by one byte. */
  function Moved(t: Tables, trg: seq<byte>, data: nat, val: bv32): (r: bv32)
    requires t.Valid() && RABIN_WINDOW <= data < |trg| && val < 0x8000_0000
    ensures r < 0x8000_0000
  {
    Roll(t, Unroll(t, val, trg[data - RABIN_WINDOW]), trg[data])
  }

  /** Some entry with this hash agrees with the target for at least four bytes. */
  ghost predicate Offered(index: DeltaIndex, trg: seq<byte>, data: nat, val: bv32)
    requires index.Valid() && data <= |trg|
  {
    exists e :: e in index.Bucket(val) && e.val == val && Common(index.src, trg, e.ptr, data) >= 4
  }

  /** Some entry of the index stands at `p`. */
  ghost predicate EntryAt(index: DeltaIndex, p: nat) {
    exists val: bv32, e :: e in index.Bucket(val) && e.ptr == p
  }

  /** The first entry of the bucket has been tried if it has the hash. */
  ghost predicate FirstTried(index: DeltaIndex, trg: seq<byte>, data: nat, val: bv32, msize: nat)
    requires index.Valid() && data <= |trg|
  {
    var es := index.Bucket(val);
    es != [] && es[0].val == val ==> es[0] in es && msize >= Common(index.src, trg, es[0].ptr, data)
  }

  /** The search of one round, skipped while a long match is carried over. */
  method Search(t: Tables, index: DeltaIndex, trg: seq<byte>, data: nat, moff0: nat, msize0: nat, val0: bv32)
    returns (moff: nat, msize: nat, val: bv32)
    requires t.Valid() && index.Valid() && RABIN_WINDOW <= data < |trg| && val0 < 0x8000_0000
    requires Match(index.src, trg, data, moff0, msize0)
    ensures Match(index.src, trg, data, moff, msize) && msize >= msize0 && val < 0x8000_0000
    ensures index.Sorted() && msize0 < 4096 ==>
      msize >= 4096 || BestOf(index.src, trg, data, index.Bucket(val), val, msize)
    ensures OffersNothing(index, trg) && msize0 < 4 ==> msize < 4
    ensures msize == msize0 || EntryAt(index, moff)
    ensures msize0 < 4096 ==> FirstTried(index, trg, data, val, msize)
    ensures val == if msize0 < 4096 then Moved(t, trg, data, val0) else val0
  {
    moff, msize, val := moff0, msize0, val0;
    if msize < 4096 {
      val := Unroll(t, val, trg[data - RABIN_WINDOW]);
      val := Roll(t, val, trg[data]);
      moff, msize := FindMatch(index.src, trg, data, index.Bucket(val), val, moff, msize);
    }
  }

  /** What every round keeps. */
  ghost predicate Going(out: array<byte>, outpos: nat, inscnt: nat, src: seq<byte>, trg: seq<byte>, done: seq<byte>,
      pend: seq<byte>, data: nat, moff: nat, msize: nat, maxSize: nat)
    reads out
  {
    && Extending(out, outpos, src, trg, Headers(src, trg), done, pend, data, moff, msize)
    && inscnt == |pend| < 0x7f && outpos <= 12 + 2 * data
    && (data < |trg| ==> RABIN_WINDOW <= data)
    && RoomKept(out.Length, maxSize)
  }

  // ---- What a round finds -------------------------------------------------------------------

  /** Unless a long match is carried over, the hash in hand is that of the sixteen bytes before `data`. */
  ghost predicate Current(t: Tables, trg: seq<byte>, data: nat, msize: nat, val: bv32)
    requires t.Valid()
  {
    Matching(t) && msize < 4096 && RABIN_WINDOW <= data <= |trg| ==> val == Hash(t, trg[data - RABIN_WINDOW..data])
  }

  /** Every entry stands in the bucket of its hash, which is that of the sixteen bytes up to it. */
  ghost predicate HashedBy(t: Tables, index: DeltaIndex)
    requires t.Valid()
  {
    forall val: bv32, e :: e in index.Bucket(val) ==>
      && e in index.Bucket(e.val) && RABIN_WINDOW <= e.ptr < |index.src|
      && e.val == Hash(t, index.src[e.ptr - 15..e.ptr + 1])
  }

  /** The sixteen bytes up to some entry, and three more, agree with those around `data`. */
  ghost predicate WindowFound(index: DeltaIndex, trg: seq<byte>, data: nat) {
    exists val: bv32, e :: e in index.Bucket(val) && Agree(index.src, trg, e.ptr, data)
  }

  ghost predicate Agree(src: seq<byte>, trg: seq<byte>, p: nat, data: nat) {
    && 15 <= p && 15 <= data && p + 4 <= |src| && data + 4 <= |trg|
    && src[p - 15..p + 4] == trg[data - 15..data + 4]
  }

  /** A round that begins where a window is found copies at least four bytes. */
  ghost predicate Step(t: Tables, index: DeltaIndex, trg: seq<byte>, data0: nat, data: nat)
    requires t.Valid()
  {
    Matching(t) && HashedBy(t, index) && index.Sorted() && WindowFound(index, trg, data0) ==> data >= data0 + 4
  }

  lemma AgreeIsCommon(src: seq<byte>, trg: seq<byte>, p: nat, data: nat)
    requires Agree(src, trg, p, data)
    ensures Common(src, trg, p, data) >= 4
    ensures src[p - 15..p + 1] == trg[data - 15..data + 1]
  {
    var a, b := src[p - 15..p + 4], trg[data - 15..data + 4];
    assert src[p] == a[15] == b[15] == trg[data] && src[p + 1] == a[16] == b[16] == trg[data + 1];
    assert src[p + 2] == a[17] == b[17] == trg[data + 2] && src[p + 3] == a[18] == b[18] == trg[data + 3];
    assert Common(src, trg, p + 2, data + 2) >= 2;
    assert src[p - 15..p + 1] == src[p - 15..p + 4][..16] && trg[data - 15..data + 1] == trg[data - 15..data + 4][..16];
  }

  /** The window moved on by one byte has the hash it should have. */
  lemma MovedIsHash(t: Tables, trg: seq<byte>, data: nat, msize0: nat, val0: bv32)
    requires t.Valid() && Matching(t) && RABIN_WINDOW <= data < |trg| && msize0 < 4096 && val0 < 0x8000_0000
    requires Current(t, trg, data, msize0, val0)
    ensures Moved(t, trg, data, val0) == Hash(t, trg[data - 15..data + 1])
  {
    hide Hash, Roll, Unroll, Matching, Tables.Valid;
    var w := trg[data - RABIN_WINDOW..data];
    NextWindow(trg, data);
    WindowMoves(t, w, trg[data]);
  }

  lemma NextWindow(trg: seq<byte>, data: nat)
    requires RABIN_WINDOW <= data < |trg|
    ensures var w := trg[data - RABIN_WINDOW..data];
      |w| == RABIN_WINDOW && w[0] == trg[data - RABIN_WINDOW] && w[1..] + [trg[data]] == trg[data - 15..data + 1]
  {}

  lemma FoundIsOffered(t: Tables, index: DeltaIndex, trg: seq<byte>, data: nat, val: bv32)
    requires t.Valid() && index.Valid() && HashedBy(t, index) && 15 <= data < |trg| && WindowFound(index, trg, data)
    requires val == Hash(t, trg[data - 15..data + 1])
    ensures Offered(index, trg, data, val)
  {
    hide Hash, Common, DeltaIndex.Bucket, DeltaIndex.Valid, Tables.Valid;
    var v: bv32, e :| e in index.Bucket(v) && Agree(index.src, trg, e.ptr, data);
    AgreeIsCommon(index.src, trg, e.ptr, data);
  }

  lemma OfferedIsTaken(index: DeltaIndex, trg: seq<byte>, data: nat, val: bv32, msize: nat)
    requires index.Valid() && data <= |trg| && Offered(index, trg, data, val)
    requires msize >= 4096 || BestOf(index.src, trg, data, index.Bucket(val), val, msize)
    ensures msize >= 4
  {
    hide Common, DeltaIndex.Bucket;
  }

  /** Where a window is found the search finds at least four bytes. */
  lemma SearchFinds(t: Tables, index: DeltaIndex, trg: seq<byte>, data: nat, msize0: nat, val0: bv32, msize: nat,
      val: bv32)
    requires t.Valid() && index.Valid() && RABIN_WINDOW <= data < |trg| && val0 < 0x8000_0000 && msize >= msize0
    requires Current(t, trg, data, msize0, val0)
    requires index.Sorted() && msize0 < 4096 ==>
      msize >= 4096 || BestOf(index.src, trg, data, index.Bucket(val), val, msize)
    requires val == if msize0 < 4096 then Moved(t, trg, data, val0) else val0
    ensures msize < 4 ==> Step(t, index, trg, data, data + 1)
  {
    hide Hash, Moved, BestOf, Current, Offered, WindowFound, HashedBy, Matching, DeltaIndex.Bucket, DeltaIndex.Valid;
    if Matching(t) && HashedBy(t, index) && index.Sorted() && WindowFound(index, trg, data) && msize0 < 4096 {
      MovedIsHash(t, trg, data, msize0, val0);
      FoundIsOffered(t, index, trg, data, val);
      OfferedIsTaken(index, trg, data, val, msize);
    }
  }

  lemma WindowAfter(t: Tables, trg: seq<byte>, data: nat, msize0: nat, val0: bv32, val: bv32)
    requires t.Valid() && RABIN_WINDOW <= data < |trg| && val0 < 0x8000_0000 && msize0 < 4096
    requires Current(t, trg, data, msize0, val0) && val == Moved(t, trg, data, val0)
    ensures Current(t, trg, data + 1, 0, val)
  {
    hide Hash, Moved, Matching;
    if Matching(t) {
      MovedIsHash(t, trg, data, msize0, val0);
    }
  }

  lemma CopyMoves(t: Tables, index: DeltaIndex, trg: seq<byte>, data0: nat, data: nat, msize: nat, val: bv32)
    requires t.Valid() && data >= data0 + 4
    requires msize < 4096 && RABIN_WINDOW <= data <= |trg| ==> val == Hash(t, trg[data - RABIN_WINDOW..data])
    ensures Current(t, trg, data, msize, val) && Step(t, index, trg, data0, data)
  {
    hide Hash, Matching;
  }

  // ---- A target equal to the source ---------------------------------------------------------

  /** The target is the source, and the first entry of its bucket is that of the source's first block. */
  ghost predicate SelfIndexed(t: Tables, index: DeltaIndex, trg: seq<byte>)
    requires t.Valid()
  {
    && Matching(t) && HashedBy(t, index) && index.src == trg && |trg| >= 20
    && (var h := Hash(t, trg[1..17]);
        index.Bucket(h) != [] && index.Bucket(h)[0] == IndexEntry(RABIN_WINDOW, h))
  }

  /** The headers, and seven bytes for each 64KB of the target begun. */
  function SelfBound(src: seq<byte>): nat {
    |Headers(src, src)| + 7 * ((|src| + 0xFFFF) / 0x1_0000)
  }

  /**
   * All is copied so far, and the rest is the match in hand; or a rest of less than four bytes goes out
   * as literals.
   */
  ghost predicate Straight(hdr: nat, size: nat, outpos: nat, inscnt: nat, data: nat, msize: nat) {
    || (data <= size && inscnt == 0 && msize == size - data && (data == size || data % 0x1_0000 == 0)
        && outpos <= hdr + 7 * ((data + 0xFFFF) / 0x1_0000))
    || (var copied := size - size % 0x1_0000;
        && copied < data <= size < copied + 4 && inscnt == data - copied && msize == 0
        && outpos <= hdr + 7 * (copied / 0x1_0000) + 1 + inscnt)
  }

  ghost predicate OnSelf(t: Tables, index: DeltaIndex, trg: seq<byte>, outpos: nat, inscnt: nat, data: nat, msize: nat)
    requires t.Valid()
  {
    SelfIndexed(t, index, trg) ==>
      || (data == inscnt == RABIN_WINDOW && msize == 0 && outpos == |Headers(trg, trg)| + 17)
      || Straight(|Headers(trg, trg)|, |trg|, outpos, inscnt, data, msize)
  }

  lemma {:induction false} CommonSame(s: seq<byte>, p: nat)
    requires p <= |s|
    ensures Common(s, s, p, p) == |s| - p
    decreases |s| - p
  {
    if p < |s| {
      CommonSame(s, p + 1);
    }
  }

  /** The search finds all that is left. */
  lemma SelfFound(t: Tables, index: DeltaIndex, trg: seq<byte>, outpos0: nat, inscnt0: nat, data: nat, msize0: nat,
      val0: bv32, moff: nat, msize: nat, val: bv32)
    requires t.Valid() && index.Valid() && RABIN_WINDOW <= data < |trg| && val0 < 0x8000_0000
    requires Current(t, trg, data, msize0, val0) && OnSelf(t, index, trg, outpos0, inscnt0, data, msize0)
    requires Match(index.src, trg, data, moff, msize) && msize >= msize0
    requires msize == msize0 || EntryAt(index, moff)
    requires msize0 < 4096 ==> FirstTried(index, trg, data, val, msize)
    requires val == if msize0 < 4096 then Moved(t, trg, data, val0) else val0
    ensures SelfIndexed(t, index, trg) ==> Found(trg, inscnt0, data, msize0, moff, msize)
  {
    hide Hash, Moved, Current, Common, Headers, DeltaIndex.Bucket, Tables.Valid, SelfIndexed, Straight;
    if SelfIndexed(t, index, trg) {
      SelfLong(t, index, trg);
      assert moff + msize <= |trg| && data + msize <= |trg|;
      if data == inscnt0 == RABIN_WINDOW && msize0 == 0 {
        SelfFirst(t, index, trg, data, msize0, val0, moff, msize, val);
      } else {
        StraightLeft(|Headers(trg, trg)|, |trg|, outpos0, inscnt0, data, msize0);
      }
    }
  }

  lemma StraightLeft(hdr: nat, size: nat, outpos: nat, inscnt: nat, data: nat, msize: nat)
    requires Straight(hdr, size, outpos, inscnt, data, msize) && data < size
    ensures if inscnt == 0 then msize == size - data else size - data < 4
  {}

  /** The first search. */
  lemma SelfFirst(t: Tables, index: DeltaIndex, trg: seq<byte>, data: nat, msize0: nat, val0: bv32, moff: nat,
      msize: nat, val: bv32)
    requires t.Valid() && index.Valid() && val0 < 0x8000_0000 && SelfIndexed(t, index, trg)
    requires data == RABIN_WINDOW < |trg| && msize0 == 0 && Current(t, trg, data, msize0, val0)
    requires moff + msize <= |trg| && data + msize <= |trg| && (msize == msize0 || EntryAt(index, moff))
    requires FirstTried(index, trg, data, val, msize) && val == Moved(t, trg, data, val0)
    ensures moff == data && msize == |trg| - data
  {
    hide Hash, Moved, Current, Matching, Common, DeltaIndex.Bucket, Tables.Valid, DeltaIndex.Valid;
    MovedIsHash(t, trg, data, msize0, val0);
    assert data - 15 == 1 && data + 1 == 17;
    CommonSame(trg, data);
  }

  /** What the search has found on the way through a target equal to the source. */
  ghost predicate Found(trg: seq<byte>, inscnt: nat, data: nat, msize0: nat, moff: nat, msize: nat) {
    if data == inscnt == RABIN_WINDOW && msize0 == 0 then moff == data && msize == |trg| - data
    else if inscnt == 0 then msize == |trg| - data
    else data <= |trg| && msize <= |trg| - data < 4
  }

  lemma SelfLiteral(t: Tables, index: DeltaIndex, trg: seq<byte>, outpos0: nat, inscnt0: nat, data0: nat, msize0: nat,
      msize: nat, outpos: nat, inscnt: nat)
    requires t.Valid() && OnSelf(t, index, trg, outpos0, inscnt0, data0, msize0) && data0 < |trg| && msize < 4
    requires SelfIndexed(t, index, trg) ==> exists moff :: Found(trg, inscnt0, data0, msize0, moff, msize)
    requires inscnt0 < 0x7f && inscnt == (inscnt0 + 1) % 0x7f && outpos == outpos0 + if inscnt0 == 0 then 2 else 1
    ensures OnSelf(t, index, trg, outpos, inscnt, data0 + 1, 0)
  {
    hide Headers, SelfIndexed, Straight;
    if SelfIndexed(t, index, trg) {
      SelfLong(t, index, trg);
      StraightLiteral(|Headers(trg, trg)|, |trg|, outpos0, inscnt0, data0, msize0, msize, outpos, inscnt);
    }
  }

  lemma SelfLong(t: Tables, index: DeltaIndex, trg: seq<byte>)
    requires t.Valid() && SelfIndexed(t, index, trg)
    ensures |trg| >= 20 && index.src == trg
  {
    hide Hash, Matching, HashedBy;
  }

  lemma StraightLiteral(hdr: nat, size: nat, outpos0: nat, inscnt0: nat, data0: nat, msize0: nat, msize: nat,
      outpos: nat, inscnt: nat)
    requires data0 < size && size >= 20 && msize < 4
    requires !(data0 == inscnt0 == RABIN_WINDOW && msize0 == 0) || msize == size - data0
    requires inscnt0 == 0 ==> msize == size - data0
    requires inscnt0 != 0 && !(data0 == inscnt0 == RABIN_WINDOW && msize0 == 0) ==> size - data0 < 4
    requires (data0 == inscnt0 == RABIN_WINDOW && msize0 == 0) || Straight(hdr, size, outpos0, inscnt0, data0, msize0)
    requires inscnt == (inscnt0 + 1) % 0x7f && outpos == outpos0 + if inscnt0 == 0 then 2 else 1
    ensures Straight(hdr, size, outpos, inscnt, data0 + 1, 0)
  {
    if inscnt0 == 0 {
      LastBlock(size, data0);
    }
  }

  /** A multiple of 64KB less than four bytes before the end is the last one. */
  lemma LastBlock(size: nat, data: nat)
    requires data < size < data + 4 && data % 0x1_0000 == 0
    ensures data == size - size % 0x1_0000 && (data + 0xFFFF) / 0x1_0000 == data / 0x1_0000
  {}

  lemma SelfCopy(t: Tables, index: DeltaIndex, trg: seq<byte>, outpos0: nat, inscnt0: nat, data0: nat, msize0: nat,
      moff1: nat, msize1: nat, outpos: nat, data: nat, moff: nat, msize: nat, back: nat)
    requires t.Valid() && OnSelf(t, index, trg, outpos0, inscnt0, data0, msize0) && data0 < |trg| && msize1 >= 4
    requires SelfIndexed(t, index, trg) ==> Found(trg, inscnt0, data0, msize0, moff1, msize1)
    requires Copied(index.src, trg, inscnt0, data0, moff1, msize1, outpos0, outpos, data, moff, msize, back)
    ensures OnSelf(t, index, trg, outpos, 0, data, msize)
  {
    hide Headers, SelfIndexed, Straight;
    if SelfIndexed(t, index, trg) {
      SelfLong(t, index, trg);
      StraightCopy(|Headers(trg, trg)|, |trg|, outpos0, inscnt0, data0, msize0, msize1, outpos, data, msize, back);
    }
  }

  lemma StraightCopy(hdr: nat, size: nat, outpos0: nat, inscnt0: nat, data0: nat, msize0: nat, msize1: nat, outpos: nat,
      data: nat, msize: nat, back: nat)
    requires data0 < size && size >= 20 && msize1 >= 4 && back <= data0
    requires (data0 == inscnt0 == RABIN_WINDOW && msize0 == 0 && outpos0 == hdr + 17 && back == RABIN_WINDOW)
      || (Straight(hdr, size, outpos0, inscnt0, data0, msize0) && (inscnt0 == 0 ==> back == 0))
    requires inscnt0 == 0 || (data0 == inscnt0 == RABIN_WINDOW && msize0 == 0) ==> msize1 == size - data0
    requires inscnt0 != 0 && !(data0 == inscnt0 == RABIN_WINDOW && msize0 == 0) ==> msize1 < 4
    requires var cut := if msize1 + back < 0x1_0000 then msize1 + back else 0x1_0000;
      data + back == data0 + cut && msize + cut == msize1 + back
    requires outpos <= outpos0 + 7 - if 0 < back == inscnt0 then back + 1 else back
    ensures Straight(hdr, size, outpos, 0, data, msize)
  {
    if inscnt0 == 0 {
      OneMoreBlock(data0, data);
    }
  }

  lemma OneMoreBlock(data0: nat, data: nat)
    requires data0 % 0x1_0000 == 0 && data0 < data <= data0 + 0x1_0000
    ensures (data + 0xFFFF) / 0x1_0000 == (data0 + 0xFFFF) / 0x1_0000 + 1
    ensures data == data0 + 0x1_0000 ==> data % 0x1_0000 == 0
  {}

  lemma StraightEnds(hdr: nat, size: nat, outpos: nat, inscnt: nat, data: nat, msize: nat)
    requires Straight(hdr, size, outpos, inscnt, data, msize)
    ensures outpos <= hdr + 7 * ((size + 0xFFFF) / 0x1_0000)
  {
    assert (data + 0xFFFF) / 0x1_0000 <= (size + 0xFFFF) / 0x1_0000 || data > size;
    assert size % 0x1_0000 > 0 ==> (size + 0xFFFF) / 0x1_0000 == (size - size % 0x1_0000) / 0x1_0000 + 1;
  }

  /** One round of the main loop, up to the check of the room left. */
  method Round(t: Tables, index: DeltaIndex, trg: seq<byte>, out: array<byte>, outpos0: nat, inscnt0: nat,
      ghost done0: seq<byte>, ghost pend0: seq<byte>, data0: nat, moff0: nat, msize0: nat, val0: bv32,
      ghost maxSize: nat)
    returns (outpos: nat, inscnt: nat, ghost done: seq<byte>, ghost pend: seq<byte>, data: nat, moff: nat, msize: nat,
        val: bv32)
    requires t.Valid() && index.Valid() && data0 < |trg| && val0 < 0x8000_0000 && outpos0 + 7 <= out.Length
    requires Going(out, outpos0, inscnt0, index.src, trg, done0, pend0, data0, moff0, msize0, maxSize)
    requires Current(t, trg, data0, msize0, val0) && OnSelf(t, index, trg, outpos0, inscnt0, data0, msize0)
    modifies out
    ensures Going(out, outpos, inscnt, index.src, trg, done, pend, data, moff, msize, maxSize)
    ensures (data == data0 + 1 || data >= data0 + 4) && val < 0x8000_0000
    ensures Current(t, trg, data, msize, val) && OnSelf(t, index, trg, outpos, inscnt, data, msize)
    ensures Step(t, index, trg, data0, data)
    ensures OffersNothing(index, trg) && msize0 == 0 ==>
      data == data0 + 1 && msize == 0 && inscnt == (inscnt0 + 1) % 0x7f
    ensures OffersNothing(index, trg) && msize0 == 0 ==> outpos == outpos0 + if inscnt0 == 0 then 2 else 1
    ensures msize0 >= 4 ==> data >= data0 + 4
  {
    hide *;
    SourceFits(index);
    GoingOn(out, outpos0, inscnt0, index.src, trg, done0, pend0, data0, moff0, msize0, maxSize);
    moff, msize, val := Search(t, index, trg, data0, moff0, msize0, val0);
    SearchFinds(t, index, trg, data0, msize0, val0, msize, val);
    SelfFound(t, index, trg, outpos0, inscnt0, data0, msize0, val0, moff, msize, val);
    StillGoing(out, outpos0, inscnt0, index.src, trg, done0, pend0, data0, moff0, msize0, moff, msize, maxSize);
    if msize < 4 {
      outpos, inscnt, done, pend :=
        Literal(out, outpos0, inscnt0, index.src, trg, done0, pend0, data0, moff, msize, maxSize);
      SelfLiteral(t, index, trg, outpos0, inscnt0, data0, msize0, msize, outpos, inscnt);
      data, msize := data0 + 1, 0;
      WindowAfter(t, trg, data0, msize0, val0, val);
    } else {
      ghost var back;
      ghost var moff1, msize1 := moff, msize;
      outpos, data, moff, msize, done, back :=
        Copy(out, outpos0, inscnt0, index.src, trg, done0, pend0, data0, moff, msize, maxSize);
      SelfCopy(t, index, trg, outpos0, inscnt0, data0, msize0, moff1, msize1, outpos, data, moff, msize, back);
      inscnt, pend := 0, [];
      if msize < 4096 {
        val := RollWindow(t, trg, data);
      }
      CopyMoves(t, index, trg, data0, data, msize, val);
    }
  }

  lemma SourceFits(index: DeltaIndex)
    requires index.Valid()
    ensures |index.src| < 0x1_0000_0000
  {}

  lemma GoingOn(out: array<byte>, outpos: nat, inscnt: nat, src: seq<byte>, trg: seq<byte>, done: seq<byte>,
      pend: seq<byte>, data: nat, moff: nat, msize: nat, maxSize: nat)
    requires Going(out, outpos, inscnt, src, trg, done, pend, data, moff, msize, maxSize) && data < |trg|
    ensures Match(src, trg, data, moff, msize) && RABIN_WINDOW <= data && inscnt < 0x7f
  {
    hide Writing, Match;
  }

  lemma StillGoing(out: array<byte>, outpos: nat, inscnt: nat, src: seq<byte>, trg: seq<byte>, done: seq<byte>,
      pend: seq<byte>, data: nat, moff0: nat, msize0: nat, moff: nat, msize: nat, maxSize: nat)
    requires Going(out, outpos, inscnt, src, trg, done, pend, data, moff0, msize0, maxSize)
    requires Match(src, trg, data, moff, msize)
    ensures Going(out, outpos, inscnt, src, trg, done, pend, data, moff, msize, maxSize)
  {
    hide Writing, Match;
  }

  method Literal(out: array<byte>, outpos0: nat, inscnt0: nat, src: seq<byte>, trg: seq<byte>, ghost done0: seq<byte>,
      ghost pend0: seq<byte>, data: nat, ghost moff: nat, ghost msize: nat, ghost maxSize: nat)
    returns (outpos: nat, inscnt: nat, ghost done: seq<byte>, ghost pend: seq<byte>)
    requires Going(out, outpos0, inscnt0, src, trg, done0, pend0, data, moff, msize, maxSize)
    requires data < |trg| && outpos0 + 7 <= out.Length
    modifies out
    ensures Going(out, outpos, inscnt, src, trg, done, pend, data + 1, moff, 0, maxSize)
    ensures inscnt == (inscnt0 + 1) % 0x7f && outpos == outpos0 + if inscnt0 == 0 then 2 else 1
  {
    outpos, inscnt, done, pend := LiteralRound(out, outpos0, inscnt0, src, trg, Headers(src, trg), done0, pend0, data);
  }

  method Copy(out: array<byte>, outpos0: nat, inscnt0: nat, src: seq<byte>, trg: seq<byte>, ghost done0: seq<byte>,
      ghost pend0: seq<byte>, data0: nat, moff0: nat, msize0: nat, ghost maxSize: nat)
    returns (outpos: nat, data: nat, moff: nat, msize: nat, ghost done: seq<byte>, ghost back: nat)
    requires Going(out, outpos0, inscnt0, src, trg, done0, pend0, data0, moff0, msize0, maxSize)
    requires data0 < |trg| && outpos0 + 7 <= out.Length && msize0 >= 4 && |src| < 0x1_0000_0000
    modifies out
    ensures Going(out, outpos, 0, src, trg, done, [], data, moff, msize, maxSize)
    ensures data0 + 4 <= data <= |trg|
    ensures Copied(src, trg, inscnt0, data0, moff0, msize0, outpos0, outpos, data, moff, msize, back)
  {
    outpos, data, moff, msize, done, back :=
      CopyRound(out, outpos0, inscnt0, src, trg, Headers(src, trg), done0, pend0, data0, moff0, msize0);
  }

  /** The buffer as first allocated. */
  method FirstBuffer(maxSize: nat) returns (out: array<byte>)
    ensures fresh(out) && RoomKept(out.Length, maxSize) && out.Length >= MAX_OP_SIZE + 1
  {
    assert NthLength(0) == 8192;
    var outsize := 8192;
    if maxSize != 0 && outsize >= maxSize {
      outsize := maxSize + MAX_OP_SIZE + 1;
    }
    out := new byte[outsize](_ => 0);
  }

  /** How many bytes the headers and `n` bytes of nothing but literals take, a count for every 127 of them. */
  function LiteralSize(src: seq<byte>, trg: seq<byte>, n: nat): nat {
    |Headers(src, trg)| + n + (n + 0x7e) / 0x7f
  }

  lemma LiteralSizeNext(src: seq<byte>, trg: seq<byte>, n: nat)
    ensures (n + 1) % 0x7f == (n % 0x7f + 1) % 0x7f
    ensures LiteralSize(src, trg, n + 1) == LiteralSize(src, trg, n) + if n % 0x7f == 0 then 2 else 1
  {}

  lemma LiteralSizeGrows(src: seq<byte>, trg: seq<byte>, n: nat)
    requires n <= |trg|
    ensures LiteralSize(src, trg, n) <= LiteralSize(src, trg, |trg|)
  {}

  /** With an index that offers nothing, only literals are written. */
  ghost predicate OnlyLiterals(index: DeltaIndex, trg: seq<byte>, outpos: nat, inscnt: nat, data: nat, msize: nat) {
    OffersNothing(index, trg) ==>
      msize == 0 && inscnt == data % 0x7f && outpos == LiteralSize(index.src, trg, data)
  }

  /** The main loop: until the target is used up, the delta has outgrown its limit, or the buffer is too small. */
  method MainLoop(t: Tables, index: DeltaIndex, trg: seq<byte>, out0: array<byte>, outpos0: nat, data0: nat, val0: bv32,
      maxSize: nat, ghost done0: seq<byte>)
    returns (out: array<byte>, outpos: nat, inscnt: nat, ghost done: seq<byte>, ghost pend: seq<byte>, data: nat,
        room: Room, ghost places: seq<nat>)
    requires t.Valid() && index.Valid() && data0 <= |trg| && val0 < 0x8000_0000
    requires Going(out0, outpos0, data0, index.src, trg, done0, trg[..data0], data0, 0, 0, maxSize)
    requires Current(t, trg, data0, 0, val0) && OnSelf(t, index, trg, outpos0, data0, data0, 0)
    requires (data0 == |trg| || data0 == RABIN_WINDOW) && outpos0 + 7 <= out0.Length && outpos0 + MAX_OP_SIZE < LAST
    requires OnlyLiterals(index, trg, outpos0, data0, data0, 0)
    modifies out0
    ensures outpos <= out.Length && Writing(out, outpos, index.src, trg, Headers(index.src, trg), done, pend, data)
    ensures (out == out0 || fresh(out)) && inscnt == |pend| < 0x7f
    ensures room.Overrun? || data == |trg| || (maxSize != 0 && outpos > maxSize)
    ensures room.Overrun? <==> Unlimited(maxSize) && outpos + MAX_OP_SIZE >= LAST
    ensures outpos <= 12 + 2 * |trg|
    ensures OffersNothing(index, trg) ==> outpos <= LiteralSize(index.src, trg, |trg|)
    ensures OffersNothing(index, trg) && data == |trg| ==> outpos == LiteralSize(index.src, trg, |trg|)
    ensures Rounds(t, index, trg, data0, places, data)
    ensures SelfIndexed(t, index, trg) ==> outpos <= SelfBound(trg)
  {
    hide *;
    var val, moff: nat, msize: nat := val0, 0, 0;
    room, places := Enough, [data0];
    out, outpos, inscnt, data, done, pend := out0, outpos0, data0, data0, done0, trg[..data0];
    RoundsStart(t, index, trg, data0);
    while data < |trg| && room.Enough?
      invariant (out == out0 || fresh(out)) && val < 0x8000_0000 && (data > data0 || (data == data0 && room.Enough?))
      invariant Going(out, outpos, inscnt, index.src, trg, done, pend, data, moff, msize, maxSize)
      invariant room.Enough? ==> outpos + 7 <= out.Length
      invariant room.OverLimit? ==> maxSize != 0 && outpos > maxSize
      invariant room.Overrun? <==> Unlimited(maxSize) && outpos + MAX_OP_SIZE >= LAST
      invariant OnlyLiterals(index, trg, outpos, inscnt, data, msize)
      invariant Current(t, trg, data, msize, val) && OnSelf(t, index, trg, outpos, inscnt, data, msize)
      invariant Rounds(t, index, trg, data0, places, data)
      decreases |trg| - data
    {
      ghost var at, was, pending, carried := data, outpos, inscnt, msize;
      outpos, inscnt, done, pend, data, moff, msize, val :=
        Round(t, index, trg, out, outpos, inscnt, done, pend, data, moff, msize, val, maxSize);
      RoundsOn(t, index, trg, data0, places, at, data);
      places := places + [data];
      LiteralsOn(index, trg, was, pending, at, carried, outpos, inscnt, data, msize);
      GoingFits(out, outpos, inscnt, index.src, trg, done, pend, data, moff, msize, maxSize);
      ghost var before := out;
      out, room := MakeRoom(out, outpos, maxSize);
      GoingMoves(before, out, outpos, inscnt, index.src, trg, done, pend, data, moff, msize, maxSize);
    }
    GoingFits(out, outpos, inscnt, index.src, trg, done, pend, data, moff, msize, maxSize);
    LiteralsEnd(index, trg, outpos, inscnt, data, msize);
    SelfEnds(t, index, trg, outpos, inscnt, data0, data, msize);
  }

  lemma GoingFits(out: array<byte>, outpos: nat, inscnt: nat, src: seq<byte>, trg: seq<byte>, done: seq<byte>,
      pend: seq<byte>, data: nat, moff: nat, msize: nat, maxSize: nat)
    requires Going(out, outpos, inscnt, src, trg, done, pend, data, moff, msize, maxSize)
    ensures outpos <= out.Length && RoomKept(out.Length, maxSize) && data <= |trg| && inscnt == |pend| < 0x7f
    ensures outpos <= 12 + 2 * data && Writing(out, outpos, src, trg, Headers(src, trg), done, pend, data)
  {
    hide RoomKept, Apply, Holds;
  }

  /** The same in a buffer with the same beginning. */
  lemma GoingMoves(out0: array<byte>, out: array<byte>, outpos: nat, inscnt: nat, src: seq<byte>, trg: seq<byte>,
      done: seq<byte>, pend: seq<byte>, data: nat, moff: nat, msize: nat, maxSize: nat)
    requires Going(out0, outpos, inscnt, src, trg, done, pend, data, moff, msize, maxSize)
    requires outpos <= out0.Length && outpos <= out.Length && out[..outpos] == out0[..outpos]
    requires RoomKept(out.Length, maxSize)
    ensures Going(out, outpos, inscnt, src, trg, done, pend, data, moff, msize, maxSize)
  {
    hide RoomKept, Emits, Holds, Match;
  }

  lemma LiteralsOn(index: DeltaIndex, trg: seq<byte>, outpos0: nat, inscnt0: nat, data0: nat, msize0: nat, outpos: nat,
      inscnt: nat, data: nat, msize: nat)
    requires OnlyLiterals(index, trg, outpos0, inscnt0, data0, msize0)
    requires OffersNothing(index, trg) && msize0 == 0 ==>
      data == data0 + 1 && msize == 0 && inscnt == (inscnt0 + 1) % 0x7f
    requires OffersNothing(index, trg) && msize0 == 0 ==> outpos == outpos0 + if inscnt0 == 0 then 2 else 1
    ensures OnlyLiterals(index, trg, outpos, inscnt, data, msize)
  {
    hide OffersNothing, LiteralSize;
    LiteralSizeNext(index.src, trg, data0);
  }

  lemma LiteralsEnd(index: DeltaIndex, trg: seq<byte>, outpos: nat, inscnt: nat, data: nat, msize: nat)
    requires OnlyLiterals(index, trg, outpos, inscnt, data, msize) && data <= |trg|
    ensures OffersNothing(index, trg) ==> outpos <= LiteralSize(index.src, trg, |trg|)
    ensures OffersNothing(index, trg) && data == |trg| ==> outpos == LiteralSize(index.src, trg, |trg|)
  {
    hide OffersNothing, LiteralSize;
    LiteralSizeGrows(index.src, trg, data);
  }

  lemma SelfEnds(t: Tables, index: DeltaIndex, trg: seq<byte>, outpos: nat, inscnt: nat, data0: nat, data: nat,
      msize: nat)
    requires t.Valid() && OnSelf(t, index, trg, outpos, inscnt, data, msize) && data <= |trg|
    requires (data0 == |trg| || data0 == RABIN_WINDOW) && (data > data0 || data == |trg|)
    ensures SelfIndexed(t, index, trg) ==> outpos <= SelfBound(trg)
  {
    hide SelfIndexed, Headers, Straight;
    if SelfIndexed(t, index, trg) {
      SelfLong(t, index, trg);
      StraightEnds(|Headers(trg, trg)|, |trg|, outpos, inscnt, data, msize);
    }
  }

  /** The places in the target where the rounds begin, from the first to where the last one ends. */
  ghost predicate Rounds(t: Tables, index: DeltaIndex, trg: seq<byte>, first: nat, places: seq<nat>, last: nat)
    requires t.Valid()
  {
    && places != [] && places[0] == first && places[|places| - 1] == last
    && forall k :: 0 <= k < |places| - 1 ==> OneRound(t, index, trg, places[k], places[k + 1])
  }

  /** A round passes one byte as a literal, or copies at least four; it copies where a window is found. */
  ghost predicate OneRound(t: Tables, index: DeltaIndex, trg: seq<byte>, data0: nat, data: nat)
    requires t.Valid()
  {
    data0 < |trg| && (data == data0 + 1 || data >= data0 + 4) && Step(t, index, trg, data0, data)
  }

  lemma RoundsStart(t: Tables, index: DeltaIndex, trg: seq<byte>, first: nat)
    requires t.Valid()
    ensures Rounds(t, index, trg, first, [first], first)
  {}

  lemma RoundsOn(t: Tables, index: DeltaIndex, trg: seq<byte>, first: nat, places: seq<nat>, data0: nat, data: nat)
    requires t.Valid() && Rounds(t, index, trg, first, places, data0)
    requires data0 < |trg| && (data == data0 + 1 || data >= data0 + 4) && Step(t, index, trg, data0, data)
    ensures Rounds(t, index, trg, first, places + [data], data)
  {
    hide Step;
    var more := places + [data];
    forall k | 0 <= k < |more| - 1 ensures OneRound(t, index, trg, more[k], more[k + 1]) {
      if k < |places| - 1 {
        assert more[k] == places[k] && more[k + 1] == places[k + 1];
      }
    }
  }

  /** The first window as literals is what the main loop begins with. */
  lemma FirstWindow(out: array<byte>, outpos: nat, index: DeltaIndex, trg: seq<byte>, data: nat, maxSize: nat)
    requires 0 < data <= RABIN_WINDOW && data <= |trg| && (data == |trg| || data == RABIN_WINDOW)
    requires outpos == |Headers(index.src, trg)| + 1 + data && outpos <= 11 + data && RoomKept(out.Length, maxSize)
    requires Writing(out, outpos, index.src, trg, Headers(index.src, trg), Headers(index.src, trg), trg[..data], data)
    ensures Going(out, outpos, data, index.src, trg, Headers(index.src, trg), trg[..data], data, 0, 0, maxSize)
    ensures OnlyLiterals(index, trg, outpos, data, data, 0)
  {
    hide Emits, Holds, Headers, OffersNothing, RoomKept;
  }

  /**
   * create_delta: whenever it returns a delta, patching the source with it gives the target, and the
   * delta respects the limit. For a target that is not empty it returns one if there is no limit, or
   * if the limit leaves room for two bytes for each of the target's. It overruns its buffer only if
   * nothing limits the buffer and the target is large enough, and it does if the bytes of the target
   * that the source does not have are many enough; if the index offers nothing, exactly if the literals
   * reach the last length; and no delta that long is ever returned.
   */
  method CreateDelta(t: Tables, index: DeltaIndex, trg: seq<byte>, maxSize: nat)
    returns (delta: Option<seq<byte>>, overrun: bool, ghost places: seq<nat>)
    requires t.Valid() && index.Valid() && |trg| < 0x1_0000_0000
    ensures delta.Some? ==> PatchDelta(index.src, delta.value) == Some(trg)
    ensures delta.Some? && maxSize != 0 ==> |delta.value| <= maxSize
    ensures delta.Some? ==> |delta.value| <= 12 + 2 * |trg|
    ensures maxSize == 0 || maxSize >= 12 + 2 * |trg| ==> (delta.Some? <==> trg != [] && !overrun)
    ensures overrun ==> delta.None? && !SizesFit(|trg|, maxSize)
    ensures delta.Some? && Unlimited(maxSize) ==> |delta.value| + MAX_OP_SIZE < LAST
    ensures trg != [] && Unlimited(maxSize) && FewestBytes(index.src, trg) + MAX_OP_SIZE >= LAST ==> overrun
    ensures OffersNothing(index, trg) && trg != [] ==>
      (overrun <==> Unlimited(maxSize) && LiteralSize(index.src, trg, |trg|) + MAX_OP_SIZE >= LAST)
    ensures delta.Some? ==> Covered(t, index, trg, places)
    ensures SelfIndexed(t, index, trg) ==> !overrun && (maxSize == 0 || maxSize >= SelfBound(trg) ==> delta.Some?)
    ensures SelfIndexed(t, index, trg) && delta.Some? ==> |delta.value| <= SelfBound(trg)
  {
    hide DeltaIndex.Valid, OffersNothing, FewestBytes, RoomKept, Tables.Valid, NthLength, Apply, PatchDelta;
    hide Emits, Holds, LiteralSize, Headers, EncodeSize, OnlyLiterals, Writing, OnSelf, SelfIndexed, Current, Rounds;
    hide Going, Covered, SelfBound, Hash, Matching, HashedBy, Step, OneRound, DeltaIndex.Sorted;
    SourceFits(index);
    places := [];
    if trg == [] {
      NotSelf(t, index);
      return None, false, [];
    }
    var out := FirstBuffer(maxSize);
    var outpos: nat, data: nat, val: bv32 := Begin(t, out, index.src, trg);
    FirstWindow(out, outpos, index, trg, data, maxSize);
    FirstCurrent(t, index, trg, outpos, data, val);
    ghost var first := data;
    var inscnt, room;
    ghost var done, pend;
    out, outpos, inscnt, done, pend, data, room, places :=
      MainLoop(t, index, trg, out, outpos, data, val, maxSize, Headers(index.src, trg));
    SelfIsShort(t, index, trg);
    if room.Overrun? {
      return None, true, places;
    }
    AllCovered(t, index, trg, first, places, data);
    overrun := false;
    delta := Finish(out, outpos, inscnt, index.src, trg, done, pend, data, maxSize);
  }

  lemma NotSelf(t: Tables, index: DeltaIndex)
    requires t.Valid()
    ensures !SelfIndexed(t, index, [])
  {}

  lemma FirstCurrent(t: Tables, index: DeltaIndex, trg: seq<byte>, outpos: nat, data: nat, val: bv32)
    requires t.Valid() && 0 < data <= RABIN_WINDOW && data <= |trg| && (data == |trg| || data == RABIN_WINDOW)
    requires outpos == |Headers(index.src, trg)| + 1 + data && val == Hash(t, trg[..data])
    ensures Current(t, trg, data, 0, val) && OnSelf(t, index, trg, outpos, data, data, 0)
  {
    hide Hash, Matching, Headers;
    assert trg[..data] == trg[0..data];
  }

  /** A delta for the source itself is never long. */
  lemma SelfIsShort(t: Tables, index: DeltaIndex, trg: seq<byte>)
    requires t.Valid() && |trg| < 0x1_0000_0000
    ensures SelfBound(trg) + MAX_OP_SIZE < LAST
  {
    hide EncodeSize;
    SizeLength(|trg|);
  }

  /** The rounds leave nothing out: each byte of the target is passed by one of them, from the first window on. */
  ghost predicate Covered(t: Tables, index: DeltaIndex, trg: seq<byte>, places: seq<nat>)
    requires t.Valid()
  {
    Rounds(t, index, trg, if |trg| < RABIN_WINDOW then |trg| else RABIN_WINDOW, places, |trg|)
  }

  lemma AllCovered(t: Tables, index: DeltaIndex, trg: seq<byte>, first: nat, places: seq<nat>, data: nat)
    requires t.Valid() && Rounds(t, index, trg, first, places, data)
    requires first <= RABIN_WINDOW && first <= |trg| && (first == |trg| || first == RABIN_WINDOW)
    ensures data == |trg| ==> Covered(t, index, trg, places)
  {
    hide Rounds;
  }

  /** Fill in the last count; a delta over the limit is dropped. */
  method Finish(out: array<byte>, outpos: nat, inscnt: nat, src: seq<byte>, trg: seq<byte>, ghost done0: seq<byte>,
      ghost pend: seq<byte>, data: nat, maxSize: nat)
    returns (delta: Option<seq<byte>>)
    requires outpos <= out.Length && Writing(out, outpos, src, trg, Headers(src, trg), done0, pend, data)
    requires inscnt == |pend| < 0x7f && trg != [] && (data == |trg| || (maxSize != 0 && outpos > maxSize))
    modifies out
    ensures delta.Some? <==> maxSize == 0 || outpos <= maxSize
    ensures delta.Some? ==> PatchDelta(src, delta.value) == Some(trg) && |delta.value| == outpos
    ensures delta.Some? ==> outpos >= FewestBytes(src, trg)
  {
    hide Apply, PatchDelta, FewestBytes;
    ghost var done := done0;
    if inscnt != 0 {
      done := FlushCount(out, outpos, inscnt, src, trg, Headers(src, trg), done, pend, data);
    }
    if maxSize != 0 && outpos > maxSize {
      return None;
    }
    assert trg[..|trg|] == trg;
    EmitsAllPatches(src, trg, out[..outpos]);
    FewestNeeded(src, trg, out[..outpos]);
    delta := Some(out[..outpos]);
  }
}
