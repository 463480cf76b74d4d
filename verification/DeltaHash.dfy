/** The rolling hash of diff-delta.c over windows of sixteen bytes. */
module DeltaHash {
  import opened DeltaFormat

  const RABIN_WINDOW: nat := 16

  /** The two tables: `T` cancels the bits shifted out, `U` removes the byte leaving the window. */
  datatype Tables = Tables(T: bv32 -> bv32, U: bv32 -> bv32) {
    ghost predicate Valid() {
      && (forall i: bv32 :: i < 256 ==> T(i) >> 31 == i & 1)
      && (forall i: bv32 :: i < 256 ==> U(i) < 0x8000_0000)
    }

    /** An access to the table `T`, which has 256 entries. */
    function LookT(i: bv32): bv32
      requires i < 256
    {
      T(i)
    }

    /** An access to the table `U`, which has 256 entries. */
    function LookU(i: bv32): bv32
      requires i < 256
    {
      U(i)
    }
  }

  function Wide(c: byte): (r: bv32)
    ensures r < 256
  {
    c as bv32 & 0xff
  }

  lemma RollStays(v: bv32, c: bv32, t: bv32)
    requires v < 0x8000_0000 && c < 256 && t >> 31 == (v >> 23) & 1
    ensures v >> 23 < 256 && ((v << 8) | c) ^ t < 0x8000_0000
  {}

  /** Shift one byte into the hash. The value stays below 2^31, so the table access is in range. */
  function Roll(t: Tables, v: bv32, c: byte): (r: bv32)
    requires t.Valid() && v < 0x8000_0000
    ensures r < 0x8000_0000
  {
    assert v >> 23 < 256;
    RollStays(v, Wide(c), t.LookT(v >> 23));
    ((v << 8) | Wide(c)) ^ t.LookT(v >> 23)
  }

  /** Take the byte leaving the window out of the hash. */
  function Unroll(t: Tables, v: bv32, c: byte): (r: bv32)
    requires t.Valid() && v < 0x8000_0000
    ensures r < 0x8000_0000
  {
    v ^ t.LookU(Wide(c))
  }

  // ---- What the hash is of ------------------------------------------------------------------

  /** The hash of a text, byte by byte. */
  ghost function Hash(t: Tables, w: seq<byte>): (v: bv32)
    requires t.Valid()
    ensures v < 0x8000_0000
  {
    if w == [] then 0 else Roll(t, Hash(t, w[..|w| - 1]), w[|w| - 1])
  }

  lemma HashNext(t: Tables, w: seq<byte>, b: byte)
    requires t.Valid()
    ensures Hash(t, w + [b]) == Roll(t, Hash(t, w), b)
  {
    assert (w + [b])[..|w|] == w;
  }

  function Zeros(n: nat): seq<byte> {
    seq(n, _ => 0)
  }

  /** Addition bit by bit. */
  function Sum(a: bv32, b: bv32): bv32 {
    a ^ b
  }

  /**
   * What the tables are made for: `T` adds up bit by bit, and `U` holds what a byte has become when
   * fifteen others have been shifted in behind it.
   */
  ghost predicate Matching(t: Tables)
    requires t.Valid()
  {
    Linear(t) && forall c: byte :: t.U(Wide(c)) == Hash(t, [c] + Zeros(RABIN_WINDOW - 1))
  }

  ghost predicate Linear(t: Tables) {
    forall a: bv32, b: bv32 {:trigger Sum(a, b)} :: a < 256 && b < 256 ==> t.T(Sum(a, b)) == Sum(t.T(a), t.T(b))
  }

  function Top(v: bv32): bv32 {
    v >> 23
  }

  function WithByte(v: bv32, c: bv32): bv32 {
    (v << 8) | c
  }

  lemma IndexAdds(v: bv32, u: bv32)
    requires v < 0x8000_0000 && u < 0x8000_0000
    ensures Sum(v, u) < 0x8000_0000 && Top(Sum(v, u)) == Sum(Top(v), Top(u)) && Top(v) < 256 && Top(u) < 256
  {}

  lemma ShiftAdds(v: bv32, u: bv32, c: bv32)
    requires c < 256
    ensures WithByte(Sum(v, u), c) == Sum(WithByte(v, c), WithByte(u, 0))
  {}

  lemma SumSwaps(a: bv32, b: bv32, c: bv32, d: bv32)
    ensures Sum(Sum(a, b), Sum(c, d)) == Sum(Sum(a, c), Sum(b, d))
  {
    hide *;
    SumAssoc(a, b, Sum(c, d));
    SumAssoc(b, c, d);
    SumCommutes(b, c);
    SumAssoc(c, b, d);
    SumAssoc(a, c, Sum(b, d));
  }

  lemma SumAssoc(a: bv32, b: bv32, c: bv32)
    ensures Sum(Sum(a, b), c) == Sum(a, Sum(b, c))
  {}

  lemma SumCommutes(a: bv32, b: bv32)
    ensures Sum(a, b) == Sum(b, a)
  {}

  lemma WideZero()
    ensures Wide(0) == 0
  {}

  lemma RollIs(t: Tables, v: bv32, c: byte)
    requires t.Valid() && v < 0x8000_0000
    ensures Wide(c) < 256 && Roll(t, v, c) == Sum(WithByte(v, Wide(c)), t.T(Top(v)))
  {
    hide Wide;
  }

  lemma TableAdds(t: Tables, a: bv32, b: bv32)
    requires Linear(t) && a < 256 && b < 256
    ensures t.T(Sum(a, b)) == Sum(t.T(a), t.T(b))
  {
    hide Sum;
  }

  /** Shifting into two hashes added up is shifting into each. */
  lemma RollAdds(t: Tables, v: bv32, u: bv32, c: byte)
    requires t.Valid() && Linear(t) && v < 0x8000_0000 && u < 0x8000_0000
    ensures Sum(v, u) < 0x8000_0000 && Roll(t, Sum(v, u), c) == Sum(Roll(t, v, c), Roll(t, u, 0))
  {
    hide *;
    IndexAdds(v, u);
    RollIs(t, v, c);
    RollIs(t, u, 0);
    RollIs(t, Sum(v, u), c);
    WideZero();
    TableAdds(t, Top(v), Top(u));
    ShiftAdds(v, u, Wide(c));
    SumSwaps(WithByte(v, Wide(c)), WithByte(u, 0), t.T(Top(v)), t.T(Top(u)));
  }

  lemma SumZero(v: bv32)
    ensures Sum(0, v) == v
  {}

  /** The hash of a text is that of its first byte, shifted on, added to that of the rest. */
  lemma {:induction false} FirstByte(t: Tables, c: byte, r: seq<byte>)
    requires t.Valid() && Linear(t)
    ensures Hash(t, [c] + r) == Sum(Hash(t, r), Hash(t, [c] + Zeros(|r|)))
  {
    hide *;
    if r == [] {
      NoHash(t);
      assert [c] + r == [c] + Zeros(0);
      SumZero(Hash(t, [c] + Zeros(0)));
    } else {
      var n := |r| - 1;
      FirstByte(t, c, r[..n]);
      assert [c] + r == [c] + r[..n] + [r[n]] && r == r[..n] + [r[n]];
      ZerosNext(c, n);
      HashNext(t, [c] + r[..n], r[n]);
      HashNext(t, r[..n], r[n]);
      HashNext(t, [c] + Zeros(n), 0);
      RollAdds(t, Hash(t, r[..n]), Hash(t, [c] + Zeros(n)), r[n]);
    }
  }

  lemma NoHash(t: Tables)
    requires t.Valid()
    ensures Hash(t, []) == 0 && Zeros(0) == []
  {}

  lemma ZerosNext(c: byte, n: nat)
    ensures [c] + Zeros(n + 1) == [c] + Zeros(n) + [0]
  {}

  lemma SumTwice(v: bv32, u: bv32)
    ensures Sum(Sum(v, u), u) == v
  {}

  lemma UnrollIs(t: Tables, v: bv32, c: byte)
    requires t.Valid() && v < 0x8000_0000 && Matching(t)
    ensures Unroll(t, v, c) == Sum(v, Hash(t, [c] + Zeros(RABIN_WINDOW - 1)))
  {
    hide *;
    UnrollSums(t, v, c);
    RemovedIs(t, c);
  }

  lemma UnrollSums(t: Tables, v: bv32, c: byte)
    requires t.Valid() && v < 0x8000_0000
    ensures Unroll(t, v, c) == Sum(v, t.U(Wide(c)))
  {
    hide Wide;
  }

  lemma RemovedIs(t: Tables, c: byte)
    requires t.Valid() && Matching(t)
    ensures t.U(Wide(c)) == Hash(t, [c] + Zeros(RABIN_WINDOW - 1))
  {
    hide Sum, Hash, Wide, Zeros;
  }

  lemma MatchingIsLinear(t: Tables)
    requires t.Valid() && Matching(t)
    ensures Linear(t)
  {
    hide Linear, Hash;
  }

  /** Taking out the byte that leaves the window and shifting in the next one gives the hash of the next window. */
  lemma WindowMoves(t: Tables, w: seq<byte>, b: byte)
    requires t.Valid() && Matching(t) && |w| == RABIN_WINDOW
    ensures Roll(t, Unroll(t, Hash(t, w), w[0]), b) == Hash(t, w[1..] + [b])
  {
    var r := w[1..];
    assert w == [w[0]] + r && |r| == RABIN_WINDOW - 1;
    MatchingIsLinear(t);
    hide *;
    FirstByte(t, w[0], r);
    UnrollIs(t, Hash(t, w), w[0]);
    SumTwice(Hash(t, r), Hash(t, [w[0]] + Zeros(|r|)));
    HashNext(t, r, b);
  }
}
