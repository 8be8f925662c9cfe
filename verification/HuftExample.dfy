/** A code that huft_build accepts and makes wrong tables for: one code of one bit and four of three, in
    tables of one bit. */
module HuftExample {
  import opened Bits
  import opened Canonical
  import opened HuftSpec
  import opened HuftTheorem
  import opened HuftSpace
  import opened Huft

  const FIVE := Values(5, [], [])

  /** The bits 1, 0, 1, which are the code of symbol 2. */
  const STREAM: nat := 5

  /** Built in memory that holds literals, the tables are reported to be right, and read the bits 1, 0, 1 as
      two bits for the symbol 0. */
  method Misread(hp: array<Entry>, v: array<nat>) returns (r: Status, t: nat, m: nat)
    requires hp.Length == MANY && v.Length == 5 && forall e {:trigger hp[e]} :: 0 <= e < MANY ==> hp[e] == Entry(0, 1, 0)
    modifies hp, v
    ensures r == Ok && m == 1
    ensures Decode(UNEVEN, STREAM) == Symbol(2, 3) && Walk(hp[..], t, m, STREAM, BMAX) == Leaf(0, 0, 2)
    ensures !Agrees(FIVE, Decode(UNEVEN, STREAM), Walk(hp[..], t, m, STREAM, BMAX))
  {
    hide *;
    ghost var before := hp[..];
    UnevenFacts();
    var hn;
    ghost var g, infos;
    r, t, m, hn, g, infos := Build(UNEVEN, FIVE, 1, hp, 0, v);
    LongestIs(UNEVEN, g, 3);
    FirstHole(Shape(UNEVEN, 3, 1), FIVE, hp[..], before, infos, t);
    TwoDecoded();
    NotAgreed();
  }

  lemma NotAgreed()
    ensures !Agrees(FIVE, Symbol(2, 3), Leaf(0, 0, 2))
  {
  }

  lemma LongestIs(lens: seq<nat>, g: nat, g': nat)
    requires IsLongest(lens, g) && IsLongest(lens, g')
    ensures g == g'
  {
    CountPositive(lens, g);
    CountPositive(lens, g');
  }

  lemma UnevenFacts()
    ensures ValidLengths(UNEVEN) && !AllZero(UNEVEN) && IsLongest(UNEVEN, 3) && |UNEVEN| == 5 && FIVE.Covers(|UNEVEN|)
    ensures EndCode(UNEVEN, BMAX) == Pow2(BMAX) && Levels(3, 1) * Pow2(3) <= MANY
    ensures forall least :: IsShortest(UNEVEN, least) ==> Clamp(1, least, 3) == 1
  {
    hide EndCode;
    hide Pow2;
    UnevenIsDense();
    SlackDoubles(UNEVEN, 3, BMAX);
    EightPatterns();
    assert UNEVEN[0] == 1;
    forall least | IsShortest(UNEVEN, least) ensures Clamp(1, least, 3) == 1 {
      assert UNEVEN[0] > 0;
    }
  }

  lemma EightPatterns()
    ensures Pow2(0) == 1 && Pow2(1) == 2 && Pow2(2) == 4 && Pow2(3) == 8
  {
  }

  /** The stream leads to the first entry that is not written. */
  lemma FirstHole(sh: Shape, vals: Values, t: seq<Entry>, t0: seq<Entry>, infos: seq<Info>, lo: nat)
    requires sh == Shape(UNEVEN, 3, 1) && Built(sh, vals, t, t0, infos, lo)
    requires forall e: nat {:trigger t0[e]} :: lo <= e < |t0| ==> t0[e] == Entry(0, 1, 0)
    ensures Walk(t, lo, 1, STREAM, BMAX) == Leaf(0, 0, 2)
  {
    hide Built;
    hide Dense;
    hide Walk;
    UnevenIsDense();
    OnlyTwo();
    RootFacts(sh, vals, t, t0, infos, lo);
    RootWidth(sh, infos[lo], 1);
    FiveIsProbe();
    WalkToHole(sh, vals, t, t0, infos, lo, lo, 1, BMAX);
    DropNone(STREAM);
  }

  lemma OnlyTwo()
    ensures Count(UNEVEN, 1) > 0 && Dense(UNEVEN, 3, 1, 2) && forall d: nat :: d < 2 ==> !Dense(UNEVEN, 3, 1, d)
  {
    UnevenCounts(1);
    UnevenCounts(2);
    assert EndCode(UNEVEN, 1) == 1;
    assert EndCode(UNEVEN, 2) == 2;
    EightPatterns();
  }

  lemma FiveIsProbe()
    ensures Probe(1, 1) == STREAM
  {
    EightPatterns();
    assert Shl(2, 1) == 2 * Shl(2, 0) == 4;
  }

  /** Symbol 2 has the code 101. */
  lemma TwoDecoded()
    ensures Decode(UNEVEN, STREAM) == Symbol(2, 3)
  {
    UnevenCounts(1);
    UnevenCounts(2);
    assert FirstCode(UNEVEN, 2) == 2;
    assert FirstCode(UNEVEN, 3) == 4;
    assert UNEVEN[..2] == [1, 3];
    assert [1, 3][..1] == [1] && [1][..0] == [];
    assert Count([1], 3) == 0;
    assert Rank(UNEVEN, 2) == 1;
    EightPatterns();
    assert Code(1, 1) == 1 by { assert Code(0, 0) == 0; }
    assert Code(2, 2) == 1;
    assert Code(5, 3) == 5;
    DecodeIff(UNEVEN, STREAM, 2, 3);
  }
}
