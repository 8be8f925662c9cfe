/** Writing the headers of blocks with dynamic codes: section 3.2.7 of RFC 1951. */
module Headers {
  import opened Bits
  import opened Canonical
  import opened Deflate
  import opened Stream

  // ---------- code lengths ----------

  /** A code length symbol, and the value of the bits that follow it. */
  datatype Op = Op(c: nat, x: nat)

  ghost predicate Writable(sizes: seq<nat>, op: Op) {
    op.c < 19 && Used(sizes, op.c) && op.x < Pow2(RunBits(op.c))
  }

  ghost predicate AllWritable(sizes: seq<nat>, ops: seq<Op>) {
    forall i :: 0 <= i < |ops| ==> Writable(sizes, ops[i])
  }

  /** The symbols come one after the other, the last one brings the lengths to `need`, and no repetition
      comes first. */
  predicate Fills(ops: seq<Op>, acc: seq<nat>, need: nat)
    decreases |ops|
  {
    if ops == [] then |acc| >= need
    else
      && |acc| < need && |acc| <= MAX_LENGTHS && (ops[0].c == 16 ==> acc != [])
      && Fills(ops[1..], acc + RunFor(ops[0].c, acc, ops[0].x), need)
  }

  function Filled(ops: seq<Op>, acc: seq<nat>, need: nat): seq<nat>
    requires Fills(ops, acc, need)
    decreases |ops|
  {
    if ops == [] then acc else Filled(ops[1..], acc + RunFor(ops[0].c, acc, ops[0].x), need)
  }

  ghost function PutOps(sizes: seq<nat>, ops: seq<Op>, tail: nat): nat
    requires AllWritable(sizes, ops)
  {
    if ops == [] then tail
    else PutCode(sizes, ops[0].c, Put(ops[0].x, RunBits(ops[0].c), PutOps(sizes, ops[1..], tail)))
  }

  function OpsBits(sizes: seq<nat>, ops: seq<Op>): nat {
    if ops == [] then 0
    else (if ops[0].c < |sizes| then sizes[ops[0].c] else 0) + RunBits(ops[0].c) + OpsBits(sizes, ops[1..])
  }

  /** Reading what has been written. */
  lemma {:induction false} GetOps(sizes: seq<nat>, input: seq<byte>, at: nat, need: nat, ops: seq<Op>, acc: seq<nat>, tail: nat)
    requires ValidLengths(sizes) && NotOversubscribed(sizes) && AllWritable(sizes, ops) && Fills(ops, acc, need)
    requires Drop(BytesVal(input), at) == PutOps(sizes, ops, tail)
    ensures var all := Filled(ops, acc, need); var end := at + OpsBits(sizes, ops);
      && ReadLengths(sizes, input, at, need, acc) == (if |all| > MAX_LENGTHS then TooMany else Lengths(all, end))
      && Drop(BytesVal(input), end) == tail
    decreases |ops|
  {
    hide ValidLengths;
    hide NotOversubscribed;
    hide Decode;
    hide PutCode;
    hide Put;
    hide Low;
    hide Drop;
    hide RunFor;
    hide Pow2;
    hide BytesVal;
    if ops != [] {
      var c, x, v := ops[0].c, ops[0].x, Drop(BytesVal(input), at);
      var rest := PutOps(sizes, ops[1..], tail);
      GetCode(sizes, c, Put(x, RunBits(c), rest));
      GetPut(x, RunBits(c), rest);
      DropDrop(BytesVal(input), at, sizes[c]);
      DropDrop(BytesVal(input), at + sizes[c], RunBits(c));
      GetOps(sizes, input, at + sizes[c] + RunBits(c), need, ops[1..], acc + RunFor(c, acc, x), tail);
    }
  }

  // ---------- the sizes of their codes ----------

  /** The first `n` sizes are written, in the order of the header, and the others are zero. */
  predicate Given(sizes: seq<nat>, n: nat)
    requires n <= 19
  {
    && |sizes| == 19 && (forall i :: 0 <= i < 19 ==> sizes[i] < 8)
    && (forall i :: n <= i < 19 ==> sizes[ORDER[i]] == 0)
  }

  function PutSizes(sizes: seq<nat>, i: nat, n: nat, tail: nat): nat
    requires i <= n <= 19 && |sizes| == 19
    decreases n - i
  {
    if i == n then tail else Put(sizes[ORDER[i]], 3, PutSizes(sizes, i + 1, n, tail))
  }

  lemma {:induction false} GetSizes(sizes: seq<nat>, v: nat, at: nat, i: nat, n: nat, tail: nat)
    requires i <= n <= 19 && |sizes| == 19 && (forall i :: 0 <= i < 19 ==> sizes[i] < 8)
    requires Drop(v, at + 3 * i) == PutSizes(sizes, i, n, tail)
    ensures forall m: nat {:trigger ORDER[m]} :: i <= m < n ==> Low(Drop(v, at + 3 * m), 3) == sizes[ORDER[m]]
    ensures Drop(v, at + 3 * n) == tail
    decreases n - i
  {
    hide Low;
    hide Drop;
    hide Put;
    if i < n {
      SmallPowers();
      GetPut(sizes[ORDER[i]], 3, PutSizes(sizes, i + 1, n, tail));
      DropDrop(v, at + 3 * i, 3);
      GetSizes(sizes, v, at, i + 1, n, tail);
    }
  }

  /** The sizes read are those written; the others are zero. */
  lemma {:induction false} SizesRead(sizes: seq<nat>, input: seq<byte>, at: nat, n: nat)
    requires n <= 19 && |sizes| == 19
    requires forall m: nat {:trigger ORDER[m]} :: m < n ==> Low(Drop(BytesVal(input), at + 3 * m), 3) == sizes[ORDER[m]]
    ensures var r := CodeLengthSizes(input, at, n);
      && (forall m: nat {:trigger ORDER[m]} :: m < n ==> r[ORDER[m]] == sizes[ORDER[m]])
      && (forall j: nat {:trigger r[j]} :: j < 19 ==> r[j] == 0 || r[j] == sizes[j])
    decreases n
  {
    hide Low;
    hide Drop;
    hide BytesVal;
    if n > 0 {
      SizesRead(sizes, input, at, n - 1);
    }
  }

  /** Every symbol is somewhere in the order. */
  function Place(j: nat): (m: nat)
    requires j < 19
    ensures m < 19 && ORDER[m] == j
  {
    [3, 17, 15, 13, 11, 9, 7, 5, 4, 6, 8, 10, 12, 14, 16, 18, 0, 1, 2][j]
  }

  lemma SizesAre(sizes: seq<nat>, input: seq<byte>, at: nat, n: nat)
    requires n <= 19 && Given(sizes, n)
    requires forall m: nat {:trigger ORDER[m]} :: m < n ==> Low(Drop(BytesVal(input), at + 3 * m), 3) == sizes[ORDER[m]]
    ensures CodeLengthSizes(input, at, n) == sizes
  {
    hide Low;
    hide Drop;
    hide BytesVal;
    SizesRead(sizes, input, at, n);
    var r := CodeLengthSizes(input, at, n);
    forall j: nat {:trigger r[j]} | j < 19 ensures r[j] == sizes[j] {
      var m := Place(j);
      assert ORDER[m] == j;
      assert r[j] == 0 || r[j] == sizes[j];
      if m >= n {
        assert sizes[j] == 0;
      } else {
        assert r[j] == sizes[j];
      }
    }
  }

  // ---------- the header ----------

  datatype Plan = Plan(hlit: nat, hdist: nat, hclen: nat, sizes: seq<nat>, ops: seq<Op>) {
    ghost predicate Good() {
      && 257 <= hlit <= 288 && 1 <= hdist <= 32 && 4 <= hclen <= 19
      && Given(sizes, hclen) && NotOversubscribed(sizes) && AllWritable(sizes, ops) && Fills(ops, [], hlit + hdist)
    }

    function All(): seq<nat>
      requires Fills(ops, [], hlit + hdist)
    {
      Filled(ops, [], hlit + hdist)
    }

    function Bits(): nat {
      14 + 3 * hclen + OpsBits(sizes, ops)
    }
  }

  ghost function PutHeader(p: Plan, tail: nat): nat
    requires p.Good()
  {
    Put(p.hlit - 257, 5, Put(p.hdist - 1, 5, Put(p.hclen - 4, 4, PutSizes(p.sizes, 0, p.hclen, PutOps(p.sizes, p.ops, tail)))))
  }

  lemma GetCounts(v: nat, at: nat, a: nat, b: nat, c: nat, rest: nat)
    requires a < 32 && b < 32 && c < 16 && Drop(v, at) == Put(a, 5, Put(b, 5, Put(c, 4, rest)))
    ensures Low(Drop(v, at), 5) == a && Low(Drop(v, at + 5), 5) == b && Low(Drop(v, at + 10), 4) == c
    ensures Drop(v, at + 14) == rest
  {
    hide Low;
    hide Drop;
    hide Put;
    SmallPowers();
    GetPut(a, 5, Put(b, 5, Put(c, 4, rest)));
    GetPut(b, 5, Put(c, 4, rest));
    GetPut(c, 4, rest);
    DropDrop(v, at, 5);
    DropDrop(v, at + 5, 5);
    DropDrop(v, at + 10, 4);
  }

  /** A header that has been written is read as what was written; when there are too many lengths, nothing
      is said. */
  lemma GetHeader(input: seq<byte>, at: nat, p: Plan, tail: nat)
    requires p.Good() && Drop(BytesVal(input), at) == PutHeader(p, tail)
    ensures var v := BytesVal(input); Hlit(v, at) == p.hlit && Hdist(v, at) == p.hdist
    ensures HeaderLengths(input, at) == if |p.All()| > MAX_LENGTHS then TooMany else Lengths(p.All(), at + p.Bits())
    ensures ReadHeader(input, at) == SplitLengths(HeaderLengths(input, at), p.hlit, p.hdist)
    ensures Drop(BytesVal(input), at + p.Bits()) == tail
  {
    hide NotOversubscribed;
    hide AllWritable;
    hide Fills;
    hide Filled;
    hide PutOps;
    hide PutSizes;
    hide OpsBits;
    hide Low;
    hide Drop;
    hide Put;
    hide BytesVal;
    hide ReadLengths;
    hide CodeLengthSizes;
    hide SplitLengths;
    var v := BytesVal(input);
    var ops := PutOps(p.sizes, p.ops, tail);
    GetCounts(v, at, p.hlit - 257, p.hdist - 1, p.hclen - 4, PutSizes(p.sizes, 0, p.hclen, ops));
    GetSizes(p.sizes, v, at + 14, 0, p.hclen, ops);
    SizesAre(p.sizes, input, at + 14, p.hclen);
    GetOps(p.sizes, input, at + 14 + 3 * p.hclen, p.hlit + p.hdist, p.ops, [], tail);
  }

  // ---------- a header for every pair of codes ----------

  /** Four bits for each length from 0 to 15. */
  function PlainSizes(): (r: seq<nat>)
    ensures |r| == 19 && forall i :: 0 <= i < 19 ==> r[i] == if i < 16 then 4 else 0
  {
    seq(16, _ => 4) + seq(3, _ => 0)
  }

  lemma PlainSizesFit()
    ensures ValidLengths(PlainSizes()) && NotOversubscribed(PlainSizes()) && Given(PlainSizes(), 19)
  {
    hide Count;
    forall k: nat {:trigger Count(PlainSizes(), k)} | k >= 1 ensures Count(PlainSizes(), k) == if k == 4 then 16 else 0 {
      CountAppend(seq(16, _ => 4), seq(3, _ => 0), k);
      CountRepeat(16, 4, k);
      CountRepeat(3, 0, k);
    }
    SmallPowers();
    NoneYet(PlainSizes(), 4);
    assert EndCode(PlainSizes(), 4) == 16;
    SumDone(PlainSizes(), 4, MAX_BITS);
  }

  /** Each length by itself. */
  function PlainOps(lens: seq<nat>): (r: seq<Op>)
    ensures |r| == |lens| && forall i :: 0 <= i < |r| ==> r[i] == Op(lens[i], 0)
  {
    if lens == [] then [] else [Op(lens[0], 0)] + PlainOps(lens[1..])
  }

  lemma {:induction false} PlainFills(lens: seq<nat>, acc: seq<nat>)
    requires ValidLengths(lens) && |acc| + |lens| <= MAX_LENGTHS
    ensures Fills(PlainOps(lens), acc, |acc| + |lens|) && Filled(PlainOps(lens), acc, |acc| + |lens|) == acc + lens
    decreases |lens|
  {
    hide PlainOps;
    hide Repeat;
    if lens != [] {
      PlainFills(lens[1..], acc + [lens[0]]);
      assert PlainOps(lens)[1..] == PlainOps(lens[1..]);
      assert acc + [lens[0]] + lens[1..] == acc + lens;
    } else {
      assert acc + lens == acc;
    }
  }

  lemma PlainWritable(lens: seq<nat>)
    requires ValidLengths(lens)
    ensures AllWritable(PlainSizes(), PlainOps(lens))
  {
    hide Used;
    forall i | 0 <= i < |lens| ensures Writable(PlainSizes(), PlainOps(lens)[i]) {
      PlainUsed(lens[i]);
    }
  }

  lemma PlainUsed(n: nat)
    requires n <= MAX_BITS
    ensures Used(PlainSizes(), n) && 0 < Pow2(RunBits(n))
  {
    SmallPowers();
  }

  /** Every pair of codes can be announced by a header. */
  lemma SomePlan(litlens: seq<nat>, distlens: seq<nat>) returns (p: Plan)
    requires 257 <= |litlens| <= 288 && 1 <= |distlens| <= 32 && ValidLengths(litlens) && ValidLengths(distlens)
    ensures p.Good() && p.hlit == |litlens| && p.hdist == |distlens| && p.All() == litlens + distlens
  {
    hide NotOversubscribed;
    hide Fills;
    hide Filled;
    hide AllWritable;
    hide PlainSizes;
    hide PlainOps;
    hide Given;
    PlainSizesFit();
    var lens := litlens + distlens;
    PlainFills(lens, []);
    assert [] + lens == lens;
    PlainWritable(lens);
    p := Plan(|litlens|, |distlens|, 19, PlainSizes(), PlainOps(lens));
  }
}
