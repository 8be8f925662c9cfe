/** When the tables of huft_build decode like the bit-at-a-time decoder, and when they do not. */
module HuftTheorem {
  import opened Bits
  import opened Canonical
  import opened HuftSpec
  import opened HuftBuild

  /** `d` is a boundary between levels, a multiple of the table width `l`, and at least as many
      patterns of `d` bits are left for longer codes as one table has entries. */
  ghost predicate Dense(lens: seq<nat>, g: nat, l: nat, d: nat)
    requires l >= 1
  {
    l <= d < g && d % l == 0 && Pow2(d) >= EndCode(lens, d) + Pow2(l)
  }

  /** At every boundary between levels, fewer patterns are left for longer codes than one table
      has entries. */
  ghost predicate Sparse(lens: seq<nat>, g: nat, l: nat)
    requires l >= 1
  {
    forall d: nat {:trigger Dense(lens, g, l, d)} :: !Dense(lens, g, l, d)
  }

  ghost predicate IsLongest(lens: seq<nat>, g: nat) {
    Count(lens, g) > 0 && forall i :: 0 <= i < |lens| ==> lens[i] <= g
  }

  /** All tables are made: every used entry is right, nothing else has been written, and the first
      table is at `lo`. */
  ghost predicate Built(sh: Shape, vals: Values, t: seq<Entry>, t0: seq<Entry>, infos: seq<Info>, lo: nat) {
    && sh.Valid() && Registry(sh, infos, lo) && |infos| <= |t|
    && (forall e: nat {:trigger Live(sh, infos, lo, e)} :: Live(sh, infos, lo, e) ==> Cons(sh, vals, t, infos, e))
    && Untouched(sh, t, t0, infos, lo)
    && lo < |infos| && infos[lo].start == lo && infos[lo].w == 0 && infos[lo].pat == 0
  }

  /** A pattern of ones is the last of its length. */
  lemma {:induction false} OnesLast(w: nat)
    ensures Code(Pow2(w) - 1, w) == Pow2(w) - 1
  {
    if w > 0 {
      assert (Pow2(w) - 1) % 2 == 1 && (Pow2(w) - 1) / 2 == Pow2(w - 1) - 1;
      OnesLast(w - 1);
    }
  }

  lemma PatternTop(pat: nat, w: nat, n: nat)
    requires pat < Pow2(w)
    ensures Code(pat, w + n) + Pow2(n) <= Pow2(w + n)
    ensures pat == Pow2(w) - 1 ==> Code(pat, w + n) + Pow2(n) == Pow2(w + n)
  {
    hide *;
    LowSmall(pat, w);
    PatternIsLeast(pat, pat, w, w + n);
    CodeBits(pat, w);
    Pow2Shl(w, n);
    Pow2Shl(0, n);
    PowZero();
    ShlAdd(Code(pat, w), 1, n);
    ShlMono(Code(pat, w) + 1, Pow2(w), n);
    OnesLast(w);
  }

  lemma CodeBits(c: nat, k: nat)
    ensures Code(c, k) < Pow2(k)
  {
  }

  lemma PowZero()
    ensures Pow2(0) == 1
  {
  }

  /** In a sparse code no table is wider than the full width. */
  lemma SparseIsNarrow(sh: Shape, I: Info)
    requires sh.Valid() && TableOK(sh, I) && Sparse(sh.lens, sh.g, sh.l)
    ensures I.j <= sh.l
  {
    hide Code;
    hide EndCode;
    hide Pow2;
    AddMod(I.w, sh.l);
    assert !Dense(sh.lens, sh.g, sh.l, I.w + sh.l);
    if I.j > sh.l {
      PatternTop(I.pat, I.w, sh.l);
    }
  }

  /** The first table has the full width: it is looked up with `l` bits. */
  lemma RootWidth(sh: Shape, I: Info, k: nat)
    requires sh.Valid() && TableOK(sh, I) && I.w == 0 && I.pat == 0
    requires IsLongest(sh.lens, sh.g) && 1 <= k <= sh.l && Count(sh.lens, k) > 0
    ensures I.j == sh.l
  {
    CodeZero(I.j);
    CodeZero(sh.l);
    if I.j < sh.l {
      FullLeavesNone(sh.lens, I.j, sh.g);
    } else if I.j > sh.l {
      EndPositive(sh.lens, k, sh.l);
    }
  }

  lemma {:induction false} FullLeavesNone(lens: seq<nat>, j: nat, k: nat)
    requires 1 <= j < k && EndCode(lens, j) >= Pow2(j)
    ensures EndCode(lens, k) >= Pow2(k) + Count(lens, k)
  {
    if j < k - 1 {
      FullLeavesNone(lens, j, k - 1);
    }
  }

  lemma {:induction false} EndPositive(lens: seq<nat>, k: nat, m: nat)
    requires 1 <= k <= m && Count(lens, k) > 0
    ensures EndCode(lens, m) > 0
  {
    if k < m {
      EndPositive(lens, k, m - 1);
    }
  }

  /** In a sparse code every walk agrees with the bit-at-a-time decoder. */
  lemma SparseAgrees(sh: Shape, vals: Values, t: seq<Entry>, t0: seq<Entry>, infos: seq<Info>, lo: nat, k: nat, v: nat)
    requires Built(sh, vals, t, t0, infos, lo) && Sparse(sh.lens, sh.g, sh.l)
    requires IsLongest(sh.lens, sh.g) && 1 <= k <= sh.l && Count(sh.lens, k) > 0
    ensures Agrees(vals, Decode(sh.lens, v), Walk(t, lo, sh.l, v, BMAX))
    ensures NarrowFrom(t, lo, sh.l, v)
  {
    hide Cons;
    hide Code;
    hide Decode;
    hide Walk;
    hide Narrow;
    hide Sparse;
    forall e: nat | lo <= e < |infos| ensures TableOK(sh, infos[e]) && infos[e].j <= sh.l {
      TableInfo(sh, infos, lo, e);
      SparseIsNarrow(sh, infos[e]);
    }
    RootWidth(sh, infos[lo], k);
    WalkTables(sh, vals, t, infos, lo, lo, v, BMAX);
    NarrowTables(sh, vals, t, infos, lo, lo, v, BMAX);
    var r := Walk(t, lo, sh.l, v, BMAX);
    WalkFromRoot(sh, vals, v, r);
  }

  lemma WalkFromRoot(sh: Shape, vals: Values, v: nat, r: Walked)
    requires sh.Valid() && WalkEnds(sh, vals, 0, v, r)
    ensures Agrees(vals, Decode(sh.lens, v), r)
  {
    CodesAgree(sh, vals, v, r.len, r);
  }

  // ---------- codes that are not sparse ----------

  lemma FirstDense(lens: seq<nat>, g: nat, l: nat) returns (d: nat)
    requires l >= 1 && !Sparse(lens, g, l)
    ensures Dense(lens, g, l, d) && forall d': nat :: d' < d ==> !Dense(lens, g, l, d')
  {
    var d0: nat :| Dense(lens, g, l, d0);
    d := 0;
    while !Dense(lens, g, l, d)
      invariant d <= d0 && forall d': nat :: d' < d ==> !Dense(lens, g, l, d')
      decreases d0 - d
    {
      d := d + 1;
    }
  }

  /** The stream of `w` ones, `l` zeros and a one. */
  ghost function Probe(w: nat, l: nat): nat {
    Pow2(w) - 1 + Shl(Pow2(l), w)
  }

  lemma {:induction false} LowOnes(w: nat, n: nat)
    requires n <= w
    ensures Low(Pow2(w) - 1, n) == Pow2(n) - 1
  {
    if n > 0 {
      assert (Pow2(w) - 1) % 2 == 1 && (Pow2(w) - 1) / 2 == Pow2(w - 1) - 1;
      LowOnes(w - 1, n - 1);
    }
  }

  lemma ProbeBits(w: nat, l: nat, n: nat)
    requires n <= w
    ensures Low(Probe(w, l), n) == Pow2(n) - 1 && Drop(Probe(w, l), w) == Pow2(l)
    ensures Code(Probe(w, l), n) == Pow2(n) - 1
  {
    hide Low;
    hide Drop;
    hide Code;
    hide Shl;
    Join(Pow2(w) - 1, Pow2(l), w);
    LowLow(Probe(w, l), n, w);
    LowOnes(w, n);
    OnesLast(n);
    CodeLow(Probe(w, l), n);
  }

  /** The entry for `2^l` in a table wider than `l` bits has not been written. */
  lemma HoleUnwritten(sh: Shape, vals: Values, t: seq<Entry>, t0: seq<Entry>, infos: seq<Info>, lo: nat, e: nat)
    requires Built(sh, vals, t, t0, infos, lo) && lo <= e < |infos| && infos[e].start == e && infos[e].j > sh.l
    ensures Low(Pow2(sh.l), infos[e].j) == Pow2(sh.l) && e + Pow2(sh.l) < |infos|
    ensures t[e + Pow2(sh.l)] == t0[e + Pow2(sh.l)]
  {
    hide TableOK;
    hide Cons;
    Pow2Mono(sh.l + 1, infos[e].j);
    LowSmall(Pow2(sh.l), infos[e].j);
    assert InTable(infos, lo, e);
    assert infos[e + Pow2(sh.l)] == infos[e];
    assert !Live(sh, infos, lo, e + Pow2(sh.l));
  }

  /** Entry `2^l - 1` of table `e` links to the next table for a pattern of ones. */
  ghost predicate LinksOnes(sh: Shape, t: seq<Entry>, infos: seq<Info>, lo: nat, e: nat)
    requires e < |infos| <= |t|
  {
    var i := e + Pow2(sh.l) - 1;
    && infos[e].j == sh.l && i < |infos| && IsLink(t[i]) && t[i].bits == sh.l
    && i + t[i].base < |infos|
    && infos[i + t[i].base] == Info(i + t[i].base, infos[e].w + sh.l, t[i].exop, Pow2(infos[e].w + sh.l) - 1)
  }

  lemma OnesPrefix(I: Info, l: nat)
    requires I.pat == Pow2(I.w) - 1
    ensures I.Prefix(Pow2(l) - 1) == Pow2(I.w + l) - 1
  {
    Pow2Shl(0, I.w);
    Pow2Shl(l, I.w);
    ShlAdd(Pow2(l) - 1, 1, I.w);
  }

  /** A table on the way along the ones has the full width. */
  lemma OnesWidth(sh: Shape, I: Info, w: nat)
    requires sh.Valid() && TableOK(sh, I) && IsLongest(sh.lens, sh.g)
    requires I.pat == Pow2(I.w) - 1 && w < sh.g && I.w + sh.l <= w && !Dense(sh.lens, sh.g, sh.l, I.w + sh.l)
    ensures I.j == sh.l
  {
    hide Code;
    hide EndCode;
    hide Pow2;
    AddMod(I.w, sh.l);
    PatternTop(I.pat, I.w, sh.l);
    PatternTop(I.pat, I.w, I.j);
    if I.j < sh.l {
      FullLeavesNone(sh.lens, I.w + I.j, sh.g);
    }
  }

  lemma OnesEntry(sh: Shape, vals: Values, t: seq<Entry>, infos: seq<Info>, i: nat, w: nat)
    requires sh.Valid() && IsLongest(sh.lens, sh.g)
    requires i < |infos| <= |t| && infos[i].start <= i && Cons(sh, vals, t, infos, i)
    requires infos[i].j == sh.l && infos[i].w + sh.l <= w < sh.g
    requires PrefixAt(infos, i) == Pow2(infos[i].w + sh.l) - 1
    ensures IsLink(t[i])
  {
    hide Codes;
    hide FirstCode;
    hide EndCode;
    hide PrefixAt;
    hide Pow2;
    hide Code;
    hide Low;
    if !IsLink(t[i]) {
      var k := infos[i].w + t[i].bits;
      LowOnes(infos[i].w + sh.l, k);
      CodeLow(PrefixAt(infos, i), k);
      OnesLast(k);
      FullLeavesNone(sh.lens, k, sh.g);
    }
  }

  /** On the way along the ones, every entry is a link. */
  lemma OnesLink(sh: Shape, vals: Values, t: seq<Entry>, t0: seq<Entry>, infos: seq<Info>, lo: nat, e: nat, w: nat)
    requires Built(sh, vals, t, t0, infos, lo) && IsLongest(sh.lens, sh.g)
    requires lo <= e < |infos| && infos[e].start == e && infos[e].pat == Pow2(infos[e].w) - 1
    requires w < sh.g && infos[e].w + sh.l <= w && !Dense(sh.lens, sh.g, sh.l, infos[e].w + sh.l)
    ensures LinksOnes(sh, t, infos, lo, e)
  {
    hide Code;
    hide Codes;
    hide Dense;
    hide TableOK;
    hide Untouched;
    hide IsLongest;
    hide Pow2;
    TableInfo(sh, infos, lo, e);
    var I, i := infos[e], e + Pow2(sh.l) - 1;
    OnesWidth(sh, I, w);
    assert InTable(infos, lo, e);
    assert infos[i] == I;
    assert Live(sh, infos, lo, i);
    OnesPrefix(I, sh.l);
    OnesEntry(sh, vals, t, infos, i, w);
  }

  lemma WalkOn(t: seq<Entry>, start: nat, need: nat, v: nat, room: nat)
    requires var i := start + Low(v, need); need <= room && i < |t| && 1 <= t[i].bits <= need && IsLink(t[i])
    ensures var r := t[start + Low(v, need)];
      Walk(t, start, need, v, room) == Longer(r.bits, Walk(t, start + Low(v, need) + r.base, r.exop, Drop(v, r.bits), room - r.bits))
  {
    hide Low;
    hide Drop;
    hide IsLink;
  }

  lemma WalkEndsAt(t: seq<Entry>, start: nat, need: nat, v: nat, room: nat)
    requires var i := start + Low(v, need); need <= room && i < |t| && 1 <= t[i].bits <= need && !IsLink(t[i])
    ensures var r := t[start + Low(v, need)]; Walk(t, start, need, v, room) == Leaf(r.exop, r.base, r.bits)
  {
    hide Low;
    hide Drop;
    hide IsLink;
  }

  /** A walk along `w` ones comes to the table that is too wide, and to an entry that holds what the
      memory held before. */
  lemma {:induction false} WalkToHole(sh: Shape, vals: Values, t: seq<Entry>, t0: seq<Entry>, infos: seq<Info>, lo: nat,
                                      e: nat, w: nat, room: nat)
    requires Built(sh, vals, t, t0, infos, lo) && IsLongest(sh.lens, sh.g)
    requires Dense(sh.lens, sh.g, sh.l, w + sh.l) && forall d: nat :: d < w + sh.l ==> !Dense(sh.lens, sh.g, sh.l, d)
    requires forall e: nat {:trigger t0[e]} :: lo <= e < |t0| ==> t0[e] == Entry(0, 1, 0)
    requires lo <= e < |infos| && infos[e].start == e && infos[e].pat == Pow2(infos[e].w) - 1
    requires infos[e].w <= w && infos[e].w + room >= sh.g && w % sh.l == 0
    ensures Walk(t, e, infos[e].j, Drop(Probe(w, sh.l), infos[e].w), room) == Leaf(0, 0, w - infos[e].w + 1)
    decreases room
  {
    hide Built;
    hide Dense;
    hide IsLongest;
    hide Probe;
    hide Pow2;
    hide Low;
    hide Drop;
    hide TableOK;
    hide Walk;
    BuiltFacts(sh, vals, t, t0, infos, lo, e);
    if infos[e].w == w {
      WideFacts(sh, infos[e], w);
      HoleUnwritten(sh, vals, t, t0, infos, lo, e);
      ProbeBits(w, sh.l, w);
      WalkEndsAt(t, e, infos[e].j, Drop(Probe(w, sh.l), w), room);
    } else {
      MultiplesApart(infos[e].w, w, sh.l);
      DenseBelow(sh, w);
      OnesLink(sh, vals, t, t0, infos, lo, e, w);
      var w', i := infos[e].w, e + Pow2(sh.l) - 1;
      var e' := i + t[i].base;
      WalkToHole(sh, vals, t, t0, infos, lo, e', w, room - sh.l);
      ProbeIndex(w, w', sh.l);
      DropDrop(Probe(w, sh.l), w', sh.l);
      WalkOn(t, e, infos[e].j, Drop(Probe(w, sh.l), w'), room);
    }
  }

  lemma BuiltFacts(sh: Shape, vals: Values, t: seq<Entry>, t0: seq<Entry>, infos: seq<Info>, lo: nat, e: nat)
    requires Built(sh, vals, t, t0, infos, lo) && lo <= e < |infos|
    ensures sh.Valid() && |infos| <= |t| == |t0| && TableOK(sh, infos[e])
    ensures infos[e].w % sh.l == 0 && 1 <= infos[e].j && infos[e].w + infos[e].j <= sh.g
  {
    hide Cons;
    TableInfo(sh, infos, lo, e);
  }

  lemma DenseBelow(sh: Shape, w: nat)
    requires sh.l >= 1 && Dense(sh.lens, sh.g, sh.l, w + sh.l)
    ensures w < sh.g
  {
  }

  lemma WideFacts(sh: Shape, I: Info, w: nat)
    requires sh.Valid() && TableOK(sh, I) && I.pat == Pow2(w) - 1 && I.w == w
    requires Dense(sh.lens, sh.g, sh.l, w + sh.l)
    ensures I.j > sh.l
  {
    hide Code;
    hide EndCode;
    hide Pow2;
    PatternTop(I.pat, w, sh.l);
  }

  /** The next `l` bits of the probe, before its ones end, are ones. */
  lemma ProbeIndex(w: nat, w': nat, l: nat)
    requires w' + l <= w
    ensures Low(Drop(Probe(w, l), w'), l) == Pow2(l) - 1
  {
    hide *;
    ProbeBits(w, l, w' + l);
    ProbeBits(w, l, w');
    LowAppend(Probe(w, l), w', l);
    ShlOnes(w', l, Low(Drop(Probe(w, l), w'), l));
  }

  lemma ShlOnes(w: nat, l: nat, x: nat)
    requires Pow2(w + l) - 1 == Pow2(w) - 1 + Shl(x, w)
    ensures x == Pow2(l) - 1
  {
    hide Shl;
    hide Pow2;
    Pow2Shl(l, w);
    Pow2Shl(0, w);
    PowZero();
    ShlAdd(x, 1, w);
    if x + 1 < Pow2(l) {
      ShlMono(x + 2, Pow2(l), w);
      ShlAdd(x + 1, 1, w);
    } else if x + 1 > Pow2(l) {
      ShlMono(Pow2(l) + 1, x + 1, w);
      ShlAdd(Pow2(l), 1, w);
    }
  }

  /** A code that is not sparse is decoded wrongly, for some contents of the memory the tables were
      made in: the entries not written pass for a literal. */
  lemma DenseMisreads(sh: Shape, vals: Values, t: seq<Entry>, t0: seq<Entry>, infos: seq<Info>, lo: nat, k: nat)
    returns (v: nat)
    requires Built(sh, vals, t, t0, infos, lo) && !Sparse(sh.lens, sh.g, sh.l)
    requires IsLongest(sh.lens, sh.g) && 1 <= k <= sh.l && Count(sh.lens, k) > 0
    requires forall e: nat {:trigger t0[e]} :: lo <= e < |t0| ==> t0[e] == Entry(0, 1, 0)
    ensures !Agrees(vals, Decode(sh.lens, v), Walk(t, lo, sh.l, v, BMAX))
    // the ones lead to the first table that is too wide, and the zeros into its gap
    ensures exists d: nat :: Dense(sh.lens, sh.g, sh.l, d) && v == Probe(d - sh.l, sh.l)
  {
    hide Code;
    hide EndCode;
    hide Built;
    hide IsLongest;
    hide Walk;
    hide Low;
    hide Drop;
    hide Decode;
    var d := FirstDense(sh.lens, sh.g, sh.l);
    var w := d - sh.l;
    v := Probe(w, sh.l);
    RootFacts(sh, vals, t, t0, infos, lo);
    RootWidth(sh, infos[lo], k);
    SubMod(d, sh.l);
    WalkToHole(sh, vals, t, t0, infos, lo, lo, w, BMAX);
    DropNone(v);
    ProbeNotShort(sh, w, v);
  }

  /** So the tables of a code, made in such memory, decode every stream exactly when the code is sparse. */
  lemma ExactlySparse(sh: Shape, vals: Values, t: seq<Entry>, t0: seq<Entry>, infos: seq<Info>, lo: nat, k: nat)
    requires Built(sh, vals, t, t0, infos, lo) && IsLongest(sh.lens, sh.g) && 1 <= k <= sh.l && Count(sh.lens, k) > 0
    requires forall e: nat {:trigger t0[e]} :: lo <= e < |t0| ==> t0[e] == Entry(0, 1, 0)
    ensures Sparse(sh.lens, sh.g, sh.l) <==> forall v: nat :: Agrees(vals, Decode(sh.lens, v), Walk(t, lo, sh.l, v, BMAX))
  {
    hide *;
    BuiltValid(sh, vals, t, t0, infos, lo);
    if Sparse(sh.lens, sh.g, sh.l) {
      forall v: nat ensures Agrees(vals, Decode(sh.lens, v), Walk(t, lo, sh.l, v, BMAX)) {
        SparseAgrees(sh, vals, t, t0, infos, lo, k, v);
      }
    } else {
      var v := DenseMisreads(sh, vals, t, t0, infos, lo, k);
    }
  }

  lemma BuiltValid(sh: Shape, vals: Values, t: seq<Entry>, t0: seq<Entry>, infos: seq<Info>, lo: nat)
    requires Built(sh, vals, t, t0, infos, lo)
    ensures sh.Valid() && sh.l >= 1
  {
    hide Cons;
  }

  lemma RootFacts(sh: Shape, vals: Values, t: seq<Entry>, t0: seq<Entry>, infos: seq<Info>, lo: nat)
    requires Built(sh, vals, t, t0, infos, lo)
    ensures lo < |infos| && infos[lo].start == lo && infos[lo].w == 0 && infos[lo].pat == 0 == Pow2(0) - 1
    ensures sh.Valid() && TableOK(sh, infos[lo])
  {
    hide Cons;
    TableInfo(sh, infos, lo, lo);
  }

  lemma DropNone(v: nat)
    ensures Drop(v, 0) == v
  {
  }

  lemma SubMod(d: nat, l: nat)
    requires l >= 1 && d >= l && d % l == 0
    ensures (d - l) % l == 0
  {
    var q := d / l;
    assert d == 0 + l * q;
    assert d - l == 0 + l * (q - 1);
    if q < 1 {
      MulMono(q, 0, l);
    }
    QuotientUnique(d - l, l, q - 1, 0);
  }

  /** The probe begins with no code of `w + 1` bits. */
  lemma ProbeNotShort(sh: Shape, w: nat, v: nat)
    requires sh.Valid() && Dense(sh.lens, sh.g, sh.l, w + sh.l) && v == Probe(w, sh.l)
    ensures Decode(sh.lens, v).Symbol? ==> Decode(sh.lens, v).len != w + 1
  {
    hide Code;
    hide Low;
    hide Drop;
    hide Decode;
    hide EndCode;
    hide FirstCode;
    if Decode(sh.lens, v).Symbol? && Decode(sh.lens, v).len == w + 1 {
      var s := Decode(sh.lens, v).sym;
      DecodeIff(sh.lens, v, s, w + 1);
      RankBound(sh.lens, s);
      CodeInRange(sh.lens, s, w + 1, Code(v, w + 1));
      WithinLonger(sh, v, w + 1, w + sh.l);
      ProbeBits(w, sh.l, w);
      CodeAppend(v, w, sh.l);
      PatternTop(Pow2(w) - 1, w, sh.l);
      LowSmall(Pow2(w) - 1, w);
      PatternIsLeast(v, Pow2(w) - 1, w, w + sh.l);
    }
  }

  lemma CodeInRange(lens: seq<nat>, s: nat, k: nat, code: nat)
    requires 1 <= k && HasCode(lens, s, k, code)
    ensures code < EndCode(lens, k)
  {
    RankBound(lens, s);
  }

  const UNEVEN: seq<nat> := [1, 3, 3, 3, 3]

  /** A complete code that is not sparse in tables of one bit: one code of one bit and four of three. */
  lemma UnevenIsDense()
    ensures ValidLengths(UNEVEN) && IsLongest(UNEVEN, 3) && EndCode(UNEVEN, 3) == Pow2(3)
    ensures !Sparse(UNEVEN, 3, 1)
  {
    UnevenCounts(1);
    UnevenCounts(2);
    UnevenCounts(3);
    assert EndCode(UNEVEN, 1) == 1;
    assert EndCode(UNEVEN, 2) == 2;
    assert Pow2(2) == 4;
    assert Dense(UNEVEN, 3, 1, 2);
  }

  lemma UnevenCounts(k: nat)
    requires 1 <= k
    ensures Count(UNEVEN, k) == if k == 1 then 1 else if k == 3 then 4 else 0
  {
    assert UNEVEN[..4] == [1, 3, 3, 3];
    assert [1, 3, 3, 3][..3] == [1, 3, 3];
    assert [1, 3, 3][..2] == [1, 3];
    assert [1, 3][..1] == [1];
    assert [1][..0] == [];
    assert Count([1, 3], k) == Count([1], k) + if k == 3 then 1 else 0;
    assert Count([1, 3, 3], k) == Count([1, 3], k) + if k == 3 then 1 else 0;
    assert Count([1, 3, 3, 3], k) == Count([1, 3, 3], k) + if k == 3 then 1 else 0;
  }
}
