/** huft_build: makes multi-level decoding tables from a list of code lengths
    (DuiLib/Utils/XUnzip.cpp).
  */
module Huft {
  import opened Bits
  import opened Canonical
  import opened HuftSpec
  import opened HuftBuild
  import opened HuftTheorem
  import opened HuftSpace

  // ---------- the next code ----------

  /** A code of `s + 1` bits, reversed, has the lowest bit of the code on top. */
  lemma TopBit(d: nat, s: nat)
    ensures Drop(Code(d, s + 1), s) == d % 2
    ensures Code(d, s + 1) == (if d % 2 == 1 then Pow2(s) else 0) + Code(d / 2, s)
  {
    Pow2Shl(0, s);
    ShlZero(s);
    Join(Code(d / 2, s), d % 2, s);
  }

  /** Count the reversed code `i` of `k` bits up by one: the mask `j` of the loop is `1 << s`, and toggling a
      bit that is known subtracts or adds it. */
  method NextCode(i0: nat, k: nat, ghost code: nat) returns (i: nat)
    requires k >= 1 && i0 == Code(code, k)
    ensures i == Code(code + 1, k)
  {
    hide *;
    i := i0;
    var s: int := k - 1;
    ghost var d := code;
    while s >= 0 && Drop(i, s) % 2 == 1
      invariant -1 <= s < k
      invariant i == Code(d, s + 1)
      invariant Code(code + 1, k) == Code(d + 1, s + 1)
    {
      TopBit(d, s);
      TopBit(d + 1, s);
      i := i - Pow2(s);
      s := s - 1;
      d := d / 2;
    }
    NoBits(d);
    NoBits(d + 1);
    if s >= 0 {
      TopBit(d, s);
      TopBit(d + 1, s);
      i := i + Pow2(s);
    }
  }

  lemma NoBits(d: nat)
    ensures Code(d, 0) == 0
  {
  }

  // ---------- the size of a table ----------

  lemma PatternEnd(pat: nat, w: nat, n: nat)
    requires pat < Pow2(w)
    ensures Code(pat, w + n) + Pow2(n) <= Pow2(w + n)
    ensures Code(pat, w + n + 1) == 2 * Code(pat, w + n)
  {
    hide *;
    LowSmall(pat, w);
    PatternIsLeast(pat, pat, w, w + n);
    PatternIsLeast(pat, pat, w, w + n + 1);
    PatternEndShl(pat, w, n);
  }

  lemma PatternEndShl(pat: nat, w: nat, n: nat)
    requires pat < Pow2(w)
    ensures Shl(Code(pat, w), n) + Pow2(n) <= Pow2(w + n)
    ensures Shl(Code(pat, w), n + 1) == 2 * Shl(Code(pat, w), n)
  {
    Pow2Shl(w, n);
    Pow2Shl(0, n);
    ShlAdd(Code(pat, w), 1, n);
    ShlMono(Code(pat, w) + 1, Pow2(w), n);
  }

  /** The counts of codes of each length, with the dummies that fill up the longest length. */
  ghost predicate Counts(sh: Shape, c: seq<nat>) {
    sh.g <= BMAX < |c| && forall k {:trigger c[k]} :: 1 <= k <= sh.g ==> FirstCode(sh.lens, k) + c[k] == sh.Limit(k)
  }

  lemma LimitNext(sh: Shape, c: seq<nat>, k: nat)
    requires sh.Valid() && Counts(sh, c) && 1 <= k < sh.g
    ensures sh.Limit(k + 1) == 2 * sh.Limit(k) + c[k + 1]
  {
  }

  /** The patterns of `j` bits that the codes of up to `w + j` bits leave, after one step. */
  lemma PatternsLeft(sh: Shape, c: seq<nat>, i: nat, w: nat, j: nat)
    requires sh.Valid() && Counts(sh, c) && 1 <= j && 1 <= w + j - 1 < sh.g && i < Pow2(w)
    ensures Code(i, w + j) + Pow2(j) - sh.Limit(w + j) == 2 * (Code(i, w + j - 1) + Pow2(j - 1) - sh.Limit(w + j - 1)) - c[w + j]
  {
    hide Counts;
    hide Code;
    PatternEnd(i, w, j - 1);
    LimitNext(sh, c, w + j - 1);
  }

  /** Compute the least table size, at most `l` bits, that the codes from `code` on use up. */
  method ChooseBits(ghost sh: Shape, c: seq<nat>, g: nat, l: nat, a: nat, k: nat, w: nat, ghost i: nat, ghost code: nat)
    returns (j: nat)
    requires sh.Valid() && g == sh.g && l == sh.l && Counts(sh, c)
    requires w < k <= g && i < Pow2(w) && Code(i, k) == code && code + a + 1 == sh.Limit(k)
    ensures if k - w > l then j == k - w else 1 <= j <= l && j <= g - w
    ensures j < l ==> Code(i, w + j) + Pow2(j) <= sh.Limit(w + j)
    // one bit less would not do
    ensures k - w <= j && (j > k - w ==> Code(i, w + j - 1) + Pow2(j - 1) > EndCode(sh.lens, w + j - 1))
  {
    hide Code;
    hide FirstCode;
    hide EndCode;
    hide Counts;
    hide Pow2;
    var z := g - w;
    if z > l {
      z := l;
    }
    j := k - w;
    var f := Pow2(j);
    PatternEnd(i, w, g - w);
    if f > a + 1 {
      f := f - (a + 1);
      var xp := k;
      if j < z {
        j := j + 1;
        while j < z
          invariant k - w < j <= z && xp == w + j - 1
          invariant f == Code(i, w + j - 1) + Pow2(j - 1) - sh.Limit(w + j - 1) && f > 0
        {
          PatternsLeft(sh, c, i, w, j);
          xp := xp + 1;
          f := 2 * f;
          CountsLength(sh, c);
          if f <= c[xp] {
            break;
          }
          f := f - c[xp];
          j := j + 1;
        }
      }
    }
  }

  lemma CountsLength(sh: Shape, c: seq<nat>)
    requires Counts(sh, c)
    ensures sh.g < |c|
  {
  }

  lemma WidthRight(sh: Shape, i: nat, w: nat, k: nat, code: nat)
    requires sh.Valid() && w < k <= sh.g && Code(i, k) == code && FirstCode(sh.lens, k) <= code < sh.Limit(k)
    ensures k - w > sh.l <==> w + sh.l < sh.g && Code(i, w + sh.l) >= EndCode(sh.lens, w + sh.l)
  {
    hide Code;
    hide FirstCode;
    if k - w > sh.l {
      PastShorter(sh.lens, i, w + sh.l, k);
    } else if w + sh.l < sh.g {
      WithinLonger(sh, i, k, w + sh.l);
    }
  }

  // ---------- the state of the main loop ----------

  ghost predicate State(sh: Shape, vals: Values, t: seq<Entry>, t0: seq<Entry>, infos: seq<Info>, lo: nat,
                        u: seq<nat>, x: seq<nat>, h: int, w: int, i: nat, k: nat, code: nat) {
    && Building(sh, vals, t, t0, infos, lo, u, x, h, k, code)
    && |u| == |x| == BMAX + 1
    && FirstCode(sh.lens, k) <= code <= sh.Limit(k) && code <= Pow2(k) && i == Code(code, k)
    && 0 <= w + sh.l && w < k && i < Pow2(w + sh.l)
    && (if h < 0 then w + sh.l == 0 else w == infos[u[h]].w && Low(i, w) == x[h])
  }

  /** The table that the next code opens. */
  lemma OpensNext(sh: Shape, vals: Values, t: seq<Entry>, t0: seq<Entry>, infos: seq<Info>, lo: nat,
                  u: seq<nat>, x: seq<nat>, h: int, w: int, i: nat, k: nat, code: nat, j: nat)
    requires State(sh, vals, t, t0, infos, lo, u, x, h, w, i, k, code)
    requires code < sh.Limit(k) && code < Pow2(k) && k > w + sh.l
    requires var w' := w + sh.l; if k - w' > sh.l then j == k - w' else 1 <= j <= sh.l && j <= sh.g - w'
    requires j < sh.l ==> Code(i, w + sh.l + j) + Pow2(j) <= sh.Limit(w + sh.l + j)
    ensures h + 1 < BMAX
    ensures Opens(sh, t, infos, lo, u, x, h, k, code, Info(|infos|, w + sh.l, j, i))
  {
    hide ValidLengths;
    hide Code;
    hide Low;
    hide FirstCode;
    hide EndCode;
    hide Registry;
    hide Linked;
    hide Written;
    hide Behind;
    hide Untouched;
    hide Pow2;
    StateShape(sh, vals, t, t0, infos, lo, u, x, h, w, i, k, code);
    WidthRight(sh, i, w + sh.l, k, code);
    NextLevel(sh, infos, lo, u, x, h, w);
    if h >= 0 {
      TableInfo(sh, infos, lo, u[h]);
      CodeFitsTable(sh, infos[u[h]], k, code);
    }
  }

  lemma NextLevel(sh: Shape, infos: seq<Info>, lo: nat, u: seq<nat>, x: seq<nat>, h: int, w: int)
    requires Registry(sh, infos, lo) && StackOK(sh, infos, lo, u, x, h) && sh.l >= 1
    requires if h < 0 then w + sh.l == 0 else w == infos[u[h]].w
    ensures w + sh.l >= 0 && (w + sh.l) % sh.l == 0 && h <= w + sh.l - (if h < 0 then 1 else 0)
  {
    hide Low;
    hide Code;
    if h >= 0 {
      TableInfo(sh, infos, lo, u[h]);
      AddMod(w, sh.l);
    }
  }

  lemma AfterPush(sh: Shape, vals: Values, t: seq<Entry>, t0: seq<Entry>, infos: seq<Info>, lo: nat,
                  u: seq<nat>, x: seq<nat>, h: int, w: int, i: nat, k: nat, code: nat, I: Info)
    requires State(sh, vals, t, t0, infos, lo, u, x, h, w, i, k, code) && k > w + sh.l
    requires Opens(sh, t, infos, lo, u, x, h, k, code, I) && I.pat == i && I.w == w + sh.l && |infos| + Pow2(I.j) <= |t|
    ensures State(sh, vals, WithLink(sh, t, infos, u, h, I), t0, NewInfos(infos, I), lo,
                  u[h + 1 := I.start], x[h + 1 := i], h + 1, w + sh.l, i, k, code)
    ensures h >= 0 ==> LinkIndex(infos, u[h], i) < |infos|
  {
    hide Pow2;
    hide Code;
    hide Low;
    hide FirstCode;
    hide EndCode;
    hide Building;
    hide TableOK;
    BuildingShape(sh, vals, t, t0, infos, lo, u, x, h, k, code);
    PushTable(sh, vals, t, t0, infos, lo, u, x, h, k, code, I);
    assert NewInfos(infos, I)[I.start] == I;
    Pow2Mono(I.w, I.w + sh.l);
    LowSmall(i, I.w);
  }

  lemma BuildingShape(sh: Shape, vals: Values, t: seq<Entry>, t0: seq<Entry>, infos: seq<Info>, lo: nat,
                      u: seq<nat>, x: seq<nat>, h: int, k: nat, code: nat)
    requires Building(sh, vals, t, t0, infos, lo, u, x, h, k, code)
    ensures sh.Valid() && 1 <= k <= sh.g && lo <= |infos| <= |t| == |t0| && -1 <= h < |u| == |x|
    ensures h >= 0 ==> lo <= u[h] < |infos| && infos[u[h]].start == u[h] && infos[u[h]].pat == x[h]
    ensures h >= 0 ==> TableOK(sh, infos[u[h]]) && u[h] + Pow2(infos[u[h]].j) <= |infos|
    ensures h >= 0 ==> u[0] == lo < |infos| && infos[lo].start == lo && infos[lo].w == 0 && infos[lo].pat == x[0] == 0
    ensures h >= 0 ==> infos[u[h]].w >= h
  {
    hide Linked;
    hide Cons;
    hide Behind;
    hide TableOK;
    if h >= 0 {
      TableInfo(sh, infos, lo, u[h]);
      TableInfo(sh, infos, lo, u[0]);
      RootInfo(sh, infos[u[0]]);
    }
  }

  lemma RootInfo(sh: Shape, I: Info)
    requires TableOK(sh, I) && I.w == 0
    ensures I.pat == 0
  {
  }

  lemma StateShape(sh: Shape, vals: Values, t: seq<Entry>, t0: seq<Entry>, infos: seq<Info>, lo: nat,
                   u: seq<nat>, x: seq<nat>, h: int, w: int, i: nat, k: nat, code: nat)
    requires State(sh, vals, t, t0, infos, lo, u, x, h, w, i, k, code)
    ensures sh.Valid() && 1 <= k <= sh.g && lo <= |infos| <= |t| && -1 <= h < |u| == |x| == BMAX + 1 && sh.l >= 1
    ensures 0 <= w + sh.l && w < k && i < Pow2(w + sh.l) && i == Code(code, k)
    ensures h >= 0 ==> lo <= u[h] < |infos| && infos[u[h]].start == u[h] && infos[u[h]].w == w
    ensures h < 0 ==> w + sh.l == 0
    ensures code < Pow2(k) ==> Code(i, k) == code
  {
    hide Building;
    hide Code;
    hide TableOK;
    BuildingShape(sh, vals, t, t0, infos, lo, u, x, h, k, code);
    CodeInvolution(code, k);
    if code < Pow2(k) {
      LowSmall(code, k);
    }
  }

  lemma OutOfSpaceSparse(sh: Shape, infos: seq<Info>, lo: nat)
    requires sh.Valid() && OutOfSpace(sh, infos, lo) && Sparse(sh.lens, sh.g, sh.l)
    ensures |infos| + Pow2(sh.l) > MANY
  {
    hide TableOK;
    hide Entered;
    hide Sparse;
    var I :| Missing(sh, infos, lo, I) && |infos| + Pow2(I.j) > MANY;
    SparseIsNarrow(sh, I);
    Pow2Mono(I.j, sh.l);
  }

  lemma SpaceNeeded(sh: Shape, infos: seq<Info>, lo: nat)
    requires Registry(sh, infos, lo) && NeededOnce(sh, infos, lo) && OutOfSpace(sh, infos, lo)
    ensures lo + Levels(sh.g, sh.l) * Pow2(sh.g) > MANY
  {
    hide TableOK;
    hide Entered;
    hide Registry;
    hide NoTableTwice;
    hide Pow2;
    hide Levels;
    var I :| Missing(sh, infos, lo, I) && |infos| + Pow2(I.j) > MANY;
    RegistryFrom(sh, infos, lo);
    PushNew(sh, infos, lo, I);
    PushRegistry(sh, infos, lo, I);
    EntriesBound(sh, NewInfos(infos, I), lo);
  }

  /** The table that takes the codes up to `limit` bits, if there is one, is at `q` and has `z`
      entries. */
  ghost predicate IsCurrent(infos: seq<Info>, u: seq<nat>, h: int, limit: int, k: nat, q: nat, z: nat) {
    0 <= h < |u| && k <= limit ==> u[h] < |infos| && q == u[h] && z == Pow2(infos[u[h]].j)
  }

  lemma NowCurrent(infos: seq<Info>, u: seq<nat>, h: int, limit: int, k: nat, I: Info)
    requires 0 <= h < |u| && u[h] == I.start < |infos| && infos[u[h]] == I
    ensures IsCurrent(infos, u, h, limit, k, I.start, Pow2(I.j))
  {
  }

  /** Make tables up to the required level: until the code of `k` bits ends in the last table. */
  method OpenTables(ghost sh: Shape, ghost vals: Values, c: seq<nat>, g: nat, l: nat, a: nat, k: nat, i: nat, ghost code: nat,
                    hp: array<Entry>, hn0: nat, ghost t0: seq<Entry>, ghost infos0: seq<Info>, ghost lo: nat,
                    u0: seq<nat>, x0: seq<nat>, h0: int, w0: int, q0: nat, z0: nat)
    returns (ok: bool, hn: nat, u: seq<nat>, x: seq<nat>, h: int, w: int, q: nat, z: nat, ghost infos: seq<Info>)
    requires hp.Length == MANY && |infos0| == hn0
    requires State(sh, vals, hp[..], t0, infos0, lo, u0, x0, h0, w0, i, k, code)
    requires g == sh.g && l == sh.l && Counts(sh, c) && code < Pow2(k) && code + a + 1 == sh.Limit(k)
    requires IsCurrent(infos0, u0, h0, w0 + l, k, q0, z0) && NeededOnce(sh, infos0, lo) && FirstCode(sh.lens, k) <= code
    modifies hp
    ensures |infos| == hn && NeededOnce(sh, infos, lo)
    ensures State(sh, vals, hp[..], t0, infos, lo, u, x, h, w, i, k, code)
    ensures ok ==> h >= 0 && w < k <= w + l && IsCurrent(infos, u, h, w + l, k, q, z)
    ensures !ok ==> OutOfSpace(sh, infos, lo)
  {
    hide *;
    hn, u, x, h, w, q, z, infos := hn0, u0, x0, h0, w0, q0, z0, infos0;
    StateShape(sh, vals, hp[..], t0, infos, lo, u, x, h, w, i, k, code);
    while k > w + l
      invariant |infos| == hn && NeededOnce(sh, infos, lo)
      invariant State(sh, vals, hp[..], t0, infos, lo, u, x, h, w, i, k, code)
      invariant h < 0 ==> w + l == 0
      invariant w < k && IsCurrent(infos, u, h, w + l, k, q, z)
      decreases k - w
    {
      ghost var t := hp[..];
      StateShape(sh, vals, t, t0, infos, lo, u, x, h, w, i, k, code);
      var j := ChooseBits(sh, c, g, l, a, k, w + l, i, code);
      OpensNext(sh, vals, t, t0, infos, lo, u, x, h, w, i, k, code, j);
      NoNarrower(sh, i, w + l, j, k, code, hn);
      ghost var I := Info(hn, w + l, j, i);
      if hn + Pow2(j) > MANY {
        StateMissing(sh, vals, t, t0, infos, lo, u, x, h, w, i, k, code, I);
        return false, hn, u, x, h, w, q, z, infos;
      }
      AfterPush(sh, vals, t, t0, infos, lo, u, x, h, w, i, k, code, I);
      StateMissing(sh, vals, t, t0, infos, lo, u, x, h, w, i, k, code, I);
      PushNew(sh, infos, lo, I);
      if h >= 0 {
        Connect(sh, hp, infos, u, h, w, i, j, l, hn);
      } else {
        FirstTable(sh, t, infos, u, h, I);
      }
      infos := NewInfos(infos, I);
      h := h + 1;
      w := w + l;
      q, z := hn, Pow2(j);
      u := u[h := q];
      x := x[h := i];
      hn := hn + z;
      NowCurrent(infos, u, h, w + l, k, I);
    }
    ok := true;
    StateShape(sh, vals, hp[..], t0, infos, lo, u, x, h, w, i, k, code);
  }

  lemma NoNarrower(sh: Shape, i: nat, w: nat, j: nat, k: nat, code: nat, start: nat)
    requires i < Pow2(w) && w < k <= w + j && Code(i, k) == code && FirstCode(sh.lens, k) <= code
    requires j > k - w ==> Code(i, w + j - 1) + Pow2(j - 1) > EndCode(sh.lens, w + j - 1)
    ensures Narrowest(sh, Info(start, w, j, i))
  {
    hide Code;
    hide Count;
    if j == k - w {
      PatternEnd(i, w, j - 1);
      PowerPositive(j - 1);
    }
  }

  lemma PowerPositive(n: nat)
    ensures Pow2(n) >= 1
  {
  }

  /** The new table is needed and has not been made before. */
  lemma StateMissing(sh: Shape, vals: Values, t: seq<Entry>, t0: seq<Entry>, infos: seq<Info>, lo: nat,
                     u: seq<nat>, x: seq<nat>, h: int, w: int, i: nat, k: nat, code: nat, I: Info)
    requires State(sh, vals, t, t0, infos, lo, u, x, h, w, i, k, code) && code < sh.Limit(k)
    requires Opens(sh, t, infos, lo, u, x, h, k, code, I) && Narrowest(sh, I)
    ensures Missing(sh, infos, lo, I) && lo <= |infos|
    ensures |infos| + Pow2(I.j) > MANY ==> OutOfSpace(sh, infos, lo)
  {
    hide Building;
    hide Opens;
    hide Missing;
    hide Narrowest;
    hide Pow2;
    StateShape(sh, vals, t, t0, infos, lo, u, x, h, w, i, k, code);
    OpensMissing(sh, vals, t, t0, infos, lo, u, x, h, k, code, I);
  }

  lemma FirstTable(sh: Shape, t: seq<Entry>, infos: seq<Info>, u: seq<nat>, h: int, I: Info)
    requires -1 == h < |u|
    ensures WithLink(sh, t, infos, u, h, I) == t
  {
  }

  /** Connect the new table at `q` to the last open one. */
  method Connect(ghost sh: Shape, hp: array<Entry>, ghost infos: seq<Info>, u: seq<nat>, h: int, w: nat,
                 i: nat, j: nat, l: nat, q: nat)
    requires 0 <= h < |u| && u[h] < |infos| == q <= hp.Length && infos[u[h]].w == w && l == sh.l
    requires LinkIndex(infos, u[h], i) < |infos|
    modifies hp
    ensures hp[..] == WithLink(sh, old(hp[..]), infos, u, h, Info(q, w + l, j, i))
  {
    hide Drop;
    var e := u[h] + Drop(i, w);
    hp[e] := Entry(j, l, q - e);
  }

  // ---------- one code ----------

  /** The symbols in order of code length, then of value. */
  ghost predicate ValueTable(lens: seq<nat>, v: seq<nat>, n: nat) {
    && n <= |v|
    && (forall s: nat {:trigger Slot(lens, s)} :: s < |lens| && lens[s] > 0 ==> Slot(lens, s) < n && v[Slot(lens, s)] == s)
  }

  /** How many values the codes of `k` bits before `code` have taken, with all shorter codes. */
  ghost function Taken(lens: seq<nat>, k: nat, code: nat): nat
    requires FirstCode(lens, k) <= code
  {
    var rank := code - FirstCode(lens, k);
    Offset(lens, k) + (if rank < Count(lens, k) then rank else Count(lens, k))
  }

  /** The entry for the next code: `p` counts the values taken so far. */
  method MakeEntry(ghost sh: Shape, vals: Values, v: array<nat>, n: nat, p: nat, r0: Entry, k: nat, w: nat, ghost code: nat)
    returns (r: Entry, p': nat)
    requires sh.Valid() && vals.Covers(|sh.lens|) && ValueTable(sh.lens, v[..], n) && n <= v.Length
    requires w < k <= sh.g && FirstCode(sh.lens, k) <= code < sh.Limit(k)
    requires n == Offset(sh.lens, sh.g) + Count(sh.lens, sh.g)
    requires p == Taken(sh.lens, k, code)
    ensures !IsLink(r) && r.bits == k - w && Codes(sh.lens, vals, k, code, r)
    ensures p' == if code < EndCode(sh.lens, k) then p + 1 else p
  {
    ghost var lens := sh.lens;
    p' := p;
    if code < EndCode(lens, k) {
      var s := SymbolOfRank(lens, k, code - FirstCode(lens, k));
      assert Slot(lens, s) == p && HasCode(lens, s, k, code);
    }
    if k < sh.g {
      OffsetMono(lens, k, sh.g);
    }
    r := r0.(bits := k - w);
    if p >= n {
      r := r.(exop := 128 + 64);
    } else {
      assert code < EndCode(lens, k);
      var s := v[p];
      if s < vals.simple {
        r := r.(exop := if s < 256 then 0 else 32 + 64, base := s);
      } else {
        r := r.(exop := vals.extra[s - vals.simple] + 16 + 64, base := vals.base[s - vals.simple]);
      }
      p' := p + 1;
    }
  }

  /** Fill the code-like entries of the table at `q` with `r`. */
  method FillEntries(hp: array<Entry>, ghost I: Info, q: nat, z: nat, k: nat, w: nat, i: nat, r: Entry)
    requires I.start == q && I.w == w && z == Pow2(I.j) && q + z <= hp.Length && w <= k && i < Pow2(k)
    modifies hp
    ensures Filled(old(hp[..]), hp[..], I, k, i, r)
  {
    hide *;
    ghost var first := Drop(i, w);
    DropBelow(i, w, k - w);
    LowSmall(first, k - w);
    var f := Pow2(k - w);
    var j := Drop(i, w);
    while j < z
      invariant Low(j, k - w) == first
      invariant forall e {:trigger hp[e]} :: 0 <= e < hp.Length ==>
                  hp[e] == if q <= e < q + z && e - q < j && Low(e - q, k - w) == first then r else old(hp[e])
    {
      hp[q + j] := r;
      NextOnly(j, k - w, f);
      j := j + f;
    }
    AllFilled(old(hp[..]), hp[..], I, k, i, r);
  }

  lemma NextOnly(j: nat, n: nat, f: nat)
    requires f == Pow2(n)
    ensures Low(j + f, n) == Low(j, n) && f >= 1
    ensures forall x: nat {:trigger Low(x, n)} :: j <= x < j + f && Low(x, n) == Low(j, n) ==> x == j
  {
    forall x: nat {
      NextWithSameLow(j, x, n);
    }
  }

  lemma AllFilled(t: seq<Entry>, t': seq<Entry>, I: Info, k: nat, i: nat, r: Entry)
    requires |t'| == |t| && I.w <= k && I.start + Pow2(I.j) <= |t|
    requires forall e {:trigger t'[e]} :: 0 <= e < |t| ==>
               t'[e] == if I.start <= e < I.start + Pow2(I.j) && Low(e - I.start, k - I.w) == Drop(i, I.w) then r else t[e]
    ensures Filled(t, t', I, k, i, r)
  {
    hide Low;
    hide Drop;
  }

  /** Back up over finished tables. */
  method CloseTables(ghost sh: Shape, ghost vals: Values, ghost t: seq<Entry>, ghost t0: seq<Entry>, ghost infos: seq<Info>, ghost lo: nat,
                     l: nat, u: seq<nat>, x: seq<nat>, h0: int, w0: nat, i: nat, ghost k: nat, ghost code: nat)
    returns (h: int, w: nat)
    requires Building(sh, vals, t, t0, infos, lo, u, x, h0, k, code + 1) && |u| == BMAX + 1
    requires 0 <= h0 && |x| == |u| && u[h0] < |infos| && w0 == infos[u[h0]].w && l == sh.l && w0 < k <= w0 + l
    requires FirstCode(sh.lens, k) <= code < sh.Limit(k) && code < Pow2(k)
    requires Low(Code(code, k), w0) == x[h0] && i == Code(code + 1, k)
    ensures 0 <= h && State(sh, vals, t, t0, infos, lo, u, x, h, w, i, k, code + 1)
    ensures h != h0 || w != w0 ==> k > w + l
  {
    hide *;
    h, w := h0, w0;
    CodeFitsBits(code + 1, k);
    Pow2Mono(k, w + l);
    BuildingShape(sh, vals, t, t0, infos, lo, u, x, h, k, code + 1);
    while Low(i, w) != x[h]
      invariant 0 <= h <= h0 && Building(sh, vals, t, t0, infos, lo, u, x, h, k, code + 1)
      invariant h < |u| == |x| && u[h] < |infos| && w == infos[u[h]].w < k
      invariant Low(Code(code, k), w) == x[h]
      invariant i < Pow2(w + l)
      invariant h != h0 || w != w0 ==> k > w + l
      decreases h
    {
      BuildingShape(sh, vals, t, t0, infos, lo, u, x, h, k, code + 1);
      RootPattern(sh, vals, t, t0, infos, lo, u, x, h, k, code + 1, i);
      PopTable(sh, vals, t, t0, infos, lo, u, x, h, k, code);
      h := h - 1;
      BuildingShape(sh, vals, t, t0, infos, lo, u, x, h, k, code + 1);
      w := w - l;
    }
    Assemble(sh, vals, t, t0, infos, lo, u, x, h, w, i, k, code + 1);
  }

  lemma CodeFitsBits(c: nat, k: nat)
    ensures Code(c, k) < Pow2(k)
  {
  }

  /** Every pattern belongs to the first table, so the loop stops there. */
  lemma RootPattern(sh: Shape, vals: Values, t: seq<Entry>, t0: seq<Entry>, infos: seq<Info>, lo: nat,
                    u: seq<nat>, x: seq<nat>, h: int, k: nat, code: nat, i: nat)
    requires Building(sh, vals, t, t0, infos, lo, u, x, h, k, code) && h >= 0
    requires u[h] < |infos| && Low(i, infos[u[h]].w) != x[h]
    ensures h >= 1
  {
    BuildingShape(sh, vals, t, t0, infos, lo, u, x, h, k, code);
  }

  lemma Assemble(sh: Shape, vals: Values, t: seq<Entry>, t0: seq<Entry>, infos: seq<Info>, lo: nat,
                 u: seq<nat>, x: seq<nat>, h: int, w: nat, i: nat, k: nat, code: nat)
    requires Building(sh, vals, t, t0, infos, lo, u, x, h, k, code) && h >= 0 && |u| == |x| == BMAX + 1
    requires FirstCode(sh.lens, k) <= code <= sh.Limit(k) && code <= Pow2(k) && i == Code(code, k)
    requires u[h] < |infos| && w == infos[u[h]].w < k && Low(i, w) == x[h] && i < Pow2(w + sh.l)
    ensures State(sh, vals, t, t0, infos, lo, u, x, h, w, i, k, code)
  {
    hide Building;
    hide Code;
    hide Low;
  }

  // ---------- all codes ----------

  lemma AllBuilt(sh: Shape, vals: Values, t: seq<Entry>, t0: seq<Entry>, infos: seq<Info>, lo: nat,
                 u: seq<nat>, x: seq<nat>, h: int, w: int, i: nat, code: nat)
    requires State(sh, vals, t, t0, infos, lo, u, x, h, w, i, sh.g, code) && code == sh.Limit(sh.g) && h >= 0
    ensures Built(sh, vals, t, t0, infos, lo)
  {
    hide Code;
    hide Low;
    hide Cons;
    hide Registry;
    hide Linked;
    hide Behind;
    hide Untouched;
    BuildingShape(sh, vals, t, t0, infos, lo, u, x, h, sh.g, code);
    forall e: nat {:trigger Live(sh, infos, lo, e)} | Live(sh, infos, lo, e) ensures Cons(sh, vals, t, infos, e) {
      CodeFitsBits(PrefixAt(infos, e), sh.g);
    }
  }

  lemma FillsReady(sh: Shape, vals: Values, t: seq<Entry>, t': seq<Entry>, t0: seq<Entry>, infos: seq<Info>, lo: nat,
                   u: seq<nat>, x: seq<nat>, h: int, w: int, i: nat, k: nat, code: nat, r: Entry)
    requires State(sh, vals, t, t0, infos, lo, u, x, h, w, i, k, code) && code < sh.Limit(k) && code < Pow2(k)
    requires 0 <= h && w < k <= w + sh.l
    requires !IsLink(r) && r.bits == k - w && Codes(sh.lens, vals, k, code, r)
    requires u[h] < |infos| && Filled(t, t', infos[u[h]], k, i, r)
    ensures FillsCode(sh, vals, t, t', infos, u, x, h, k, code, r)
  {
    hide Building;
    hide Code;
    hide Low;
    hide FirstCode;
    hide EndCode;
    hide Codes;
    hide Filled;
    BuildingShape(sh, vals, t, t0, infos, lo, u, x, h, k, code);
    CodeFitsTable(sh, infos[u[h]], k, code);
  }

  lemma StateStart(sh: Shape, vals: Values, t: seq<Entry>, infos: seq<Info>, u: seq<nat>, x: seq<nat>, k: nat)
    requires sh.Valid() && 1 <= k <= sh.g && |infos| <= |t| && |u| == |x| == BMAX + 1
    requires FirstCode(sh.lens, k) == 0
    ensures State(sh, vals, t, t, infos, |infos|, u, x, -1, 0 - sh.l, 0, k, 0)
  {
    CodeZero(k);
  }

  lemma StateNextLength(sh: Shape, vals: Values, t: seq<Entry>, t0: seq<Entry>, infos: seq<Info>, lo: nat,
                        u: seq<nat>, x: seq<nat>, h: int, w: int, i: nat, k: nat, code: nat)
    requires State(sh, vals, t, t0, infos, lo, u, x, h, w, i, k, code) && code == sh.Limit(k) && k < sh.g
    ensures State(sh, vals, t, t0, infos, lo, u, x, h, w, i, k + 1, 2 * code)
    ensures 2 * code == FirstCode(sh.lens, k + 1) && code == EndCode(sh.lens, k)
  {
    hide TableOK;
    hide Building;
    hide Low;
    BuildingShape(sh, vals, t, t0, infos, lo, u, x, h, k, code);
    NextLength(sh, vals, t, t0, infos, lo, u, x, h, k, code);
    CodeDouble(code, k);
  }

  lemma TakenStep(lens: seq<nat>, k: nat, code: nat)
    requires 1 <= k && FirstCode(lens, k) <= code
    ensures Taken(lens, k, code + 1) == if code < EndCode(lens, k) then Taken(lens, k, code) + 1 else Taken(lens, k, code)
    ensures code == EndCode(lens, k) ==> Taken(lens, k + 1, 2 * code) == Taken(lens, k, code)
  {
  }

  method BuildTables(ghost sh: Shape, vals: Values, c: seq<nat>, g: nat, l: nat, k0: nat, v: array<nat>, n: nat,
                     hp: array<Entry>, hn0: nat)
    returns (ok: bool, t: nat, hn: nat, ghost infos: seq<Info>)
    requires sh.Valid() && g == sh.g && l == sh.l && Counts(sh, c)
    requires 1 <= k0 <= g && FirstCode(sh.lens, k0) == 0 && Offset(sh.lens, k0) == 0 && sh.Limit(k0) > 0
    requires vals.Covers(|sh.lens|) && ValueTable(sh.lens, v[..], n) && n <= v.Length
    requires n == Offset(sh.lens, g) + Count(sh.lens, g)
    requires hp.Length == MANY && hn0 <= MANY
    modifies hp
    ensures |infos| == hn && NeededOnce(sh, infos, hn0)
    ensures ok ==> t == hn0 && Built(sh, vals, hp[..], old(hp[..]), infos, hn0)
    ensures !ok ==> OutOfSpace(sh, infos, hn0)
    ensures Registry(sh, infos, hn0)
    ensures Untouched(sh, hp[..], old(hp[..]), infos, hn0)
  {
    hide *;
    ghost var t0 := hp[..];
    infos := seq(hn0, _ => Info(0, 0, 0, 0));
    var u, x := seq(BMAX + 1, _ => 0), seq(BMAX + 1, _ => 0);
    var h: int, w: int, i, p, q, z := -1, 0 - l, 0, 0, 0, 0;
    var r := Entry(0, 0, 0);
    ghost var code := 0;
    t, hn := hn0, hn0;
    StateStart(sh, vals, hp[..], infos, u, x, k0);
    TakenStart(sh.lens, k0);
    NoTables(sh, infos, hn0);
    NoneCurrent(infos, u, h, w + l, k0, q, z);
    var k := k0;
    while true
      invariant |infos| == hn && |u| == BMAX + 1 && NeededOnce(sh, infos, hn0)
      invariant State(sh, vals, hp[..], t0, infos, hn0, u, x, h, w, i, k, code)
      invariant code == FirstCode(sh.lens, k) && p == Taken(sh.lens, k, code)
      invariant IsCurrent(infos, u, h, w + l, k, q, z)
      invariant k0 <= k <= g && (k > k0 ==> h >= 0)
      decreases g - k
    {
      CountAt(sh, c, k);
      var a := c[k];
      while a != 0
        invariant |infos| == hn && |u| == BMAX + 1 && NeededOnce(sh, infos, hn0)
        invariant State(sh, vals, hp[..], t0, infos, hn0, u, x, h, w, i, k, code)
        invariant FirstCode(sh.lens, k) <= code && code + a == sh.Limit(k) && p == Taken(sh.lens, k, code)
        invariant IsCurrent(infos, u, h, w + l, k, q, z)
        invariant a <= c[k] && (c[k] != a || k > k0 ==> h >= 0)
      {
        a := a - 1;
        CountAt(sh, c, k);
        ok, hn, u, x, h, w, q, z, infos := OpenTables(sh, vals, c, g, l, a, k, i, code, hp, hn, t0, infos, hn0, u, x, h, w, q, z);
        if !ok {
          StillUntouched(sh, vals, hp[..], t0, infos, hn0, u, x, h, w, i, k, code);
          StateRegistry(sh, vals, hp[..], t0, infos, hn0, u, x, h, w, i, k, code);
          return;
        }
        ReadyToFill(sh, vals, hp[..], t0, infos, hn0, u, x, h, w, i, k, code, q, z);
        r, p := MakeEntry(sh, vals, v, n, p, r, k, w, code);
        ghost var before := hp[..];
        FillEntries(hp, infos[u[h]], q, z, k, w, i, r);
        FillsReady(sh, vals, before, hp[..], t0, infos, hn0, u, x, h, w, i, k, code, r);
        FillCode(sh, vals, before, hp[..], t0, infos, hn0, u, x, h, k, code, r);
        i := NextCode(i, k, code);
        ghost var h0, w0 := h, w;
        h, w := CloseTables(sh, vals, hp[..], t0, infos, hn0, l, u, x, h, w, i, k, code);
        KeepCurrent(infos, u, h0, w0 + l, k, h, w + l, k, q, z);
        TakenStep(sh.lens, k, code);
        code := code + 1;
      }
      if k == g {
        break;
      }
      StateNextLength(sh, vals, hp[..], t0, infos, hn0, u, x, h, w, i, k, code);
      KeepCurrent(infos, u, h, w + l, k, h, w + l, k + 1, q, z);
      TakenStep(sh.lens, k, code);
      code := 2 * code;
      k := k + 1;
    }
    AllBuilt(sh, vals, hp[..], t0, infos, hn0, u, x, h, w, i, code);
    StateRegistry(sh, vals, hp[..], t0, infos, hn0, u, x, h, w, i, k, code);
    StillUntouched(sh, vals, hp[..], t0, infos, hn0, u, x, h, w, i, k, code);
    ok := true;
  }

  lemma NoTables(sh: Shape, infos: seq<Info>, lo: nat)
    requires |infos| == lo
    ensures NeededOnce(sh, infos, lo)
  {
  }

  lemma StateRegistry(sh: Shape, vals: Values, t: seq<Entry>, t0: seq<Entry>, infos: seq<Info>, lo: nat,
                      u: seq<nat>, x: seq<nat>, h: int, w: int, i: nat, k: nat, code: nat)
    requires State(sh, vals, t, t0, infos, lo, u, x, h, w, i, k, code)
    ensures Registry(sh, infos, lo)
  {
    hide Registry;
    hide StackOK;
    hide Linked;
    hide Written;
    hide Behind;
    hide Untouched;
  }

  lemma NoneCurrent(infos: seq<Info>, u: seq<nat>, h: int, limit: int, k: nat, q: nat, z: nat)
    requires h < 0
    ensures IsCurrent(infos, u, h, limit, k, q, z)
  {
  }

  /** A closed table is not used again; a shorter code would have fitted too. */
  lemma KeepCurrent(infos: seq<Info>, u: seq<nat>, h0: int, limit0: int, k0: nat, h: int, limit: int, k: nat, q: nat, z: nat)
    requires IsCurrent(infos, u, h0, limit0, k0, q, z) && k0 <= k
    requires (h == h0 && limit == limit0) || k > limit
    ensures IsCurrent(infos, u, h, limit, k, q, z)
  {
  }

  lemma CountAt(sh: Shape, c: seq<nat>, k: nat)
    requires sh.Valid() && Counts(sh, c) && 1 <= k <= sh.g
    ensures k < |c| && FirstCode(sh.lens, k) + c[k] == sh.Limit(k) <= Pow2(k)
  {
    hide FirstCode;
    if k < sh.g && EndCode(sh.lens, k) > Pow2(k) {
      EndGrows(sh.lens, k, sh.g);
    }
  }

  lemma StillUntouched(sh: Shape, vals: Values, t: seq<Entry>, t0: seq<Entry>, infos: seq<Info>, lo: nat,
                       u: seq<nat>, x: seq<nat>, h: int, w: int, i: nat, k: nat, code: nat)
    requires State(sh, vals, t, t0, infos, lo, u, x, h, w, i, k, code)
    ensures Untouched(sh, t, t0, infos, lo)
  {
    hide Untouched;
  }

  lemma ReadyToFill(sh: Shape, vals: Values, t: seq<Entry>, t0: seq<Entry>, infos: seq<Info>, lo: nat,
                    u: seq<nat>, x: seq<nat>, h: int, w: int, i: nat, k: nat, code: nat, q: nat, z: nat)
    requires State(sh, vals, t, t0, infos, lo, u, x, h, w, i, k, code) && 0 <= h && w < k <= w + sh.l
    requires IsCurrent(infos, u, h, w + sh.l, k, q, z)
    ensures 0 <= w && h < |u| == |x| && u[h] < |infos| && infos[u[h]].start == q == u[h] && infos[u[h]].w == w
    ensures z == Pow2(infos[u[h]].j) && q + z <= |t| && i == Code(code, k) < Pow2(k)
    ensures Low(Code(code, k), w) == x[h] && |u| == BMAX + 1
    ensures Building(sh, vals, t, t0, infos, lo, u, x, h, k, code)
  {
    hide Building;
    BuildingShape(sh, vals, t, t0, infos, lo, u, x, h, k, code);
  }

  lemma TakenStart(lens: seq<nat>, k: nat)
    requires FirstCode(lens, k) == 0 && Offset(lens, k) == 0
    ensures Taken(lens, k, 0) == 0
  {
  }

  // ---------- lengths, offsets and values ----------

  datatype Status = Ok | BufError | DataError | MemError

  ghost predicate AllZero(b: seq<nat>) {
    forall i :: 0 <= i < |b| ==> b[i] == 0
  }

  lemma {:induction false} AllZeroCount(b: seq<nat>)
    ensures Count(b, 0) == |b| <==> AllZero(b)
  {
    if b != [] {
      AllZeroCount(b[..|b| - 1]);
    }
  }

  /** How many symbols have each length. */
  method CountLengths(b: seq<nat>) returns (c: seq<nat>)
    requires ValidLengths(b)
    ensures |c| == BMAX + 1 && forall k {:trigger c[k]} :: 0 <= k <= BMAX ==> c[k] == Count(b, k)
  {
    c := seq(BMAX + 1, _ => 0);
    for i := 0 to |b|
      invariant |c| == BMAX + 1 && forall k {:trigger c[k]} :: 0 <= k <= BMAX ==> c[k] == Count(b[..i], k)
    {
      forall k: nat {:trigger Count(b[..i + 1], k)}
        ensures Count(b[..i + 1], k) == Count(b[..i], k) + (if b[i] == k then 1 else 0)
      {
        CountStep(b, i, k);
      }
      c := c[b[i] := c[b[i]] + 1];
    }
    assert b[..|b|] == b;
  }

  lemma {:induction false} CountPositive(b: seq<nat>, k: nat)
    ensures Count(b, k) > 0 <==> exists i :: 0 <= i < |b| && b[i] == k
  {
    if b != [] {
      CountPositive(b[..|b| - 1], k);
    }
  }

  /** The minimum and the maximum length in use. */
  method Extremes(b: seq<nat>, c: seq<nat>) returns (least: nat, g: nat)
    requires ValidLengths(b) && !AllZero(b)
    requires |c| == BMAX + 1 && forall k {:trigger c[k]} :: 0 <= k <= BMAX ==> c[k] == Count(b, k)
    ensures 1 <= least <= g <= BMAX && Count(b, least) > 0 && IsLongest(b, g)
    ensures forall k {:trigger Count(b, k)} :: 1 <= k < least ==> Count(b, k) == 0
  {
    var some :| 0 <= some < |b| && b[some] != 0;
    CountPositive(b, b[some]);
    least := 1;
    while least <= BMAX && c[least] == 0
      invariant 1 <= least <= b[some]
      invariant forall k {:trigger Count(b, k)} :: 1 <= k < least ==> Count(b, k) == 0
    {
      least := least + 1;
    }
    g := BMAX;
    while g != 0 && c[g] == 0
      invariant b[some] <= g <= BMAX
      invariant forall k {:trigger Count(b, k)} :: g < k <= BMAX ==> Count(b, k) == 0
    {
      g := g - 1;
    }
    forall i | 0 <= i < |b| ensures b[i] <= g {
      CountPositive(b, b[i]);
    }
  }

  lemma {:induction false} NoneShorter(b: seq<nat>, k: nat)
    requires forall j {:trigger Count(b, j)} :: 1 <= j < k ==> Count(b, j) == 0
    ensures FirstCode(b, k) == 0 && Offset(b, k) == 0
  {
    if k > 1 {
      NoneShorter(b, k - 1);
    }
  }

  /** The number of dummy codes that fill up the longest length; negative when the lengths are
      over-subscribed. */
  method Dummies(b: seq<nat>, c: seq<nat>, least: nat, g: nat) returns (y: int)
    requires ValidLengths(b) && 1 <= least <= g <= BMAX
    requires |c| == BMAX + 1 && forall k {:trigger c[k]} :: 0 <= k <= BMAX ==> c[k] == Count(b, k)
    requires forall k {:trigger Count(b, k)} :: 1 <= k < least ==> Count(b, k) == 0
    ensures y >= 0 ==> y == Pow2(g) - EndCode(b, g)
    ensures y < 0 ==> EndCode(b, BMAX) > Pow2(BMAX)
  {
    NoneShorter(b, least);
    y := Pow2(least);
    var j := least;
    while j < g
      invariant least <= j <= g && y == Pow2(j) - FirstCode(b, j)
    {
      y := y - c[j];
      if y < 0 {
        EndGrows(b, j, BMAX);
        return;
      }
      y := 2 * y;
      j := j + 1;
    }
    y := y - c[g];
    if y < 0 {
      EndGrows(b, g, BMAX);
    }
  }

  /** The patterns left over at the longest length double with every further bit. */
  lemma {:induction false} SlackDoubles(b: seq<nat>, g: nat, k: nat)
    requires 1 <= g <= k && forall i :: 0 <= i < |b| ==> b[i] <= g
    requires EndCode(b, g) <= Pow2(g)
    ensures EndCode(b, k) <= Pow2(k) && (EndCode(b, k) == Pow2(k) <==> EndCode(b, g) == Pow2(g))
  {
    if g < k {
      SlackDoubles(b, g, k - 1);
      CountAbove(b, g, k);
    }
  }

  /** Where the symbols of each length begin in the sorted table. */
  method Offsets(b: seq<nat>, c: seq<nat>, g: nat) returns (x: seq<nat>)
    requires 1 <= g <= BMAX && |c| == BMAX + 1 && forall k {:trigger c[k]} :: 1 <= k < g ==> c[k] == Count(b, k)
    ensures |x| == BMAX + 1 && forall k {:trigger x[k]} :: 1 <= k <= g ==> x[k] == Offset(b, k)
  {
    x := seq(BMAX + 1, _ => 0);
    var j := 0;
    var i := 1;
    while i < g
      invariant 1 <= i <= g && j == Offset(b, i)
      invariant |x| == BMAX + 1 && forall k {:trigger x[k]} :: 1 <= k <= i ==> x[k] == Offset(b, k)
    {
      j := j + c[i];
      i := i + 1;
      x := x[i := j];
    }
  }

  ghost predicate ValuesFilled(b: seq<nat>, v: seq<nat>, i: nat)
    requires i <= |b|
  {
    forall s: nat {:trigger Slot(b, s)} :: s < i && b[s] > 0 ==> Slot(b, s) < |v| && v[Slot(b, s)] == s
  }

  lemma FillValue(b: seq<nat>, v: seq<nat>, i: nat)
    requires i < |b| <= |v| && ValuesFilled(b, v, i) && b[i] > 0
    ensures Slot(b, i) < |v| && ValuesFilled(b, v[Slot(b, i) := i], i + 1)
  {
    RankBound(b, i);
    OffsetBound(b, b[i]);
    var v' := v[Slot(b, i) := i];
    forall s: nat {:trigger Slot(b, s)} | s < i + 1 && b[s] > 0 ensures Slot(b, s) < |v'| && v'[Slot(b, s)] == s {
      if s < i && Slot(b, s) == Slot(b, i) {
        SlotInjective(b, s, i);
      }
    }
  }

  /** Sort the symbols by the lengths of their codes. */
  method SortValues(b: seq<nat>, x0: seq<nat>, g: nat, v: array<nat>) returns (n: nat)
    requires ValidLengths(b) && IsLongest(b, g) && 1 <= g <= BMAX && |b| <= v.Length
    requires |x0| == BMAX + 1 && forall k {:trigger x0[k]} :: 1 <= k <= g ==> x0[k] == Offset(b, k)
    modifies v
    ensures n == Offset(b, g) + Count(b, g) && n <= v.Length
    ensures ValueTable(b, v[..], n)
  {
    var x := x0;
    for i := 0 to |b|
      invariant |x| == BMAX + 1 && forall k {:trigger x[k]} :: 1 <= k <= g ==> x[k] == Offset(b, k) + Count(b[..i], k)
      invariant ValuesFilled(b, v[..], i)
    {
      forall k: nat {:trigger Count(b[..i + 1], k)}
        ensures Count(b[..i + 1], k) == Count(b[..i], k) + (if b[i] == k then 1 else 0)
      {
        CountStep(b, i, k);
      }
      var j := b[i];
      if j != 0 {
        FillValue(b, v[..], i);
        ghost var before := v[..];
        v[x[j]] := i;
        assert v[..] == before[Slot(b, i) := i];
        x := x[j := x[j] + 1];
      }
    }
    assert b[..|b|] == b;
    n := x[g];
    OffsetBound(b, g);
    AllSlots(b, g, v[..], n);
  }

  lemma AllSlots(b: seq<nat>, g: nat, v: seq<nat>, n: nat)
    requires IsLongest(b, g) && 1 <= g && n == Offset(b, g) + Count(b, g) <= |v|
    requires ValuesFilled(b, v, |b|)
    ensures ValueTable(b, v, n)
  {
    forall s: nat {:trigger Slot(b, s)} | s < |b| && b[s] > 0 ensures Slot(b, s) < n && v[Slot(b, s)] == s {
      RankBound(b, s);
      if b[s] < g {
        OffsetMono(b, b[s], g);
      }
    }
  }

  // ---------- huft_build ----------

  ghost predicate IsShortest(lens: seq<nat>, k: nat) {
    1 <= k && Count(lens, k) > 0 && forall i :: 0 <= i < |lens| && lens[i] > 0 ==> k <= lens[i]
  }

  function Clamp(m: nat, least: nat, g: nat): nat {
    var l := if m < least then least else m;
    if l > g then g else l
  }

  lemma NoneLonger(b: seq<nat>)
    requires AllZero(b)
    ensures EndCode(b, BMAX) <= Pow2(BMAX)
  {
    forall k: nat {:trigger Count(b, k)} | 1 <= k <= BMAX ensures Count(b, k) == 0 {
      CountPositive(b, k);
    }
    NoneShorter(b, BMAX);
  }

  lemma UntouchedBelow(sh: Shape, t: seq<Entry>, t0: seq<Entry>, infos: seq<Info>, lo: nat)
    requires Untouched(sh, t, t0, infos, lo)
    ensures forall e {:trigger t[e]} :: 0 <= e < lo && e < |t| ==> t[e] == t0[e]
  {
  }

  lemma LeastIsShortest(b: seq<nat>, least: nat)
    requires 1 <= least && Count(b, least) > 0
    requires forall k {:trigger Count(b, k)} :: 1 <= k < least ==> Count(b, k) == 0
    ensures IsShortest(b, least)
  {
    forall i | 0 <= i < |b| && b[i] > 0 ensures least <= b[i] {
      CountPositive(b, b[i]);
    }
  }

  lemma SetUp(b: seq<nat>, c: seq<nat>, least: nat, g: nat, m: nat, y: nat)
    requires ValidLengths(b) && IsLongest(b, g) && IsShortest(b, least) && 1 <= least <= g <= BMAX && least <= m <= g
    requires y == Pow2(g) - EndCode(b, g)
    requires |c| == BMAX + 1 && forall k {:trigger c[k]} :: 1 <= k <= BMAX ==> c[k] == Count(b, k) + (if k == g then y else 0)
    ensures Shape(b, g, m).Valid() && Counts(Shape(b, g, m), c) && Shape(b, g, m).Limit(least) > 0
    ensures y == 0 <==> EndCode(b, BMAX) == Pow2(BMAX)
    ensures EndCode(b, BMAX) <= Pow2(BMAX)
    ensures IsLongest(b, 1) <==> g == 1
  {
    hide Count;
    hide FirstCode;
    hide Pow2;
    hide ValidLengths;
    SlackDoubles(b, g, BMAX);
    CountPositive(b, g);
  }

  /** huft_build: tables for the code lengths `b` go into `hp` from entry `hn0` on; the first is to be looked up
      with `m0` bits.  `g` is the longest length. */
  method Build(b: seq<nat>, vals: Values, m0: nat, hp: array<Entry>, hn0: nat, v: array<nat>)
    returns (r: Status, t: nat, m: nat, hn: nat, ghost g: nat, ghost infos: seq<Info>)
    requires b != [] && ValidLengths(b) && vals.Covers(|b|) && |b| <= v.Length
    requires hp.Length == MANY && hn0 <= MANY
    modifies hp, v
    // no codes: no table
    ensures AllZero(b) ==> r == Ok && m == 0 && hn == hn0 && hp[..] == old(hp[..])
    ensures !AllZero(b) ==> 1 <= m <= g && IsLongest(b, g) && exists least :: IsShortest(b, least) && m == Clamp(m0, least, g)
    // over-subscribed exactly when the Kraft sum exceeds one
    ensures r == DataError <==> EndCode(b, BMAX) > Pow2(BMAX)
    ensures r == DataError ==> hp[..] == old(hp[..])
    // the entries from `hn0` to `hn` are those of tables that codes enter, none of them made twice
    ensures !AllZero(b) && r != DataError ==>
              |infos| == hn && Registry(Shape(b, g, m), infos, hn0) && NeededOnce(Shape(b, g, m), infos, hn0)
    // space runs out only when one more table that a code enters, which for a sparse code is no larger
    // than the first, does not fit behind them
    ensures r == MemError ==>
              !AllZero(b) && OutOfSpace(Shape(b, g, m), infos, hn0) && (Sparse(b, g, m) ==> hn + Pow2(m) > MANY)
    // which takes a long code
    ensures !AllZero(b) && hn0 + Levels(g, m) * Pow2(g) <= MANY ==> r != MemError
    // otherwise the code is incomplete exactly when the sum is below one, except for a single code
    // of one bit
    ensures r != DataError && r != MemError && !AllZero(b) ==>
              (r == BufError <==> EndCode(b, BMAX) < Pow2(BMAX) && !IsLongest(b, 1))
    // the tables
    ensures (r == Ok || r == BufError) && !AllZero(b) ==>
              t == hn0 && |infos| == hn <= MANY && Built(Shape(b, g, m), vals, hp[..], old(hp[..]), infos, hn0)
    ensures forall e {:trigger hp[e]} :: 0 <= e < hn0 ==> hp[e] == old(hp[e])
  {
    hide *;
    var c := CountLengths(b);
    AllZeroCount(b);
    infos := [];
    g := 0;
    if c[0] == |b| {
      NoneLonger(b);
      return Ok, 0, 0, hn0, g, infos;
    }
    var least, longest := Extremes(b, c);
    g := longest;
    LeastIsShortest(b, least);
    m := Clamp(m0, least, longest);
    ClampRange(m0, least, longest);
    var y := Dummies(b, c, least, longest);
    if y < 0 {
      return DataError, 0, m, hn0, g, infos;
    }
    c := c[longest := c[longest] + y];
    SetUp(b, c, least, longest, m, y);
    var x := Offsets(b, c, longest);
    var n := SortValues(b, x, longest, v);
    ghost var sh := Shape(b, g, m);
    NoneShorter(b, least);
    var ok;
    ok, t, hn, infos := BuildTables(sh, vals, c, longest, m, least, v, n, hp, hn0);
    UntouchedBelow(sh, hp[..], old(hp[..]), infos, hn0);
    if !ok {
      if Sparse(b, g, m) {
        OutOfSpaceSparse(sh, infos, hn0);
      }
      SpaceNeeded(sh, infos, hn0);
      return MemError, t, m, hn, g, infos;
    }
    BuiltSize(sh, vals, hp[..], old(hp[..]), infos, hn0);
    r := if y != 0 && longest != 1 then BufError else Ok;
  }

  lemma BuiltSize(sh: Shape, vals: Values, t: seq<Entry>, t0: seq<Entry>, infos: seq<Info>, lo: nat)
    requires Built(sh, vals, t, t0, infos, lo)
    ensures |infos| <= |t|
  {
    hide Registry;
    hide Cons;
    hide Untouched;
  }

  lemma ClampRange(m: nat, least: nat, g: nat)
    requires least <= g
    ensures least <= Clamp(m, least, g) <= g
  {
  }
}
