/** What the table builder keeps while it makes the tables, one code after the other: the lemmas
    behind the main loop of huft_build (DuiLib/Utils/XUnzip.cpp).

    The builder has come to the code `code` of `k` bits; `i` is that code with its bits reversed.
    It keeps a stack of open tables, `u[0]` to `u[h]`, entered by the bit patterns `x[0]` to `x[h]`.
  */
module HuftBuild {
  import opened Bits
  import opened Canonical
  import opened HuftSpec

  // ---------- the invariant ----------

  /** The open tables: each continues the pattern of the one before it. */
  ghost predicate StackOK(sh: Shape, infos: seq<Info>, lo: nat, u: seq<nat>, x: seq<nat>, h: int) {
    && -1 <= h < |u| == |x|
    && (h < 0 ==> |infos| == lo)
    && (forall m: nat {:trigger u[m]} {:trigger x[m]} :: m <= h ==>
          lo <= u[m] < |infos| && infos[u[m]].start == u[m] && infos[u[m]].pat == x[m] && infos[u[m]].w >= m)
    && (h >= 0 ==> u[0] == lo && infos[u[0]].w == 0)
    && (forall m: nat, n: nat {:trigger u[m], u[n]} :: m < n <= h ==>
          && infos[u[m]].w + sh.l <= infos[u[n]].w
          && (n == m + 1 ==> infos[u[m]].w + sh.l == infos[u[n]].w)
          && x[m] == Low(x[n], infos[u[m]].w))
  }

  /** Entry `e` of table `from` links to table `to`. */
  ghost predicate LinksTo(sh: Shape, t: seq<Entry>, infos: seq<Info>, from: nat, to: nat, e: nat) {
    && from < |infos| && e < to < |infos| <= |t|
    && infos[e] == infos[from] && sh.l <= infos[from].j
    && t[e] == Entry(infos[to].j, sh.l, to - e)
  }

  /** Every open table is linked from the one before it. */
  ghost predicate Linked(sh: Shape, t: seq<Entry>, infos: seq<Info>, u: seq<nat>, x: seq<nat>, h: int)
    requires h < |u| == |x|
  {
    forall m: nat {:trigger LinkedAt(sh, t, infos, u, x, m)} :: m < h ==> LinkedAt(sh, t, infos, u, x, m)
  }

  ghost predicate LinkedAt(sh: Shape, t: seq<Entry>, infos: seq<Info>, u: seq<nat>, x: seq<nat>, m: nat)
    requires m + 1 < |u| == |x|
  {
    u[m] < |infos| && LinksTo(sh, t, infos, u[m], u[m + 1], u[m] + Drop(x[m + 1], infos[u[m]].w))
  }

  /** All entries for codes before `code` are right. */
  ghost predicate Written(sh: Shape, vals: Values, t: seq<Entry>, infos: seq<Info>, lo: nat, k: nat, code: nat) {
    && |infos| <= |t|
    && (forall e: nat {:trigger Live(sh, infos, lo, e)} ::
          Live(sh, infos, lo, e) && Code(PrefixAt(infos, e), k) < code ==> Cons(sh, vals, t, infos, e))
  }

  ghost predicate OnStack(u: seq<nat>, h: int, start: nat)
    requires h < |u|
  {
    exists m: nat {:trigger u[m]} :: m <= h && u[m] == start
  }

  /** All entries of tables that are no longer open are for codes before `code`. */
  ghost predicate Behind(sh: Shape, infos: seq<Info>, lo: nat, u: seq<nat>, h: int, k: nat, code: nat)
    requires h < |u|
  {
    forall e: nat {:trigger Live(sh, infos, lo, e)} ::
      Live(sh, infos, lo, e) ==> OnStack(u, h, infos[e].start) || Code(PrefixAt(infos, e), k) < code
  }

  /** Nothing outside the used part of the tables has been written. */
  ghost predicate Untouched(sh: Shape, t: seq<Entry>, t0: seq<Entry>, infos: seq<Info>, lo: nat) {
    && |t| == |t0|
    && (forall e: nat {:trigger t[e]} :: e < |t| && !Live(sh, infos, lo, e) ==> t[e] == t0[e])
  }

  ghost predicate Building(sh: Shape, vals: Values, t: seq<Entry>, t0: seq<Entry>, infos: seq<Info>, lo: nat,
                           u: seq<nat>, x: seq<nat>, h: int, k: nat, code: nat) {
    && sh.Valid() && 1 <= k <= sh.g
    && Registry(sh, infos, lo)
    && StackOK(sh, infos, lo, u, x, h)
    && Linked(sh, t, infos, u, x, h)
    && Written(sh, vals, t, infos, lo, k, code)
    && Behind(sh, infos, lo, u, h, k, code)
    && Untouched(sh, t, t0, infos, lo)
  }

  // ---------- reversed codes ----------

  /** The low bits of a reversed code are its leading bits. */
  lemma ReversedParts(c: nat, w: nat, n: nat)
    ensures Low(Code(c, w + n), w) == Code(Drop(c, n), w)
    ensures Drop(Code(c, w + n), w) == Code(c, n)
  {
    CodeAppend(c, n, w);
    Join(Code(Drop(c, n), w), Code(c, n), w);
  }

  lemma {:induction false} CodeZero(k: nat)
    ensures Code(0, k) == 0
  {
    if k > 0 {
      CodeZero(k - 1);
    }
  }

  /** A pattern of `w` bits, followed by zeros, is the first of the codes it begins. */
  lemma PatternIsLeast(p: nat, i: nat, w: nat, k: nat)
    requires i < Pow2(w) && w <= k && Low(p, w) == i
    ensures Code(p, k) >= Code(i, k) == Shl(Code(i, w), k - w)
  {
    hide *;
    CodeAppend(p, w, k - w);
    CodeAppend(i, w, k - w);
    LowSmall(i, w);
    CodeZero(k - w);
    CodeLow(p, w);
  }

  lemma {:induction false} DropMono(a: nat, b: nat, n: nat)
    requires a <= b
    ensures Drop(a, n) <= Drop(b, n)
  {
    if n > 0 {
      DropMono(a / 2, b / 2, n - 1);
    }
  }

  /** Counting up changes the high bits only when the low bits become zero. */
  lemma {:induction false} CarryLeavesZeros(c: nat, n: nat)
    requires Drop(c + 1, n) != Drop(c, n)
    ensures Low(c + 1, n) == 0
  {
    if n > 0 {
      assert c % 2 == 1 && (c + 1) / 2 == c / 2 + 1;
      CarryLeavesZeros(c / 2, n - 1);
    }
  }

  /** When the next code leaves a table, its pattern ends where the table began, and all codes of
      the table come before it. */
  lemma LeaveTable(c: nat, w: nat, n: nat)
    requires c < Pow2(w + n)
    requires Low(Code(c + 1, w + n), w) != Low(Code(c, w + n), w)
    ensures Code(c + 1, w + n) < Pow2(w)
    ensures forall p: nat :: Low(p, w) == Low(Code(c, w + n), w) ==> Code(p, w + n) < c + 1
  {
    ReversedParts(c, w, n);
    ReversedParts(c + 1, w, n);
    CarryLeavesZeros(c, n);
    CodeLow(c + 1, n);
    CodeZero(n);
    Split(Code(c + 1, w + n), w);
    ShlZero(w);
    forall p: nat | Low(p, w) == Low(Code(c, w + n), w) ensures Code(p, w + n) < c + 1 {
      LeadingBits(c, w, n, p);
      if Code(p, w + n) >= c + 1 {
        DropMono(c + 1, Code(p, w + n), n);
        DropMono(c, c + 1, n);
      }
    }
  }

  lemma LeadingBits(c: nat, w: nat, n: nat, p: nat)
    requires c < Pow2(w + n) && Low(p, w) == Low(Code(c, w + n), w)
    ensures Drop(Code(p, w + n), n) == Drop(c, n)
  {
    ReversedParts(c, w, n);
    CodeBelow(p, w, n, 0);
    CodeLow(p, w);
    CodeInvolution(Drop(c, n), w);
    DropBelow(c, n, w);
    LowSmall(Drop(c, n), w);
  }

  lemma {:induction false} DropBelow(c: nat, n: nat, w: nat)
    requires c < Pow2(w + n)
    ensures Drop(c, n) < Pow2(w)
  {
    if n > 0 {
      DropBelow(c / 2, n - 1, w);
    }
  }

  // ---------- opening a table ----------

  lemma {:induction false} AddMod(w: nat, l: nat)
    requires l >= 1 && w % l == 0
    ensures (w + l) % l == 0
  {
    var q := w / l;
    assert w == 0 + l * q;
    assert w + l == 0 + l * (q + 1);
    QuotientUnique(w + l, l, q + 1, 0);
  }

  ghost function NewInfos(infos: seq<Info>, I: Info): (r: seq<Info>)
    ensures |r| == |infos| + Pow2(I.j)
    ensures forall e: nat {:trigger r[e]} :: e < |r| ==> r[e] == if e < |infos| then infos[e] else I
  {
    infos + seq(Pow2(I.j), _ => I)
  }

  lemma PushEntry(sh: Shape, infos: seq<Info>, lo: nat, I: Info, infos': seq<Info>, e: nat)
    requires Registry(sh, infos, lo) && I.start == |infos| && TableOK(sh, I)
    requires infos' == NewInfos(infos, I) && lo <= e < |infos'|
    ensures InTable(infos', lo, e) && TableOK(sh, infos'[e])
  {
    hide TableOK;
    if e < |infos| {
      assert infos'[e] == infos[e];
      assert InTable(infos, lo, e) && TableOK(sh, infos[e]);
      forall e': int {:trigger infos'[e']} | infos[e].start <= e' < infos[e].start + Pow2(infos[e].j)
        ensures infos'[e'] == infos[e]
      {
        assert infos[e'] == infos[e];
      }
    }
  }

  lemma PushRegistry(sh: Shape, infos: seq<Info>, lo: nat, I: Info)
    requires Registry(sh, infos, lo) && I.start == |infos| && TableOK(sh, I)
    ensures Registry(sh, NewInfos(infos, I), lo)
  {
    hide TableOK;
    hide InTable;
    var infos' := NewInfos(infos, I);
    forall e: int {:trigger infos'[e]} {:trigger InTable(infos', lo, e)} {:trigger TableOK(sh, infos'[e])} | lo <= e < |infos'|
      ensures InTable(infos', lo, e) && TableOK(sh, infos'[e])
    {
      PushEntry(sh, infos, lo, I, infos', e);
    }
    assert Registry(sh, infos', lo);
  }

  lemma PushStack(sh: Shape, infos: seq<Info>, lo: nat, I: Info, u: seq<nat>, x: seq<nat>, h: int)
    requires StackOK(sh, infos, lo, u, x, h) && sh.l >= 1 && h + 1 < |u|
    requires I.start == |infos| >= lo
    requires h < 0 ==> I.w == 0
    requires h >= 0 ==> I.w == infos[u[h]].w + sh.l && Low(I.pat, infos[u[h]].w) == x[h]
    ensures StackOK(sh, NewInfos(infos, I), lo, u[h + 1 := I.start], x[h + 1 := I.pat], h + 1)
  {
    hide Drop;
    var infos', u', x' := NewInfos(infos, I), u[h + 1 := I.start], x[h + 1 := I.pat];
    assert infos'[I.start] == I;
    forall m: nat, n: nat {:trigger u'[m], u'[n]} | m < n <= h + 1
      ensures infos'[u'[m]].w + sh.l <= infos'[u'[n]].w
      ensures n == m + 1 ==> infos'[u'[m]].w + sh.l == infos'[u'[n]].w
      ensures x'[m] == Low(x'[n], infos'[u'[m]].w)
    {
      assert infos'[u[m]] == infos[u[m]];
      if n == h + 1 && m < h {
        assert infos[u[m]].w + sh.l <= infos[u[h]].w && x[m] == Low(x[h], infos[u[m]].w);
        LowLow(I.pat, infos[u[m]].w, infos[u[h]].w);
      }
    }
  }

  /** The entry of the open table that the pattern `i` selects. */
  ghost function LinkIndex(infos: seq<Info>, u: nat, i: nat): nat
    requires u < |infos|
  {
    u + Drop(i, infos[u].w)
  }

  lemma LinkEntry(sh: Shape, infos: seq<Info>, lo: nat, u: nat, i: nat)
    requires Registry(sh, infos, lo) && lo <= u < |infos| && infos[u].start == u
    requires sh.l <= infos[u].j && i < Pow2(infos[u].w + sh.l) && Low(i, infos[u].w) == infos[u].pat
    ensures var e := LinkIndex(infos, u, i);
      e < |infos| && infos[e] == infos[u] && Live(sh, infos, lo, e) && PrefixAt(infos, e) == i
  {
    hide TableOK;
    var w := infos[u].w;
    DropBelow(i, w, sh.l);
    Pow2Mono(sh.l, infos[u].j);
    assert InTable(infos, lo, u);
    Split(i, w);
    assert infos[LinkIndex(infos, u, i)] == infos[u];
  }

  lemma PushLinked(sh: Shape, t: seq<Entry>, infos: seq<Info>, lo: nat, I: Info, u: seq<nat>, x: seq<nat>, h: int, e: nat)
    requires StackOK(sh, infos, lo, u, x, h) && Linked(sh, t, infos, u, x, h) && sh.l >= 1
    requires h + 1 < |u| && I.start == |infos| && |infos| + Pow2(I.j) <= |t|
    requires 0 <= h && e < |infos| && e == LinkIndex(infos, u[h], I.pat)
    requires infos[e] == infos[u[h]] && sh.l <= infos[e].j
    ensures Linked(sh, t[e := Entry(I.j, sh.l, I.start - e)], NewInfos(infos, I), u[h + 1 := I.start], x[h + 1 := I.pat], h + 1)
  {
    hide Drop;
    var t' := t[e := Entry(I.j, sh.l, I.start - e)];
    var infos', u', x' := NewInfos(infos, I), u[h + 1 := I.start], x[h + 1 := I.pat];
    assert infos'[I.start] == I && infos'[e] == infos[e];
    forall m: nat {:trigger LinkedAt(sh, t', infos', u', x', m)} | m < h + 1
      ensures LinkedAt(sh, t', infos', u', x', m)
    {
      var n := m + 1;
      assert u'[m] == u[m] && infos'[u[m]] == infos[u[m]];
      if n <= h {
        assert u'[n] == u[n] && x'[n] == x[n];
        var e' := u[m] + Drop(x[n], infos[u[m]].w);
        assert LinkedAt(sh, t, infos, u, x, m);
        assert infos'[e'] == infos[e'] && infos'[u[n]] == infos[u[n]];
        assert infos[u[m]].w + sh.l <= infos[u[h]].w;
        assert e' != e;
      } else {
        assert m == h;
      }
    }
  }

  lemma KeepLive(sh: Shape, infos: seq<Info>, lo: nat, I: Info, e: nat)
    requires I.start == |infos| >= lo
    ensures e < |infos| ==> (Live(sh, infos, lo, e) <==> Live(sh, NewInfos(infos, I), lo, e))
    ensures e < |infos| && infos[e].start <= e ==> PrefixAt(NewInfos(infos, I), e) == PrefixAt(infos, e)
    ensures e >= |infos| && Live(sh, NewInfos(infos, I), lo, e) ==> e < I.start + Pow2(I.Eff(sh.l)) && NewInfos(infos, I)[e] == I
  {
    var infos' := NewInfos(infos, I);
    assert e < |infos'| ==> infos'[e] == if e < |infos| then infos[e] else I;
  }

  /** New tables do not disturb right entries. */
  lemma KeepCons(sh: Shape, vals: Values, t: seq<Entry>, t': seq<Entry>, infos: seq<Info>, I: Info, e: nat)
    requires e < |infos| <= |t| && infos[e].start <= e && Cons(sh, vals, t, infos, e)
    requires |NewInfos(infos, I)| <= |t'| && t'[e] == t[e]
    ensures Cons(sh, vals, t', NewInfos(infos, I), e)
  {
    hide Codes;
    var infos' := NewInfos(infos, I);
    assert infos'[e] == infos[e];
    if IsLink(t[e]) {
      assert infos'[e + t[e].base] == infos[e + t[e].base];
    }
  }

  lemma PushWritten(sh: Shape, vals: Values, t: seq<Entry>, t': seq<Entry>, infos: seq<Info>, lo: nat, I: Info, k: nat, code: nat)
    requires Written(sh, vals, t, infos, lo, k, code)
    requires lo <= |infos| == I.start && |NewInfos(infos, I)| <= |t'|
    requires I.pat < Pow2(I.w) && I.w <= k && Code(I.pat, k) == code
    requires forall e: nat :: Live(sh, infos, lo, e) && PrefixAt(infos, e) != I.pat ==> t'[e] == t[e]
    ensures Written(sh, vals, t', NewInfos(infos, I), lo, k, code)
  {
    var infos' := NewInfos(infos, I);
    forall e: nat {:trigger Live(sh, infos', lo, e)} | Live(sh, infos', lo, e) && Code(PrefixAt(infos', e), k) < code
      ensures Cons(sh, vals, t', infos', e)
    {
      KeepLive(sh, infos, lo, I, e);
      if e < |infos| {
        assert infos'[e] == infos[e];
        assert Cons(sh, vals, t, infos, e);
        KeepCons(sh, vals, t, t', infos, I, e);
      } else {
        PrefixBits(I, e - I.start, I.Eff(sh.l));
        PatternIsLeast(PrefixAt(infos', e), I.pat, I.w, k);
      }
    }
  }

  lemma PushBehind(sh: Shape, infos: seq<Info>, lo: nat, I: Info, u: seq<nat>, h: int, k: nat, code: nat)
    requires -1 <= h && h + 1 < |u| && Behind(sh, infos, lo, u, h, k, code)
    requires lo <= |infos| == I.start
    ensures Behind(sh, NewInfos(infos, I), lo, u[h + 1 := I.start], h + 1, k, code)
  {
    var infos', u' := NewInfos(infos, I), u[h + 1 := I.start];
    assert u'[h + 1] == I.start;
    forall e: nat {:trigger Live(sh, infos', lo, e)} | Live(sh, infos', lo, e)
      ensures OnStack(u', h + 1, infos'[e].start) || Code(PrefixAt(infos', e), k) < code
    {
      KeepLive(sh, infos, lo, I, e);
      if e < |infos| && OnStack(u, h, infos[e].start) {
        var m: nat :| m <= h && u[m] == infos[e].start;
        assert u'[m] == u[m];
      }
    }
  }

  lemma PushUntouched(sh: Shape, t: seq<Entry>, t': seq<Entry>, t0: seq<Entry>, infos: seq<Info>, lo: nat, I: Info)
    requires Untouched(sh, t, t0, infos, lo) && lo <= |infos| == I.start && |t'| == |t|
    requires forall e: nat :: e < |t| && !Live(sh, infos, lo, e) ==> t'[e] == t[e]
    ensures Untouched(sh, t', t0, NewInfos(infos, I), lo)
  {
    forall e: nat {:trigger t'[e]} | e < |t'| && !Live(sh, NewInfos(infos, I), lo, e) ensures t'[e] == t0[e] {
      KeepLive(sh, infos, lo, I, e);
      assert t[e] == t0[e];
    }
  }

  /** The table that the next code opens below the open tables. */
  ghost predicate Opens(sh: Shape, t: seq<Entry>, infos: seq<Info>, lo: nat, u: seq<nat>, x: seq<nat>, h: int,
                        k: nat, code: nat, I: Info) {
    && TableOK(sh, I)
    && I.start == |infos| <= |t|
    && -1 <= h && h + 1 < |u| == |x|
    && I.w < k && Code(I.pat, k) == code
    && (h < 0 ==> I.w == 0)
    && (h >= 0 ==> u[h] < |infos| && I.w == infos[u[h]].w + sh.l && Low(I.pat, infos[u[h]].w) == x[h] && sh.l <= infos[u[h]].j)
  }

  /** The tables after linking the new table from the last open one. */
  ghost function WithLink(sh: Shape, t: seq<Entry>, infos: seq<Info>, u: seq<nat>, h: int, I: Info): seq<Entry>
    requires h < |u| && (h >= 0 ==> u[h] < |infos| <= |t|)
  {
    if h < 0 then t
    else
      var e := LinkIndex(infos, u[h], I.pat);
      if e < |t| && e <= I.start then t[e := Entry(I.j, sh.l, I.start - e)] else t
  }

  lemma PushTable(sh: Shape, vals: Values, t: seq<Entry>, t0: seq<Entry>, infos: seq<Info>, lo: nat,
                  u: seq<nat>, x: seq<nat>, h: int, k: nat, code: nat, I: Info)
    requires Building(sh, vals, t, t0, infos, lo, u, x, h, k, code)
    requires Opens(sh, t, infos, lo, u, x, h, k, code, I) && |infos| + Pow2(I.j) <= |t|
    ensures Building(sh, vals, WithLink(sh, t, infos, u, h, I), t0, NewInfos(infos, I), lo,
                     u[h + 1 := I.start], x[h + 1 := I.pat], h + 1, k, code)
    ensures h >= 0 ==> LinkIndex(infos, u[h], I.pat) < |infos|
  {
    hide Registry;
    hide TableOK;
    hide Linked;
    hide Written;
    hide Behind;
    hide Untouched;
    PushFacts(sh, t, infos, lo, u, x, h, k, code, I);
    var t' := WithLink(sh, t, infos, u, h, I);
    PushRegistry(sh, infos, lo, I);
    PushStack(sh, infos, lo, I, u, x, h);
    if h >= 0 {
      LinkEntry(sh, infos, lo, u[h], I.pat);
      PushLinked(sh, t, infos, lo, I, u, x, h, LinkIndex(infos, u[h], I.pat));
    } else {
      FirstLinked(sh, t', NewInfos(infos, I), u[h + 1 := I.start], x[h + 1 := I.pat]);
    }
    PushWritten(sh, vals, t, t', infos, lo, I, k, code);
    PushBehind(sh, infos, lo, I, u, h, k, code);
    PushUntouched(sh, t, t', t0, infos, lo, I);
  }

  lemma PushFacts(sh: Shape, t: seq<Entry>, infos: seq<Info>, lo: nat, u: seq<nat>, x: seq<nat>, h: int,
                  k: nat, code: nat, I: Info)
    requires StackOK(sh, infos, lo, u, x, h)
    requires Opens(sh, t, infos, lo, u, x, h, k, code, I)
    ensures I.pat < Pow2(I.w) && I.w <= k && sh.l >= 1
    ensures h >= 0 ==> lo <= u[h] < |infos| && infos[u[h]].start == u[h] && infos[u[h]].pat == x[h]
  {
  }

  lemma FirstLinked(sh: Shape, t: seq<Entry>, infos: seq<Info>, u: seq<nat>, x: seq<nat>)
    requires 0 < |u| == |x|
    ensures Linked(sh, t, infos, u, x, 0)
  {
  }

  // ---------- filling in a code ----------

  /** The entries of the open table for the streams that begin with the code get the entry `r`. */
  ghost predicate Filled(t: seq<Entry>, t': seq<Entry>, I: Info, k: nat, i: nat, r: Entry) {
    && |t'| == |t| && I.w <= k && I.start + Pow2(I.j) <= |t|
    && (forall e: nat {:trigger t'[e]} :: e < |t| ==>
          t'[e] == if I.start <= e < I.start + Pow2(I.j) && Low(e - I.start, k - I.w) == Drop(i, I.w) then r else t[e])
  }

  /** Every code of an open table that ends within the full width fits into the table; only a table
      of the full width or more has longer codes. */
  lemma CodeFitsTable(sh: Shape, I: Info, k: nat, code: nat)
    requires sh.Valid() && TableOK(sh, I)
    requires I.w < k <= sh.g
    requires FirstCode(sh.lens, k) <= code < sh.Limit(k) && code < Pow2(k)
    requires Low(Code(code, k), I.w) == I.pat
    ensures k <= I.w + sh.l ==> I.j <= sh.l
    ensures I.j < sh.l ==> k <= I.w + I.j
  {
    hide Count;
    hide EndCode;
    hide Code;
    hide Low;
    var i := Code(code, k);
    CodeInvolution(code, k);
    LowSmall(code, k);
    if k <= I.w + sh.l && I.j > sh.l {
      WithinLonger(sh, i, k, I.w + sh.l);
      PatternIsLeast(i, I.pat, I.w, I.w + sh.l);
      assert false;
    } else if I.j < sh.l && k > I.w + I.j {
      PastShorter(sh.lens, i, I.w + I.j, k);
      WithinPattern(i, I.pat, I.w, I.j);
      assert false;
    }
  }

  lemma WithinPattern(v: nat, pat: nat, w: nat, j: nat)
    requires Low(v, w) == pat && pat < Pow2(w)
    ensures Code(pat, w + j) <= Code(v, w + j) < Code(pat, w + j) + Pow2(j)
  {
    hide *;
    PatternIsLeast(v, pat, w, w + j);
    CodeAppend(v, w, j);
    CodeLow(v, w);
  }

  /** The entries whose prefix begins with the code are exactly those filled in. */
  lemma FilledPrefixes(sh: Shape, infos: seq<Info>, e: nat, k: nat, code: nat)
    requires e < |infos| && infos[e].start <= e && infos[e].pat < Pow2(infos[e].w)
    requires infos[e].w <= k && code < Pow2(k) && Low(Code(code, k), infos[e].w) == infos[e].pat
    ensures Code(PrefixAt(infos, e), k) == code
       <==> Low(e - infos[e].start, k - infos[e].w) == Drop(Code(code, k), infos[e].w)
  {
    hide *;
    PrefixIsCode(infos[e], e - infos[e].start, k, code);
    PrefixAtIs(infos, e);
  }

  lemma PrefixAtIs(infos: seq<Info>, e: nat)
    requires e < |infos| && infos[e].start <= e
    ensures PrefixAt(infos, e) == infos[e].Prefix(e - infos[e].start)
  {
  }

  lemma PrefixIsCode(I: Info, x: nat, k: nat, code: nat)
    requires I.pat < Pow2(I.w)
    requires I.w <= k && code < Pow2(k) && Low(Code(code, k), I.w) == I.pat
    ensures Code(I.Prefix(x), k) == code <==> Low(x, k - I.w) == Drop(Code(code, k), I.w)
  {
    hide *;
    var p, i, n := I.Prefix(x), Code(code, k), k - I.w;
    PrefixParts(I, x);
    LowAppend(p, I.w, n);
    LowAppend(i, I.w, n);
    LowSmall(i, k);
    DropBelow(i, I.w, n);
    LowSmall(Drop(i, I.w), n);
    CodeInvolution(code, k);
    LowSmall(code, k);
    CodeLow(p, k);
    if Code(p, k) == code {
      CodeInvolution(p, k);
      assert Low(p, k) == i;
      Join(I.pat, Low(x, n), I.w);
      Join(I.pat, Drop(i, I.w), I.w);
    }
  }

  lemma PrefixParts(I: Info, x: nat)
    requires I.pat < Pow2(I.w)
    ensures Low(I.Prefix(x), I.w) == I.pat && Drop(I.Prefix(x), I.w) == x
  {
    Join(I.pat, x, I.w);
  }

  /** What is filled in: the code `code` of `k` bits in the last open table. */
  ghost predicate FillsCode(sh: Shape, vals: Values, t: seq<Entry>, t': seq<Entry>, infos: seq<Info>,
                            u: seq<nat>, x: seq<nat>, h: int, k: nat, code: nat, r: Entry) {
    && 0 <= h < |u| == |x| && u[h] < |infos|
    && var I := infos[u[h]];
    && I.w < k <= I.w + sh.l && I.start == u[h] && I.pat == x[h] && I.pat < Pow2(I.w)
    && I.j <= sh.l && k <= I.w + I.j
    && FirstCode(sh.lens, k) <= code < sh.Limit(k) && code < Pow2(k)
    && Low(Code(code, k), I.w) == I.pat
    && !IsLink(r) && r.bits == k - I.w && Codes(sh.lens, vals, k, code, r)
    && Filled(t, t', I, k, Code(code, k), r)
  }

  lemma TableInfo(sh: Shape, infos: seq<Info>, lo: nat, e: nat)
    requires Registry(sh, infos, lo) && lo <= e < |infos|
    ensures lo <= infos[e].start <= e < infos[e].start + Pow2(infos[e].j) <= |infos|
    ensures infos[infos[e].start] == infos[e] && TableOK(sh, infos[e])
  {
    hide TableOK;
    assert InTable(infos, lo, e);
  }

  /** An entry of the last open table, after filling in. */
  lemma FillHere(sh: Shape, vals: Values, t: seq<Entry>, t': seq<Entry>, infos: seq<Info>, lo: nat,
                 u: seq<nat>, x: seq<nat>, h: int, k: nat, code: nat, r: Entry, e: nat)
    requires FillsCode(sh, vals, t, t', infos, u, x, h, k, code, r) && |infos| <= |t|
    requires lo <= e < |infos| && infos[e] == infos[u[h]] && u[h] <= e < u[h] + Pow2(infos[e].j)
    ensures Code(PrefixAt(infos, e), k) == code ==> Cons(sh, vals, t', infos, e)
    ensures Code(PrefixAt(infos, e), k) != code ==> t'[e] == t[e]
  {
    hide Code;
    hide Low;
    hide Drop;
    hide Codes;
    hide FirstCode;
    hide Pow2;
    FilledPrefixes(sh, infos, e, k, code);
  }

  /** An entry of another open table that begins with the code: it is the link on the way to the
      last open table. */
  lemma FillAbove(sh: Shape, vals: Values, t: seq<Entry>, infos: seq<Info>, lo: nat,
                  u: seq<nat>, x: seq<nat>, h: int, m: nat, k: nat, code: nat, e: nat)
    requires Registry(sh, infos, lo) && StackOK(sh, infos, lo, u, x, h) && Linked(sh, t, infos, u, x, h)
    requires m < h && |infos| <= |t|
    requires infos[u[h]].w < k && Low(Code(code, k), infos[u[h]].w) == infos[u[h]].pat
    requires Live(sh, infos, lo, e) && infos[e].start == u[m] && Code(PrefixAt(infos, e), k) == code
    ensures Cons(sh, vals, t, infos, e)
  {
    hide Codes;
    hide Linked;
    hide Registry;
    hide Code;
    hide Low;
    hide Drop;
    hide Pow2;
    TableInfo(sh, infos, lo, e);
    TableInfo(sh, infos, lo, u[m + 1]);
    LinkAt(sh, t, infos, lo, u, x, h, m);
    var I, p := infos[u[m]], PrefixAt(infos, e);
    var w, w' := infos[u[m + 1]].w, infos[u[h]].w;
    assert I == infos[e] && I.Eff(sh.l) == sh.l && w == I.w + sh.l <= w' && x[m] == I.pat;
    PrefixBits(I, e - I.start, sh.l);
    Pow2Mono(w, w');
    Pow2Mono(w', k);
    CodeInvolution(p, k);
    LowSmall(p, k);
    LowSmall(p, w');
    LowSmall(p, w);
    assert x[h] == p;
    assert x[m + 1] == p by {
      if m + 1 < h {
        assert x[m + 1] == Low(x[h], infos[u[m + 1]].w);
      }
    }
  }

  lemma LinkAt(sh: Shape, t: seq<Entry>, infos: seq<Info>, lo: nat, u: seq<nat>, x: seq<nat>, h: int, m: nat)
    requires StackOK(sh, infos, lo, u, x, h) && Linked(sh, t, infos, u, x, h) && m < h
    ensures u[m] < |infos| && LinksTo(sh, t, infos, u[m], u[m + 1], u[m] + Drop(x[m + 1], infos[u[m]].w))
  {
    assert LinkedAt(sh, t, infos, u, x, m);
  }

  lemma SameCons(sh: Shape, vals: Values, t: seq<Entry>, t': seq<Entry>, infos: seq<Info>, e: nat)
    requires e < |infos| <= |t| && infos[e].start <= e && Cons(sh, vals, t, infos, e)
    requires |t'| == |t| && t'[e] == t[e]
    ensures Cons(sh, vals, t', infos, e)
  {
    hide Codes;
  }

  lemma OtherTable(sh: Shape, infos: seq<Info>, lo: nat, u: nat, e: nat)
    requires Registry(sh, infos, lo) && lo <= u < |infos| && e < |infos| && infos[u].start == u
    requires u <= e < u + Pow2(infos[u].j)
    ensures infos[e] == infos[u]
  {
    hide TableOK;
    assert InTable(infos, lo, u);
  }

  lemma StackPlace(sh: Shape, infos: seq<Info>, lo: nat, u: seq<nat>, h: int, k: nat, code: nat, e: nat) returns (m: nat)
    requires h < |u| && Behind(sh, infos, lo, u, h, k, code)
    requires Live(sh, infos, lo, e) && Code(PrefixAt(infos, e), k) >= code
    ensures m <= h && u[m] == infos[e].start
  {
    assert OnStack(u, h, infos[e].start);
    m :| m <= h && u[m] == infos[e].start;
  }

  lemma FillEntry(sh: Shape, vals: Values, t: seq<Entry>, t': seq<Entry>, infos: seq<Info>, lo: nat,
                  u: seq<nat>, x: seq<nat>, h: int, k: nat, code: nat, r: Entry, e: nat)
    requires Registry(sh, infos, lo) && StackOK(sh, infos, lo, u, x, h) && Linked(sh, t, infos, u, x, h)
    requires Written(sh, vals, t, infos, lo, k, code) && Behind(sh, infos, lo, u, h, k, code)
    requires FillsCode(sh, vals, t, t', infos, u, x, h, k, code, r)
    requires Live(sh, infos, lo, e) && Code(PrefixAt(infos, e), k) < code + 1
    ensures Cons(sh, vals, t', infos, e)
  {
    hide Cons;
    hide Codes;
    hide Registry;
    hide Linked;
    hide TableOK;
    hide Behind;
    hide Code;
    hide Low;
    hide Drop;
    TableInfo(sh, infos, lo, e);
    if infos[e].start == u[h] {
      FillHere(sh, vals, t, t', infos, lo, u, x, h, k, code, r, e);
    } else if u[h] <= e < u[h] + Pow2(infos[u[h]].j) {
      OtherTable(sh, infos, lo, u[h], e);
    } else if Code(PrefixAt(infos, e), k) == code {
      var m := StackPlace(sh, infos, lo, u, h, k, code, e);
      FillAbove(sh, vals, t, infos, lo, u, x, h, m, k, code, e);
    }
    if Code(PrefixAt(infos, e), k) < code || infos[e].start != u[h] {
      assert t'[e] == t[e];
      SameCons(sh, vals, t, t', infos, e);
    }
  }

  lemma FillLinked(sh: Shape, vals: Values, t: seq<Entry>, t': seq<Entry>, infos: seq<Info>, lo: nat,
                   u: seq<nat>, x: seq<nat>, h: int, k: nat, code: nat, r: Entry)
    requires Registry(sh, infos, lo) && StackOK(sh, infos, lo, u, x, h) && Linked(sh, t, infos, u, x, h) && sh.l >= 1
    requires FillsCode(sh, vals, t, t', infos, u, x, h, k, code, r)
    ensures Linked(sh, t', infos, u, x, h)
  {
    hide Codes;
    hide Registry;
    hide TableOK;
    hide Code;
    hide Low;
    hide Drop;
    forall m: nat {:trigger LinkedAt(sh, t', infos, u, x, m)} | m < h
      ensures LinkedAt(sh, t', infos, u, x, m)
    {
      assert LinkedAt(sh, t, infos, u, x, m);
      var e := u[m] + Drop(x[m + 1], infos[u[m]].w);
      assert infos[u[m]].w + sh.l <= infos[u[h]].w;
      if u[h] <= e < u[h] + Pow2(infos[u[h]].j) {
        OtherTable(sh, infos, lo, u[h], e);
      }
    }
  }

  lemma FillUntouched(sh: Shape, vals: Values, t: seq<Entry>, t': seq<Entry>, t0: seq<Entry>, infos: seq<Info>, lo: nat,
                      u: seq<nat>, x: seq<nat>, h: int, k: nat, code: nat, r: Entry)
    requires FillsCode(sh, vals, t, t', infos, u, x, h, k, code, r)
    requires Registry(sh, infos, lo) && lo <= u[h] && Untouched(sh, t, t0, infos, lo)
    ensures Untouched(sh, t', t0, infos, lo)
  {
    hide Codes;
    hide Registry;
    hide TableOK;
    hide Code;
    hide Low;
    hide Drop;
    TableInfo(sh, infos, lo, u[h]);
    forall e: nat {:trigger t'[e]} | e < |t'| && !Live(sh, infos, lo, e) ensures t'[e] == t0[e] {
      assert t[e] == t0[e];
      if u[h] <= e < u[h] + Pow2(infos[u[h]].j) {
        OtherTable(sh, infos, lo, u[h], e);
      }
    }
  }

  /** Filling in a code keeps everything, and moves on to the next code. */
  lemma FillCode(sh: Shape, vals: Values, t: seq<Entry>, t': seq<Entry>, t0: seq<Entry>, infos: seq<Info>, lo: nat,
                 u: seq<nat>, x: seq<nat>, h: int, k: nat, code: nat, r: Entry)
    requires Building(sh, vals, t, t0, infos, lo, u, x, h, k, code)
    requires FillsCode(sh, vals, t, t', infos, u, x, h, k, code, r)
    ensures Building(sh, vals, t', t0, infos, lo, u, x, h, k, code + 1)
  {
    hide Registry;
    hide Linked;
    hide Cons;
    hide Codes;
    hide Code;
    hide Low;
    hide Drop;
    FillLinked(sh, vals, t, t', infos, lo, u, x, h, k, code, r);
    FillUntouched(sh, vals, t, t', t0, infos, lo, u, x, h, k, code, r);
    forall e: nat {:trigger Live(sh, infos, lo, e)} | Live(sh, infos, lo, e) && Code(PrefixAt(infos, e), k) < code + 1
      ensures Cons(sh, vals, t', infos, e)
    {
      FillEntry(sh, vals, t, t', infos, lo, u, x, h, k, code, r, e);
    }
  }

  // ---------- closing tables ----------

  /** Once the next code is past the last open table, that table is closed. */
  lemma PopTable(sh: Shape, vals: Values, t: seq<Entry>, t0: seq<Entry>, infos: seq<Info>, lo: nat,
                 u: seq<nat>, x: seq<nat>, h: int, k: nat, code: nat)
    requires Building(sh, vals, t, t0, infos, lo, u, x, h, k, code + 1)
    requires h >= 1 && code < Pow2(k) && infos[u[h]].w <= k
    requires Low(Code(code, k), infos[u[h]].w) == x[h] != Low(Code(code + 1, k), infos[u[h]].w)
    ensures Building(sh, vals, t, t0, infos, lo, u, x, h - 1, k, code + 1)
    ensures infos[u[h]].w == infos[u[h - 1]].w + sh.l && Low(Code(code, k), infos[u[h - 1]].w) == x[h - 1]
    ensures Code(code + 1, k) < Pow2(infos[u[h]].w)
  {
    hide Registry;
    hide Linked;
    hide Written;
    hide Untouched;
    hide Code;
    hide Low;
    hide Drop;
    var w := infos[u[h]].w;
    LeaveTable(code, w, k - w);
    PopLinked(sh, t, infos, u, x, h);
    LowLow(Code(code, k), infos[u[h - 1]].w, w);
    PopStack(sh, infos, lo, u, x, h);
    forall e: nat {:trigger Live(sh, infos, lo, e)} | Live(sh, infos, lo, e)
      ensures OnStack(u, h - 1, infos[e].start) || Code(PrefixAt(infos, e), k) < code + 1
    {
      PopEntry(sh, infos, lo, u, x, h, k, code + 1, e);
    }
  }

  lemma PopEntry(sh: Shape, infos: seq<Info>, lo: nat, u: seq<nat>, x: seq<nat>, h: int, k: nat, code: nat, e: nat)
    requires Registry(sh, infos, lo) && StackOK(sh, infos, lo, u, x, h) && 1 <= h
    requires Behind(sh, infos, lo, u, h, k, code) && Live(sh, infos, lo, e)
    requires forall p: nat :: Low(p, infos[u[h]].w) == x[h] ==> Code(p, k) < code
    ensures OnStack(u, h - 1, infos[e].start) || Code(PrefixAt(infos, e), k) < code
  {
    hide Registry;
    hide Code;
    hide Low;
    hide Drop;
    TableInfo(sh, infos, lo, e);
    if Code(PrefixAt(infos, e), k) >= code {
      var m := StackPlace(sh, infos, lo, u, h, k, code, e);
      if m == h {
        PrefixParts(infos[e], e - u[h]);
        assert false;
      }
      assert m <= h - 1 && u[m] == infos[e].start;
    }
  }

  lemma PopStack(sh: Shape, infos: seq<Info>, lo: nat, u: seq<nat>, x: seq<nat>, h: int)
    requires StackOK(sh, infos, lo, u, x, h) && 1 <= h
    ensures StackOK(sh, infos, lo, u, x, h - 1)
    ensures infos[u[h]].w == infos[u[h - 1]].w + sh.l && x[h - 1] == Low(x[h], infos[u[h - 1]].w)
  {
    hide Low;
    assert infos[u[h - 1]].w + sh.l <= infos[u[h]].w;
  }

  lemma PopLinked(sh: Shape, t: seq<Entry>, infos: seq<Info>, u: seq<nat>, x: seq<nat>, h: int)
    requires h < |u| == |x| && Linked(sh, t, infos, u, x, h) && 1 <= h
    ensures Linked(sh, t, infos, u, x, h - 1)
  {
    hide LinkedAt;
  }

  // ---------- the next length ----------

  lemma CodeDouble(c: nat, k: nat)
    ensures Code(2 * c, k + 1) == Code(c, k)
  {
  }

  /** Going on to longer codes doubles the code and keeps its pattern. */
  lemma NextLength(sh: Shape, vals: Values, t: seq<Entry>, t0: seq<Entry>, infos: seq<Info>, lo: nat,
                   u: seq<nat>, x: seq<nat>, h: int, k: nat, code: nat)
    requires Building(sh, vals, t, t0, infos, lo, u, x, h, k, code) && k < sh.g
    ensures Building(sh, vals, t, t0, infos, lo, u, x, h, k + 1, 2 * code)
  {
    hide Registry;
    hide StackOK;
    hide Linked;
    hide Untouched;
    hide Cons;
    hide Code;
    forall e: nat {:trigger Live(sh, infos, lo, e)} | Live(sh, infos, lo, e)
      ensures Code(PrefixAt(infos, e), k + 1) < 2 * code <==> Code(PrefixAt(infos, e), k) < code
    {
      CodeSnoc(PrefixAt(infos, e), k);
    }
  }
}
