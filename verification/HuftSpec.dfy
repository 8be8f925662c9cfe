/** Multi-level decoding tables, as values: what an entry means, how a decoder walks the tables,
    and what the tables built so far promise.
    Models inflate_huft and the table walk of inflate_codes in DuiLib/Utils/XUnzip.cpp.
  */
module HuftSpec {
  import opened Bits
  import opened Canonical

  const BMAX: nat := 15
  const MANY: nat := 1440

  /** One table entry.  `exop` tells what the entry is: 0 for a literal, 1 to 15 for a link to a
      table of that many bits, 80 and up for a base with extra bits, 96 for the end of a block,
      192 for a pattern without a code.  `bits` is how many bits to drop. */
  datatype Entry = Entry(exop: nat, bits: nat, base: nat)

  const INVALID: nat := 192

  /** The meaning of the symbols: those below `simple` stand for themselves, the others have a
      base value and a number of extra bits. */
  datatype Values = Values(simple: nat, base: seq<nat>, extra: seq<nat>) {
    ghost predicate Covers(n: nat) {
      |base| == |extra| && n <= simple + |base|
    }
  }

  function SymbolEntry(vals: Values, s: nat, bits: nat): (e: Entry)
    requires vals.Covers(s + 1)
    ensures !IsLink(e)
  {
    if s < vals.simple then Entry(if s < 256 then 0 else 32 + 64, bits, s)
    else Entry(vals.extra[s - vals.simple] + 16 + 64, bits, vals.base[s - vals.simple])
  }

  predicate IsLink(e: Entry) {
    1 <= e.exop < 16
  }

  // ---------- walking the tables ----------

  datatype Walked = Leaf(exop: nat, base: nat, len: nat) | Lost

  /** Look up the next `need` bits of stream `v` in the table at `start`, drop the bits of the entry,
      and follow links.  The walk is lost when it would need more than `room` bits, or when an
      entry does not drop between one bit and the bits looked up. */
  function Walk(t: seq<Entry>, start: nat, need: nat, v: nat, room: nat): Walked
    decreases room
  {
    var i := start + Low(v, need);
    if need > room || i >= |t| || !(1 <= t[i].bits <= need) then Lost
    else if IsLink(t[i]) then
      Longer(t[i].bits, Walk(t, i + t[i].base, t[i].exop, Drop(v, t[i].bits), room - t[i].bits))
    else Leaf(t[i].exop, t[i].base, t[i].bits)
  }

  /** On a walk no table is looked up with more than `width` bits. */
  ghost predicate Narrow(t: seq<Entry>, start: nat, need: nat, v: nat, room: nat, width: nat)
    decreases room
  {
    var i := start + Low(v, need);
    && need <= width
    && (need <= room && i < |t| && 1 <= t[i].bits <= need && IsLink(t[i]) ==>
          Narrow(t, i + t[i].base, t[i].exop, Drop(v, t[i].bits), room - t[i].bits, width))
  }

  /** No table is looked up with more bits than the first one. */
  ghost predicate NarrowFrom(t: seq<Entry>, root: nat, bits: nat, v: nat) {
    Narrow(t, root, bits, v, BMAX, bits)
  }

  /** A walk that began `bits` earlier. */
  function Longer(bits: nat, r: Walked): Walked {
    match r
    case Leaf(exop, base, len) => Leaf(exop, base, bits + len)
    case Lost => Lost
  }

  /** A walk ends where the bit-at-a-time decoder ends: at the entry of the same symbol, after the
      same number of bits, or at an invalid entry when the stream has no code. */
  ghost predicate Agrees(vals: Values, d: Decoded, r: Walked) {
    match d
    case Symbol(s, len) =>
      && vals.Covers(s + 1)
      && r == Leaf(SymbolEntry(vals, s, len).exop, SymbolEntry(vals, s, len).base, len)
    case NoCode => r.Leaf? && r.exop == INVALID
  }

  // ---------- the shape of the tables ----------

  /** The code lengths, the longest of them, and the bits of a table that has tables below it. */
  datatype Shape = Shape(lens: seq<nat>, g: nat, l: nat) {
    ghost predicate Valid() {
      && 1 <= l <= g <= BMAX
      && ValidLengths(lens)
      && (forall i :: 0 <= i < |lens| ==> lens[i] <= g)
      && EndCode(lens, g) <= Pow2(g)
    }

    /** Codes of the longest length are filled up with dummies to use every pattern. */
    ghost function Limit(k: nat): nat {
      if k == g then Pow2(g) else EndCode(lens, k)
    }
  }

  /** The table an entry belongs to: where it starts, how many bits come before it and what they
      are, and how many bits index it. */
  datatype Info = Info(start: nat, w: nat, j: nat, pat: nat) {
    /** Only so many bits of the index are ever used. */
    function Eff(l: nat): nat {
      if j < l then j else l
    }

    /** The bits that lead to entry `i` of the table. */
    function Prefix(i: nat): nat {
      pat + Shl(i, w)
    }
  }

  /** A table is wide enough for all codes in it, unless it is of the full width; and it is wider
      than that exactly when no code in it ends within the full width. */
  ghost predicate TableOK(sh: Shape, I: Info) {
    && sh.l >= 1 && I.w % sh.l == 0 && I.pat < Pow2(I.w)
    && 1 <= I.j <= BMAX && I.w + I.j <= sh.g
    && (I.j < sh.l ==> Code(I.pat, I.w + I.j) + Pow2(I.j) <= sh.Limit(I.w + I.j))
    && (I.j > sh.l <==> I.w + sh.l < sh.g && Code(I.pat, I.w + sh.l) >= EndCode(sh.lens, I.w + sh.l))
  }

  ghost predicate InTable(infos: seq<Info>, lo: nat, e: nat)
    requires e < |infos|
  {
    var I := infos[e];
    && lo <= I.start <= e < I.start + Pow2(I.j) <= |infos|
    && (forall e' {:trigger infos[e']} :: I.start <= e' < I.start + Pow2(I.j) ==> infos[e'] == I)
  }

  /** The entries from `lo` on are laid out in tables. */
  ghost predicate Registry(sh: Shape, infos: seq<Info>, lo: nat) {
    && lo <= |infos|
    && (forall e {:trigger infos[e]} :: lo <= e < |infos| ==> InTable(infos, lo, e) && TableOK(sh, infos[e]))
  }

  ghost predicate Live(sh: Shape, infos: seq<Info>, lo: nat, e: nat) {
    && lo <= e < |infos|
    && infos[e].start <= e < infos[e].start + Pow2(infos[e].Eff(sh.l))
  }

  ghost function PrefixAt(infos: seq<Info>, e: nat): nat
    requires e < |infos| && infos[e].start <= e
  {
    infos[e].Prefix(e - infos[e].start)
  }

  /** The entry `r` is right for the `k`-bit code `code`. */
  ghost predicate Codes(lens: seq<nat>, vals: Values, k: nat, code: nat, r: Entry) {
    if code < EndCode(lens, k) then
      exists s: nat :: HasCode(lens, s, k, code) && vals.Covers(s + 1) && r == SymbolEntry(vals, s, r.bits)
    else r.exop == INVALID
  }

  /** Entry `e` is right for the streams that lead to it: it is a leaf for the code they begin with,
      or a link to the table that continues them. */
  ghost predicate Cons(sh: Shape, vals: Values, t: seq<Entry>, infos: seq<Info>, e: nat)
    requires e < |infos| <= |t| && infos[e].start <= e
  {
    var I, r, p := infos[e], t[e], PrefixAt(infos, e);
    if IsLink(r) then
      && sh.l <= I.j && r.bits == sh.l
      && e + r.base < |infos|
      && infos[e + r.base] == Info(e + r.base, I.w + sh.l, r.exop, p)
    else
      var k := I.w + r.bits;
      && I.w < k <= I.w + I.Eff(sh.l)
      && FirstCode(sh.lens, k) <= Code(p, k) < sh.Limit(k)
      && Codes(sh.lens, vals, k, Code(p, k), r)
  }

  // ---------- codes and prefixes ----------

  lemma PrefixBits(I: Info, i: nat, n: nat)
    requires I.pat < Pow2(I.w) && i < Pow2(n)
    ensures Low(I.Prefix(i), I.w) == I.pat && Drop(I.Prefix(i), I.w) == i
    ensures I.Prefix(i) < Pow2(I.w + n)
  {
    Join(I.pat, i, I.w);
    LowSmall(i, n);
    LowAppend(I.Prefix(i), I.w, n);
  }

  lemma PrefixOfStream(I: Info, v: nat, n: nat)
    requires Low(v, I.w) == I.pat
    ensures I.Prefix(Low(Drop(v, I.w), n)) == Low(v, I.w + n)
  {
    LowAppend(v, I.w, n);
  }

  /** A stream within the codes of length `k` is within those of every greater length. */
  lemma {:induction false} WithinLonger(sh: Shape, v: nat, k: nat, m: nat)
    requires 1 <= k <= m <= sh.g
    requires Code(v, k) < sh.Limit(k)
    ensures Code(v, m) < sh.Limit(m)
  {
    if k < m {
      WithinLonger(sh, v, k, m - 1);
      CodeSnoc(v, m - 1);
    }
  }

  /** The tables are right everywhere, and no table is wider than the full width. */
  ghost predicate Complete(sh: Shape, vals: Values, t: seq<Entry>, infos: seq<Info>, lo: nat) {
    && sh.Valid() && Registry(sh, infos, lo) && |infos| <= |t|
    && (forall e: nat {:trigger Live(sh, infos, lo, e)} :: Live(sh, infos, lo, e) ==> Cons(sh, vals, t, infos, e))
    && (forall e: nat {:trigger infos[e]} :: lo <= e < |infos| ==> infos[e].j <= sh.l)
  }

  /** The entry that stream `v` selects in the table at `e`. */
  lemma WalkStep(sh: Shape, vals: Values, t: seq<Entry>, infos: seq<Info>, lo: nat, e: nat, v: nat)
    requires Complete(sh, vals, t, infos, lo)
    requires lo <= e < |infos| && infos[e].start == e && Low(v, infos[e].w) == infos[e].pat
    ensures var I := infos[e]; var i := e + Low(Drop(v, I.w), I.j);
      && i < |infos| && infos[i] == I && PrefixAt(infos, i) == Low(v, I.w + I.j)
      && Cons(sh, vals, t, infos, i)
      && 1 <= sh.l && 1 <= I.j <= sh.l && I.w + I.j <= sh.g && |infos| <= |t|
  {
    hide Cons;
    var I := infos[e];
    var i := e + Low(Drop(v, I.w), I.j);
    assert InTable(infos, lo, e) && TableOK(sh, infos[e]);
    hide Registry;
    hide TableOK;
    assert infos[i] == I;
    PrefixOfStream(I, v, I.j);
    assert Live(sh, infos, lo, i);
  }

  /** A walk that has come to a table ends at a leaf for the code the stream begins with. */
  lemma {:induction false} WalkTables(sh: Shape, vals: Values, t: seq<Entry>, infos: seq<Info>, lo: nat,
                                      e: nat, v: nat, room: nat)
    requires Complete(sh, vals, t, infos, lo)
    requires lo <= e < |infos| && infos[e].start == e && Low(v, infos[e].w) == infos[e].pat
    requires infos[e].w + room >= sh.g
    ensures WalkEnds(sh, vals, infos[e].w, v, Walk(t, e, infos[e].j, Drop(v, infos[e].w), room))
    decreases room
  {
    hide Code;
    hide Count;
    hide EndCode;
    hide Low;
    hide Complete;
    hide Codes;
    var I := infos[e];
    var i := e + Low(Drop(v, I.w), I.j);
    WalkStep(sh, vals, t, infos, lo, e, v);
    var r := t[i];
    if IsLink(r) {
      var e' := i + r.base;
      DropDrop(v, I.w, sh.l);
      WalkTables(sh, vals, t, infos, lo, e', v, room - sh.l);
      var r' := Walk(t, e', r.exop, Drop(v, I.w + sh.l), room - sh.l);
      WalkMore(sh, vals, I.w, sh.l, v, r');
    } else {
      CodeOfLow(v, I.w + r.bits, I.w + I.j);
    }
  }

  /** ... and looks up no more bits at a time than the full width. */
  lemma {:induction false} NarrowTables(sh: Shape, vals: Values, t: seq<Entry>, infos: seq<Info>, lo: nat,
                                        e: nat, v: nat, room: nat)
    requires Complete(sh, vals, t, infos, lo)
    requires lo <= e < |infos| && infos[e].start == e && Low(v, infos[e].w) == infos[e].pat
    requires infos[e].w + room >= sh.g
    ensures Narrow(t, e, infos[e].j, Drop(v, infos[e].w), room, sh.l)
    decreases room
  {
    hide Complete;
    hide Codes;
    var I := infos[e];
    var i := e + Low(Drop(v, I.w), I.j);
    WalkStep(sh, vals, t, infos, lo, e, v);
    if IsLink(t[i]) {
      DropDrop(v, I.w, sh.l);
      NarrowTables(sh, vals, t, infos, lo, i + t[i].base, v, room - sh.l);
    }
  }

  /** A walk that began after `w` bits of stream `v` ended at the right leaf. */
  ghost predicate WalkEnds(sh: Shape, vals: Values, w: nat, v: nat, r: Walked) {
    && r.Leaf?
    && var k := w + r.len;
    && w < k <= sh.g && FirstCode(sh.lens, k) <= Code(v, k) < sh.Limit(k)
    && Codes(sh.lens, vals, k, Code(v, k), Entry(r.exop, r.len, r.base))
  }

  lemma WalkMore(sh: Shape, vals: Values, w: nat, bits: nat, v: nat, r: Walked)
    requires WalkEnds(sh, vals, w + bits, v, r)
    ensures WalkEnds(sh, vals, w, v, Leaf(r.exop, r.base, bits + r.len))
  {
    var k := w + bits + r.len;
    CodesBits(sh.lens, vals, k, Code(v, k), Entry(r.exop, r.len, r.base), bits + r.len);
  }

  lemma CodesBits(lens: seq<nat>, vals: Values, k: nat, code: nat, r: Entry, bits: nat)
    requires Codes(lens, vals, k, code, r)
    ensures Codes(lens, vals, k, code, r.(bits := bits))
  {
    if code < EndCode(lens, k) {
      var s: nat :| HasCode(lens, s, k, code) && vals.Covers(s + 1) && r == SymbolEntry(vals, s, r.bits);
      assert r.(bits := bits) == SymbolEntry(vals, s, bits);
    }
  }

  /** A leaf that is right for the code a stream begins with agrees with the decoder. */
  lemma CodesAgree(sh: Shape, vals: Values, v: nat, k: nat, r: Walked)
    requires sh.Valid() && r.Leaf? && r.len == k && 1 <= k <= sh.g
    requires FirstCode(sh.lens, k) <= Code(v, k) < sh.Limit(k)
    requires Codes(sh.lens, vals, k, Code(v, k), Entry(r.exop, r.len, r.base))
    ensures Agrees(vals, Decode(sh.lens, v), r)
  {
    if Code(v, k) < EndCode(sh.lens, k) {
      var s: nat :| HasCode(sh.lens, s, k, Code(v, k)) && vals.Covers(s + 1) && Entry(r.exop, k, r.base) == SymbolEntry(vals, s, k);
      DecodeHit(sh.lens, v, s);
    } else {
      NothingLonger(sh, v, k, MAX_BITS);
      DecodeMiss(sh.lens, v);
    }
  }

  lemma {:induction false} CountAbove(lens: seq<nat>, g: nat, k: nat)
    requires forall i :: 0 <= i < |lens| ==> lens[i] <= g
    requires g < k
    ensures Count(lens, k) == 0
  {
    if lens != [] {
      CountAbove(lens[..|lens| - 1], g, k);
    }
  }

  lemma {:induction false} NothingLonger(sh: Shape, v: nat, k: nat, m: nat)
    requires sh.Valid() && 1 <= k <= sh.g && k <= m
    requires EndCode(sh.lens, k) <= Code(v, k) && (k == sh.g || Code(v, k) < EndCode(sh.lens, k))
    ensures Code(v, m) >= EndCode(sh.lens, m)
  {
    if k < m {
      NothingLonger(sh, v, k, m - 1);
      CodeSnoc(v, m - 1);
      CountAbove(sh.lens, sh.g, m);
    }
  }

  lemma MultiplesApart(a: nat, b: nat, l: nat)
    requires l >= 1 && a % l == 0 && b % l == 0 && a < b
    ensures a + l <= b
  {
    var p, q := a / l, b / l;
    assert a == p * l && b == q * l;
    if p >= q {
      MulMono(q, p, l);
    } else {
      MulMono(p + 1, q, l);
      MulDist(p, 1, l);
    }
  }
}
