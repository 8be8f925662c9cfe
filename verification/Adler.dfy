/** adler32 in DuiLib/Utils/XUnzip.cpp: the sums are reduced only once in a while, without overflow. */
module Adler {
  import opened Bits

  const BASE: nat := 65521
  const NMAX: nat := 5552
  const U32_MAX: nat := 0xFFFF_FFFF

  /** The two sums. */
  datatype Sums = Sums(s1: nat, s2: nat)

  // ---------- the definition, section 8.2 of RFC 1950 ----------

  function Mod(s: Sums): Sums {
    Sums(s.s1 % BASE, s.s2 % BASE)
  }

  /** One byte, with both sums reduced. */
  function Step(s: Sums, b: byte): Sums {
    var t1 := (s.s1 + b) % BASE;
    Sums(t1, (s.s2 + t1) % BASE)
  }

  function Steps(s: Sums, buf: seq<byte>): Sums
    decreases |buf|
  {
    if buf == [] then s else Steps(Step(s, buf[0]), buf[1..])
  }

  function Unpack(adler: nat): Sums {
    Sums(adler % 0x10000, adler / 0x10000 % 0x10000)
  }

  function Pack(s: Sums): nat {
    s.s2 * 0x10000 + s.s1
  }

  /** The checksum of the bytes, going on from `adler`. */
  function Adler32(adler: nat, buf: seq<byte>): nat {
    Pack(Steps(Unpack(adler), buf))
  }

  /** The sum of the bytes, and their sum with the first counted as often as there are bytes, the next once less, and
      so on. */
  function Sum(buf: seq<byte>): nat {
    if buf == [] then 0 else buf[0] + Sum(buf[1..])
  }

  function Weighted(buf: seq<byte>): nat {
    if buf == [] then 0 else |buf| * buf[0] + Weighted(buf[1..])
  }

  /** The checksum of a buffer: one more than the sum of the bytes, and above it the sum of all such sums, both
      modulo 65521. */
  lemma ChecksumIs(buf: seq<byte>)
    ensures Adler32(1, buf) == (|buf| + Weighted(buf)) % 65521 * 65536 + (1 + Sum(buf)) % 65521
  {
    hide Steps;
    hide Sum;
    hide Weighted;
    hide Unpack;
    SumsAre(Sums(1, 0), buf);
    FreshSums();
    assert 0 + |buf| * 1 + Weighted(buf) == |buf| + Weighted(buf);
  }

  lemma FreshSums()
    ensures Unpack(1) == Sums(1, 0)
  {
  }

  lemma {:induction false} SumsAre(s: Sums, buf: seq<byte>)
    requires s.s1 < 65521 && s.s2 < 65521
    ensures Steps(s, buf) == Sums((s.s1 + Sum(buf)) % 65521, (s.s2 + |buf| * s.s1 + Weighted(buf)) % 65521)
    decreases |buf|
  {
    hide Step;
    hide Sum;
    hide Weighted;
    SumsParts(buf);
    if buf == [] {
      Within(s);
    } else {
      var b, rest, n := buf[0], buf[1..], |buf|;
      var t := Step(s, b);
      StepRange(s, b);
      SumsAre(t, rest);
      OneMore(s, b, n, Sum(rest), Weighted(rest));
    }
  }

  lemma SumsParts(buf: seq<byte>)
    ensures Sum(buf) == if buf == [] then 0 else buf[0] + Sum(buf[1..])
    ensures Weighted(buf) == if buf == [] then 0 else |buf| * buf[0] + Weighted(buf[1..])
  {
  }

  /** The sums of a byte and `n` - 1 more. */
  lemma OneMore(s: Sums, b: byte, n: nat, sum: nat, w: nat)
    requires s.s1 < 65521 && s.s2 < 65521 && n >= 1
    ensures var t := Step(s, b);
      && (t.s1 + sum) % 65521 == (s.s1 + (b + sum)) % 65521
      && (t.s2 + (n - 1) * t.s1 + w) % 65521 == (s.s2 + n * s.s1 + (n * b + w)) % 65521
  {
    var t := Step(s, b);
    ModAdd(s.s1 + b, sum);
    ModAdd(s.s2 + t.s1, (n - 1) * t.s1 + w);
    Multiples(s, b, n, w);
  }

  lemma Within(s: Sums)
    requires s.s1 < 65521 && s.s2 < 65521
    ensures s.s1 % 65521 == s.s1 && s.s2 % 65521 == s.s2
  {
  }

  lemma Multiples(s: Sums, b: byte, n: nat, w: nat)
    requires s.s1 < 65521 && n >= 1
    ensures var t := (s.s1 + b) % 65521; (s.s2 + t + (n - 1) * t + w) % 65521 == (s.s2 + n * s.s1 + (n * b + w)) % 65521
  {
    var t := (s.s1 + b) % 65521;
    MulDist(n - 1, 1, t);
    Product(n, s.s1, b);
    if s.s1 + b >= 65521 {
      Product(n, t, 65521);
      Whole(s.s2 + n * t + w, n);
    }
  }

  lemma Product(n: nat, x: nat, y: nat)
    ensures n * (x + y) == n * x + n * y
  {
  }

  lemma {:induction false} Whole(x: nat, n: nat)
    ensures (x + n * 65521) % 65521 == x % 65521
  {
  }

  lemma StepRange(s: Sums, b: byte)
    ensures Step(s, b).s1 < BASE && Step(s, b).s2 < BASE
  {
  }

  lemma {:induction false} StepsRange(s: Sums, buf: seq<byte>)
    requires s.s1 < 0x10000 && s.s2 < 0x10000
    ensures Steps(s, buf).s1 < 0x10000 && Steps(s, buf).s2 < 0x10000
    decreases |buf|
  {
    if buf != [] {
      StepsRange(Step(s, buf[0]), buf[1..]);
    }
  }

  lemma {:induction false} StepsAppend(s: Sums, x: seq<byte>, y: seq<byte>)
    ensures Steps(s, x + y) == Steps(Steps(s, x), y)
    decreases |x|
  {
    if x == [] {
      assert [] + y == y;
    } else {
      assert (x + y)[1..] == x[1..] + y;
      StepsAppend(Step(s, x[0]), x[1..], y);
    }
  }

  /** A checksum can be continued. */
  lemma Continues(adler: nat, x: seq<byte>, y: seq<byte>)
    requires adler <= U32_MAX
    ensures Adler32(Adler32(adler, x), y) == Adler32(adler, x + y)
  {
    var s := Steps(Unpack(adler), x);
    StepsRange(Unpack(adler), x);
    PackUnpack(s);
    StepsAppend(Unpack(adler), x, y);
  }

  lemma PackUnpack(s: Sums)
    requires s.s1 < 0x10000 && s.s2 < 0x10000
    ensures Unpack(Pack(s)) == s && Pack(s) <= U32_MAX
  {
  }

  // ---------- without reducing ----------

  /** One byte, with neither sum reduced. */
  function Add(s: Sums, b: byte): Sums {
    Sums(s.s1 + b, s.s2 + (s.s1 + b))
  }

  function Adds(s: Sums, buf: seq<byte>): Sums {
    if buf == [] then s else Add(Adds(s, buf[..|buf| - 1]), buf[|buf| - 1])
  }

  lemma ModAdd(a: nat, b: nat)
    ensures (a % BASE + b) % BASE == (a + b) % BASE && (b + a % BASE) % BASE == (a + b) % BASE
  {
  }

  lemma ModStep(s: Sums, b: byte)
    ensures Step(Mod(s), b) == Mod(Add(s, b)) == Step(s, b)
  {
    var t := (s.s1 + b) % BASE;
    ModAdd(s.s1, b);
    ModAdd(s.s2, t);
    ModAdd(s.s1 + b, s.s2);
  }

  /** Reducing once at the end gives the same sums. */
  lemma {:induction false} DeferredMod(s: Sums, buf: seq<byte>)
    ensures Mod(Adds(s, buf)) == Mod(Steps(s, buf))
    ensures buf != [] ==> Mod(Steps(s, buf)) == Steps(s, buf)
  {
    if buf != [] {
      var x, b := buf[..|buf| - 1], buf[|buf| - 1];
      assert buf == x + [b];
      DeferredMod(s, x);
      StepsAppend(s, x, [b]);
      assert [b][1..] == [];
      ModStep(Adds(s, x), b);
      ModStep(Steps(s, x), b);
      StepRange(Steps(s, x), b);
      ModSmall(Step(Steps(s, x), b));
    }
  }

  lemma ModSmall(s: Sums)
    requires s.s1 < BASE && s.s2 < BASE
    ensures Mod(s) == s
  {
  }

  /** The second sum after `n` bytes of the greatest value. */
  function Most(n: nat): nat {
    if n == 0 then 0xFFFF else Most(n - 1) + 0xFFFF + 255 * n
  }

  lemma {:induction false} MostIs(n: nat)
    ensures 2 * Most(n) == 2 * 0xFFFF * (n + 1) + 255 * (n * (n + 1))
  {
    if n > 0 {
      MostIs(n - 1);
      assert n * (n + 1) == (n - 1) * n + 2 * n;
    }
  }

  lemma {:induction false} MostMono(m: nat, n: nat)
    requires m <= n
    ensures Most(m) <= Most(n)
    decreases n
  {
    if m < n {
      MostMono(m, n - 1);
    }
  }

  lemma {:induction false} AddsBelow(s: Sums, buf: seq<byte>)
    requires s.s1 <= 0xFFFF && s.s2 <= 0xFFFF
    ensures Adds(s, buf).s1 <= 0xFFFF + 255 * |buf| && Adds(s, buf).s2 <= Most(|buf|)
  {
    if buf != [] {
      AddsBelow(s, buf[..|buf| - 1]);
    }
  }

  /** Up to `NMAX` bytes the sums fit into 32 bits. */
  lemma NoOverflow(s: Sums, buf: seq<byte>)
    requires s.s1 <= 0xFFFF && s.s2 <= 0xFFFF && |buf| <= NMAX
    ensures Adds(s, buf).s1 <= U32_MAX && Adds(s, buf).s2 <= U32_MAX
  {
    hide Most;
    AddsBelow(s, buf);
    MostMono(|buf|, NMAX);
    MostIs(NMAX);
  }

  /** The sums of the bytes from `from` on, that have not been reduced since they were `start`. */
  ghost predicate Deferred(s: Sums, buf: seq<byte>, pos: nat, start: Sums, from: nat) {
    && from <= pos <= |buf| && pos - from <= NMAX
    && start.s1 <= 0xFFFF && start.s2 <= 0xFFFF && s == Adds(start, buf[from..pos])
  }

  /** AD_DO1, within 32 bits. */
  method Do1(s0: Sums, buf: seq<byte>, pos: nat, ghost start: Sums, ghost from: nat) returns (s: Sums)
    requires Deferred(s0, buf, pos, start, from) && pos + 1 <= |buf| && pos + 1 - from <= NMAX
    ensures Deferred(s, buf, pos + 1, start, from)
  {
    var t := buf[from..pos + 1];
    assert t[..|t| - 1] == buf[from..pos] && t[|t| - 1] == buf[pos];
    NoOverflow(start, t);
    s := Add(s0, buf[pos]);
    assert s.s1 <= U32_MAX && s.s2 <= U32_MAX;
  }

  /** AD_DO2 */
  method Do2(s0: Sums, buf: seq<byte>, pos: nat, ghost start: Sums, ghost from: nat) returns (s: Sums)
    requires Deferred(s0, buf, pos, start, from) && pos + 2 <= |buf| && pos + 2 - from <= NMAX
    ensures Deferred(s, buf, pos + 2, start, from)
  {
    s := Do1(s0, buf, pos, start, from);
    s := Do1(s, buf, pos + 1, start, from);
  }

  /** AD_DO4 */
  method Do4(s0: Sums, buf: seq<byte>, pos: nat, ghost start: Sums, ghost from: nat) returns (s: Sums)
    requires Deferred(s0, buf, pos, start, from) && pos + 4 <= |buf| && pos + 4 - from <= NMAX
    ensures Deferred(s, buf, pos + 4, start, from)
  {
    s := Do2(s0, buf, pos, start, from);
    s := Do2(s, buf, pos + 2, start, from);
  }

  /** AD_DO8 */
  method Do8(s0: Sums, buf: seq<byte>, pos: nat, ghost start: Sums, ghost from: nat) returns (s: Sums)
    requires Deferred(s0, buf, pos, start, from) && pos + 8 <= |buf| && pos + 8 - from <= NMAX
    ensures Deferred(s, buf, pos + 8, start, from)
  {
    s := Do4(s0, buf, pos, start, from);
    s := Do4(s, buf, pos + 4, start, from);
  }

  /** AD_DO16 */
  method Do16(s0: Sums, buf: seq<byte>, pos: nat, ghost start: Sums, ghost from: nat) returns (s: Sums)
    requires Deferred(s0, buf, pos, start, from) && pos + 16 <= |buf| && pos + 16 - from <= NMAX
    ensures Deferred(s, buf, pos + 16, start, from)
  {
    s := Do8(s0, buf, pos, start, from);
    s := Do8(s, buf, pos + 8, start, from);
  }

  /** adler32 */
  method Compute(adler: nat, buf: seq<byte>) returns (r: nat)
    requires adler <= U32_MAX
    ensures r == Adler32(adler, buf) <= U32_MAX
  {
    hide Steps;
    hide Adds;
    hide Mod;
    var s := Unpack(adler);
    ghost var s0 := s;
    var pos := 0;
    Nothing(s, buf);
    while pos < |buf|
      invariant pos <= |buf| && s == Steps(s0, buf[..pos]) && s.s1 <= 0xFFFF && s.s2 <= 0xFFFF
    {
      ghost var start, from := s, pos;
      var k := if |buf| - pos < NMAX then |buf| - pos else NMAX;
      ghost var end := pos + k;
      assert buf[from..from] == buf[..0];
      Nothing(start, buf);
      while k >= 16
        invariant pos + k == end <= |buf| && end - from <= NMAX && Deferred(s, buf, pos, start, from)
      {
        s := Do16(s, buf, pos, start, from);
        pos, k := pos + 16, k - 16;
      }
      while k != 0
        invariant pos + k == end <= |buf| && end - from <= NMAX && Deferred(s, buf, pos, start, from)
      {
        s := Do1(s, buf, pos, start, from);
        pos, k := pos + 1, k - 1;
      }
      DeferredMod(start, buf[from..pos]);
      StepsAppend(s0, buf[..from], buf[from..pos]);
      assert buf[..from] + buf[from..pos] == buf[..pos];
      s := Mod(s);
      InRange(Adds(start, buf[from..pos]));
    }
    assert buf[..pos] == buf;
    PackUnpack(s);
    r := Pack(s);
  }

  lemma Nothing(s: Sums, buf: seq<byte>)
    ensures Steps(s, buf[..0]) == s && Adds(s, buf[..0]) == s
  {
  }

  lemma InRange(s: Sums)
    ensures Mod(s).s1 <= 0xFFFF && Mod(s).s2 <= 0xFFFF
  {
  }
}
