// The UserChoice hash of browser/default_protocol_handler_utils_win.cc.
//
// A DWORD is a natural number below 2^32 and every operation on it says how it
// wraps. A wide string is a sequence of UTF-16 code units (wchar_t on Windows).
module UserChoiceHash {

  const WORD := 0x1_0000
  const DWORD := 0x1_0000_0000

  type Byte = n: nat | n < 0x100
  type WChar = n: nat | n < WORD
  type DWord = n: nat | n < DWORD
  type Wide = seq<WChar>

  // The two leading DWORDs of an MD5 digest; MD5 itself is a parameter.
  type Digest = (DWord, DWord)

  const BLOCK_SIZE := 8
  const DWORDS_PER_BLOCK := 2

  // ------------------------------------------------------ DWORD operations

  function Add(x: DWord, y: DWord): DWord { (x + y) % DWORD }

  function Mul(x: DWord, c: DWord): DWord { (x * c) % DWORD }

  // (v >> 16) | (v << 16): the two halves do not overlap.
  function WordSwap(v: DWord): DWord { v / WORD + v % WORD * WORD }

  // v | 1
  function MakeOdd(v: DWord): DWord { v - v % 2 + 1 }

  // v ^ w, on as many low bits as are asked for.
  function XorBits(v: nat, w: nat, bits: nat): (x: nat)
    ensures x < Pow2(bits)
  {
    if bits == 0 then 0
    else 2 * XorBits(v / 2, w / 2, bits - 1) + (v + w) % 2
  }

  lemma LastBit(high: nat, bit: nat)
    requires bit < 2
    ensures (2 * high + bit) / 2 == high && (2 * high + bit) % 2 == bit
  {}

  lemma Parity(v: nat, w: nat)
    ensures (v + w) % 2 == if v % 2 != w % 2 then 1 else 0
  {}

  // Bit k of a number, the lowest one first.
  function Bit(v: nat, k: nat): nat {
    if k == 0 then v % 2 else Bit(v / 2, k - 1)
  }

  lemma {:induction false} XorBitsAt(v: nat, w: nat, bits: nat, k: nat)
    requires k < bits
    ensures Bit(XorBits(v, w, bits), k) == if Bit(v, k) != Bit(w, k) then 1 else 0
  {
    LastBit(XorBits(v / 2, w / 2, bits - 1), (v + w) % 2);
    Parity(v, w);
    if k > 0 {
      XorBitsAt(v / 2, w / 2, bits - 1, k - 1);
    }
  }

  function Pow2(k: nat): (p: nat)
    ensures p > 0
  {
    if k == 0 then 1 else 2 * Pow2(k - 1)
  }

  lemma Pow2Of32()
    ensures Pow2(32) == DWORD
  {
    assert Pow2(8) == 0x100;
    assert Pow2(16) == WORD;
    assert Pow2(24) == 0x100_0000;
  }

  function Xor(v: DWord, w: DWord): DWord {
    Pow2Of32();
    XorBits(v, w, 32)
  }

  // ---------------------------------------------------------------- input

  // The in-memory bytes of a wide string, low byte first.
  function Bytes(s: Wide): (bytes: seq<Byte>)
    ensures |bytes| == 2 * |s|
  {
    seq(2 * |s|, k requires 0 <= k < 2 * |s| =>
      if k % 2 == 0 then s[k / 2] % 0x100 else s[k / 2] / 0x100)
  }

  // The bytes that are hashed include the terminating NUL.
  function InputBytes(s: Wide): (bytes: seq<Byte>)
    ensures |bytes| == 2 * (|s| + 1)
  {
    Bytes(s + [0])
  }

  // memcpy of the k-th little-endian DWORD.
  function DWordAt(bytes: seq<Byte>, k: nat): DWord
    requires 4 * k + 4 <= |bytes|
  {
    var (b0: nat, b1: nat, b2: nat, b3: nat) :=
      (bytes[4 * k], bytes[4 * k + 1], bytes[4 * k + 2], bytes[4 * k + 3]);
    b0 + b1 * 0x100 + b2 * 0x1_0000 + b3 * 0x100_0000
  }

  // The DWORDs of all complete blocks; an incomplete last block is ignored.
  function DWords(bytes: seq<Byte>): (ds: seq<DWord>)
    ensures |ds| == DWORDS_PER_BLOCK * (|bytes| / BLOCK_SIZE)
  {
    seq(DWORDS_PER_BLOCK * (|bytes| / BLOCK_SIZE),
        k requires 0 <= k < DWORDS_PER_BLOCK * (|bytes| / BLOCK_SIZE) => DWordAt(bytes, k))
  }

  // ------------------------------------------------------------- the lanes

  // c0s[j] and c1s[j] of the source.
  function C0(md5: Digest, j: nat): (row: seq<DWord>)
    requires j < DWORDS_PER_BLOCK
    ensures |row| == 5
  {
    if j == 0
    then [MakeOdd(md5.0), 0xCF98B111, 0x87085B9F, 0x12CEB96D, 0x257E1D83]
    else [MakeOdd(md5.1), 0xA27416F5, 0xD38396FF, 0x7C932B89, 0xBFA49F69]
  }

  function C1(md5: Digest, j: nat): (row: seq<DWord>)
    requires j < DWORDS_PER_BLOCK
    ensures |row| == 5
  {
    if j == 0
    then [MakeOdd(md5.0), 0xEF0569FB, 0x689B6B9F, 0x79F8A395, 0xC3EFEA97]
    else [MakeOdd(md5.1), 0xC31713DB, 0xDDCD1F0F, 0x59C3AF2D, 0x35BD1EC9]
  }

  // Scramble 0, cut after its first `stages` multiplications.
  function Scramble0(h: DWord, c: seq<DWord>, stages: nat): DWord
    requires 1 <= stages <= |c|
  {
    if stages == 1 then Mul(h, c[0])
    else Mul(WordSwap(Scramble0(h, c, stages - 1)), c[stages - 1])
  }

  function FullScramble0(h: DWord, c: seq<DWord>): DWord
    requires |c| == 5
  {
    Scramble0(h, c, |c|)
  }

  function Scramble1(h: DWord, c: seq<DWord>): DWord
    requires |c| == 5
  {
    var x := Add(Mul(WordSwap(h), c[1]), Mul(h, c[0]));
    var y := Add(Mul(x / WORD, c[2]), Mul(x, c[3]));
    Add(Mul(WordSwap(y), c[4]), y)
  }

  // One iteration of the inner loop on h0 (h1): its number, the lane's value
  // so far and the DWORD read.
  type Step = (nat, DWord, DWord) -> DWord

  function Step0(md5: Digest): Step {
    (n: nat, h: DWord, input: DWord) => FullScramble0(Add(h, input), C0(md5, n % DWORDS_PER_BLOCK))
  }

  function Step1(md5: Digest): Step {
    (n: nat, h: DWord, input: DWord) => Scramble1(Add(h, input), C1(md5, n % DWORDS_PER_BLOCK))
  }

  // The value of a lane after the first n DWORDs were added and scrambled.
  function Lane(step: Step, ds: seq<DWord>, n: nat): DWord
    requires n <= |ds|
  {
    if n == 0 then 0 else step(n - 1, Lane(step, ds, n - 1), ds[n - 1])
  }

  // The wrapping sum of the lane's value after each of the first n DWORDs.
  function LaneSum(step: Step, ds: seq<DWord>, n: nat): DWord
    requires n <= |ds|
  {
    if n == 0 then 0 else Add(LaneSum(step, ds, n - 1), Lane(step, ds, n))
  }

  // ---------------------------------------------- injectivity of scramble 0

  // If an odd c times d is a multiple of 2^k, then d is one already.
  lemma {:induction false} OddFactorCancels(c: nat, d: int, k: nat, q: int) returns (r: int)
    requires c % 2 == 1
    requires c * d == q * Pow2(k)
    ensures d == r * Pow2(k)
    decreases k
  {
    if k == 0 {
      r := d;
    } else {
      var p, m := Pow2(k - 1), c / 2;
      var e := q * p - m * d;
      assert d == 2 * e by { assert c * d == 2 * (m * d) + d; assert q * Pow2(k) == 2 * (q * p); }
      assert c * e == q * p by { assert 2 * (c * e) == c * d == 2 * (q * p); }
      r := OddFactorCancels(c, e, k - 1, q);
    }
  }

  // Multiplication by an odd number is injective modulo 2^32.
  lemma OddProductInjective(x: DWord, y: DWord, c: DWord)
    requires c % 2 == 1
    requires Mul(x, c) == Mul(y, c)
    ensures x == y
  {
    var q := x * c / DWORD - y * c / DWORD;
    assert c * (x - y) == q * DWORD;
    Pow2Of32();
    var r := OddFactorCancels(c, x - y, 32, q);
    assert -DWORD < r * DWORD < DWORD;
  }

  lemma WordSwapInvolution(v: DWord)
    ensures WordSwap(WordSwap(v)) == v
  {
    JoinedHalves(v / WORD, v % WORD);
  }

  ghost predicate AllOdd(c: seq<DWord>) {
    forall k :: 0 <= k < |c| ==> c[k] % 2 == 1
  }

  lemma {:induction false} Scramble0Injective(x: DWord, y: DWord, c: seq<DWord>, stages: nat)
    requires 1 <= stages <= |c| && AllOdd(c)
    requires Scramble0(x, c, stages) == Scramble0(y, c, stages)
    ensures x == y
  {
    if stages == 1 {
      OddProductInjective(x, y, c[0]);
    } else {
      var p, q := Scramble0(x, c, stages - 1), Scramble0(y, c, stages - 1);
      OddProductInjective(WordSwap(p), WordSwap(q), c[stages - 1]);
      WordSwapInvolution(p);
      WordSwapInvolution(q);
      Scramble0Injective(x, y, c, stages - 1);
    }
  }

  lemma LiftEven(c: nat, u: int, h: int, p: nat)
    requires c * u == 1 + (2 * h) * p
    ensures c * u == 1 + h * (2 * p)
  {}

  lemma LiftOdd(c: nat, u: int, q: int, h: int, p: nat)
    requires c * u == 1 + q * p && q + c == 2 * h
    ensures c * (u + p) == 1 + h * (2 * p)
  {
    assert c * (u + p) == 1 + (q + c) * p;
  }

  // An odd number has an inverse modulo every power of two.
  lemma {:induction false} OddInverse(c: nat, k: nat) returns (u: int, q: int)
    requires c % 2 == 1
    ensures c * u == 1 + q * Pow2(k)
  {
    if k == 0 {
      u, q := 1, c - 1;
    } else {
      var u', q' := OddInverse(c, k - 1);
      var p := Pow2(k - 1);
      if q' % 2 == 0 {
        u, q := u', q' / 2;
        LiftEven(c, u', q, p);
      } else {
        u, q := u' + p, (q' + c) / 2;
        LiftOdd(c, u', q', q, p);
      }
    }
  }

  lemma ScaledInverse(c: nat, u: int, q: int, y: nat, x: int, w: int)
    requires c * u == 1 + q * DWORD
    requires u * y == w * DWORD + x
    ensures x * c == y + (q * y - w * c) * DWORD
  {
    assert (u * y) * c == (c * u) * y;
  }

  lemma OddProductSurjective(y: DWord, c: DWord) returns (x: DWord)
    requires c % 2 == 1
    ensures Mul(x, c) == y
  {
    Pow2Of32();
    var u, q := OddInverse(c, 32);
    x := u * y % DWORD;
    var w := u * y / DWORD;
    ScaledInverse(c, u, q, y, x, w);
    DropMultiple(y, q * y - w * c);
  }

  lemma DropMultiple(y: DWord, k: int)
    ensures (y + k * DWORD) % DWORD == y
  {}

  lemma {:induction false} Scramble0Surjective(y: DWord, c: seq<DWord>, stages: nat) returns (x: DWord)
    requires 1 <= stages <= |c| && AllOdd(c)
    ensures Scramble0(x, c, stages) == y
    decreases stages
  {
    var p := OddProductSurjective(y, c[stages - 1]);
    if stages == 1 {
      x := p;
    } else {
      WordSwapInvolution(p);
      x := Scramble0Surjective(WordSwap(p), c, stages - 1);
    }
  }

  lemma C0Odd(md5: Digest, j: nat)
    requires j < DWORDS_PER_BLOCK
    ensures AllOdd(C0(md5, j))
  {}

  // A step loses nothing of what was added into it.
  ghost predicate Lossless(step: Step) {
    forall n: nat, h: DWord, d: DWord, h': DWord, d': DWord ::
      step(n, h, d) == step(n, h', d') ==> Add(h, d) == Add(h', d')
  }

  lemma LosslessStep(step: Step, n: nat, h: DWord, d: DWord, h': DWord, d': DWord)
    requires Lossless(step) && step(n, h, d) == step(n, h', d')
    ensures Add(h, d) == Add(h', d')
  {}

  lemma Step0Lossless(md5: Digest)
    ensures Lossless(Step0(md5))
  {
    var step := Step0(md5);
    forall n: nat, h: DWord, d: DWord, h': DWord, d': DWord | step(n, h, d) == step(n, h', d')
      ensures Add(h, d) == Add(h', d')
    {
      var j := n % DWORDS_PER_BLOCK;
      C0Odd(md5, j);
      Scramble0Injective(Add(h, d), Add(h', d'), C0(md5, j), 5);
    }
  }

  lemma AddInjective(h: DWord, h': DWord, d: DWord)
    requires Add(h, d) == Add(h', d) || Add(d, h) == Add(d, h')
    ensures h == h'
  {}

  // Lanes that agree, with their sums, keep agreeing over the same DWORDs.
  lemma {:induction false} SameAfter(step: Step, ds: seq<DWord>, es: seq<DWord>, i: nat, n: nat)
    requires i <= n <= |ds| && n <= |es|
    requires forall k :: i <= k < n ==> ds[k] == es[k]
    requires Lane(step, ds, i) == Lane(step, es, i) && LaneSum(step, ds, i) == LaneSum(step, es, i)
    ensures Lane(step, ds, n) == Lane(step, es, n) && LaneSum(step, ds, n) == LaneSum(step, es, n)
  {
    if i < n {
      SameAfter(step, ds, es, i, n - 1);
    }
  }

  lemma LaneStep(step: Step, ds: seq<DWord>, n: nat)
    requires n < |ds|
    ensures Lane(step, ds, n + 1) == step(n, Lane(step, ds, n), ds[n])
  {}

  lemma LaneSumStep(step: Step, ds: seq<DWord>, n: nat)
    requires n < |ds|
    ensures LaneSum(step, ds, n + 1) == Add(LaneSum(step, ds, n), Lane(step, ds, n + 1))
  {}

  lemma DifferentNext(step: Step, ds: seq<DWord>, es: seq<DWord>, n: nat)
    requires Lossless(step) && n < |ds| && n < |es| && ds[n] == es[n]
    requires Lane(step, ds, n) != Lane(step, es, n)
    ensures Lane(step, ds, n + 1) != Lane(step, es, n + 1)
  {
    var g, h := Lane(step, ds, n), Lane(step, es, n);
    LaneStep(step, ds, n);
    LaneStep(step, es, n);
    hide Lane, Add, Lossless;
    if step(n, g, ds[n]) == step(n, h, es[n]) {
      LosslessStep(step, n, g, ds[n], h, es[n]);
      AddInjective(g, h, ds[n]);
    }
  }

  // A lossless lane that has once differed keeps differing while the DWORDs
  // that follow are the same.
  lemma {:induction false} DifferentAfter(step: Step, ds: seq<DWord>, es: seq<DWord>, i: nat, n: nat)
    requires Lossless(step) && i <= n <= |ds| && n <= |es|
    requires forall k :: i <= k < n ==> ds[k] == es[k]
    requires Lane(step, ds, i) != Lane(step, es, i)
    ensures Lane(step, ds, n) != Lane(step, es, n)
  {
    hide Lane, Lossless;
    if i < n {
      DifferentAfter(step, ds, es, i, n - 1);
      DifferentNext(step, ds, es, n - 1);
    }
  }

  // One changed DWORD always shows in h0, whatever surrounds it.
  lemma OneChangedDWordShows(md5: Digest, ds: seq<DWord>, i: nat, d: DWord)
    requires i < |ds| && d != ds[i]
    ensures Lane(Step0(md5), ds[i := d], |ds|) != Lane(Step0(md5), ds, |ds|)
  {
    var step, es := Step0(md5), ds[i := d];
    Step0Lossless(md5);
    SameAfter(step, ds, es, 0, i);
    LaneStep(step, ds, i);
    LaneStep(step, es, i);
    hide Step0, Lane, Add, Lossless;
    if Lane(step, ds, i + 1) == Lane(step, es, i + 1) {
      LosslessStep(step, i, Lane(step, ds, i), ds[i], Lane(step, es, i), d);
      AddInjective(ds[i], d, Lane(step, ds, i));
      assert false;
    }
    DifferentAfter(step, ds, es, i + 1, |ds|);
  }

  // ------------------------------------------- what scramble 1 loses

  // The two halves of a word, each times a number of its own.
  function Halves(v: nat, p: nat, q: nat): DWord {
    (v % WORD * p + v / WORD * q) % DWORD
  }

  lemma SumOfRemainders(x: nat, y: nat)
    ensures (x % DWORD + y % DWORD) % DWORD == (x + y) % DWORD
  {}

  lemma SwappedSum(v: DWord, s: DWord, t: DWord)
    ensures Add(Mul(WordSwap(v), s), Mul(v, t)) == Halves(v, t + WORD * s, s + WORD * t)
  {
    var lo, hi := v % WORD, v / WORD;
    SumOfRemainders(WordSwap(v) * s, v * t);
    assert WordSwap(v) * s == hi * s + lo * (WORD * s);
    assert v * t == lo * t + hi * (WORD * t);
  }

  lemma HighSum(v: DWord, s: DWord, t: DWord)
    ensures Add(Mul(v / WORD, s), Mul(v, t)) == Halves(v, t, s + WORD * t)
  {
    var lo, hi := v % WORD, v / WORD;
    SumOfRemainders(hi * s, v * t);
    assert v * t == lo * t + hi * (WORD * t);
  }

  lemma MulByOne(v: DWord)
    ensures Mul(v, 1) == v
  {}

  // Scramble 1 is three linear maps of the halves, one after the other.
  lemma Scramble1ByHalves(h: DWord, c: seq<DWord>)
    requires |c| == 5
    ensures var x := Halves(h, c[0] + WORD * c[1], c[1] + WORD * c[0]);
      var y := Halves(x, c[3], c[2] + WORD * c[3]);
      Scramble1(h, c) == Halves(y, 1 + WORD * c[4], c[4] + WORD)
  {
    var x := Halves(h, c[0] + WORD * c[1], c[1] + WORD * c[0]);
    var y := Halves(x, c[3], c[2] + WORD * c[3]);
    hide Add, Mul, WordSwap, Halves;
    SwappedSum(h, c[1], c[0]);
    HighSum(x, c[2], c[3]);
    SwappedSum(y, c[4], 1);
    MulByOne(y);
  }

  function Image(f: nat -> nat, n: nat): set<nat> {
    set i | 0 <= i < n :: f(i)
  }

  lemma {:induction false} ImageSize(f: nat -> nat, n: nat)
    requires forall i, j :: 0 <= i < j < n ==> f(i) != f(j)
    ensures |Image(f, n)| == n
  {
    if n > 0 {
      ImageSize(f, n - 1);
      assert Image(f, n) == Image(f, n - 1) + {f(n - 1)};
    }
  }

  lemma {:induction false} BelowBound(s: set<nat>, m: nat)
    requires forall x :: x in s ==> x < m
    ensures |s| <= m
  {
    if m > 0 {
      BelowBound(s - {m - 1}, m - 1);
    }
  }

  lemma Pigeonhole(f: nat -> nat, n: nat, m: nat) returns (i: nat, j: nat)
    requires n > m && forall k: nat :: k < n ==> f(k) < m
    ensures i < j < n && f(i) == f(j)
  {
    if forall i, j :: 0 <= i < j < n ==> f(i) != f(j) {
      ImageSize(f, n);
      BelowBound(Image(f, n), m);
      assert false;
    }
    i, j :| 0 <= i < j < n && f(i) == f(j);
  }

  lemma SameRemainder(a: nat, b: nat)
    ensures a % DWORD == b % DWORD <==> (a - b) % DWORD == 0
  {}

  lemma Difference(a: nat, b: nat, x: nat, y: nat, p: nat, q: nat)
    ensures p * (a - b) + q * (x - y) == (a * p + x * q) - (b * p + y * q)
  {}

  // The differences of the halves of two words decide whether they collide.
  lemma CollideIff(v: nat, w: nat, p: nat, q: nat)
    ensures Halves(v, p, q) == Halves(w, p, q) <==>
      (p * (v % WORD - w % WORD) + q * (v / WORD - w / WORD)) % DWORD == 0
  {
    Difference(v % WORD, w % WORD, v / WORD, w / WORD, p, q);
    SameRemainder(v % WORD * p + v / WORD * q, w % WORD * p + w / WORD * q);
  }

  // No two low halves make up for a whole WORD in the high half.
  lemma NoCarry(da: int, p: nat, q: nat)
    requires p % 2 == 1 && q % 2 == 1 && -WORD < da < WORD
    ensures (p * da + q * WORD) % DWORD != 0
  {
    var k := (p * da + q * WORD) / DWORD;
    if (p * da + q * WORD) % DWORD == 0 {
      assert p * da == (k * WORD - q) * WORD;
      assert Pow2(16) == WORD by { assert Pow2(8) == 0x100; }
      var r := OddFactorCancels(p, da, 16, k * WORD - q);
      assert false;
    }
  }

  lemma JoinedHalves(lo: nat, hi: nat)
    requires lo < WORD
    ensures (hi * WORD + lo) % WORD == lo && (hi * WORD + lo) / WORD == hi
  {}

  // Two words with the given differences of their halves.
  lemma MovedDown(da: int, db: nat, p: nat, q: nat) returns (v: DWord, w: DWord)
    requires -WORD < da < WORD && db < WORD && (da != 0 || db != 0)
    requires (p * da + q * db) % DWORD == 0
    ensures v != w && Halves(v, p, q) == Halves(w, p, q)
  {
    hide Halves;
    var lo, lo': nat := if da > 0 then da else 0, if da > 0 then 0 else -da;
    v, w := db * WORD + lo, lo';
    JoinedHalves(lo, db);
    JoinedHalves(lo', 0);
    CollideIff(v, w, p, q);
  }

  // A map of the halves by two odd numbers is never injective: there are more
  // pairs of a low half and a high half up to and including WORD than DWORDs,
  // and two that collide move to within a DWORD.
  lemma HalvesCollide(p: nat, q: nat) returns (v: DWord, w: DWord)
    requires p % 2 == 1 && q % 2 == 1
    ensures v != w && Halves(v, p, q) == Halves(w, p, q)
  {
    var i, j := Pigeonhole(n => Halves(n, p, q), DWORD + WORD, DWORD);
    CollideIff(j, i, p, q);
    var da, db := j % WORD - i % WORD, j / WORD - i / WORD;
    assert 0 <= db <= WORD;
    if db == WORD {
      NoCarry(da, p, q);
      assert false;
    }
    v, w := MovedDown(da, db, p, q);
  }

  lemma C1Odd(md5: Digest, j: nat)
    requires j < DWORDS_PER_BLOCK
    ensures AllOdd(C1(md5, j))
  {}

  lemma OddLowHalf(x: nat, y: nat)
    requires x % 2 == 1
    ensures (x + WORD * y) % 2 == 1
  {}

  // Unlike scramble 0, scramble 1 with odd multipliers always maps some two
  // different words to the same one.
  lemma Scramble1Collides(c: seq<DWord>) returns (h: DWord, h': DWord)
    requires |c| == 5 && AllOdd(c)
    ensures h != h' && Scramble1(h, c) == Scramble1(h', c)
  {
    OddLowHalf(c[0], c[1]);
    OddLowHalf(c[1], c[0]);
    hide Scramble1, Halves;
    h, h' := HalvesCollide(c[0] + WORD * c[1], c[1] + WORD * c[0]);
    Scramble1ByHalves(h, c);
    Scramble1ByHalves(h', c);
  }

  // The number that has to be added to reach another.
  lemma Addend(h: DWord, sum: DWord) returns (d: DWord)
    ensures Add(h, d) == sum
  {
    d := (sum - h) % DWORD;
  }

  lemma NoDWords(step: Step, ds: seq<DWord>, es: seq<DWord>)
    ensures Lane(step, ds, 0) == Lane(step, es, 0) && LaneSum(step, ds, 0) == LaneSum(step, es, 0)
  {}

  lemma StepHides(md5: Digest, n: nat, lane: DWord) returns (d: DWord, d': DWord)
    ensures d != d' && Step1(md5)(n, lane, d) == Step1(md5)(n, lane, d')
  {
    var j := n % DWORDS_PER_BLOCK;
    C1Odd(md5, j);
    hide Scramble1, C1;
    var h, h' := Scramble1Collides(C1(md5, j));
    d := Addend(lane, h);
    d' := Addend(lane, h');
    assert Step1(md5)(n, lane, d) == Scramble1(h, C1(md5, j));
  }

  // A changed DWORD can be invisible to h1 and its sum, at any place in any
  // sequence, but never to h0.
  lemma SecondLaneHides(md5: Digest, ds: seq<DWord>, i: nat) returns (d: DWord, d': DWord)
    requires i < |ds|
    ensures d != d'
    ensures var es, es' := ds[i := d], ds[i := d'];
      && Lane(Step1(md5), es, |ds|) == Lane(Step1(md5), es', |ds|)
      && LaneSum(Step1(md5), es, |ds|) == LaneSum(Step1(md5), es', |ds|)
      && Lane(Step0(md5), es, |ds|) != Lane(Step0(md5), es', |ds|)
  {
    hide Lane, LaneSum, Step0, Step1;
    var step, lane := Step1(md5), Lane(Step1(md5), ds, i);
    d, d' := StepHides(md5, i, lane);
    var es, es' := ds[i := d], ds[i := d'];
    OneChangedDWordShows(md5, es, i, d');
    assert es[i := d'] == es';
    NoDWords(step, ds, es);
    NoDWords(step, ds, es');
    SameAfter(step, ds, es, 0, i);
    SameAfter(step, ds, es', 0, i);
    LaneStep(step, es, i);
    LaneStep(step, es', i);
    LaneSumStep(step, es, i);
    LaneSumStep(step, es', i);
    SameAfter(step, es, es', i + 1, |ds|);
  }

  // ------------------------------------------------------------ the result

  // The bytes of a DWORD in memory.
  function LittleEndian(v: DWord): (bytes: seq<Byte>)
    ensures |bytes| == 4
  {
    var w := v / 0x100;
    var x := w / 0x100;
    [v % 0x100, w % 0x100, x % 0x100, x / 0x100]
  }

  const PAD: WChar := 61

  // The alphabet of section 4 of RFC 4648, as code units.
  function Symbol(sextet: nat): (c: WChar)
    requires sextet < 64
    ensures c != PAD
  {
    if sextet < 26 then 65 + sextet            // A-Z
    else if sextet < 52 then 97 + sextet - 26  // a-z
    else if sextet < 62 then 48 + sextet - 52  // 0-9
    else if sextet == 62 then 43               // +
    else 47                                    // /
  }

  // Three bytes are 24 bits, which are four sextets.
  function Sextets(b0: Byte, b1: Byte, b2: Byte): (s: (nat, nat, nat, nat))
    ensures s.0 < 64 && s.1 < 64 && s.2 < 64 && s.3 < 64
  {
    (b0 / 4, b0 % 4 * 16 + b1 / 16, b1 % 16 * 4 + b2 / 64, b2 % 64)
  }

  function Base64(bytes: seq<Byte>): (text: Wide)
    ensures text == [] <==> bytes == []
  {
    if |bytes| == 0 then []
    else if |bytes| == 1 then
      var s := Sextets(bytes[0], 0, 0);
      [Symbol(s.0), Symbol(s.1), PAD, PAD]
    else if |bytes| == 2 then
      var s := Sextets(bytes[0], bytes[1], 0);
      [Symbol(s.0), Symbol(s.1), Symbol(s.2), PAD]
    else
      var s := Sextets(bytes[0], bytes[1], bytes[2]);
      [Symbol(s.0), Symbol(s.1), Symbol(s.2), Symbol(s.3)] + Base64(bytes[3..])
  }

  // The two DWORDs that are encoded.
  function HashWords(md5: Digest, ds: seq<DWord>): (DWord, DWord) {
    (Xor(Lane(Step0(md5), ds, |ds|), Lane(Step1(md5), ds, |ds|)),
     Xor(LaneSum(Step0(md5), ds, |ds|), LaneSum(Step1(md5), ds, |ds|)))
  }

  // What HashString returns.
  function HashOf(digest: seq<Byte> -> Digest, s: Wide): Wide {
    var bytes := InputBytes(s);
    var ds := DWords(bytes);
    if ds == [] then []
    else
      var (w0, w1) := HashWords(digest(bytes), ds);
      Base64(LittleEndian(w0) + LittleEndian(w1))
  }

  // What the four running values are after n DWORDs.
  ghost predicate After(md5: Digest, ds: seq<DWord>, n: nat, h0: DWord, h1: DWord, h0Acc: DWord, h1Acc: DWord)
    requires n <= |ds|
  {
    && h0 == Lane(Step0(md5), ds, n) && h1 == Lane(Step1(md5), ds, n)
    && h0Acc == LaneSum(Step0(md5), ds, n) && h1Acc == LaneSum(Step1(md5), ds, n)
  }

  method AddAndScramble0(h: DWord, input: DWord, c0: seq<DWord>) returns (h0: DWord)
    requires |c0| == 5
    ensures h0 == FullScramble0(Add(h, input), c0)
  {
    h0 := Add(h, input);
    Scramble0Unrolled(h0, c0);
    h0 := Mul(h0, c0[0]);
    h0 := Mul(WordSwap(h0), c0[1]);
    h0 := Mul(WordSwap(h0), c0[2]);
    h0 := Mul(WordSwap(h0), c0[3]);
    h0 := Mul(WordSwap(h0), c0[4]);
  }

  method AddAndScramble1(h: DWord, input: DWord, c1: seq<DWord>) returns (h1: DWord)
    requires |c1| == 5
    ensures h1 == Scramble1(Add(h, input), c1)
  {
    h1 := Add(h, input);
    h1 := Add(Mul(WordSwap(h1), c1[1]), Mul(h1, c1[0]));
    h1 := Add(Mul(h1 / WORD, c1[2]), Mul(h1, c1[3]));
    h1 := Add(Mul(WordSwap(h1), c1[4]), h1);
  }

  method HashString(digest: seq<Byte> -> Digest, input: Wide) returns (text: Wide)
    ensures text == HashOf(digest, input)
    ensures text == [] <==> |input| < 3
  {
    hide Lane, LaneSum, Step0, Step1, Scramble1, FullScramble0, C0, C1, Mul, WordSwap, XorBits, LittleEndian, After;
    var inputBytes := InputBytes(input);
    var byteCount := (|input| + 1) * 2;
    var blockCount := byteCount / BLOCK_SIZE;
    if blockCount == 0 {
      return [];
    }
    var md5 := digest(inputBytes);
    var h0: DWord, h1: DWord := 0, 0;
    var h0Acc: DWord, h1Acc: DWord := 0, 0;
    ghost var ds := DWords(inputBytes);
    assert |ds| == DWORDS_PER_BLOCK * blockCount && 4 * |ds| <= |inputBytes|;
    AfterNone(md5, ds);
    for i := 0 to blockCount
      invariant After(md5, ds, DWORDS_PER_BLOCK * i, h0, h1, h0Acc, h1Acc)
    {
      for j := 0 to DWORDS_PER_BLOCK
        invariant After(md5, ds, DWORDS_PER_BLOCK * i + j, h0, h1, h0Acc, h1Acc)
      {
        var c0, c1 := C0(md5, j), C1(md5, j);
        var dword := DWordAt(inputBytes, DWORDS_PER_BLOCK * i + j);
        AfterNext(md5, ds, i, j, h0, h1, h0Acc, h1Acc);
        h0 := AddAndScramble0(h0, dword, c0);
        h0Acc := Add(h0Acc, h0);
        h1 := AddAndScramble1(h1, dword, c1);
        h1Acc := Add(h1Acc, h1);
      }
    }
    AfterAll(md5, ds, h0, h1, h0Acc, h1Acc);
    text := Base64(LittleEndian(Xor(h0, h1)) + LittleEndian(Xor(h0Acc, h1Acc)));
  }

  lemma AfterNone(md5: Digest, ds: seq<DWord>)
    ensures After(md5, ds, 0, 0, 0, 0, 0)
  {}

  lemma AfterAll(md5: Digest, ds: seq<DWord>, h0: DWord, h1: DWord, h0Acc: DWord, h1Acc: DWord)
    requires After(md5, ds, |ds|, h0, h1, h0Acc, h1Acc)
    ensures HashWords(md5, ds) == (Xor(h0, h1), Xor(h0Acc, h1Acc))
  {}

  lemma BlockIndex(i: nat, j: nat)
    requires j < DWORDS_PER_BLOCK
    ensures (DWORDS_PER_BLOCK * i + j) % DWORDS_PER_BLOCK == j
  {}

  lemma AfterNext(md5: Digest, ds: seq<DWord>, i: nat, j: nat, h0: DWord, h1: DWord, h0Acc: DWord, h1Acc: DWord)
    requires DWORDS_PER_BLOCK * i + j < |ds| && j < DWORDS_PER_BLOCK
    requires After(md5, ds, DWORDS_PER_BLOCK * i + j, h0, h1, h0Acc, h1Acc)
    ensures
      var n := DWORDS_PER_BLOCK * i + j;
      var h0' := FullScramble0(Add(h0, ds[n]), C0(md5, j));
      var h1' := Scramble1(Add(h1, ds[n]), C1(md5, j));
      After(md5, ds, n + 1, h0', h1', Add(h0Acc, h0'), Add(h1Acc, h1'))
  {
    var n := DWORDS_PER_BLOCK * i + j;
    BlockIndex(i, j);
  }

  lemma Scramble0Unrolled(h: DWord, c: seq<DWord>)
    requires |c| == 5
    ensures Scramble0(h, c, 5) ==
      Mul(WordSwap(Mul(WordSwap(Mul(WordSwap(Mul(WordSwap(Mul(h, c[0])), c[1])), c[2])), c[3])), c[4])
  {
    assert Scramble0(h, c, 2) == Mul(WordSwap(Mul(h, c[0])), c[1]);
    assert Scramble0(h, c, 3) == Mul(WordSwap(Scramble0(h, c, 2)), c[2]);
    assert Scramble0(h, c, 4) == Mul(WordSwap(Scramble0(h, c, 3)), c[3]);
  }

  // ------------------------------------------------- what the text preserves

  function SymbolValue(c: WChar): (sextet: nat)
    ensures sextet < 64
  {
    if 65 <= c <= 90 then c - 65
    else if 97 <= c <= 122 then c - 97 + 26
    else if 48 <= c <= 57 then c - 48 + 52
    else if c == 43 then 62
    else if c == 47 then 63
    else 0
  }

  function FromSextets(s0: nat, s1: nat, s2: nat, s3: nat): (Byte, Byte, Byte)
    requires s0 < 64 && s1 < 64 && s2 < 64 && s3 < 64
  {
    (s0 * 4 + s1 / 16, s1 % 16 * 16 + s2 / 4, s2 % 4 * 64 + s3)
  }

  // Decoding as in section 4 of RFC 4648; the padding stands for zero bits.
  function Unbase64(text: Wide): seq<Byte> {
    if |text| < 4 then []
    else
      var (b0, b1, b2) :=
        FromSextets(SymbolValue(text[0]), SymbolValue(text[1]), SymbolValue(text[2]), SymbolValue(text[3]));
      if text[2] == PAD then [b0]
      else if text[3] == PAD then [b0, b1]
      else [b0, b1, b2] + Unbase64(text[4..])
  }

  lemma SymbolReadsBack(sextet: nat)
    requires sextet < 64
    ensures SymbolValue(Symbol(sextet)) == sextet
  {}

  lemma Joined16(high: nat, low: nat)
    requires low < 16
    ensures (high * 16 + low) / 16 == high && (high * 16 + low) % 16 == low
  {}

  lemma Joined4(high: nat, low: nat)
    requires low < 4
    ensures (high * 4 + low) / 4 == high && (high * 4 + low) % 4 == low
  {}

  lemma BitsReadBack(b0: Byte, b1: Byte, b2: Byte)
    ensures var s := Sextets(b0, b1, b2);
      FromSextets(s.0, s.1, s.2, s.3) == (b0, b1, b2)
  {
    Joined16(b0 % 4, b1 / 16);
    Joined4(b1 % 16, b2 / 64);
  }

  lemma SextetsReadBack(b0: Byte, b1: Byte, b2: Byte)
    ensures var s := Sextets(b0, b1, b2);
      && FromSextets(s.0, s.1, s.2, s.3) == (b0, b1, b2)
      && SymbolValue(Symbol(s.0)) == s.0 && SymbolValue(Symbol(s.1)) == s.1
      && SymbolValue(Symbol(s.2)) == s.2 && SymbolValue(Symbol(s.3)) == s.3
  {
    BitsReadBack(b0, b1, b2);
    hide Sextets, FromSextets, Symbol, SymbolValue;
    var s := Sextets(b0, b1, b2);
    SymbolReadsBack(s.0);
    SymbolReadsBack(s.1);
    SymbolReadsBack(s.2);
    SymbolReadsBack(s.3);
  }

  lemma NoBits()
    ensures SymbolValue(PAD) == 0
    ensures forall b0: Byte, b1: Byte :: Sextets(b0, b1, 0).3 == 0 && Sextets(b0, 0, 0).2 == 0
  {}

  lemma {:induction false} Base64ReadsBack(bytes: seq<Byte>)
    ensures Unbase64(Base64(bytes)) == bytes
  {
    NoBits();
    hide Symbol, SymbolValue, Sextets, FromSextets;
    if |bytes| == 1 {
      SextetsReadBack(bytes[0], 0, 0);
    } else if |bytes| == 2 {
      SextetsReadBack(bytes[0], bytes[1], 0);
    } else if |bytes| > 2 {
      SextetsReadBack(bytes[0], bytes[1], bytes[2]);
      assert Base64(bytes)[4..] == Base64(bytes[3..]);
      Base64ReadsBack(bytes[3..]);
    }
  }

  lemma LittleEndianReadsBack(v: DWord)
    ensures DWordAt(LittleEndian(v), 0) == v
  {}

  lemma LowBits(x: nat, y: nat, b: nat, c: nat)
    requires b < 2 && c < 2 && 2 * x + b == 2 * y + c
    ensures x == y && b == c
  {}

  lemma SameNumber(v: nat, v': nat, w: nat)
    requires (v + w) % 2 == (v' + w) % 2 && v / 2 == v' / 2
    ensures v == v'
  {}

  lemma {:induction false} XorBitsCancels(v: nat, v': nat, w: nat, bits: nat)
    requires v < Pow2(bits) && v' < Pow2(bits)
    requires XorBits(v, w, bits) == XorBits(v', w, bits)
    ensures v == v'
  {
    if bits > 0 {
      assert v / 2 < Pow2(bits - 1) && v' / 2 < Pow2(bits - 1);
      var x, x' := XorBits(v / 2, w / 2, bits - 1), XorBits(v' / 2, w / 2, bits - 1);
      assert 2 * x + (v + w) % 2 == 2 * x' + (v' + w) % 2;
      hide XorBits, Pow2;
      LowBits(x, x', (v + w) % 2, (v' + w) % 2);
      XorBitsCancels(v / 2, v' / 2, w / 2, bits - 1);
      SameNumber(v, v', w);
    }
  }

  lemma TwoDWordsReadBack(v0: DWord, v1: DWord, w0: DWord, w1: DWord)
    requires Base64(LittleEndian(v0) + LittleEndian(v1)) == Base64(LittleEndian(w0) + LittleEndian(w1))
    ensures v0 == w0 && v1 == w1
  {
    var a, b := LittleEndian(v0) + LittleEndian(v1), LittleEndian(w0) + LittleEndian(w1);
    Base64ReadsBack(a);
    Base64ReadsBack(b);
    hide Base64, LittleEndian, DWordAt;
    assert LittleEndian(v0) == a[..4] == b[..4] == LittleEndian(w0);
    assert LittleEndian(v1) == a[4..] == b[4..] == LittleEndian(w1);
    LittleEndianReadsBack(v0);
    LittleEndianReadsBack(v1);
    LittleEndianReadsBack(w0);
    LittleEndianReadsBack(w1);
  }

  // Equal texts are equal 64-bit hashes.
  lemma TextIsTheHash(digest: seq<Byte> -> Digest, s: Wide, t: Wide)
    requires |s| >= 3 && |t| >= 3
    ensures HashOf(digest, s) == HashOf(digest, t) <==>
      HashWords(digest(InputBytes(s)), DWords(InputBytes(s))) == HashWords(digest(InputBytes(t)), DWords(InputBytes(t)))
  {
    if HashOf(digest, s) == HashOf(digest, t) {
      var (v0, v1) := HashWords(digest(InputBytes(s)), DWords(InputBytes(s)));
      var (w0, w1) := HashWords(digest(InputBytes(t)), DWords(InputBytes(t)));
      TwoDWordsReadBack(v0, v1, w0, w1);
    }
  }

  // The text decodes to two DWORDs: the two checksums combined, and then their
  // two accumulated totals.
  lemma TextShowsWords(digest: seq<Byte> -> Digest, s: Wide)
    requires |s| >= 3
    ensures var (bytes, md5, ds) := (Unbase64(HashOf(digest, s)), digest(InputBytes(s)), DWords(InputBytes(s)));
      && |bytes| == 8
      && DWordAt(bytes, 0) == Xor(Lane(Step0(md5), ds, |ds|), Lane(Step1(md5), ds, |ds|))
      && DWordAt(bytes, 1) == Xor(LaneSum(Step0(md5), ds, |ds|), LaneSum(Step1(md5), ds, |ds|))
  {
    var (w0, w1) := HashWords(digest(InputBytes(s)), DWords(InputBytes(s)));
    var bytes := LittleEndian(w0) + LittleEndian(w1);
    Base64ReadsBack(bytes);
    SecondDWord(LittleEndian(w0), LittleEndian(w1));
    LittleEndianReadsBack(w0);
    LittleEndianReadsBack(w1);
    hide Lane, LaneSum, Base64, Unbase64, LittleEndian, DWordAt, Step0, Step1;
  }

  lemma SecondDWord(a: seq<Byte>, b: seq<Byte>)
    requires |a| == 4 && |b| == 4
    ensures DWordAt(a + b, 0) == DWordAt(a, 0) && DWordAt(a + b, 1) == DWordAt(b, 0)
  {}

  // The k-th DWORD is the code units 2k and 2k + 1, the terminating NUL included.
  lemma DWordIsTwoUnits(s: Wide, k: nat)
    requires k < |DWords(InputBytes(s))|
    ensures 2 * k + 1 <= |s|
    ensures DWords(InputBytes(s))[k] == (s + [0])[2 * k] + (s + [0])[2 * k + 1] * WORD
  {
    var units, bytes := s + [0], InputBytes(s);
    assert bytes[4 * k] == units[2 * k] % 0x100 && bytes[4 * k + 1] == units[2 * k] / 0x100;
    assert bytes[4 * k + 2] == units[2 * k + 1] % 0x100 && bytes[4 * k + 3] == units[2 * k + 1] / 0x100;
  }

  // Changing one code unit inside the complete blocks changes one DWORD.
  lemma OneUnitIsOneDWord(s: Wide, at: nat, unit: WChar)
    requires at < |s| && unit != s[at] && at / 2 < |DWords(InputBytes(s))|
    ensures var ds, es := DWords(InputBytes(s)), DWords(InputBytes(s[at := unit]));
      |es| == |ds| && es[at / 2] != ds[at / 2] && es == ds[at / 2 := es[at / 2]]
  {
    var t := s[at := unit];
    var ds, es := DWords(InputBytes(s)), DWords(InputBytes(t));
    forall k | 0 <= k < |ds| ensures k == at / 2 <==> es[k] != ds[k] {
      DWordIsTwoUnits(s, k);
      DWordIsTwoUnits(t, k);
    }
  }

  // Two strings that differ in a single code unit and have the same multipliers
  // end with different h0; so they can only have the same text if that unit
  // changes h1 as well.
  lemma OneSidedCollisionImpossible(digest: seq<Byte> -> Digest, s: Wide, at: nat, unit: WChar)
    requires at < |s| && unit != s[at] && at / 2 < |DWords(InputBytes(s))|
    ensures var t := s[at := unit];
      var md5, ds, es := digest(InputBytes(s)), DWords(InputBytes(s)), DWords(InputBytes(t));
      && |es| == |ds|
      && Lane(Step0(md5), ds, |ds|) != Lane(Step0(md5), es, |ds|)
      && (md5 == digest(InputBytes(t)) && HashOf(digest, s) == HashOf(digest, t) ==>
            Lane(Step1(md5), ds, |ds|) != Lane(Step1(md5), es, |ds|))
  {
    var t := s[at := unit];
    var md5, ds, es := digest(InputBytes(s)), DWords(InputBytes(s)), DWords(InputBytes(t));
    OneUnitIsOneDWord(s, at, unit);
    OneChangedDWordShows(md5, ds, at / 2, es[at / 2]);
    TextIsTheHash(digest, s, t);
    Pow2Of32();
    hide Lane, LaneSum, DWords, InputBytes, HashOf, XorBits, Step0, Step1;
    if md5 == digest(InputBytes(t)) && HashOf(digest, s) == HashOf(digest, t) &&
       Lane(Step1(md5), ds, |ds|) == Lane(Step1(md5), es, |ds|) {
      XorBitsCancels(Lane(Step0(md5), ds, |ds|), Lane(Step0(md5), es, |ds|), Lane(Step1(md5), ds, |ds|), 32);
    }
  }

  // ---------------------------------------------------- a known text

  // L"abc" with its MD5: one block, all ten multipliers of both lanes.
  const ABC: Wide := [97, 98, 99]
  const ABC_MD5: Digest := (0xBCB22503, 0xFBECC65B)

  lemma AbcDWords()
    ensures DWords(InputBytes(ABC)) == [0x62_0061, 0x63]
  {
    var ds := DWords(InputBytes(ABC));
    assert |ds| == 2;
    DWordIsTwoUnits(ABC, 0);
    DWordIsTwoUnits(ABC, 1);
    assert (ABC + [0])[3] == 0;
  }

  lemma AbcRows()
    ensures C0(ABC_MD5, 0) == [0xBCB22503, 0xCF98B111, 0x87085B9F, 0x12CEB96D, 0x257E1D83]
    ensures C0(ABC_MD5, 1) == [0xFBECC65B, 0xA27416F5, 0xD38396FF, 0x7C932B89, 0xBFA49F69]
    ensures C1(ABC_MD5, 0) == [0xBCB22503, 0xEF0569FB, 0x689B6B9F, 0x79F8A395, 0xC3EFEA97]
    ensures C1(ABC_MD5, 1) == [0xFBECC65B, 0xC31713DB, 0xDDCD1F0F, 0x59C3AF2D, 0x35BD1EC9]
  {}

  lemma AbcProducts()
    ensures Mul(0x62_0061, 0xBCB22503) == 0xAAA60623
    ensures Mul(WordSwap(0xAAA60623), 0xCF98B111) == 0x9DEB1B06
    ensures Mul(WordSwap(0x9DEB1B06), 0x87085B9F) == 0xFF969DF5
    ensures Mul(WordSwap(0xFF969DF5), 0x12CEB96D) == 0x3E2538DE
    ensures Mul(WordSwap(0x3E2538DE), 0x257E1D83) == 0x35F9FDEF
    ensures Mul(0x35F9FE52, 0xFBECC65B) == 0x6428D326
    ensures Mul(WordSwap(0x6428D326), 0xA27416F5) == 0x12794A48
    ensures Mul(WordSwap(0x12794A48), 0xD38396FF) == 0x67884C87
    ensures Mul(WordSwap(0x67884C87), 0x7C932B89) == 0x05F23FC8
    ensures Mul(WordSwap(0x05F23FC8), 0xBFA49F69) == 0xC1C3BE42
  {}

  lemma AbcSums()
    ensures Mul(WordSwap(0x62_0061), 0xEF0569FB) == 0xA82D9216
    ensures Mul(0x52D39839 / WORD, 0x689B6B9F) == 0x0092A20D
    ensures Mul(0x52D39839, 0x79F8A395) == 0x574BE42D
    ensures Mul(WordSwap(0x57DE863A), 0xC3EFEA97) == 0xA2FCBFF2
    ensures Mul(WordSwap(0xFADB468F), 0xC31713DB) == 0x6776DA59
    ensures Mul(0xFADB468F, 0xFBECC65B) == 0x0558AED5
    ensures Mul(0x6CCF892E / WORD, 0xDDCD1F0F) == 0xE1F67121
    ensures Mul(0x6CCF892E, 0x59C3AF2D) == 0x7B4B8F16
    ensures Mul(WordSwap(0x5D420037), 0x35BD1EC9) == 0x2C1FF4D2
    ensures Add(0xA82D9216, 0xAAA60623) == 0x52D39839
    ensures Add(0x0092A20D, 0x574BE42D) == 0x57DE863A
    ensures Add(0xA2FCBFF2, 0x57DE863A) == 0xFADB462C
    ensures Add(0x6776DA59, 0x0558AED5) == 0x6CCF892E
    ensures Add(0xE1F67121, 0x7B4B8F16) == 0x5D420037
    ensures Add(0x2C1FF4D2, 0x5D420037) == 0x8961F509
  {}

  lemma AbcScrambles()
    ensures FullScramble0(0x62_0061, C0(ABC_MD5, 0)) == 0x35F9FDEF
    ensures FullScramble0(0x35F9FE52, C0(ABC_MD5, 1)) == 0xC1C3BE42
    ensures Scramble1(0x62_0061, C1(ABC_MD5, 0)) == 0xFADB462C
    ensures Scramble1(0xFADB468F, C1(ABC_MD5, 1)) == 0x8961F509
  {
    hide Add, Mul, WordSwap, C0, C1, Scramble0;
    AbcRows();
    AbcProducts();
    AbcSums();
    Scramble0Unrolled(0x62_0061, C0(ABC_MD5, 0));
    Scramble0Unrolled(0x35F9FE52, C0(ABC_MD5, 1));
  }

  // The values of the two lanes after each of the two DWORDs.
  lemma AbcLanes()
    ensures var ds := [0x62_0061, 0x63];
      && Lane(Step0(ABC_MD5), ds, 1) == 0x35F9FDEF && Lane(Step0(ABC_MD5), ds, 2) == 0xC1C3BE42
      && Lane(Step1(ABC_MD5), ds, 1) == 0xFADB462C && Lane(Step1(ABC_MD5), ds, 2) == 0x8961F509
  {
    AbcScrambles();
    var ds := [0x62_0061, 0x63];
    hide FullScramble0, Scramble1, C0, C1;
    LaneStep(Step0(ABC_MD5), ds, 0);
    LaneStep(Step0(ABC_MD5), ds, 1);
    LaneStep(Step1(ABC_MD5), ds, 0);
    LaneStep(Step1(ABC_MD5), ds, 1);
  }

  // The two words that are encoded, as exclusive ors.
  lemma AbcWords()
    ensures HashWords(ABC_MD5, [0x62_0061, 0x63]) == (Xor(0xC1C3BE42, 0x8961F509), Xor(0xF7BDBC31, 0x843D3B35))
  {
    AbcLanes();
    var ds := [0x62_0061, 0x63];
    hide Lane, Xor, Step0, Step1;
    assert LaneSum(Step0(ABC_MD5), ds, 1) == 0x35F9FDEF;
    assert LaneSum(Step1(ABC_MD5), ds, 1) == 0xFADB462C;
  }

  lemma KnownWords(digest: seq<Byte> -> Digest)
    requires digest(InputBytes(ABC)) == ABC_MD5
    ensures HashOf(digest, ABC) ==
      Base64(LittleEndian(Xor(0xC1C3BE42, 0x8961F509)) + LittleEndian(Xor(0xF7BDBC31, 0x843D3B35)))
  {
    AbcDWords();
    AbcWords();
    hide HashWords, Base64, LittleEndian, DWords, InputBytes, Xor;
  }

  // A-Z, a-z, 0-9, + and /, each letter and digit one after the other.
  lemma Alphabet(k: nat)
    requires 0 < k < 64
    ensures Symbol(0) == 65 && Symbol(26) == 97 && Symbol(52) == 48 && Symbol(62) == 43 && Symbol(63) == 47
    ensures k !in {26, 52, 62, 63} ==> Symbol(k) == Symbol(k - 1) + 1
  {}

  // Eight bytes with one '=' behind them.
  lemma KnownText()
    ensures Base64([0x4B, 0x4B, 0xA2, 0x48, 0x04, 0x87, 0x80, 0x73]) ==
      [83, 48, 117, 105, 83, 65, 83, 72, 103, 72, 77, 61]     // S0uiSASHgHM=
  {
    var bytes := [0x4B, 0x4B, 0xA2, 0x48, 0x04, 0x87, 0x80, 0x73];
    assert Base64([0x80, 0x73]) == [103, 72, 77, 61];
    assert bytes[3..] == [0x48, 0x04, 0x87, 0x80, 0x73];
    assert Base64([0x48, 0x04, 0x87, 0x80, 0x73]) == [83, 65, 83, 72] + Base64([0x80, 0x73]);
  }

}
