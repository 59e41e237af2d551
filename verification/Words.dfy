/** JavaScript's 32-bit words as numbers below 2^32, with every wrap-around written out. */
module Words {

  const WORD_SIZE := 0x1_0000_0000

  type Byte = x: int | 0 <= x < 256
  type Bytes = seq<Byte>
  type Word = x: int | 0 <= x < 0x1_0000_0000

  function Pow2(n: nat): (p: nat)
    ensures p > 0
  {
    if n == 0 then 1 else 2 * Pow2(n - 1)
  }

  /** `n * 2^k` */
  function Scale(n: nat, k: nat): (r: nat)
  {
    if k == 0 then n else 2 * Scale(n, k - 1)
  }

  /** `w << s`: the bits pushed past bit 31 are lost. */
  function Shl(w: Word, s: nat): Word { Scale(w, s) % WORD_SIZE }

  /** `w >>> s` */
  function Shr(w: nat, s: nat): (r: nat)
    ensures r <= w
  {
    if s == 0 then w else Shr(w / 2, s - 1)
  }

  /** `w & (2^s - 1)` */
  function LowBits(w: nat, s: nat): (r: nat)
    ensures r <= w && r < Pow2(s)
  {
    if s == 0 then 0 else 2 * LowBits(w / 2, s - 1) + w % 2
  }

  /** `w | x` for words that share no bit, which is what the precondition asks the caller to prove. */
  function Or(w: Word, x: Word, s: nat): (r: Word)
    requires s <= 32 && LowBits(w, s) == 0 && x < Pow2(s)
  {
    DisjointSum(w, x, s);
    w + x
  }

  lemma {:induction false} ScaleIsMul(n: nat, k: nat)
    ensures Scale(n, k) == n * Pow2(k)
  {
    if k > 0 {
      ScaleIsMul(n, k - 1);
    }
  }

  lemma {:induction false} SplitAt(w: nat, s: nat)
    ensures w == Scale(Shr(w, s), s) + LowBits(w, s)
  {
    if s > 0 {
      SplitAt(w / 2, s - 1);
    }
  }

  /** `x` is written in exactly one way as `q` followed by `s` low bits. */
  lemma {:induction false} JoinAt(q: nat, r: nat, s: nat)
    requires r < Pow2(s)
    ensures Shr(Scale(q, s) + r, s) == q && LowBits(Scale(q, s) + r, s) == r
  {
    if s > 0 {
      var x := Scale(q, s) + r;
      assert x / 2 == Scale(q, s - 1) + r / 2 && x % 2 == r % 2;
      JoinAt(q, r / 2, s - 1);
    }
  }

  lemma {:induction false} LowBitsIsMod(w: nat, s: nat)
    ensures LowBits(w, s) == w % Pow2(s)
  {
    SplitAt(w, s);
    ScaleIsMul(Shr(w, s), s);
    DivModUnique(w, Shr(w, s), LowBits(w, s), Pow2(s));
  }

  // ----- division and remainder by powers of two -----

  lemma {:induction false} Pow2Add(a: nat, b: nat)
    ensures Pow2(a + b) == Pow2(a) * Pow2(b)
  {
    if b > 0 {
      Pow2Add(a, b - 1);
      assert Pow2(a) * Pow2(b) == 2 * (Pow2(a) * Pow2(b - 1));
    }
  }

  lemma {:induction false} Pow2Is32()
    ensures Pow2(32) == WORD_SIZE
  {
    assert Pow2(4) == 16;
    Pow2Add(4, 4);
    Pow2Add(8, 8);
    Pow2Add(16, 16);
  }

  lemma {:induction false} MulAtLeast(d: int, m: int)
    requires m > 0
    ensures d >= 1 ==> d * m >= m && d * m >= d
    ensures d <= -1 ==> d * m <= -m
  {
    if d >= 1 {
      assert d * m == (d - 1) * m + m && (d - 1) * m >= 0;
      assert d * m == d * (m - 1) + d && d * (m - 1) >= 0;
    } else if d <= -1 {
      assert d * m == (d + 1) * m - m && (d + 1) * m <= 0;
    }
  }

  /** Quotient and remainder are the only way to write `x` as `q * m + r` with `r < m`. */
  lemma {:induction false} DivModUnique(x: int, q: int, r: int, m: nat)
    requires 0 <= r < m && x == q * m + r
    ensures x / m == q && x % m == r
  {
    var d := q - x / m;
    assert x == (x / m) * m + x % m;
    assert d * m == x % m - r;
    MulAtLeast(d, m);
  }

  /** A multiple of `p` below a multiple of `p` leaves room for anything below `p`. */
  lemma {:induction false} RoomBelow(q: int, c: int, p: int, x: int)
    requires 0 <= x < p && q < c
    ensures q * p + x < c * p
  {
    MulAtLeast(c - q, p);
    assert (c - q) * p == c * p - q * p;
  }

  lemma {:induction false} RoomAbove(w: int, c: int, p: int, x: int)
    requires 0 <= x < p && w % p == 0 && w < c * p
    ensures w + x < c * p
  {
    var q := w / p;
    assert w == q * p;
    if q >= c {
      MulMonotone(c, q, p);
      assert false;
    } else {
      RoomBelow(q, c, p, x);
    }
  }

  lemma {:induction false} MulMonotone(a: int, b: int, m: nat)
    requires a <= b
    ensures a * m <= b * m
  {
    assert b * m == a * m + (b - a) * m;
  }

  lemma {:induction false} DisjointSum(w: Word, x: Word, s: nat)
    requires s <= 32 && LowBits(w, s) == 0 && x < Pow2(s)
    ensures w + x < WORD_SIZE
  {
    LowBitsIsMod(w, s);
    Pow2Add(32 - s, s);
    Pow2Is32();
    RoomAbove(w, Pow2(32 - s), Pow2(s), x);
  }

  /** `ShiftIn` on plain numbers: `m` live values, a step of `p`, and a word of `(m * p) * c`. */
  lemma {:induction false} ShiftInCore(w: nat, m: nat, p: nat, c: nat, x: nat, size: nat)
    requires m > 0 && c > 0 && x < p && size == (m * p) * c > 0
    ensures ((w * p) % size) % p == 0
    ensures m * p > 0 && ((w * p) % size + x) % (m * p) == (w % m) * p + x
  {
    var a, live := w / m, w % m;
    assert w == a * m + live;
    MulAtLeast(m, p);
    var k, shifted := (w * p) / size, (w * p) % size;
    assert w * p == k * size + shifted;
    ShiftedParts(a, live, m, p, k, c);
    RoomBelow(live, m, p, x);
    FinishShift(shifted, a - k * c, live, m, p, x);
  }

  lemma {:induction false} FinishShift(shifted: int, q: int, live: int, m: int, p: int, x: int)
    requires 0 <= x < p && shifted == (q * m + live) * p == q * (m * p) + live * p
    requires 0 <= live * p + x < m * p
    ensures shifted % p == 0 && (shifted + x) % (m * p) == live * p + x
  {
    DivModUnique(shifted, q * m + live, 0, p);
    DivModUnique(shifted + x, q, live * p + x, m * p);
  }

  lemma {:induction false} ShiftedParts(a: int, live: int, m: int, p: int, k: int, c: int)
    ensures (a * m + live) * p - k * ((m * p) * c) == (a - k * c) * (m * p) + live * p
    ensures (a - k * c) * (m * p) + live * p == ((a - k * c) * m + live) * p
  {
    assert k * ((m * p) * c) == (k * c) * (m * p);
    assert (a - k * c) * (m * p) == ((a - k * c) * m) * p;
    assert (a * m) * p == a * (m * p);
    assert (a - k * c) * (m * p) == a * (m * p) - (k * c) * (m * p);
  }

  // ----- the two steps of a shift register -----

  /**
   A shift register that is never masked: whatever sits above the `n` live bits, shifting `s`
   bits in leaves exactly the live bits followed by the new ones.
   */
  lemma {:induction false} ShiftIn(w: Word, n: nat, x: Word, s: nat)
    requires n + s <= 32 && x < Pow2(s)
    ensures LowBits(Shl(w, s), s) == 0
    ensures LowBits(Or(Shl(w, s), x, s), n + s) == Scale(LowBits(w, n), s) + x
  {
    Pow2Add(n, s);
    Pow2Add(n + s, 32 - n - s);
    Pow2Is32();
    ShiftInCore(w, Pow2(n), Pow2(s), Pow2(32 - n - s), x, WORD_SIZE);
    ScaleIsMul(w, s);
    LowBitsIsMod(Shl(w, s), s);
    LowBitsIsMod(Or(Shl(w, s), x, s), n + s);
    LowBitsIsMod(w, n);
    ScaleIsMul(LowBits(w, n), s);
  }

  /** Taking the top `s` of `n` live bits leaves the others where they are. */
  lemma {:induction false} TakeTop(w: nat, n: nat, s: nat)
    requires s <= n
    ensures LowBits(w, n) == Scale(LowBits(Shr(w, n - s), s), n - s) + LowBits(w, n - s)
  {
    if s < n {
      TakeTop(w / 2, n - 1, s);
    }
  }

  // ----- scaling -----

  lemma {:induction false} ScaleTwice(n: nat, a: nat, b: nat)
    ensures Scale(Scale(n, a), b) == Scale(n, a + b)
  {
    if b > 0 {
      ScaleTwice(n, a, b - 1);
    }
  }

  lemma {:induction false} ScaleAdd(n: nat, m: nat, k: nat)
    ensures Scale(n + m, k) == Scale(n, k) + Scale(m, k)
  {
    if k > 0 {
      ScaleAdd(n, m, k - 1);
    }
  }

  lemma {:induction false} ScaleBelow(n: nat, bound: nat, k: nat)
    requires n < bound
    ensures Scale(n, k) < Scale(bound, k)
  {
    if k > 0 {
      ScaleBelow(n, bound, k - 1);
    }
  }

  lemma {:induction false} ScaleMonotone(bound: nat, n: nat, k: nat)
    ensures n >= bound ==> Scale(n, k) >= Scale(bound, k)
  {
    if k > 0 {
      ScaleMonotone(bound, n, k - 1);
    }
  }

  lemma {:induction false} ScaleRoom(n: nat, bound: nat, x: nat, k: nat)
    requires n < bound && x < Pow2(k)
    ensures Scale(n, k) + x < Scale(bound, k)
  {
    if k > 0 {
      ScaleRoom(n, bound, x / 2, k - 1);
    }
  }

  lemma {:induction false} Pow2Scale(a: nat, b: nat)
    ensures Scale(Pow2(a), b) == Pow2(a + b)
  {
    if b > 0 {
      Pow2Scale(a, b - 1);
    }
  }

  lemma {:induction false} PowersUsed()
    ensures Pow2(0) == 1 && Pow2(5) == 32 && Pow2(7) == 128 && Pow2(8) == 256
  {
    assert Pow2(4) == 16;
    assert Pow2(8) == 2 * Pow2(7) && Pow2(7) == 2 * Pow2(6);
  }
}
