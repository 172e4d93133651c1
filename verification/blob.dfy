/**
 * Fixed-width identifiers: the `Blob<N>` template of the peer network.
 *
 * A blob is N raw bytes that behave as one unsigned integer: byte 0 is the
 * least significant, byte N-1 the most significant. Values are modelled as
 * `seq<bv8>` of length N; `ToNat` gives the integer a blob stands for, and the
 * lemmas below prove that the byte loops of the operators agree with integer
 * arithmetic on that value.
 */
module Blobs {

  type Bytes = seq<bv8>

  // ---------------------------------------------------------------------
  // Integer helpers
  // ---------------------------------------------------------------------

  function Pow2(n: nat): (r: nat)
    ensures r >= 1
  {
    if n == 0 then 1 else 2 * Pow2(n - 1)
  }

  /** 256^n, the number of distinct n-byte blobs. */
  function Pow256(n: nat): (r: nat)
    ensures r >= 1
  {
    if n == 0 then 1 else 256 * Pow256(n - 1)
  }

  lemma MulNonneg(a: int, b: int)
    requires a >= 0 && b >= 0
    ensures a * b >= 0
  {
  }

  lemma MulDistSub(a: int, b: int, d: int)
    ensures a * d - b * d == (a - b) * d
  {
  }

  lemma MulLe(p: int, a: int, b: int)
    requires p >= 0 && a <= b
    ensures p * a <= p * b
  {
    MulNonneg(p, b - a);
    assert p * b - p * a == p * (b - a);
  }

  /** (t * x) * y == t * z where z == x * y. */
  lemma MulAssocEq(t: int, x: int, y: int, z: int)
    requires z == x * y
    ensures (t * x) * y == t * z
  {
  }

  /** Quotient and remainder are determined by the defining equation. */
  lemma DivModUnique(x: int, d: int, q: int, r: int)
    requires d > 0 && 0 <= r < d && x == q * d + r
    ensures x / d == q && x % d == r
  {
    var q', r' := x / d, x % d;
    MulDistSub(q', q, d);
    if q' > q {
      MulNonneg(q' - q - 1, d);
      MulDistSub(q' - q, 1, d);
      assert false;
    } else if q' < q {
      MulNonneg(q - q' - 1, d);
      MulDistSub(q - q', 1, d);
      assert false;
    }
  }

  /** The same, from the form in which byte sequences give their value. */
  lemma DivModFrom(t: int, p: int, v: int, u: int)
    requires p > 0 && 0 <= u < p && t == u + p * v
    ensures t / p == v && t % p == u
  {
    DivModUnique(t, p, v, u);
  }

  lemma ModMulLeft(x: int, y: int, m: int)
    requires m > 0
    ensures ((x % m) * y) % m == (x * y) % m
  {
    var q := x / m;
    assert x * y == (x % m) * y + (q * y) * m by {
      assert x == q * m + x % m;
    }
    var t := (x % m) * y;
    DivModUnique(t, m, t / m, t % m);
    DivModUnique(x * y, m, t / m + q * y, t % m);
  }

  /** (x mod m) * k == (x * k) mod (m * k). */
  lemma MulMod(x: nat, m: nat, k: nat)
    requires m > 0 && k > 0
    ensures (x % m) * k == (x * k) % (m * k)
  {
    var q, r := x / m, x % m;
    assert x * k == q * (m * k) + r * k by {
      assert x == q * m + r;
    }
    MulLe(k, r, m - 1);
    DivModUnique(x * k, m * k, q, r * k);
  }

  /** A multiple of m leaves no remainder. */
  lemma ModOfMultiple(t: int, p: int, m: int, q: int)
    requires m > 0 && p == m * q
    ensures (t * p) % m == 0
  {
    MulAssocEq(t, q, m, p);
    DivModUnique(t * p, m, t * q, 0);
  }

  lemma DivDiv(x: nat, a: nat, b: nat)
    requires a > 0 && b > 0
    ensures (x / a) / b == x / (a * b)
  {
    var q1 := x / a;
    var q2 := q1 / b;
    assert x == q1 * a + x % a;
    assert q1 == q2 * b + q1 % b;
    assert x == q2 * (a * b) + ((q1 % b) * a + x % a) by {
      assert q1 * a == q2 * (a * b) + (q1 % b) * a;
    }
    MulLe(a, q1 % b, b - 1);
    DivModUnique(x, a * b, q2, (q1 % b) * a + x % a);
  }

  /** x mod 256p, read as a low byte and the higher part modulo p. */
  lemma ModSplit(x: int, p: int)
    requires p > 0
    ensures x % (256 * p) == x % 256 + 256 * ((x / 256) % p)
  {
    var t, u := x / 256, x % 256;
    var q, v := t / p, t % p;
    assert x == 256 * t + u;
    assert t == q * p + v;
    assert 256 * t == q * (256 * p) + 256 * v;
    DivModUnique(x, 256 * p, q, u + 256 * v);
  }

  lemma {:induction false} Pow2Add(a: nat, b: nat)
    ensures Pow2(a + b) == Pow2(a) * Pow2(b)
  {
    if a > 0 {
      Pow2Add(a - 1, b);
      MulAssocEq(2, Pow2(a - 1), Pow2(b), Pow2(a - 1 + b));
    }
  }

  lemma {:induction false} Pow2Bytes(n: nat)
    ensures Pow2(8 * n) == Pow256(n)
  {
    if n > 0 {
      Pow2Bytes(n - 1);
      Pow2Add(8, 8 * (n - 1));
      assert Pow2(8) == 256;
      assert 8 * n == 8 + 8 * (n - 1);
    }
  }

  lemma {:induction false} Pow256Add(m: nat, n: nat)
    ensures Pow256(m + n) == Pow256(m) * Pow256(n)
  {
    if m > 0 {
      Pow256Add(m - 1, n);
      assert Pow256(m + n) == 256 * Pow256(m - 1 + n);
      MulAssocEq(256, Pow256(m - 1), Pow256(n), Pow256(m - 1 + n));
    }
  }

  lemma Pow256Monotone(m: nat, n: nat)
    requires m <= n
    ensures Pow256(m) <= Pow256(n)
    ensures Pow256(n) == Pow256(m) * Pow256(n - m)
  {
    Pow256Add(m, n - m);
    MulLe(Pow256(m), 1, Pow256(n - m));
  }

  // ---------------------------------------------------------------------
  // The value of a byte sequence
  // ---------------------------------------------------------------------

  /** The unsigned value of a little-endian byte sequence. */
  function ToNat(a: Bytes): nat
  {
    if |a| == 0 then 0 else a[0] as nat + 256 * ToNat(a[1..])
  }

  lemma {:induction false} ToNatBound(a: Bytes)
    ensures ToNat(a) < Pow256(|a|)
  {
    if |a| > 0 {
      ToNatBound(a[1..]);
    }
  }

  /** The value of a concatenation: the second part sits above the first. */
  lemma {:induction false} ToNatAppend(a: Bytes, b: Bytes)
    ensures ToNat(a + b) == ToNat(a) + Pow256(|a|) * ToNat(b)
  {
    if |a| > 0 {
      assert (a + b)[1..] == a[1..] + b;
      ToNatAppend(a[1..], b);
      MulAssocEq(256, Pow256(|a| - 1), ToNat(b), Pow256(|a| - 1) * ToNat(b));
    } else {
      assert a + b == b;
    }
  }

  /** The value seen from the top byte down, the order of the comparison loops. */
  lemma ToNatSnoc(a: Bytes)
    requires |a| > 0
    ensures ToNat(a) == ToNat(a[..|a| - 1]) + Pow256(|a| - 1) * a[|a| - 1] as nat
  {
    var n := |a| - 1;
    ToNatAppend(a[..n], [a[n]]);
    assert ToNat([a[n]]) == a[n] as nat + 256 * ToNat([]);
    assert a[..n] + [a[n]] == a;
  }

  /** A prefix holds the value modulo 256^j, a suffix the quotient. */
  lemma ToNatSplit(a: Bytes, j: nat)
    requires j <= |a|
    ensures ToNat(a[..j]) == ToNat(a) % Pow256(j)
    ensures ToNat(a[j..]) == ToNat(a) / Pow256(j)
  {
    assert a == a[..j] + a[j..];
    ToNatParts(a, a[..j], a[j..]);
  }

  lemma ToNatParts(a: Bytes, x: Bytes, y: Bytes)
    requires a == x + y
    ensures ToNat(x) == ToNat(a) % Pow256(|x|)
    ensures ToNat(y) == ToNat(a) / Pow256(|x|)
  {
    ToNatAppend(x, y);
    ToNatBound(x);
    DivModFrom(ToNat(a), Pow256(|x|), ToNat(y), ToNat(x));
  }

  lemma {:induction false} ToNatInjective(a: Bytes, b: Bytes)
    requires |a| == |b| && ToNat(a) == ToNat(b)
    ensures a == b
  {
    if |a| > 0 {
      DivModUnique(ToNat(a), 256, ToNat(a[1..]), a[0] as nat);
      DivModUnique(ToNat(b), 256, ToNat(b[1..]), b[0] as nat);
      ToNatInjective(a[1..], b[1..]);
      assert a == [a[0]] + a[1..] && b == [b[0]] + b[1..];
    }
  }

  /** Only the all-zero blob has value zero. */
  lemma ToNatZeroIff(a: Bytes)
    ensures ToNat(a) == 0 <==> a == Zero(|a|)
  {
    ZeroValue(|a|);
    if ToNat(a) == 0 {
      ToNatInjective(a, Zero(|a|));
    }
  }

  // ---------------------------------------------------------------------
  // Construction and conversion
  // ---------------------------------------------------------------------

  /** `Blob()`: every byte zero. */
  function Zero(n: nat): (r: Bytes)
    ensures |r| == n
  {
    seq(n, i => 0 as bv8)
  }

  lemma {:induction false} ZeroValue(n: nat)
    ensures ToNat(Zero(n)) == 0
  {
    if n > 0 {
      assert Zero(n)[1..] == Zero(n - 1);
      ZeroValue(n - 1);
    }
  }

  /**
   * `Blob(const T &t)` / `operator=(const T &t)`: the first min(N, sizeof t)
   * bytes of t's host representation, the rest zero.
   */
  function Convert(n: nat, t: Bytes): (r: Bytes)
    ensures |r| == n
  {
    seq(n, i requires 0 <= i < n => if i < |t| then t[i] else 0)
  }

  /**
   * On a little-endian host a conversion truncates or zero-extends the value:
   * the result is the value of t modulo 256^N.
   */
  lemma ConvertValue(n: nat, t: Bytes)
    ensures ToNat(Convert(n, t)) == ToNat(t) % Pow256(n)
  {
    if |t| <= n {
      assert Convert(n, t) == t + Zero(n - |t|);
      ToNatAppend(t, Zero(n - |t|));
      ZeroValue(n - |t|);
      ToNatBound(t);
      Pow256Monotone(|t|, n);
      DivModUnique(ToNat(t), Pow256(n), 0, ToNat(t));
    } else {
      assert Convert(n, t) == t[..n];
      ToNatSplit(t, n);
    }
  }

  /**
   * The host representation of an integer of width w bytes (two's
   * complement, little-endian): byte k is floor(x / 256^k) mod 256.
   */
  function HostInt(x: int, w: nat): (r: Bytes)
    ensures |r| == w
    decreases w
  {
    if w == 0 then [] else [(x % 256) as bv8] + HostInt(x / 256, w - 1)
  }

  lemma {:induction false} HostIntValue(x: int, w: nat)
    ensures ToNat(HostInt(x, w)) == x % Pow256(w)
    decreases w
  {
    if w > 0 {
      var h := HostInt(x, w);
      assert h[1..] == HostInt(x / 256, w - 1);
      HostIntValue(x / 256, w - 1);
      ByteOf(x % 256);
      ModSplit(x, Pow256(w - 1));
    }
  }

  /** A byte read as a number converts back to the same byte. */
  lemma ByteBack(b: bv8)
    ensures (b as int) as bv8 == b
  {
  }

  /** Below 255, adding one to a byte adds one to its value. */
  lemma ByteSucc(b: bv8)
    requires b as int < 255
    ensures (b + 1) as int == b as int + 1
  {
  }

  /**
   * A number below 256 converted to a byte keeps its value, proved by
   * counting up one at a time.
   */
  lemma {:induction false} ByteOf(v: int)
    requires 0 <= v < 256
    ensures (v as bv8) as int == v
  {
    if v > 0 {
      ByteOf(v - 1);
      var b := (v - 1) as bv8;
      ByteSucc(b);
      ByteBack(b + 1);
    }
  }

  /** The signed value of a two's-complement byte sequence. */
  function SignedValue(b: Bytes): int
  {
    if |b| > 0 && b[|b| - 1] >= 0x80 then ToNat(b) - Pow256(|b|) else ToNat(b)
  }

  /** Integers that fit in w bytes survive the host representation. */
  lemma HostIntSigned(x: int, w: nat)
    requires w > 0
    requires -(Pow256(w) as int / 2) <= x < Pow256(w) / 2
    ensures SignedValue(HostInt(x, w)) == x
  {
    var h := HostInt(x, w);
    var p := Pow256(w - 1);
    var top := h[w - 1] as int;
    HostIntValue(x, w);
    ToNatSnoc(h);
    ToNatBound(h[..w - 1]);
    assert ToNat(h) == ToNat(h[..w - 1]) + p * top;
    assert Pow256(w) == 256 * p;
    SignSplit(ToNat(h[..w - 1]), p, top);
    if x >= 0 {
      DivModUnique(x, Pow256(w), 0, x);
    } else {
      DivModUnique(x, Pow256(w), -1, x + Pow256(w));
    }
  }

  /** The top byte of a little-endian number is at least 0x80 exactly when the number is in the upper half. */
  lemma SignSplit(lo: int, p: int, top: int)
    requires 0 <= lo < p && 0 <= top < 256
    ensures top >= 128 <==> lo + p * top >= 128 * p
  {
    if top >= 128 {
      MulLe(p, 128, top);
    } else {
      MulLe(p, top, 127);
    }
  }

  // ---------------------------------------------------------------------
  // Comparison
  // ---------------------------------------------------------------------

  /** `operator==`: every byte equal. */
  function Equal(a: Bytes, b: Bytes): (r: bool)
    requires |a| == |b|
    ensures r <==> a == b
  {
    forall i | 0 <= i < |a| :: a[i] == b[i]
  }

  /** `operator!=`: the negation of `==`. */
  function NotEqual(a: Bytes, b: Bytes): (r: bool)
    requires |a| == |b|
    ensures r <==> a != b
  {
    !Equal(a, b)
  }

  /** `operator<`: decided at the most significant differing byte. */
  function Less(a: Bytes, b: Bytes): bool
    requires |a| == |b|
  {
    if |a| == 0 then false
    else if a[|a| - 1] < b[|a| - 1] then true
    else if a[|a| - 1] > b[|a| - 1] then false
    else Less(a[..|a| - 1], b[..|a| - 1])
  }

  /** `operator>`: the mirror image of `<`, with its own loop. */
  function Greater(a: Bytes, b: Bytes): bool
    requires |a| == |b|
  {
    if |a| == 0 then false
    else if a[|a| - 1] > b[|a| - 1] then true
    else if a[|a| - 1] < b[|a| - 1] then false
    else Greater(a[..|a| - 1], b[..|a| - 1])
  }

  /** `operator<=` is defined as not `>`. */
  function LessEq(a: Bytes, b: Bytes): bool
    requires |a| == |b|
  {
    !Greater(a, b)
  }

  /** `operator>=` is defined as not `<`. */
  function GreaterEq(a: Bytes, b: Bytes): bool
    requires |a| == |b|
  {
    !Less(a, b)
  }

  lemma TopByteDecides(a0: nat, b0: nat, p: nat, x: nat, y: nat)
    requires a0 < p && b0 < p && x < y
    ensures a0 + p * x < b0 + p * y
  {
    MulLe(p, x + 1, y);
  }

  /** Two numbers written as low part plus p times a top digit. */
  lemma TopDigitOrders(ta: nat, tb: nat, a0: nat, b0: nat, p: nat, x: nat, y: nat)
    requires ta == a0 + p * x && tb == b0 + p * y
    requires a0 < p && b0 < p && x != y
    ensures x < y <==> ta < tb
    ensures x > y <==> ta > tb
  {
    if x < y {
      TopByteDecides(a0, b0, p, x, y);
    } else {
      TopByteDecides(b0, a0, p, y, x);
    }
  }

  /** When the top bytes differ, they decide the numeric order. */
  lemma TopByteOrders(a: Bytes, b: Bytes)
    requires |a| == |b| > 0 && a[|a| - 1] != b[|a| - 1]
    ensures a[|a| - 1] < b[|a| - 1] <==> ToNat(a) < ToNat(b)
    ensures a[|a| - 1] > b[|a| - 1] <==> ToNat(a) > ToNat(b)
  {
    var k := |a| - 1;
    ToNatSnoc(a);
    ToNatSnoc(b);
    ToNatBound(a[..k]);
    ToNatBound(b[..k]);
    TopDigitOrders(ToNat(a), ToNat(b), ToNat(a[..k]), ToNat(b[..k]), Pow256(k), a[k] as nat, b[k] as nat);
  }

  /** When the top bytes agree, the rest decides the numeric order. */
  lemma SameTopByte(a: Bytes, b: Bytes)
    requires |a| == |b| > 0 && a[|a| - 1] == b[|a| - 1]
    ensures ToNat(a) < ToNat(b) <==> ToNat(a[..|a| - 1]) < ToNat(b[..|a| - 1])
    ensures ToNat(a) > ToNat(b) <==> ToNat(a[..|a| - 1]) > ToNat(b[..|a| - 1])
  {
    ToNatSnoc(a);
    ToNatSnoc(b);
  }

  /** `<` compares the blobs as unsigned integers. */
  lemma {:induction false} LessIsNumeric(a: Bytes, b: Bytes)
    requires |a| == |b|
    ensures Less(a, b) <==> ToNat(a) < ToNat(b)
  {
    if |a| > 0 {
      var k := |a| - 1;
      if a[k] != b[k] {
        TopByteOrders(a, b);
      } else {
        LessIsNumeric(a[..k], b[..k]);
        SameTopByte(a, b);
      }
    }
  }

  /** `>` compares the blobs as unsigned integers. */
  lemma {:induction false} GreaterIsNumeric(a: Bytes, b: Bytes)
    requires |a| == |b|
    ensures Greater(a, b) <==> ToNat(a) > ToNat(b)
  {
    if |a| > 0 {
      var k := |a| - 1;
      if a[k] != b[k] {
        TopByteOrders(a, b);
      } else {
        GreaterIsNumeric(a[..k], b[..k]);
        SameTopByte(a, b);
      }
    }
  }

  /** Exactly one of a < b, a == b, a > b holds. */
  lemma Trichotomy(a: Bytes, b: Bytes)
    requires |a| == |b|
    ensures Less(a, b) || a == b || Greater(a, b)
    ensures !(Less(a, b) && a == b) && !(Less(a, b) && Greater(a, b)) && !(a == b && Greater(a, b))
  {
    LessIsNumeric(a, b);
    GreaterIsNumeric(a, b);
    if ToNat(a) == ToNat(b) {
      ToNatInjective(a, b);
    }
  }

  /** `<=` and `>=` are the non-strict numeric orders. */
  lemma NonStrictIsNumeric(a: Bytes, b: Bytes)
    requires |a| == |b|
    ensures LessEq(a, b) <==> ToNat(a) <= ToNat(b)
    ensures GreaterEq(a, b) <==> ToNat(a) >= ToNat(b)
  {
    LessIsNumeric(a, b);
    GreaterIsNumeric(a, b);
  }

  lemma LessTransitive(a: Bytes, b: Bytes, c: Bytes)
    requires |a| == |b| == |c| && Less(a, b) && Less(b, c)
    ensures Less(a, c)
  {
    LessIsNumeric(a, b);
    LessIsNumeric(b, c);
    LessIsNumeric(a, c);
  }

  // ---------------------------------------------------------------------
  // Bitwise operators
  // ---------------------------------------------------------------------

  function And(a: Bytes, b: Bytes): (r: Bytes)
    requires |a| == |b|
    ensures |r| == |a|
  {
    seq(|a|, i requires 0 <= i < |a| => a[i] & b[i])
  }

  function Or(a: Bytes, b: Bytes): (r: Bytes)
    requires |a| == |b|
    ensures |r| == |a|
  {
    seq(|a|, i requires 0 <= i < |a| => a[i] | b[i])
  }

  function Xor(a: Bytes, b: Bytes): (r: Bytes)
    requires |a| == |b|
    ensures |r| == |a|
  {
    seq(|a|, i requires 0 <= i < |a| => a[i] ^ b[i])
  }

  function Not(a: Bytes): (r: Bytes)
    ensures |r| == |a|
  {
    seq(|a|, i requires 0 <= i < |a| => !a[i])
  }

  /** a ^ b ^ b == a, a ^ a == 0 and a ^ 0 == a. */
  lemma XorLaws(a: Bytes, b: Bytes)
    requires |a| == |b|
    ensures Xor(Xor(a, b), b) == a
    ensures Xor(a, a) == Zero(|a|)
    ensures Xor(a, Zero(|a|)) == a
  {
    assert forall i | 0 <= i < |a| :: Xor(Xor(a, b), b)[i] == a[i];
  }

  /** XOR distance is symmetric and associative. */
  lemma XorAlgebra(a: Bytes, b: Bytes, c: Bytes)
    requires |a| == |b| == |c|
    ensures Xor(a, b) == Xor(b, a)
    ensures Xor(Xor(a, b), c) == Xor(a, Xor(b, c))
  {
  }

  lemma XorByteZero(x: bv8, y: bv8)
    ensures x ^ y == 0 <==> x == y
  {
  }

  /** a ^ b is zero exactly when a == b. */
  lemma XorZeroIff(a: Bytes, b: Bytes)
    requires |a| == |b|
    ensures Xor(a, b) == Zero(|a|) <==> a == b
  {
    forall i | 0 <= i < |a|
      ensures Xor(a, b)[i] == 0 <==> a[i] == b[i]
    {
      XorByteZero(a[i], b[i]);
    }
  }

  lemma ComplementByte(x: bv8)
    ensures (!x) as int == 255 - x as int
  {
  }

  /** ~~a == a, and every byte of ~a is 255 minus the byte of a. */
  lemma NotLaws(a: Bytes)
    ensures Not(Not(a)) == a
    ensures forall i | 0 <= i < |a| :: Not(a)[i] as int == 255 - a[i] as int
  {
    forall i | 0 <= i < |a|
      ensures Not(a)[i] as int == 255 - a[i] as int
    {
      ComplementByte(a[i]);
    }
  }

  /**
   * `&` and `|` commute, zero absorbs `&` and is neutral for `|`, a blob
   * and its complement share no bit, and `~` turns `&` into `|`.
   */
  lemma AndOrLaws(a: Bytes, b: Bytes)
    requires |a| == |b|
    ensures And(a, b) == And(b, a) && Or(a, b) == Or(b, a)
    ensures And(a, Zero(|a|)) == Zero(|a|) && Or(a, Zero(|a|)) == a
    ensures And(a, Not(a)) == Zero(|a|)
    ensures Not(And(a, b)) == Or(Not(a), Not(b))
  {
    assert forall i | 0 <= i < |a| :: Or(a, Zero(|a|))[i] == a[i];
    assert forall i | 0 <= i < |a| :: And(a, Not(a))[i] == 0;
    assert forall i | 0 <= i < |a| :: Not(And(a, b))[i] == Or(Not(a), Not(b))[i];
  }

  // ---------------------------------------------------------------------
  // Shifts
  // ---------------------------------------------------------------------

  /**
   * `operator<<(shift)`: whole bytes move up by shift / 8, then each byte
   * takes its own bits shifted by shift % 8 and the carried-out high bits of
   * the byte below it.
   */
  function ShiftLeft(a: Bytes, shift: nat): (r: Bytes)
    ensures |r| == |a|
  {
    seq(|a|, i requires 0 <= i < |a| => ShiftLeftByte(a, i, shift / 8, (shift % 8) as bv8))
  }

  /** Byte i of `a << (8 * byteShift + bitShift)`. */
  function ShiftLeftByte(a: Bytes, i: int, byteShift: nat, bitShift: bv8): bv8
    requires 0 <= i < |a| && bitShift < 8
  {
    if i - byteShift >= 0 then
      if bitShift == 0 then a[i - byteShift]
      else (a[i - byteShift] << bitShift) |
           (if i - byteShift - 1 >= 0 then a[i - byteShift - 1] >> (8 - bitShift) else 0)
    else 0
  }

  /** `operator>>(shift)`: the mirror image of `<<`. */
  function ShiftRight(a: Bytes, shift: nat): (r: Bytes)
    ensures |r| == |a|
  {
    seq(|a|, i requires 0 <= i < |a| => ShiftRightByte(a, i, shift / 8, (shift % 8) as bv8))
  }

  /** Byte i of `a >> (8 * byteShift + bitShift)`. */
  function ShiftRightByte(a: Bytes, i: int, byteShift: nat, bitShift: bv8): bv8
    requires 0 <= i < |a| && bitShift < 8
  {
    if i + byteShift < |a| then
      if bitShift == 0 then a[i + byteShift]
      else (a[i + byteShift] >> bitShift) |
           (if i + byteShift + 1 < |a| then a[i + byteShift + 1] << (8 - bitShift) else 0)
    else 0
  }

  // The proofs split a shift into a whole-byte move and a shift by fewer
  // than 8 bits, and the latter into one-bit steps.

  /** Byte j of a, or zero outside the blob. */
  function At(a: Bytes, j: int): bv8
  {
    if 0 <= j < |a| then a[j] else 0
  }

  /** A byte shifted up by k, filled from the top of the byte below. */
  function UpPair(x: bv8, below: bv8, k: bv8): bv8
    requires k < 8
  {
    (x << k) | (below >> (8 - k))
  }

  /** A byte shifted down by k, filled from the bottom of the byte above. */
  function DownPair(x: bv8, above: bv8, k: bv8): bv8
    requires k < 8
  {
    (x >> k) | (above << (8 - k))
  }

  function BytesUp(a: Bytes, n: nat): (r: Bytes)
    ensures |r| == |a|
  {
    seq(|a|, i requires 0 <= i < |a| => At(a, i - n))
  }

  function BitsUp(a: Bytes, k: bv8): (r: Bytes)
    requires k < 8
    ensures |r| == |a|
  {
    seq(|a|, i requires 0 <= i < |a| => UpPair(a[i], At(a, i - 1), k))
  }

  function BytesDown(a: Bytes, n: nat): (r: Bytes)
    ensures |r| == |a|
  {
    seq(|a|, i requires 0 <= i < |a| => At(a, i + n))
  }

  function BitsDown(a: Bytes, k: bv8): (r: Bytes)
    requires k < 8
    ensures |r| == |a|
  {
    seq(|a|, i requires 0 <= i < |a| => DownPair(a[i], At(a, i + 1), k))
  }

  /** A one-bit left shift, with the bits carried in from below given. */
  function Up1(a: Bytes, carry: bv8): (r: Bytes)
    ensures |r| == |a|
  {
    if |a| == 0 then [] else [UpPair(a[0], carry, 1)] + Up1(a[1..], a[0])
  }

  lemma PairByZero(x: bv8, y: bv8)
    ensures UpPair(x, y, 0) == x && DownPair(x, y, 0) == x
  {
  }

  lemma PairOfZeros(k: bv8)
    requires k < 8
    ensures UpPair(0, 0, k) == 0 && DownPair(0, 0, k) == 0
  {
  }

  lemma PairNoFill(x: bv8, k: bv8)
    requires k < 8
    ensures UpPair(x, 0, k) == x << k && DownPair(x, 0, k) == x >> k
  {
  }

  /** A shift by k is a shift by k - 1 followed by a shift by one. */
  lemma UpCompose(x: bv8, y: bv8, w: bv8, k: bv8)
    requires 1 <= k < 8
    ensures UpPair(x, y, k) == UpPair(UpPair(x, y, k - 1), UpPair(y, w, k - 1), 1)
  {
  }

  lemma DownCompose(x: bv8, y: bv8, w: bv8, k: bv8)
    requires 1 <= k < 8
    ensures DownPair(x, y, k) == DownPair(DownPair(x, y, k - 1), DownPair(y, w, k - 1), 1)
  {
  }

  lemma SplitLowBit(z: bv8)
    ensures z as int == (z >> 1) as int * 2 + (z & 1) as int
  {
  }

  lemma SplitHighBit(z: bv8)
    ensures z as int == (z & 127) as int + 128 * (z >> 7) as int
  {
  }

  lemma Low7(x: bv8)
    ensures (x & 127) as int == x as int % 128
  {
  }

  lemma High1(x: bv8)
    ensures (x >> 7) as int == x as int / 128
  {
  }

  lemma Half(x: bv8)
    ensures (x >> 1) as int == x as int / 2
  {
  }

  lemma Parity(x: bv8)
    ensures (x & 1) as int == x as int % 2
  {
  }

  /** One byte of a one-bit left shift, as a number. */
  lemma UpByte(x: bv8, y: bv8)
    ensures UpPair(x, y, 1) as int == (x as int % 128) * 2 + y as int / 128
  {
    var z := (x << 1) | (y >> 7);
    SplitLowBit(z);
    assert z >> 1 == x & 127;
    assert z & 1 == y >> 7;
    Low7(x);
    High1(y);
  }

  /** One byte of a one-bit right shift, as a number. */
  lemma DownByte(x: bv8, y: bv8)
    ensures DownPair(x, y, 1) as int == x as int / 2 + 128 * (y as int % 2)
  {
    var z := (x >> 1) | (y << 7);
    SplitHighBit(z);
    assert z & 127 == x >> 1;
    assert z >> 7 == y & 1;
    Half(x);
    Parity(y);
  }

  lemma ShiftLeftByteIs(a: Bytes, i: int, bs: nat, k: bv8)
    requires 0 <= i < |a| && k < 8
    ensures ShiftLeftByte(a, i, bs, k) == UpPair(At(a, i - bs), At(a, i - bs - 1), k)
  {
    if k == 0 {
      PairByZero(At(a, i - bs), At(a, i - bs - 1));
    } else if i - bs < 0 {
      PairOfZeros(k);
    } else if i - bs - 1 < 0 {
      PairNoFill(a[i - bs], k);
    }
  }

  lemma ShiftRightByteIs(a: Bytes, i: int, bs: nat, k: bv8)
    requires 0 <= i < |a| && k < 8
    ensures ShiftRightByte(a, i, bs, k) == DownPair(At(a, i + bs), At(a, i + bs + 1), k)
  {
    if k == 0 {
      PairByZero(At(a, i + bs), At(a, i + bs + 1));
    } else if i + bs >= |a| {
      PairOfZeros(k);
    } else if i + bs + 1 >= |a| {
      PairNoFill(a[i + bs], k);
    }
  }

  lemma ShiftLeftDecompose(a: Bytes, s: nat)
    ensures ShiftLeft(a, s) == BitsUp(BytesUp(a, s / 8), (s % 8) as bv8)
  {
    var bs, k := s / 8, (s % 8) as bv8;
    var c := BytesUp(a, bs);
    forall i | 0 <= i < |a|
      ensures ShiftLeft(a, s)[i] == BitsUp(c, k)[i]
    {
      assert ShiftLeft(a, s)[i] == ShiftLeftByte(a, i, bs, k);
      ShiftLeftByteIs(a, i, bs, k);
      assert c[i] == At(a, i - bs);
      assert At(c, i - 1) == At(a, i - bs - 1);
    }
  }

  lemma ShiftRightDecompose(a: Bytes, s: nat)
    ensures ShiftRight(a, s) == BitsDown(BytesDown(a, s / 8), (s % 8) as bv8)
  {
    var bs, k := s / 8, (s % 8) as bv8;
    var c := BytesDown(a, bs);
    forall i | 0 <= i < |a|
      ensures ShiftRight(a, s)[i] == BitsDown(c, k)[i]
    {
      assert ShiftRight(a, s)[i] == ShiftRightByte(a, i, bs, k);
      ShiftRightByteIs(a, i, bs, k);
      assert c[i] == At(a, i + bs);
      assert At(c, i + 1) == At(a, i + bs + 1);
    }
  }

  lemma BitsUpCompose(a: Bytes, k: bv8)
    requires 1 <= k < 8
    ensures BitsUp(a, k) == BitsUp(BitsUp(a, k - 1), 1)
  {
    var c := BitsUp(a, k - 1);
    forall i | 0 <= i < |a|
      ensures BitsUp(a, k)[i] == BitsUp(c, 1)[i]
    {
      UpCompose(a[i], At(a, i - 1), At(a, i - 2), k);
      if i == 0 {
        PairOfZeros(k - 1);
      } else {
        assert At(c, i - 1) == UpPair(At(a, i - 1), At(a, i - 2), k - 1);
      }
    }
  }

  lemma BitsDownCompose(a: Bytes, k: bv8)
    requires 1 <= k < 8
    ensures BitsDown(a, k) == BitsDown(BitsDown(a, k - 1), 1)
  {
    var c := BitsDown(a, k - 1);
    forall i | 0 <= i < |a|
      ensures BitsDown(a, k)[i] == BitsDown(c, 1)[i]
    {
      DownCompose(a[i], At(a, i + 1), At(a, i + 2), k);
      if i == |a| - 1 {
        PairOfZeros(k - 1);
      } else {
        assert At(c, i + 1) == DownPair(At(a, i + 1), At(a, i + 2), k - 1);
      }
    }
  }

  lemma BitsByZero(a: Bytes)
    ensures BitsUp(a, 0) == a && BitsDown(a, 0) == a
  {
    forall i | 0 <= i < |a|
      ensures BitsUp(a, 0)[i] == a[i] && BitsDown(a, 0)[i] == a[i]
    {
      PairByZero(a[i], At(a, i - 1));
      PairByZero(a[i], At(a, i + 1));
    }
  }

  lemma {:induction false} Up1Index(a: Bytes, carry: bv8)
    ensures forall i | 0 <= i < |a| :: Up1(a, carry)[i] == UpPair(a[i], if i == 0 then carry else a[i - 1], 1)
  {
    if |a| > 0 {
      Up1Index(a[1..], a[0]);
      var r := Up1(a, carry);
      forall i | 1 <= i < |a|
        ensures r[i] == UpPair(a[i], a[i - 1], 1)
      {
        assert r[i] == Up1(a[1..], a[0])[i - 1];
      }
    }
  }

  lemma BitsUpOne(a: Bytes)
    ensures BitsUp(a, 1) == Up1(a, 0)
  {
    Up1Index(a, 0);
  }

  /** The byte a one-bit shift pushes out at the top. */
  function Last(a: Bytes, carry: bv8): bv8
  {
    if |a| == 0 then carry else a[|a| - 1]
  }

  /** A one-bit left shift doubles the value; the top bit falls out. */
  lemma {:induction false} Up1Value(a: Bytes, carry: bv8)
    ensures ToNat(Up1(a, carry)) + (if Last(a, carry) as int >= 128 then Pow256(|a|) else 0)
         == 2 * ToNat(a) + carry as int / 128
  {
    if |a| > 0 {
      var r := Up1(a, carry);
      var x := a[0] as int;
      assert r[1..] == Up1(a[1..], a[0]);
      assert Last(a[1..], a[0]) == Last(a, carry);
      Up1Value(a[1..], a[0]);
      UpByte(a[0], carry);
      assert ToNat(r) == UpPair(a[0], carry, 1) as int + 256 * ToNat(Up1(a[1..], a[0]));
      assert x == x % 128 + 128 * (x / 128);
    }
  }

  /** A one-bit right shift halves the value; the low bit falls out. */
  lemma {:induction false} BitsDownOneValue(a: Bytes)
    ensures 2 * ToNat(BitsDown(a, 1)) + (At(a, 0) as int % 2) == ToNat(a)
  {
    if |a| > 0 {
      var r := BitsDown(a, 1);
      assert r[1..] == BitsDown(a[1..], 1);
      assert At(a[1..], 0) == At(a, 1);
      BitsDownOneValue(a[1..]);
      DownByte(a[0], At(a, 1));
    }
  }

  lemma {:induction false} BitsUpValue(a: Bytes, k: bv8)
    requires k < 8
    ensures ToNat(BitsUp(a, k)) == (ToNat(a) * Pow2(k as nat)) % Pow256(|a|)
    decreases k as int
  {
    var m := Pow256(|a|);
    if k == 0 {
      BitsByZero(a);
      ToNatBound(a);
      DivModUnique(ToNat(a), m, 0, ToNat(a));
    } else {
      var c := BitsUp(a, k - 1);
      var d := BitsUp(c, 1);
      BitsUpCompose(a, k);
      BitsUpValue(a, k - 1);
      BitsUpOne(c);
      Up1Value(c, 0);
      ToNatBound(d);
      assert (k - 1) as nat == k as nat - 1;
      DoubleMod(ToNat(a), Pow2((k - 1) as nat), ToNat(c), ToNat(d), if Last(c, 0) as int >= 128 then 1 else 0, m);
    }
  }

  /** Doubling a residue: the step from a shift by k - 1 to a shift by k. */
  lemma DoubleMod(t: nat, p: nat, c: nat, d: nat, e: int, m: nat)
    requires m > 0 && c == (t * p) % m && d + m * e == 2 * c && 0 <= d < m
    ensures d == (t * (2 * p)) % m
  {
    DivModUnique(2 * c, m, e, d);
    ModMulLeft(t * p, 2, m);
    MulAssocEq(t, p, 2, 2 * p);
  }

  lemma {:induction false} BitsDownValue(a: Bytes, k: bv8)
    requires k < 8
    ensures ToNat(BitsDown(a, k)) == ToNat(a) / Pow2(k as nat)
    decreases k as int
  {
    if k > 0 {
      BitsDownValue(a, k - 1);
      BitsDownStep(a, k);
    } else {
      BitsByZero(a);
    }
  }

  /** A shift by k is a shift by k - 1 and then by one more bit. */
  lemma BitsDownStep(a: Bytes, k: bv8)
    requires 0 < k < 8 && ToNat(BitsDown(a, k - 1)) == ToNat(a) / Pow2((k - 1) as nat)
    ensures ToNat(BitsDown(a, k)) == ToNat(a) / Pow2(k as nat)
  {
    var c := BitsDown(a, k - 1);
    BitsDownCompose(a, k);
    BitsDownOneValue(c);
    assert (k - 1) as nat == k as nat - 1;
    HalveDiv(ToNat(a), Pow2((k - 1) as nat), ToNat(c), ToNat(BitsDown(c, 1)), At(c, 0) as int % 2);
  }

  /** Halving a quotient: the step from a shift by k - 1 to a shift by k. */
  lemma HalveDiv(t: nat, p: nat, c: nat, d: nat, e: int)
    requires p > 0 && c == t / p && 2 * d + e == c && 0 <= e < 2
    ensures d == t / (p * 2)
  {
    DivModUnique(c, 2, d, e);
    DivDiv(t, p, 2);
  }

  lemma BytesUpValue(a: Bytes, n: nat)
    ensures ToNat(BytesUp(a, n)) == (ToNat(a) * Pow256(n)) % Pow256(|a|)
  {
    if n <= |a| {
      var m := |a| - n;
      var z := Zero(n) + a[..m];
      forall i | 0 <= i < |a|
        ensures BytesUp(a, n)[i] == z[i]
      {
        assert BytesUp(a, n)[i] == At(a, i - n);
        if i < n {
          assert z[i] == Zero(n)[i] == 0;
        } else {
          assert z[i] == a[..m][i - n] == a[i - n];
        }
      }
      assert BytesUp(a, n) == z;
      ToNatAppend(Zero(n), a[..m]);
      ZeroValue(n);
      ToNatSplit(a, m);
      MulMod(ToNat(a), Pow256(m), Pow256(n));
      Pow256Add(m, n);
    } else {
      forall i | 0 <= i < |a|
        ensures BytesUp(a, n)[i] == Zero(|a|)[i]
      {
        assert At(a, i - n) == 0;
      }
      assert BytesUp(a, n) == Zero(|a|);
      ZeroValue(|a|);
      Pow256Monotone(|a|, n);
      ModOfMultiple(ToNat(a), Pow256(n), Pow256(|a|), Pow256(n - |a|));
    }
  }

  lemma BytesDownValue(a: Bytes, n: nat)
    ensures ToNat(BytesDown(a, n)) == ToNat(a) / Pow256(n)
  {
    if n <= |a| {
      var z := a[n..] + Zero(n);
      forall i | 0 <= i < |a|
        ensures BytesDown(a, n)[i] == z[i]
      {
        assert BytesDown(a, n)[i] == At(a, i + n);
        if i < |a| - n {
          assert z[i] == a[n..][i] == a[i + n];
        } else {
          assert z[i] == Zero(n)[i - (|a| - n)] == 0;
        }
      }
      assert BytesDown(a, n) == z;
      ToNatAppend(a[n..], Zero(n));
      ZeroValue(n);
      ToNatSplit(a, n);
    } else {
      forall i | 0 <= i < |a|
        ensures BytesDown(a, n)[i] == Zero(|a|)[i]
      {
        assert At(a, i + n) == 0;
      }
      assert BytesDown(a, n) == Zero(|a|);
      ZeroValue(|a|);
      ToNatBound(a);
      Pow256Monotone(|a|, n);
      DivModUnique(ToNat(a), Pow256(n), 0, ToNat(a));
    }
  }

  lemma SmallShift(k: nat)
    requires k < 8
    ensures (k as bv8) as nat == k
  {
  }

  /** 2^s splits into whole bytes and the remaining bits. */
  lemma ShiftSplit(s: nat)
    ensures Pow2(s) == Pow256(s / 8) * Pow2(s % 8)
  {
    Pow2Add(8 * (s / 8), s % 8);
    Pow2Bytes(s / 8);
  }

  /** a << s is a * 2^s modulo 256^N. */
  lemma ShiftLeftValue(a: Bytes, s: nat)
    ensures ToNat(ShiftLeft(a, s)) == (ToNat(a) * Pow2(s)) % Pow256(|a|)
  {
    var bs, k := s / 8, s % 8;
    ShiftLeftDecompose(a, s);
    BytesUpValue(a, bs);
    SmallShift(k);
    BitsUpValue(BytesUp(a, bs), k as bv8);
    ModMulLeft(ToNat(a) * Pow256(bs), Pow2(k), Pow256(|a|));
    ShiftSplit(s);
    MulAssocEq(ToNat(a), Pow256(bs), Pow2(k), Pow2(s));
  }

  /** a >> s is a div 2^s. */
  lemma ShiftRightValue(a: Bytes, s: nat)
    ensures ToNat(ShiftRight(a, s)) == ToNat(a) / Pow2(s)
  {
    var bs, k := s / 8, s % 8;
    ShiftRightDecompose(a, s);
    BytesDownValue(a, bs);
    SmallShift(k);
    BitsDownValue(BytesDown(a, bs), k as bv8);
    DivDiv(ToNat(a), Pow256(bs), Pow2(k));
    ShiftSplit(s);
  }

  /** Shifting by the full width or more gives zero. */
  lemma ShiftOutOfRange(a: Bytes, s: nat)
    requires s >= 8 * |a|
    ensures ShiftLeft(a, s) == Zero(|a|)
    ensures ShiftRight(a, s) == Zero(|a|)
  {
  }

  // ---------------------------------------------------------------------
  // The blob object: `operator=` and the compound assignments, which
  // overwrite `data` in place.
  // ---------------------------------------------------------------------

  class Blob {
    const data: array<bv8>

    /** `Blob()`: N zero bytes. */
    constructor (n: nat)
      ensures fresh(data) && data[..] == Zero(n)
    {
      data := new bv8[n];
      new;
      var i := 0;
      while i < n
        invariant 0 <= i <= n
        invariant forall j | 0 <= j < i :: data[j] == 0
      {
        data[i] := 0;
        i := i + 1;
      }
    }

    /** `operator=(const Blob &)`: copy every byte. */
    method Assign(b: Bytes)
      requires |b| == data.Length
      modifies data
      ensures data[..] == b
    {
      var i := 0;
      while i < data.Length
        invariant 0 <= i <= data.Length
        invariant forall j | 0 <= j < i :: data[j] == b[j]
      {
        data[i] := b[i];
        i := i + 1;
      }
    }

    /** `operator=(const T &)`: copy the host bytes of t, then zero-fill. */
    method AssignHost(t: Bytes)
      modifies data
      ensures data[..] == Convert(data.Length, t)
    {
      var size := if data.Length < |t| then data.Length else |t|;
      var i := 0;
      while i < size
        invariant 0 <= i <= size
        invariant forall j | 0 <= j < i :: data[j] == t[j]
      {
        data[i] := t[i];
        i := i + 1;
      }
      while i < data.Length
        invariant size <= i <= data.Length
        invariant forall j | 0 <= j < size :: data[j] == t[j]
        invariant forall j | size <= j < i :: data[j] == 0
      {
        data[i] := 0;
        i := i + 1;
      }
    }

    /** `operator&=`: and every byte in place. */
    method AndAssign(b: Bytes)
      requires |b| == data.Length
      modifies data
      ensures data[..] == And(old(data[..]), b)
    {
      var i := 0;
      while i < data.Length
        invariant 0 <= i <= data.Length
        invariant forall j | 0 <= j < i :: data[j] == old(data[j]) & b[j]
        invariant forall j | i <= j < data.Length :: data[j] == old(data[j])
      {
        data[i] := data[i] & b[i];
        i := i + 1;
      }
    }

    /** `operator|=`: or every byte in place. */
    method OrAssign(b: Bytes)
      requires |b| == data.Length
      modifies data
      ensures data[..] == Or(old(data[..]), b)
    {
      var i := 0;
      while i < data.Length
        invariant 0 <= i <= data.Length
        invariant forall j | 0 <= j < i :: data[j] == old(data[j]) | b[j]
        invariant forall j | i <= j < data.Length :: data[j] == old(data[j])
      {
        data[i] := data[i] | b[i];
        i := i + 1;
      }
    }

    /** `operator^=`: xor every byte in place. */
    method XorAssign(b: Bytes)
      requires |b| == data.Length
      modifies data
      ensures data[..] == Xor(old(data[..]), b)
    {
      var i := 0;
      while i < data.Length
        invariant 0 <= i <= data.Length
        invariant forall j | 0 <= j < i :: data[j] == old(data[j]) ^ b[j]
        invariant forall j | i <= j < data.Length :: data[j] == old(data[j])
      {
        data[i] := data[i] ^ b[i];
        i := i + 1;
      }
    }
  }
}
