/**
 Types shared by every module: optional values, results, bytes and 32-byte hashes.
 The double-SHA256 parent hash is never modelled: it is passed in as a `Hasher`.
 */
module Base {
  datatype Option<+T> = None | Some(value: T)

  datatype Result<+T, +E> = Ok(value: T) | Err(error: E)

  type byte = x: int | 0 <= x < 256

  type u32 = x: int | 0 <= x < 0x1_0000_0000

  const TWO64 := 0x1_0000_0000_0000_0000

  type u64 = x: int | 0 <= x < TWO64

  /** 64-bit addition and subtraction wrap around. */
  function WrapAdd(a: u64, b: u64): u64 {
    if a + b < TWO64 then a + b else a + b - TWO64
  }

  function WrapSub(a: u64, b: u64): u64 {
    if b <= a then a - b else a - b + TWO64
  }

  function Zeros(n: nat): (zs: seq<byte>)
    ensures |zs| == n && forall i :: 0 <= i < n ==> zs[i] == 0
  {
    seq(n, i => 0)
  }

  type Hash = h: seq<byte> | |h| == 32 witness Zeros(32)

  /** The all-zero hash, used by the flat Merkle store to mean "no node here". */
  const ZERO: Hash := Zeros(32)

  /** The parent hash of a left and a right child: double SHA-256 of the concatenation. */
  type Hasher = (Hash, Hash) -> Hash

  ghost predicate NeverZero(H: Hasher) {
    forall l: Hash, r: Hash :: H(l, r) != ZERO
  }

  /** q is the floor of a / b. */
  lemma FloorUnique(a: int, b: int, q: int)
    requires b > 0 && 0 <= a - q * b < b
    ensures a / b == q
  {
    var d := a / b;
    assert (d - q) * b == d * b - q * b;
    LessThanOne(d - q, b);
    LessThanOne(q - d, b);
  }

  lemma LessThanOne(x: int, b: int)
    requires b > 0 && x * b < b
    ensures x < 1
  {
  }

  /** What holds at first, and after each step exactly when the step keeps it, holds throughout exactly
      when every step keeps it. */
  lemma {:induction false} RightThroughout(right: seq<bool>, keeps: seq<bool>)
    requires |right| == |keeps| + 1 && right[0]
    requires forall i :: 0 <= i < |keeps| && right[i] ==> (right[i + 1] <==> keeps[i])
    ensures (forall i :: 0 <= i < |right| ==> right[i]) <==> (forall i :: 0 <= i < |keeps| ==> keeps[i])
  {
    var n := |keeps|;
    if n > 0 {
      var right', keeps' := right[..n], keeps[..n - 1];
      RightThroughout(right', keeps');
      assert forall i :: 0 <= i < n ==> right'[i] == right[i];
      assert forall i :: 0 <= i < n - 1 ==> keeps'[i] == keeps[i];
      assert right[n - 1] ==> (right[n] <==> keeps[n - 1]);
    }
  }
}

/** Exact integer powers of two and logarithms, in place of the floating-point ones. */
module Powers {
  function Pow2(k: nat): (p: nat)
    ensures p >= 1
  {
    if k == 0 then 1 else 2 * Pow2(k - 1)
  }

  /** j * 2^k. */
  function Scale(j: nat, k: nat): nat {
    if k == 0 then j else 2 * Scale(j, k - 1)
  }

  lemma {:induction false} ScaleIsProduct(j: nat, k: nat)
    ensures Scale(j, k) == j * Pow2(k)
  {
    if k > 0 {
      ScaleIsProduct(j, k - 1);
      var p := Pow2(k - 1);
      assert j * (2 * p) == 2 * (j * p);
    }
  }

  /** The smallest k with n <= 2^k, computed by halving and rounding up. */
  function CeilLog2(n: nat): nat
    requires n >= 1
  {
    if n == 1 then 0 else 1 + CeilLog2((n + 1) / 2)
  }

  lemma CeilLog2Step(n: nat)
    requires n >= 1
    ensures n == 1 <==> CeilLog2(n) == 0
    ensures n > 1 ==> CeilLog2(n) == 1 + CeilLog2((n + 1) / 2)
  {
  }

  lemma {:induction false} CeilLog2Bounds(n: nat)
    requires n >= 1
    ensures n <= Pow2(CeilLog2(n))
    ensures n > 1 ==> CeilLog2(n) > 0 && Pow2(CeilLog2(n) - 1) < n
  {
    if n > 1 {
      CeilLog2Bounds((n + 1) / 2);
    }
  }

  /** The largest k with 2^k <= n. */
  function FloorLog2(n: nat): (k: nat)
    requires n >= 1
    ensures Pow2(k) <= n < 2 * Pow2(k)
  {
    if n == 1 then 0 else 1 + FloorLog2(n / 2)
  }

  /** No bit below the top one is set: what n & (n-1) == 0 tests for a positive n. */
  predicate IsPowerOfTwo(n: int) {
    n > 0 && (n == 1 || (n % 2 == 0 && IsPowerOfTwo(n / 2)))
  }

  function NextPowerOfTwo(n: nat): nat
    requires n >= 1
  {
    if IsPowerOfTwo(n) then n else Pow2(FloorLog2(n) + 1)
  }

  function CeilPowerOfTwo(n: int): nat {
    if n <= 0 then 1 else Pow2(CeilLog2(n))
  }

  lemma {:induction false} Pow2Monotone(j: nat, k: nat)
    requires j <= k
    ensures Pow2(j) <= Pow2(k)
    decreases k
  {
    if j < k {
      Pow2Monotone(j, k - 1);
    }
  }

  lemma {:induction false} PowersOfTwo(n: nat)
    ensures IsPowerOfTwo(n) <==> n >= 1 && n == Pow2(CeilLog2(n))
  {
    if n > 1 {
      PowersOfTwo(n / 2);
      if n % 2 == 0 {
        assert (n + 1) / 2 == n / 2;
      }
    }
  }

  lemma {:induction false} CeilLog2Unique(n: nat, k: nat)
    requires n >= 1 && n <= Pow2(k) && (k > 0 ==> Pow2(k - 1) < n)
    ensures CeilLog2(n) == k
  {
    var c := CeilLog2(n);
    CeilLog2Bounds(n);
    if c < k {
      Pow2Monotone(c, k - 1);
    } else if k < c {
      Pow2Monotone(k, c - 1);
    }
  }

  lemma CeilLog2OfPow2(k: nat)
    ensures CeilLog2(Pow2(k)) == k && IsPowerOfTwo(Pow2(k))
  {
    CeilLog2Unique(Pow2(k), k);
    PowersOfTwo(Pow2(k));
  }

  lemma {:induction false} CeilLog2Monotone(m: nat, n: nat)
    requires 1 <= m <= n
    ensures CeilLog2(m) <= CeilLog2(n)
  {
    CeilLog2Bounds(m);
    CeilLog2Bounds(n);
    if CeilLog2(n) < CeilLog2(m) {
      Pow2Monotone(CeilLog2(n), CeilLog2(m) - 1);
    }
  }

  lemma {:induction false} NextIsCeil(n: nat)
    requires n >= 1
    ensures NextPowerOfTwo(n) == CeilPowerOfTwo(n)
  {
    PowersOfTwo(n);
    var f := FloorLog2(n);
    if Pow2(f) == n {
      CeilLog2OfPow2(f);
    } else {
      CeilLog2Unique(n, f + 1);
    }
  }

  /** The two rounding functions agree, and give the least power of two not below n. */
  lemma {:induction false} RoundingFunctionsAgree(n: nat)
    requires n >= 1
    ensures NextPowerOfTwo(n) == CeilPowerOfTwo(n)
    ensures IsPowerOfTwo(CeilPowerOfTwo(n)) && n <= CeilPowerOfTwo(n)
    ensures forall m: nat :: n <= m && IsPowerOfTwo(m) ==> CeilPowerOfTwo(n) <= m
  {
    NextIsCeil(n);
    CeilLog2Bounds(n);
    CeilLog2OfPow2(CeilLog2(n));
    forall m: nat | n <= m && IsPowerOfTwo(m)
      ensures CeilPowerOfTwo(n) <= m
    {
      PowersOfTwo(m);
      CeilLog2Monotone(n, m);
      Pow2Monotone(CeilLog2(n), CeilLog2(m));
    }
  }
}
