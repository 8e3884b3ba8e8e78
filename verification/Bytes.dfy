/** Bytes and big-endian numbers, shared by every codec of the protocol. */
module Bytes {

  type byte = i: int | 0 <= i < 256

  datatype Option<+T> = None | Some(value: T)

  function Pow256(k: nat): (p: int)
    ensures p > 0
  {
    if k == 0 then 1 else 256 * Pow256(k - 1)
  }

  /** The number a byte string stands for, most significant byte first. */
  function Val(bs: seq<byte>): nat {
    if bs == [] then 0 else Val(bs[..|bs| - 1]) * 256 + bs[|bs| - 1]
  }

  /**
   * The low `k` bytes of `n`. Dafny's division by 256 rounds down, so for a negative `n`
   * these are the bytes Go gets from arithmetic shifts of a signed integer.
   */
  function BigEndian(n: int, k: nat): (bs: seq<byte>)
    ensures |bs| == k
    decreases k
  {
    if k == 0 then [] else BigEndian(n / 256, k - 1) + [n % 256]
  }

  /** Two's complement over `k` bytes: the signed reading of an unsigned number. */
  function Signed(u: nat, k: nat): int {
    if 2 * u < Pow256(k) then u else u - Pow256(k)
  }

  /** The values a `k`-byte two's complement number can take. */
  predicate Fits(v: int, k: nat) {
    -Pow256(k) <= 2 * v < Pow256(k)
  }

  /** What is left of `n` after a conversion to a `k`-byte signed integer. */
  function Wrap(n: int, k: nat): int {
    Signed(n % Pow256(k), k)
  }

  lemma PowValues()
    ensures Pow256(0) == 1 && Pow256(1) == 0x100 && Pow256(2) == 0x1_0000
    ensures Pow256(4) == 0x1_0000_0000
    ensures Pow256(8) == 0x1_0000_0000_0000_0000
  {
  }

  lemma DivModUnique(n: int, m: int, q: int, r: int)
    requires 0 < m && 0 <= r < m && n == m * q + r
    ensures n / m == q && n % m == r
  {
    var q', r' := n / m, n % m;
    assert n == m * q' + r';
    assert m * (q - q') == r' - r;
    assert q - q' >= 1 ==> m * (q - q') >= m;
    assert q - q' <= -1 ==> m * (q - q') <= -m;
  }

  lemma MulMonotone(p: int, a: int, b: int)
    requires 0 <= p && a <= b
    ensures p * a <= p * b
  {
  }

  /** Peeling the lowest byte off a remainder. */
  lemma ModStep(n: int, p: int)
    requires 0 < p
    ensures n % (256 * p) == 256 * ((n / 256) % p) + n % 256
  {
    var h := n / 256;
    var q, r := h / p, h % p;
    assert h == p * q + r;
    assert 256 * h == (256 * p) * q + 256 * r;
    DivModUnique(n, 256 * p, q, 256 * r + n % 256);
  }

  lemma {:induction false} ValBound(bs: seq<byte>)
    ensures Val(bs) < Pow256(|bs|)
  {
    if bs != [] {
      ValBound(bs[..|bs| - 1]);
    }
  }

  /** Writing `k` bytes keeps a number modulo 256^k. */
  lemma {:induction false} ValBigEndian(n: int, k: nat)
    ensures Val(BigEndian(n, k)) == n % Pow256(k)
    decreases k
  {
    if k > 0 {
      ValBigEndian(n / 256, k - 1);
      assert BigEndian(n, k)[..k - 1] == BigEndian(n / 256, k - 1);
      ModStep(n, Pow256(k - 1));
    }
  }

  lemma {:induction false} BigEndianVal(bs: seq<byte>)
    ensures BigEndian(Val(bs), |bs|) == bs
  {
    if bs != [] {
      var init := bs[..|bs| - 1];
      BigEndianVal(init);
      assert bs == init + [bs[|bs| - 1]];
    }
  }

  /** A number in range survives the signed reading of its own bytes. */
  lemma WrapFits(n: int, k: nat)
    requires Fits(n, k)
    ensures Wrap(n, k) == n
  {
    var p := Pow256(k);
    if n < 0 {
      DivModUnique(n, p, -1, n + p);
    } else {
      DivModUnique(n, p, 0, n);
    }
  }

  /** Signed `k`-byte integers: the bytes written are read back as the value modulo the width. */
  lemma SignedBigEndian(n: int, k: nat)
    ensures Signed(Val(BigEndian(n, k)), k) == Wrap(n, k)
    ensures Fits(n, k) ==> Wrap(n, k) == n
  {
    ValBigEndian(n, k);
    if Fits(n, k) {
      WrapFits(n, k);
    }
  }
}
