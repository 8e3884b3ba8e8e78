/** internal/proto: arbitrary-precision integers as two's complement byte strings. */
module TwosComplement {
  import opened Bytes

  /** The bytes of a magnitude without leading zeros; zero has none (big.Int.Bytes). */
  function Magnitude(n: nat): (bs: seq<byte>)
    ensures n > 0 ==> |bs| > 0 && bs[0] > 0
    ensures n == 0 ==> bs == []
  {
    if n == 0 then [] else Magnitude(n / 256) + [n % 256]
  }

  function Zeros(k: nat): (bs: seq<byte>)
    ensures |bs| == k
  {
    seq(k, i => 0)
  }

  /** 2^(8n) - a, left-padded to n bytes. */
  function Complement(a: nat, n: nat): (bs: seq<byte>)
    requires 0 < a <= Pow256(n)
  {
    var tcb := Magnitude(Pow256(n) - a);
    MagnitudeLength(Pow256(n) - a, n);
    Zeros(n - |tcb|) + tcb
  }

  /** The bytes needed for a magnitude and a clear top bit. */
  function SignedLength(mag: seq<byte>): nat
    requires mag != []
  {
    if mag[0] >= 0x80 then |mag| + 1 else |mag|
  }

  /** bigIntToTwosComplement. */
  function Encode(v: int): (bs: seq<byte>)
  {
    if v == 0 then [0]
    else if v > 0 then
      var mag := Magnitude(v);
      if mag[0] >= 0x80 then [0] + mag else mag
    else
      MagnitudeFits(-v);
      Complement(-v, SignedLength(Magnitude(-v)))
  }

  /** twosComplementToBigInt. */
  function Decode(b: seq<byte>): int {
    if b == [] then 0
    else if b[0] >= 0x80 then Val(b) - Pow256(|b|)
    else Val(b)
  }

  lemma {:induction false} PowMonotone(a: nat, b: nat)
    requires a <= b
    ensures Pow256(a) <= Pow256(b)
    ensures a < b ==> 256 * Pow256(a) <= Pow256(b)
  {
    if a < b {
      PowMonotone(a, b - 1);
    }
  }

  lemma {:induction false} MagnitudeVal(n: nat)
    ensures Val(Magnitude(n)) == n
  {
    if n > 0 {
      MagnitudeVal(n / 256);
      assert Magnitude(n)[..|Magnitude(n)| - 1] == Magnitude(n / 256);
    }
  }

  /** A magnitude below 256^k needs at most k bytes. */
  lemma MagnitudeLength(n: nat, k: nat)
    requires n < Pow256(k)
    ensures |Magnitude(n)| <= k
  {
  }

  lemma MagnitudeFits(n: nat)
    requires n > 0
    ensures n < Pow256(|Magnitude(n)|) <= Pow256(SignedLength(Magnitude(n)))
  {
  }

  lemma {:induction false} ValZeros(k: nat, bs: seq<byte>)
    ensures Val(Zeros(k) + bs) == Val(bs)
    decreases |bs|, k
  {
    if bs != [] {
      ValZeros(k, bs[..|bs| - 1]);
      assert (Zeros(k) + bs)[..k + |bs| - 1] == Zeros(k) + bs[..|bs| - 1];
    } else if k > 0 {
      ValZeros(k - 1, []);
      assert (Zeros(k) + [])[..k - 1] == Zeros(k - 1) + [];
    }
  }

  /** The sign bit decides on which half of the range a byte string lies. */
  lemma HalfByTopBit(bs: seq<byte>)
    requires bs != []
    ensures Val(bs) < Pow256(|bs|)
    ensures bs[0] >= 0x80 <==> 2 * Val(bs) >= Pow256(|bs|)
  {
  }

  lemma ComplementVal(a: nat, n: nat)
    requires 0 < a <= Pow256(n)
    ensures |Complement(a, n)| == n && Val(Complement(a, n)) == Pow256(n) - a
  {
    var tc := Pow256(n) - a;
    MagnitudeLength(tc, n);
    MagnitudeVal(tc);
    ValZeros(n - |Magnitude(tc)|, Magnitude(tc));
  }

  /** The length the encoder settles on, and the number its bytes stand for. */
  lemma EncodeShape(v: int)
    ensures Encode(v) != []
    ensures v == 0 ==> |Encode(v)| == 1
    ensures v != 0 ==> |Encode(v)| == SignedLength(Magnitude(if v > 0 then v else -v))
    ensures Val(Encode(v)) == if v < 0 then v + Pow256(|Encode(v)|) else v
  {
    if v > 0 {
      MagnitudeVal(v);
      assert Zeros(1) == [0];
      ValZeros(1, Magnitude(v));
    } else if v < 0 {
      hide Complement;
      MagnitudeFits(-v);
      ComplementVal(-v, SignedLength(Magnitude(-v)));
    } else {
      assert [0][..0] == [];
    }
  }

  /** Twice the magnitude stays below 256^length, whatever the sign. */
  lemma EncodeRoom(v: int)
    ensures 2 * (if v > 0 then v else -v) < Pow256(|Encode(v)|)
  {
    EncodeShape(v);
    if v != 0 {
      var a := if v > 0 then v else -v;
      MagnitudeVal(a);
      HalfByTopBit(Magnitude(a));
    }
  }

  /** Decoding undoes encoding for every integer, and the sign bit is the sign. */
  lemma RoundTrip(v: int)
    ensures Encode(v) != []
    ensures Decode(Encode(v)) == v
    ensures Encode(v)[0] >= 0x80 <==> v < 0
  {
    EncodeShape(v);
    EncodeRoom(v);
    HalfByTopBit(Encode(v));
  }

  /** A k-byte string can only stand for a value of the k-byte range. */
  lemma DecodeFits(b: seq<byte>)
    requires b != []
    ensures Fits(Decode(b), |b|)
  {
    HalfByTopBit(b);
  }

  ghost predicate Shortest(v: int) {
    forall b: seq<byte> | b != [] && Decode(b) == v :: |Encode(v)| <= |b|
  }

  /** The values -2^(8k-1), where the top byte of the magnitude is 0x80 and the rest zero. */
  ghost predicate NegativePowerEdge(v: int) {
    exists k: nat :: k >= 1 && 2 * v == -Pow256(k)
  }

  /** An encoding shorter than the encoder's exists only at the edge values. */
  lemma ShorterMeansEdge(v: int, b: seq<byte>)
    requires b != [] && Decode(b) == v && |b| < |Encode(v)|
    ensures 2 * v == -Pow256(|b|)
  {
    hide Encode, Decode, Magnitude, Val, Pow256;
    DecodeFits(b);
    EncodeShape(v);
    if v != 0 && 2 * v != -Pow256(|b|) {
      var a := if v > 0 then v else -v;
      MagnitudeVal(a);
      HalfByTopBit(Magnitude(a));
      MagnitudeLength(a, |b|);
      assert false;
    }
  }

  /** The edge value with k bytes is encoded with one byte more than it needs. */
  lemma EdgeLength(v: int, k: nat)
    requires k >= 1 && 2 * v == -Pow256(k)
    ensures |Encode(v)| == k + 1
    ensures Decode(BigEndian(v, k)) == v && |BigEndian(v, k)| == k
  {
    SignedBigEndian(v, k);
    var b := BigEndian(v, k);
    HalfByTopBit(b);
    EncodeRoom(v);
    if |Encode(v)| <= k {
      PowMonotone(|Encode(v)|, k);
      assert false;
    }
    EncodeShape(v);
    MagnitudeLength(-v, k);
  }

  /**
   * The length is the least possible for every value except exactly -2^(8k-1), where it is one
   * byte more than the least.
   */
  lemma ShortestIff(v: int)
    ensures Shortest(v) <==> !NegativePowerEdge(v)
    ensures forall k: nat :: k >= 1 && 2 * v == -Pow256(k) ==>
              |Encode(v)| == k + 1 && |BigEndian(v, k)| == k && Decode(BigEndian(v, k)) == v
  {
    forall k: nat | k >= 1 && 2 * v == -Pow256(k)
      ensures |Encode(v)| == k + 1 && |BigEndian(v, k)| == k && Decode(BigEndian(v, k)) == v
    {
      EdgeLength(v, k);
    }
    if NegativePowerEdge(v) {
      var k: nat :| k >= 1 && 2 * v == -Pow256(k);
      assert BigEndian(v, k) != [];
    }
    if !Shortest(v) {
      var b: seq<byte> :| b != [] && Decode(b) == v && |b| < |Encode(v)|;
      ShorterMeansEdge(v, b);
    }
  }
}
