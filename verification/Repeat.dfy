/** Encodings and reads repeated over a sequence, with the law that carries over to them. */
module Repeat {
  import opened Bytes
  import opened Wire

  function EncAll<T>(enc: T -> seq<byte>, xs: seq<T>): seq<byte> {
    if xs == [] then [] else enc(xs[0]) + EncAll(enc, xs[1..])
  }

  /** A counted loop of reads that does not look at the error between them. */
  function ReadMany<T>(read: Cursor -> (T, Cursor), c: Cursor, n: nat): (r: (seq<T>, Cursor))
    ensures |r.0| == n
    decreases n
  {
    if n == 0 then ([], c)
    else
      var (x, d) := read(c);
      var (xs, e) := ReadMany(read, d, n - 1);
      ([x] + xs, e)
  }

  /** A read that treats the cursor as every read must. */
  ghost predicate Reader<T(!new)>(read: Cursor -> (T, Cursor)) {
    forall c: Cursor :: Follows(c, read(c).1)
  }

  /** `read` recovers `x` from its bytes and reports an input that ends inside them. */
  ghost predicate Recovers<T(!new)>(enc: T -> seq<byte>, read: Cursor -> (T, Cursor), x: T) {
    forall c: Cursor :: ReadsAs(c, enc(x), read(c), x)
  }

  /** What `Recovers` says of one cursor and the outcome of one read. */
  ghost predicate ReadsAs<T(!new)>(c: Cursor, bs: seq<byte>, got: (T, Cursor), x: T) {
    && (At(c, bs) ==> c.pos + |bs| <= |c.buf| && got == (x, Skip(c, |bs|)))
    && (Cut(c, bs) ==> got.1.err.Some?)
  }

  lemma {:induction false} ReadManyFollows<T(!new)>(read: Cursor -> (T, Cursor), c: Cursor, n: nat)
    requires Reader(read)
    ensures Follows(c, ReadMany(read, c, n).1)
    decreases n
  {
    if n > 0 {
      var d := read(c).1;
      assert Follows(c, d);
      ReadManyFollows(read, d, n - 1);
    }
  }

  lemma {:induction false} ManyRecovered<T(!new)>(
      enc: T -> seq<byte>, read: Cursor -> (T, Cursor), xs: seq<T>, c: Cursor)
    requires Reader(read)
    requires forall x | x in xs :: Recovers(enc, read, x)
    ensures ReadsAs(c, EncAll(enc, xs), ReadMany(read, c, |xs|), xs)
  {
    var bs := EncAll(enc, xs);
    if xs == [] {
      assert !Cut(c, []);
    } else {
      var a, b := enc(xs[0]), EncAll(enc, xs[1..]);
      var d := read(c).1;
      assert Recovers(enc, read, xs[0]);
      assert ReadsAs(c, a, read(c), xs[0]);
      ManyRecovered(enc, read, xs[1..], d);
      ReadManyFollows(read, d, |xs| - 1);
      if At(c, a + b) {
        AtSplit(c, a, b);
        assert xs == [xs[0]] + xs[1..];
      }
      if Cut(c, a + b) {
        CutSplit(c, a, b);
      }
    }
  }

  /** One read after another recovers the pair. */
  lemma ThenRecovered<S(!new), T(!new)>(
      c: Cursor, a: seq<byte>, x: S, got: (S, Cursor), b: seq<byte>, y: T, next: (T, Cursor))
    requires ReadsAs(c, a, got, x)
    requires ReadsAs(got.1, b, next, y)
    requires Follows(got.1, next.1)
    ensures ReadsAs(c, a + b, ((got.0, next.0), next.1), (x, y))
  {
  }

  /** A first item and the rest, read as a pair, are the whole list. */
  lemma ListRecovered<T(!new)>(
      c: Cursor, bs: seq<byte>, x: T, xs: seq<T>, pair: ((T, seq<T>), Cursor), got: (seq<T>, Cursor))
    requires ReadsAs(c, bs, pair, (x, xs))
    requires got.1 == pair.1 && (got.1.err.None? ==> got.0 == [pair.0.0] + pair.0.1)
    ensures ReadsAs(c, bs, got, [x] + xs)
  {
  }

  lemma FixedReads(c: Cursor, n: int, k: nat)
    requires Fits(n, k)
    ensures ReadsAs(c, BigEndian(n, k), ReadFixed(c, k), n)
  {
    hide BigEndian, ReadFixed;
    FixedCodec(c, n, k);
  }

  /** Splitting the last item off, the way a loop that appends sees it. */
  lemma {:induction false} EncAllLast<T>(enc: T -> seq<byte>, xs: seq<T>, x: T)
    ensures EncAll(enc, xs + [x]) == EncAll(enc, xs) + enc(x)
  {
    if xs == [] {
      assert [] + [x] == [x] && [x][1..] == [];
      assert EncAll(enc, []) == [];
      assert EncAll(enc, [x]) == enc(x) + EncAll(enc, []);
    } else {
      assert (xs + [x])[1..] == xs[1..] + [x];
      EncAllLast(enc, xs[1..], x);
    }
  }

  /** Items encoded alike have the same encoding together. */
  lemma {:induction false} EncAllSame<T>(enc: T -> seq<byte>, xs: seq<T>, ys: seq<T>)
    requires |xs| == |ys| && forall i | 0 <= i < |xs| :: enc(xs[i]) == enc(ys[i])
    ensures EncAll(enc, xs) == EncAll(enc, ys)
  {
    if xs != [] {
      EncAllSame(enc, xs[1..], ys[1..]);
    }
  }

  lemma {:induction false} ReadManyLast<T(!new)>(read: Cursor -> (T, Cursor), c: Cursor, n: nat)
    ensures var (xs, d) := ReadMany(read, c, n);
            ReadMany(read, c, n + 1) == (xs + [read(d).0], read(d).1)
    decreases n
  {
    var (x, d) := read(c);
    if n == 0 {
      assert ReadMany(read, d, 0) == ([], d);
      assert [x] + [] == [] + [x];
      assert ReadMany(read, c, 1) == ([x] + [], d);
    } else {
      ReadManyLast(read, d, n - 1);
      var (xs, e) := ReadMany(read, d, n - 1);
      assert [x] + (xs + [read(e).0]) == ([x] + xs) + [read(e).0];
    }
  }
}
