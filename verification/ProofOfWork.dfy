/**
  Hashcash proof of work: counting leading zero bits of a digest, what meeting a difficulty
  means for the digest read as a big-endian number, and the search for a nonce.
 */
module ProofOfWork {
  import opened Bytes

  type Hash = ByteString -> ByteString

  function Pow2(n: nat): (r: nat)
    ensures r > 0
  {
    if n == 0 then 1 else 2 * Pow2(n - 1)
  }

  /** The digest as a big-endian number. */
  ghost function Value(d: ByteString): nat {
    if d == [] then 0 else Value(d[..|d| - 1]) * 256 + d[|d| - 1]
  }

  lemma {:induction false} Pow2Add(a: nat, b: nat)
    ensures Pow2(a + b) == Pow2(a) * Pow2(b)
  {
    if a > 0 {
      Pow2Add(a - 1, b);
    }
  }

  lemma {:induction false} Pow2Monotone(a: nat, b: nat)
    ensures a <= b ==> Pow2(a) <= Pow2(b)
    ensures a < b ==> 2 * Pow2(a) <= Pow2(b)
  {
    if a < b {
      Pow2Monotone(a, b - 1);
    }
  }

  /** The number of bits of a byte: shifts it right until it is zero. */
  method BitLen(b: Byte) returns (n: nat)
    ensures n <= 8 && b < Pow2(n) && (n > 0 ==> Pow2(n - 1) <= b)
  {
    hide Pow2;
    var x: nat := b;
    n := 0;
    Pow2Zero();
    while x != 0
      invariant x * Pow2(n) <= b < (x + 1) * Pow2(n)
      invariant n > 0 ==> Pow2(n - 1) <= b
      decreases x
    {
      HalfStep(x, Pow2(n), b);
      AtLeastOnce(x, Pow2(n));
      Pow2Next(n);
      x := x / 2;
      n := n + 1;
    }
    Pow2Eight();
    if n > 0 {
      Pow2Monotone(8, n - 1);
    }
  }

  lemma AtLeastOnce(x: nat, p: nat)
    requires x > 0
    ensures p <= x * p
  {
    assert x * p == (x - 1) * p + p;
  }

  lemma Pow2Zero()
    ensures Pow2(0) == 1
  {
  }

  lemma Pow2Next(n: nat)
    ensures Pow2(n + 1) == 2 * Pow2(n)
  {
  }

  lemma Pow2Eight()
    ensures Pow2(8) == 256
  {
    assert Pow2(4) == 16;
    Pow2Add(4, 4);
  }

  lemma HalfStep(x: nat, p: nat, b: int)
    requires x * p <= b < (x + 1) * p
    ensures (x / 2) * (2 * p) <= b < (x / 2 + 1) * (2 * p)
  {
    var h := x / 2;
    assert h * (2 * p) == (2 * h) * p && (h + 1) * (2 * p) == (2 * h + 2) * p;
    assert (2 * h) * p <= x * p && (x + 1) * p <= (2 * h + 2) * p;
  }

  /** Exactly `n` leading zero bits: below 2^(len-n), and if a one-bit follows, not below half of that. */
  ghost predicate LeadingZeros(d: ByteString, n: nat) {
    && n <= 8 * |d|
    && Value(d) < Pow2(8 * |d| - n)
    && (n < 8 * |d| ==> Pow2(8 * |d| - n - 1) <= Value(d))
  }

  /** Counts over the bytes: eight per zero byte, then the zeros of the first other byte. */
  method LeadingZeroBits(digest: ByteString) returns (bits: nat)
    ensures LeadingZeros(digest, bits)
  {
    bits := 0;
    var i := 0;
    while i < |digest|
      invariant 0 <= i <= |digest| && bits == 8 * i
      invariant Value(digest[..i]) == 0
    {
      assert digest[..i + 1][..i] == digest[..i];
      if digest[i] == 0 {
        bits := bits + 8;
        i := i + 1;
      } else {
        var len := BitLen(digest[i]);
        FirstByte(digest, i, len);
        bits := bits + (8 - len);
        return;
      }
    }
    assert digest[..i] == digest;
  }

  lemma {:induction false} ValueBelow(d: ByteString)
    ensures Value(d) < Pow2(8 * |d|)
  {
    hide Pow2;
    Pow2Zero();
    if d != [] {
      ValueBelow(d[..|d| - 1]);
      Pow2Add(8 * (|d| - 1), 8);
      Pow2Eight();
      assert 8 * (|d| - 1) + 8 == 8 * |d|;
    }
  }

  lemma {:induction false} ValueSplit(d: ByteString, i: nat)
    requires i <= |d|
    ensures Value(d) == Value(d[..i]) * Pow2(8 * (|d| - i)) + Value(d[i..])
  {
    hide Pow2;
    Pow2Zero();
    if i == |d| {
      assert d[..i] == d;
    } else {
      var n := |d| - 1;
      var init := d[..n];
      ValueSplit(init, i);
      assert init[..i] == d[..i] && d[i..][..n - i] == init[i..];
      assert 8 * (|d| - i) == 8 * (n - i) + 8;
      Pow2Add(8 * (n - i), 8);
      Pow2Eight();
      Regroup(Value(d[..i]), Pow2(8 * (n - i)), Value(init[i..]), d[n]);
    }
  }

  lemma Regroup(v: nat, p: nat, low: nat, b: nat)
    ensures (v * p + low) * 256 + b == v * (p * 256) + (low * 256 + b)
  {
  }

  /** A first non-zero byte of `len` bits after `i` zero bytes fixes the leading zeros. */
  lemma FirstByte(d: ByteString, i: nat, len: nat)
    requires i < |d| && Value(d[..i]) == 0 && 0 < len <= 8 && Pow2(len - 1) <= d[i] < Pow2(len)
    ensures LeadingZeros(d, 8 * i + (8 - len))
  {
    hide Pow2;
    var rest := d[i + 1..];
    var r := 8 * |rest|;
    ValueSplit(d, i + 1);
    assert d[..i + 1][..i] == d[..i];
    assert Value(d[..i + 1]) == d[i];
    ValueBelow(rest);
    var b, p := d[i], Pow2(r);
    assert Value(d) == b * p + Value(rest);
    Pow2Add(len, r);
    Pow2Add(len - 1, r);
    assert 8 * |d| - (8 * i + (8 - len)) == len + r;
    ByteBounds(b, p, Value(rest), Pow2(len), Pow2(len - 1));
  }

  lemma ByteBounds(b: nat, p: nat, v: nat, hi: nat, lo: nat)
    requires lo <= b < hi && v < p
    ensures lo * p <= b * p + v < hi * p
  {
    assert lo * p <= b * p;
    assert (b + 1) * p == b * p + p;
    assert (b + 1) * p <= hi * p;
  }

  /** The difficulty gate. */
  method MeetsDifficulty(digest: ByteString, bits: int) returns (ok: bool)
    ensures ok <==> Meets(digest, bits)
  {
    var n := LeadingZeroBits(digest);
    ok := n >= bits;
    MeetsByValue(digest, n, bits);
  }

  /** A digest meets difficulty `bits` exactly when its big-endian value is below 2^(8 len - bits). */
  ghost predicate Meets(digest: ByteString, bits: int) {
    bits <= 0 || (bits <= 8 * |digest| && Value(digest) < Pow2(8 * |digest| - bits))
  }

  lemma MeetsByValue(digest: ByteString, n: nat, bits: int)
    requires LeadingZeros(digest, n)
    ensures n >= bits <==> Meets(digest, bits)
  {
    var len := 8 * |digest|;
    if 0 < bits <= n {
      Pow2Monotone(len - n, len - bits);
    } else if n < bits <= len {
      Pow2Monotone(len - bits, len - n - 1);
    }
  }

  /** A harder difficulty implies every easier one. */
  lemma MeetsMonotone(digest: ByteString, bits: int, easier: int)
    requires Meets(digest, bits) && easier <= bits
    ensures Meets(digest, easier)
  {
    if 0 < easier {
      Pow2Monotone(8 * |digest| - bits, 8 * |digest| - easier);
    }
  }

  // ----- mining ---------------------------------------------------------------------------------

  function DifficultyByte(bits: nat): Byte { if bits > 255 then 255 else bits }

  datatype Mined = Found(nonce: ByteString, digest: ByteString) | BadArguments | NoRandomness | Exhausted

  /** The nonce tried with a given random tail: the difficulty byte first. */
  function NonceFor(bits: nat, size: nat, tail: ByteString): ByteString {
    if size >= 1 then [DifficultyByte(bits)] + tail else []
  }

  /** The i-th random tail is there and its nonce meets the difficulty. */
  ghost predicate Hits(prefix: ByteString, bits: nat, size: nat, hash: Hash, tail: Option<ByteString>) {
    tail.Some? && Meets(hash(prefix + NonceFor(bits, size, tail.value)), bits)
  }

  /** The first `n` draws all succeed and all miss. */
  ghost predicate AllMiss(prefix: ByteString, bits: nat, size: nat, hash: Hash, rand: nat -> Option<ByteString>, n: int) {
    forall i: nat :: i < n ==> rand(i).Some? && !Hits(prefix, bits, size, hash, rand(i))
  }

  /** Draw `i` is the first that hits, and no draw before it failed. */
  ghost predicate FirstHit(prefix: ByteString, bits: nat, size: nat, hash: Hash, rand: nat -> Option<ByteString>, i: nat) {
    AllMiss(prefix, bits, size, hash, rand, i) && Hits(prefix, bits, size, hash, rand(i))
  }

  /** Draw `i` is the first that fails, and no draw before it hit. */
  ghost predicate FirstFailure(prefix: ByteString, bits: nat, size: nat, hash: Hash, rand: nat -> Option<ByteString>, i: nat) {
    AllMiss(prefix, bits, size, hash, rand, i) && rand(i).None?
  }

  /**
    The search. `rand(i)` is the i-th random tail, of nonceSize-1 bytes, or nothing if the
    random source fails. It ends at the first draw that hits or fails, else after `maxIters` misses.
   */
  method MinePoW(prefix: ByteString, bits: int, maxIters: int, nonceSize: int, hash: Hash, rand: nat -> Option<ByteString>)
    returns (r: Mined)
    requires forall i: nat :: rand(i).Some? ==> |rand(i).value| == (if nonceSize >= 1 then nonceSize - 1 else 0)
    ensures r.BadArguments? <==> bits < 0 || nonceSize < 0
    ensures !r.BadArguments? ==>
            && (r.Found? <==> exists i: nat :: i < maxIters && FirstHit(prefix, bits, nonceSize, hash, rand, i))
            && (r.NoRandomness? <==> exists i: nat :: i < maxIters && FirstFailure(prefix, bits, nonceSize, hash, rand, i))
            && (r.Exhausted? <==> AllMiss(prefix, bits, nonceSize, hash, rand, maxIters))
    ensures r.Found? ==> forall i: nat :: i < maxIters && FirstHit(prefix, bits, nonceSize, hash, rand, i) ==>
              r.nonce == NonceFor(bits, nonceSize, rand(i).value)
    ensures r.Found? ==>
            && |r.nonce| == nonceSize && r.digest == hash(prefix + r.nonce) && Meets(r.digest, bits)
            && (nonceSize >= 1 ==> r.nonce[0] == DifficultyByte(bits))
  {
    hide Meets;
    if bits < 0 || nonceSize < 0 {
      return BadArguments;
    }
    var i := 0;
    while i < maxIters
      invariant 0 <= i && AllMiss(prefix, bits, nonceSize, hash, rand, i)
      invariant i <= maxIters || i == 0
    {
      var tail := rand(i);
      FirstEnd(prefix, bits, nonceSize, hash, rand, i, maxIters);
      if tail.None? {
        return NoRandomness;
      }
      var nonce := NonceFor(bits, nonceSize, tail.value);
      var digest := hash(prefix + nonce);
      var ok := MeetsDifficulty(digest, bits);
      if ok {
        return Found(nonce, digest);
      }
      i := i + 1;
    }
    return Exhausted;
  }

  /** After `i` misses a draw that hits or fails is the one the search ends at. */
  lemma FirstEnd(prefix: ByteString, bits: nat, size: nat, hash: Hash, rand: nat -> Option<ByteString>, i: nat, n: int)
    requires i < n && AllMiss(prefix, bits, size, hash, rand, i)
    ensures rand(i).None? || Hits(prefix, bits, size, hash, rand(i)) ==>
            && !AllMiss(prefix, bits, size, hash, rand, n)
            && forall j: nat :: FirstHit(prefix, bits, size, hash, rand, j) || FirstFailure(prefix, bits, size, hash, rand, j) ==> j == i
    ensures rand(i).None? ==> FirstFailure(prefix, bits, size, hash, rand, i) && !FirstHit(prefix, bits, size, hash, rand, i)
    ensures Hits(prefix, bits, size, hash, rand(i)) ==> FirstHit(prefix, bits, size, hash, rand, i) && !FirstFailure(prefix, bits, size, hash, rand, i)
  {
    hide Hits;
    if rand(i).None? || Hits(prefix, bits, size, hash, rand(i)) {
      assert rand(i).None? ==> !Hits(prefix, bits, size, hash, rand(i)) by { NothingHits(prefix, bits, size, hash); }
      forall j: nat | FirstHit(prefix, bits, size, hash, rand, j) || FirstFailure(prefix, bits, size, hash, rand, j) ensures j == i {
        NothingHits(prefix, bits, size, hash);
        assert j < i ==> rand(j).Some? && !Hits(prefix, bits, size, hash, rand(j));
      }
    }
  }

  lemma NothingHits(prefix: ByteString, bits: nat, size: nat, hash: Hash)
    ensures !Hits(prefix, bits, size, hash, None)
  {
  }

  /** The difficulty a verifier infers from the nonce: its first byte, unless below the baseline. */
  function InferDifficulty(nonce: ByteString, baseline: int): int {
    if |nonce| >= 1 && nonce[0] >= baseline then nonce[0] else baseline
  }

  /** Meeting the inferred difficulty is meeting the baseline and, if there is a nonce, the difficulty its first byte names. */
  lemma InferredIsBoth(digest: ByteString, nonce: ByteString, baseline: nat)
    ensures Meets(digest, InferDifficulty(nonce, baseline)) <==>
            Meets(digest, baseline) && (nonce != [] ==> Meets(digest, nonce[0]))
  {
    hide Meets;
    if nonce != [] {
      if Meets(digest, nonce[0]) && baseline <= nonce[0] {
        MeetsMonotone(digest, nonce[0], baseline);
      }
      if Meets(digest, baseline) && nonce[0] <= baseline {
        MeetsMonotone(digest, baseline, nonce[0]);
      }
    }
  }

  /**
    Mined work passes at the inferred difficulty whenever it was mined at the baseline or above,
    with or without a nonce byte and for difficulties above 255 as well; mined below the
    baseline, it passes exactly when the digest happens to meet the baseline.
   */
  lemma MinedWorkPasses(digest: ByteString, nonce: ByteString, bits: nat, baseline: nat)
    requires Meets(digest, bits) && (|nonce| >= 1 ==> nonce[0] == DifficultyByte(bits))
    ensures Meets(digest, InferDifficulty(nonce, baseline)) <==> baseline <= bits || Meets(digest, baseline)
  {
    if baseline <= bits {
      MeetsMonotone(digest, bits, InferDifficulty(nonce, baseline));
    }
  }
}
