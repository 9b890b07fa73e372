/**
  The chunked-release manifest: one release file described as aligned, hashed chunks,
  and the TCP path that accepts a stream chunk by chunk.

  The hash is an arbitrary function from byte strings to digests; nothing about it is
  assumed here. Where the design relies on the hash being collision-free, the theorem
  below says "equal, or here is the collision".
 */
module Manifests {
  import opened Bytes

  type Hash = ByteString -> string

  datatype Manifest = Manifest(tag: string, asset: string, size: Int64, chunkSize: Int64,
                               sha256: string, chunks: seq<string>)

  const DEFAULT_CHUNK_SIZE: int := 60 * 1024
  const MAX_CHUNK_SIZE: int := 64 * 1024

  datatype Verdict = Valid | BadChunkSize | EmptyAsset | BadChunkCount | BadDigest | BadChunkDigest(at: nat)

  predicate IsHexDigit(c: char) {
    '0' <= c <= '9' || 'a' <= c <= 'f' || 'A' <= c <= 'F'
  }

  predicate IsHex64(s: string) {
    |s| == 64 && forall k :: 0 <= k < |s| ==> IsHexDigit(s[k])
  }

  /** Sixty-four hexadecimal digits, in either case. */
  ghost predicate HexDigest(s: string) {
    |s| == 64 && forall k :: 0 <= k < |s| ==> s[k] in "0123456789abcdefABCDEF"
  }

  lemma DigitIff(c: char)
    ensures IsHexDigit(c) <==> c in "0123456789abcdefABCDEF"
  {
  }

  lemma HexIff(s: string)
    ensures IsHex64(s) <==> HexDigest(s)
  {
    hide IsHexDigit;
    forall k | 0 <= k < |s| ensures IsHexDigit(s[k]) <==> s[k] in "0123456789abcdefABCDEF" {
      DigitIff(s[k]);
    }
  }

  /** The chunk count the checker expects; the addition wraps like the source's 64-bit sum. */
  function WantedChunks(m: Manifest): int
    requires m.chunkSize > 0
  {
    TruncDiv(Wrap64(m.size + m.chunkSize - 1), m.chunkSize)
  }

  function ChunkLen(m: Manifest, i: nat): int {
    var rest := m.size - i * m.chunkSize;
    if rest < m.chunkSize then rest else m.chunkSize
  }

  /** The facts that acceptance of a manifest is meant to pin down. */
  ghost predicate WellFormed(m: Manifest) {
    && 0 < m.chunkSize <= MAX_CHUNK_SIZE
    && 0 < m.size && m.size + m.chunkSize - 1 < TWO63
    && (|m.chunks| - 1) * m.chunkSize < m.size <= |m.chunks| * m.chunkSize
    && IsHex64(m.sha256)
    && forall i :: 0 <= i < |m.chunks| ==> IsHex64(m.chunks[i])
  }

  /** The checker: the first violated rule, in the source's order. */
  method Validate(m: Manifest) returns (v: Verdict)
    ensures v == Valid <==> WellFormed(m)
    ensures v == BadChunkSize <==> !(0 < m.chunkSize <= 64 * 1024)
    ensures v == EmptyAsset <==> 0 < m.chunkSize <= 64 * 1024 && m.size <= 0
    ensures v == BadChunkCount <==>
            0 < m.chunkSize <= 64 * 1024 && m.size > 0 && |m.chunks| != WantedChunks(m)
    ensures v == BadDigest <==>
            0 < m.chunkSize <= 64 * 1024 && m.size > 0 && |m.chunks| == WantedChunks(m) && !HexDigest(m.sha256)
    ensures v.BadChunkDigest? ==> v.at < |m.chunks| && !HexDigest(m.chunks[v.at])
    ensures v.BadChunkDigest? ==> forall i :: 0 <= i < v.at ==> HexDigest(m.chunks[i])
  {
    hide IsHex64, HexDigest;
    HexIff(m.sha256);
    if m.chunkSize <= 0 || m.chunkSize > MAX_CHUNK_SIZE {
      return BadChunkSize;
    }
    if m.size <= 0 {
      return EmptyAsset;
    }
    WantedChunksIsCeiling(m, |m.chunks|);
    if |m.chunks| != WantedChunks(m) {
      return BadChunkCount;
    }
    if !IsHex64(m.sha256) {
      return BadDigest;
    }
    for i := 0 to |m.chunks|
      invariant forall k :: 0 <= k < i ==> IsHex64(m.chunks[k]) && HexDigest(m.chunks[k])
    {
      HexIff(m.chunks[i]);
      if !IsHex64(m.chunks[i]) {
        return BadChunkDigest(i);
      }
    }
    return Valid;
  }

  lemma MulMonotone(a: int, b: int, c: nat)
    ensures a <= b ==> a * c <= b * c
  {
  }

  lemma CeilingByDivision(size: int, unit: int, n: int)
    requires size > 0 && unit > 0
    ensures n == (size + unit - 1) / unit <==> (n - 1) * unit < size <= n * unit
  {
    var q := (size + unit - 1) / unit;
    assert q * unit <= size + unit - 1 < q * unit + unit;
    assert (q - 1) * unit == q * unit - unit;
    assert (n - 1) * unit == n * unit - unit;
    MulMonotone(n, q - 1, unit);
    MulMonotone(q, n - 1, unit);
  }

  /** The count check is exactly "the chunks cover the size"; a size whose sum wraps is always refused. */
  lemma WantedChunksIsCeiling(m: Manifest, n: nat)
    requires 0 < m.chunkSize <= MAX_CHUNK_SIZE && 0 < m.size
    ensures n == WantedChunks(m) <==>
            m.size + m.chunkSize - 1 < TWO63 && (n - 1) * m.chunkSize < m.size <= n * m.chunkSize
  {
    var sum := m.size + m.chunkSize - 1;
    if sum < TWO63 {
      CeilingByDivision(m.size, m.chunkSize, n);
    } else {
      WrappedSum(sum);
      assert Wrap64(sum) <= -MAX_CHUNK_SIZE;
      NegativeQuotient(Wrap64(sum), m.chunkSize);
    }
  }

  lemma WrappedSum(x: int)
    requires TWO63 <= x < TWO63 + MAX_CHUNK_SIZE
    ensures Wrap64(x) == x - TWO64
  {
    assert x + TWO63 == TWO64 + (x - TWO63);
    assert (x + TWO63) % TWO64 == x - TWO63;
  }

  lemma NegativeQuotient(x: int, y: int)
    requires 0 < y <= -x
    ensures TruncDiv(x, y) < 0
  {
    assert (-x) / y >= 1 by { CeilingByDivision(-x, y, (-x + y - 1) / y); }
  }

  // ----- the chunk intervals ------------------------------------------------------------------

  function Offset(m: Manifest, i: nat): int { i * m.chunkSize }

  predicate Covers(m: Manifest, i: nat, p: int) {
    Offset(m, i) <= p < Offset(m, i) + ChunkLen(m, i)
  }

  /** Chunk lengths are positive and at most the chunk size; the chunks abut and end at the size. */
  lemma ChunksAbut(m: Manifest, i: nat)
    requires WellFormed(m) && i < |m.chunks|
    ensures 0 < ChunkLen(m, i) <= m.chunkSize
    ensures Offset(m, i) + ChunkLen(m, i) == if i + 1 < |m.chunks| then Offset(m, i + 1) else m.size
    ensures 0 <= Offset(m, i) && Offset(m, i) + ChunkLen(m, i) <= m.size
  {
    hide IsHex64;
    IntervalsAbut(m.chunkSize, m.size, |m.chunks|, i);
  }

  lemma IntervalsAbut(c: nat, size: int, n: nat, i: nat)
    requires i < n && (n - 1) * c < size <= n * c
    ensures 0 <= i * c < size && (i + 1 < n ==> (i + 1) * c < size) && (i + 1) * c == i * c + c
    ensures i + 1 >= n ==> size <= i * c + c
  {
    MulMonotone(i, n - 1, c);
    MulMonotone(i + 1, n - 1, c);
    NextMultiple(i, c);
    assert i + 1 >= n ==> n == i + 1;
  }

  lemma NextMultiple(i: nat, c: nat)
    ensures (i + 1) * c == i * c + c && i * c >= 0
  {
  }

  /** Every byte position of the file lies in exactly one chunk interval. */
  lemma ChunksPartition(m: Manifest, p: int)
    requires WellFormed(m)
    ensures 0 <= p < m.size <==> exists i: nat :: i < |m.chunks| && Covers(m, i, p)
    ensures forall i: nat, j: nat :: i < |m.chunks| && j < |m.chunks| && Covers(m, i, p) && Covers(m, j, p) ==> i == j
  {
    if 0 <= p < m.size {
      CoveringChunk(m, p);
    }
    forall i: nat | i < |m.chunks| && Covers(m, i, p)
      ensures 0 <= p < m.size && i == p / m.chunkSize
    {
      ChunksAbut(m, i);
      QuotientUnique(p, m.chunkSize, i);
    }
  }

  lemma CoveringChunk(m: Manifest, p: nat)
    requires WellFormed(m) && p < m.size
    ensures 0 <= p / m.chunkSize < |m.chunks| && Covers(m, p / m.chunkSize, p)
  {
    QuotientInRange(p, m.chunkSize, |m.chunks|, m.size);
  }

  lemma QuotientInRange(p: nat, unit: int, n: nat, size: int)
    requires unit > 0 && p < size <= n * unit
    ensures 0 <= p / unit < n && (p / unit) * unit <= p < (p / unit) * unit + unit
  {
    var q := p / unit;
    assert q * unit <= p < q * unit + unit;
    MulMonotone(n, q, unit);
  }

  lemma QuotientUnique(p: int, unit: int, i: int)
    requires unit > 0 && i * unit <= p < i * unit + unit
    ensures p / unit == i
  {
    var q := p / unit;
    assert q * unit <= p < q * unit + unit;
    assert (q + 1) * unit == q * unit + unit && (i + 1) * unit == i * unit + unit;
    MulMonotone(q + 1, i, unit);
    MulMonotone(i + 1, q, unit);
  }

  // ----- computing a manifest -----------------------------------------------------------------

  /** The bytes of chunk `i` of a file with the manifest's size. */
  function Chunk(m: Manifest, file: ByteString, i: nat): ByteString
    requires WellFormed(m) && |file| == m.size && i < |m.chunks|
  {
    ChunksAbut(m, i);
    file[Offset(m, i)..Offset(m, i) + ChunkLen(m, i)]
  }

  /** `m` is the manifest of `file`: right size, right whole digest, right digest per chunk. */
  ghost predicate Describes(m: Manifest, file: ByteString, hash: Hash) {
    && WellFormed(m) && |file| == m.size
    && m.sha256 == hash(file)
    && forall i :: 0 <= i < |m.chunks| ==> m.chunks[i] == hash(Chunk(m, file, i))
  }

  /** Reads the file chunk by chunk, as the release tool does. */
  method Compute(file: ByteString, tag: string, asset: string, hash: Hash) returns (m: Manifest)
    requires |file| < TWO63
    ensures m.tag == tag && m.asset == asset && m.chunkSize == 60 * 1024
    ensures file != [] && (forall b: ByteString :: IsHex64(hash(b))) ==>
            (Describes(m, file, hash) <==> |file| + 60 * 1024 - 1 < TWO63)
    ensures file == [] ==> m.size == 0 && m.chunks == [] && !WellFormed(m)
  {
    hide IsHex64, ChunkHashed;
    var chunks: seq<string> := [];
    var size := 0;
    var eof := false;
    while !eof
      invariant 0 <= size <= |file|
      invariant !eof ==> size == |chunks| * DEFAULT_CHUNK_SIZE
      invariant eof ==> size == |file|
      invariant eof && file != [] ==> (|chunks| - 1) * DEFAULT_CHUNK_SIZE < |file| <= |chunks| * DEFAULT_CHUNK_SIZE
      invariant file == [] ==> chunks == []
      invariant forall i {:trigger chunks[i]} :: 0 <= i < |chunks| ==> ChunkHashed(file, chunks[i], i, hash)
      decreases !eof, |file| - size
    {
      var n := if |file| - size < DEFAULT_CHUNK_SIZE then |file| - size else DEFAULT_CHUNK_SIZE;
      if n > 0 {
        HashedHere(file, |chunks|, n, hash);
        chunks := chunks + [hash(file[size..size + n])];
        size := size + n;
      }
      eof := n < DEFAULT_CHUNK_SIZE;
    }
    m := Manifest(tag, asset, size, DEFAULT_CHUNK_SIZE, hash(file), chunks);
    if file != [] && (forall b: ByteString :: IsHex64(hash(b))) && |file| + DEFAULT_CHUNK_SIZE - 1 < TWO63 {
      ComputedDescribes(m, file, hash);
    }
  }

  lemma ComputedDescribes(m: Manifest, file: ByteString, hash: Hash)
    requires file != [] && |file| + DEFAULT_CHUNK_SIZE - 1 < TWO63 && forall b: ByteString :: IsHex64(hash(b))
    requires m.size == |file| && m.chunkSize == DEFAULT_CHUNK_SIZE && m.sha256 == hash(file)
    requires (|m.chunks| - 1) * DEFAULT_CHUNK_SIZE < |file| <= |m.chunks| * DEFAULT_CHUNK_SIZE
    requires forall i {:trigger m.chunks[i]} :: 0 <= i < |m.chunks| ==> ChunkHashed(file, m.chunks[i], i, hash)
    ensures Describes(m, file, hash)
  {
    hide IsHex64;
    forall i | 0 <= i < |m.chunks| ensures IsHex64(m.chunks[i]) {
      assert ChunkHashed(file, m.chunks[i], i, hash);
    }
    assert WellFormed(m);
    forall i | 0 <= i < |m.chunks| ensures m.chunks[i] == hash(Chunk(m, file, i)) {
      assert ChunkHashed(file, m.chunks[i], i, hash);
      ChunksAbut(m, i);
    }
  }

  lemma HashedHere(file: ByteString, i: nat, n: nat, hash: Hash)
    requires i * DEFAULT_CHUNK_SIZE < |file|
    requires n == if |file| - i * DEFAULT_CHUNK_SIZE < DEFAULT_CHUNK_SIZE then |file| - i * DEFAULT_CHUNK_SIZE else DEFAULT_CHUNK_SIZE
    ensures ChunkHashed(file, hash(file[i * DEFAULT_CHUNK_SIZE..i * DEFAULT_CHUNK_SIZE + n]), i, hash)
  {
  }

  ghost predicate ChunkHashed(file: ByteString, digest: string, i: nat, hash: Hash) {
    var lo := i * DEFAULT_CHUNK_SIZE;
    && lo < |file|
    && digest == hash(file[lo..if |file| - lo < DEFAULT_CHUNK_SIZE then |file| else lo + DEFAULT_CHUNK_SIZE])
  }

  // ----- the TCP path -------------------------------------------------------------------------

  datatype StreamResult =
    | Accepted(out: ByteString)
    | ShortStream(at: nat)
    | Hostile(at: nat)
    | DiskError(at: nat)
    | WrongTotal

  /** Chunk `i` of the manifest is present in the stream and hashes as the manifest says. */
  ghost predicate ChunkArrived(m: Manifest, stream: ByteString, i: nat, hash: Hash)
    requires WellFormed(m) && i < |m.chunks|
  {
    ChunksAbut(m, i);
    && Offset(m, i) + ChunkLen(m, i) <= |stream|
    && hash(stream[Offset(m, i)..Offset(m, i) + ChunkLen(m, i)]) == m.chunks[i]
  }

  /** Chunk `i` arrived intact and reached the disk. */
  ghost predicate ChunkKept(m: Manifest, stream: ByteString, i: nat, hash: Hash, diskOk: nat -> bool)
    requires WellFormed(m) && i < |m.chunks|
  {
    ChunkArrived(m, stream, i, hash) && diskOk(i)
  }

  lemma FirstChunk(m: Manifest)
    requires WellFormed(m)
    ensures |m.chunks| > 0 && Offset(m, 0) == 0
  {
  }

  /**
    One streaming attempt. `total` is the blob size the peer announced and `diskOk(i)` says
    whether the local write of chunk `i` succeeds.
   */
  method StreamFrom(m: Manifest, stream: ByteString, total: int, hash: Hash, diskOk: nat -> bool)
    returns (r: StreamResult)
    requires WellFormed(m)
    ensures r.Accepted? <==>
            && total == m.size
            && forall i: nat :: i < |m.chunks| ==> ChunkKept(m, stream, i, hash, diskOk)
    ensures r.Accepted? ==> |stream| >= m.size && r.out == stream[..m.size]
    ensures r.ShortStream? || r.Hostile? || r.DiskError? ==>
            && r.at < |m.chunks|
            && forall i: nat :: i < r.at ==> ChunkKept(m, stream, i, hash, diskOk)
    ensures r.ShortStream? ==> |stream| < Offset(m, r.at) + ChunkLen(m, r.at)
    ensures r.Hostile? ==> Offset(m, r.at) + ChunkLen(m, r.at) <= |stream| && !ChunkArrived(m, stream, r.at, hash)
    ensures r.DiskError? ==> ChunkArrived(m, stream, r.at, hash) && !diskOk(r.at)
    ensures r.WrongTotal? ==> total != m.size
  {
    hide WellFormed, Offset, ChunkLen;
    FirstChunk(m);
    var out: ByteString := [];
    var ci := 0;
    while ci < |m.chunks|
      invariant 0 <= ci <= |m.chunks|
      invariant |out| == (if ci < |m.chunks| then Offset(m, ci) else m.size) <= |stream|
      invariant out == stream[..|out|]
      invariant forall i: nat :: i < ci ==> ChunkKept(m, stream, i, hash, diskOk)
    {
      ChunksAbut(m, ci);
      var n := ChunkLen(m, ci);
      if |stream| - |out| < n {
        assert !ChunkKept(m, stream, ci, hash, diskOk);
        return ShortStream(ci);
      }
      var piece := stream[|out|..|out| + n];
      if hash(piece) != m.chunks[ci] {
        assert !ChunkKept(m, stream, ci, hash, diskOk);
        return Hostile(ci);
      }
      assert ChunkArrived(m, stream, ci, hash);
      if !diskOk(ci) {
        assert !ChunkKept(m, stream, ci, hash, diskOk);
        return DiskError(ci);
      }
      out := out + piece;
      ci := ci + 1;
    }
    if total != m.size {
      return WrongTotal;
    }
    return Accepted(out);
  }

  /** Two different byte strings of the same length with the same digest. */
  ghost predicate Collide(hash: Hash, x: ByteString, y: ByteString) {
    x != y && |x| == |y| && hash(x) == hash(y)
  }

  /**
    A stream accepted chunk by chunk is byte for byte the file the manifest was computed from,
    or one of its chunks collides with the file's chunk at the same place. The path has no
    whole-file digest of its own and needs none.
   */
  lemma AcceptedStreamIsTheFile(m: Manifest, file: ByteString, stream: ByteString, hash: Hash)
    requires Describes(m, file, hash) && |stream| >= m.size
    requires forall i: nat :: i < |m.chunks| ==> ChunkArrived(m, stream, i, hash)
    ensures stream[..m.size] == file || exists i: nat :: i < |m.chunks| && Collide(hash, Chunk(m, stream[..m.size], i), Chunk(m, file, i))
  {
    var out := stream[..m.size];
    if forall i: nat :: i < |m.chunks| ==> Chunk(m, out, i) == Chunk(m, file, i) {
      SameChunksSameFile(m, out, file);
    } else {
      var i: nat :| i < |m.chunks| && Chunk(m, out, i) != Chunk(m, file, i);
      ChunksAbut(m, i);
      hide WellFormed, Offset, ChunkLen;
      assert ChunkArrived(m, stream, i, hash);
      assert Chunk(m, out, i) == stream[Offset(m, i)..Offset(m, i) + ChunkLen(m, i)];
      assert Collide(hash, Chunk(m, out, i), Chunk(m, file, i));
    }
  }

  lemma SameChunksSameFile(m: Manifest, x: ByteString, y: ByteString)
    requires WellFormed(m) && |x| == |y| == m.size
    requires forall i: nat :: i < |m.chunks| ==> Chunk(m, x, i) == Chunk(m, y, i)
    ensures x == y
  {
    hide WellFormed, Offset, ChunkLen, Chunk, Covers;
    forall p | 0 <= p < m.size ensures x[p] == y[p] {
      ChunksPartition(m, p);
      var i: nat :| i < |m.chunks| && Covers(m, i, p);
      var j := ByteOfChunk(m, x, i, p);
      var k := ByteOfChunk(m, y, i, p);
    }
  }

  /** Where a covered position lies in its chunk. */
  lemma ByteOfChunk(m: Manifest, file: ByteString, i: nat, p: nat) returns (j: int)
    requires WellFormed(m) && |file| == m.size && i < |m.chunks| && Covers(m, i, p) && p < m.size
    ensures j == p - Offset(m, i) && 0 <= j < |Chunk(m, file, i)| && Chunk(m, file, i)[j] == file[p]
  {
    ChunksAbut(m, i);
    hide WellFormed, Offset, ChunkLen;
    j := p - Offset(m, i);
  }
}
