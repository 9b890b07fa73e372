/** Records, signed envelopes, and the rules by which one envelope supersedes another. */
module Records {
  import opened Bytes
  import opened Recovery

  datatype RR = RR(kind: nat, data: ByteString, ttl: Uint64)

  /** An empty delegation or prevHash stands for an absent field. */
  datatype Record = Record(
    name: ByteString, owner: ByteString, sequence: Uint64, created: Uint64, expires: Uint64,
    rrset: seq<RR>, delegation: ByteString, prevHash: ByteString,
    recovery: Option<Policy>, claim: Option<ByteString>, revoked: bool)

  datatype Envelope = Envelope(record: Record, sig: ByteString, signer: ByteString)

  /** The hash of an envelope's canonical bytes. */
  type EnvelopeHash = Envelope -> ByteString

  /** A key pair: its public half and its signature over a record's canonical bytes. */
  datatype Signer = Signer(pk: ByteString, sign: Record -> ByteString)

  function Sign(r: Record, kp: Signer): Envelope { Envelope(r, kp.sign(r), kp.pk) }

  /** A new record, if its fields are structurally valid. */
  function NewRecord(name: ByteString, owner: ByteString, sequence: Uint64, created: Uint64, expires: Uint64): Option<Record> {
    if name == [] || |owner| != 32 || sequence < 1 || created > expires then None
    else Some(Record(name, owner, sequence, created, expires, [], [], [], None, None, false))
  }

  /** Lexicographically greater. */
  predicate Above(x: ByteString, y: ByteString) {
    if x == [] then false
    else if y == [] then true
    else if x[0] != y[0] then x[0] > y[0]
    else Above(x[1..], y[1..])
  }

  /** Higher sequence, or equal sequence and greater hash. */
  predicate Wins(h: EnvelopeHash, newer: Envelope, older: Envelope) {
    || newer.record.sequence > older.record.sequence
    || (newer.record.sequence == older.record.sequence && Above(h(newer), h(older)))
  }

  /** A chain link: the predecessor's hash if one is asserted, and a higher sequence. */
  predicate ChainLink(h: EnvelopeHash, newer: Envelope, older: Envelope) {
    (newer.record.prevHash == [] || newer.record.prevHash == h(older)) && newer.record.sequence > older.record.sequence
  }

  lemma {:induction false} AboveIrreflexive(x: ByteString)
    ensures !Above(x, x)
  {
    if x != [] {
      AboveIrreflexive(x[1..]);
    }
  }

  lemma {:induction false} AboveTransitive(x: ByteString, y: ByteString, z: ByteString)
    requires Above(x, y) && Above(y, z)
    ensures Above(x, z)
  {
    if x[0] == y[0] && z != [] && y[0] == z[0] {
      AboveTransitive(x[1..], y[1..], z[1..]);
    }
  }

  lemma {:induction false} AboveTotal(x: ByteString, y: ByteString)
    ensures Above(x, y) || Above(y, x) || x == y
  {
    if x != [] && y != [] {
      AboveTotal(x[1..], y[1..]);
      assert x == [x[0]] + x[1..] && y == [y[0]] + y[1..];
    }
  }

  /** Above is the byte order turned round. */
  lemma {:induction false} AboveIs(x: ByteString, y: ByteString)
    ensures Above(x, y) <==> BytesBefore(y, x)
  {
    if x == [] || y == [] || x[0] != y[0] {
      if x != [] && (y == [] || y[0] < x[0]) {
        assert SplitsAt(y, x, 0);
      }
      forall n | 0 <= n <= |y| && n <= |x| && SplitsAt(y, x, n) ensures Above(x, y) {
        SplitFirst(y, x, n);
      }
    } else {
      AboveIs(x[1..], y[1..]);
      if BytesBefore(y[1..], x[1..]) {
        var n :| 0 <= n <= |y[1..]| && n <= |x[1..]| && SplitsAt(y[1..], x[1..], n);
        assert x[..n + 1] == [x[0]] + x[1..][..n] && y[..n + 1] == [y[0]] + y[1..][..n];
        assert SplitsAt(y, x, n + 1);
      }
      forall n | 0 <= n <= |y| && n <= |x| && SplitsAt(y, x, n) ensures BytesBefore(y[1..], x[1..]) {
        SplitFirst(y, x, n);
        assert x[1..][..n - 1] == x[..n][1..] && y[1..][..n - 1] == y[..n][1..];
        assert SplitsAt(y[1..], x[1..], n - 1);
      }
    }
  }

  /** A higher sequence, or the same sequence and a hash that comes later in byte order. */
  ghost predicate Newer(h: EnvelopeHash, a: Envelope, b: Envelope) {
    || a.record.sequence > b.record.sequence
    || (a.record.sequence == b.record.sequence && BytesBefore(h(b), h(a)))
  }

  lemma WinsIs(h: EnvelopeHash, a: Envelope, b: Envelope)
    ensures Wins(h, a, b) <==> Newer(h, a, b)
  {
    hide Above, BytesBefore;
    AboveIs(h(a), h(b));
  }

  /** Winning is a strict order, total up to equal sequence and hash. */
  lemma WinsIsStrictOrder(h: EnvelopeHash, a: Envelope, b: Envelope, c: Envelope)
    ensures !Wins(h, a, a)
    ensures Wins(h, a, b) && Wins(h, b, c) ==> Wins(h, a, c)
    ensures Wins(h, a, b) ==> !Wins(h, b, a)
    ensures Wins(h, a, b) || Wins(h, b, a) || (a.record.sequence == b.record.sequence && h(a) == h(b))
  {
    hide Above;
    AboveIrreflexive(h(a));
    AboveTotal(h(a), h(b));
    if Above(h(a), h(b)) {
      if Above(h(b), h(c)) {
        AboveTransitive(h(a), h(b), h(c));
      }
      if Above(h(b), h(a)) {
        AboveTransitive(h(a), h(b), h(a));
      }
    }
  }
}
