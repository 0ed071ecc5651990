/** The contract the format needs from AES-256-GCM; its internals are not part of this model. */
module Aead {
  import opened Bytes

  const TAG_LEN := 16

  /** seal(nonce, aad, plain) and open(nonce, aad, ciphertext) under one fixed key. */
  datatype Aead = Aead(
    seal: (Bytes, Bytes, Bytes) -> Bytes,
    open: (Bytes, Bytes, Bytes) -> Option<Bytes>)
  {
    /** GCM is deterministic: a ciphertext opens to p exactly when it is the sealing of p. */
    ghost predicate Correct() {
      && (forall n, a, p :: |seal(n, a, p)| == |p| + TAG_LEN)
      && (forall n, a, p :: open(n, a, seal(n, a, p)) == Some(p))
      && (forall n, a, c :: open(n, a, c).Some? ==> seal(n, a, open(n, a, c).value) == c)
    }
  }

  lemma SealedLength(aead: Aead, n: Bytes, a: Bytes, p: Bytes)
    requires aead.Correct()
    ensures |aead.seal(n, a, p)| == |p| + TAG_LEN
  {
  }

  lemma OpensAsSealed(aead: Aead, n: Bytes, a: Bytes, p: Bytes)
    requires aead.Correct()
    ensures aead.open(n, a, aead.seal(n, a, p)) == Some(p)
  {
  }

  /** A ciphertext that opens is exactly a tag longer than what it opens to. */
  lemma OpenedLength(aead: Aead, n: Bytes, a: Bytes, c: Bytes)
    requires aead.Correct()
    requires aead.open(n, a, c).Some?
    ensures |c| == |aead.open(n, a, c).value| + TAG_LEN
  {
    assert |aead.seal(n, a, aead.open(n, a, c).value)| == |aead.open(n, a, c).value| + TAG_LEN;
  }
}
