/**
 * The on-disk layout: a 17-byte header, then the plaintext in frames of frameSize bytes, each sealed
 * with a nonce and associated data derived from the base nonce and the frame's index.
 */
module FrameFormat {
  import opened Bytes
  import opened Aead

  const VERSION: Byte := 1
  const NONCE_LEN := 12
  const HEADER_SIZE := 17
  const DEFAULT_FRAME_SIZE := 65536
  const MAX_FRAME_SIZE := 0x4000_0000
  const UINT32 := 0x1_0000_0000
  const UINT64 := 0x1_0000_0000_0000_0000
  const INT64 := 0x8000_0000_0000_0000

  /** One bucket's cipher: the AEAD under the bucket's key and the frame size it writes with. */
  datatype Cipher = Cipher(aead: Aead, frameSize: nat) {
    ghost predicate Valid() {
      aead.Correct() && 1 <= frameSize <= MAX_FRAME_SIZE
    }
  }

  /** The frame size that a configured one stands for. */
  function ChosenFrameSize(frameSize: int): (fs: nat)
    ensures fs > 0
    ensures frameSize > 0 ==> fs == frameSize
    ensures frameSize <= 0 ==> fs == 0x1_0000
  {
    if frameSize <= 0 then DEFAULT_FRAME_SIZE else frameSize
  }

  /** crypto.NewCipher once AES has accepted a 32-byte key: None is "frame size too large". */
  function NewCipher(aead: Aead, frameSize: int): (c: Option<Cipher>)
    ensures aead.Correct() && c.Some? ==> c.value.Valid() && c.value.aead == aead
    ensures c.Some? ==> c.value.aead == aead && c.value.frameSize == ChosenFrameSize(frameSize)
    ensures c.None? <==> frameSize > 0x4000_0000
  {
    var fs := ChosenFrameSize(frameSize);
    if fs > MAX_FRAME_SIZE then None else Some(Cipher(aead, fs))
  }

  // --- sizes ---

  function CiphertextSize(frameSize: nat, plaintextSize: int): int
    requires frameSize > 0
  {
    if plaintextSize < 0 then 0
    else
      var full := plaintextSize / frameSize;
      var rem := plaintextSize % frameSize;
      HEADER_SIZE + full * (frameSize + TAG_LEN) +
      if rem > 0 || plaintextSize == 0 then rem + TAG_LEN else 0
  }

  /** A 17-byte header, and 16 bytes for the tag of every frame, of which there is always one. */
  lemma SizeExamples()
    ensures CiphertextSize(0x1_0000, 0) == 17 + 16
    ensures CiphertextSize(0x1_0000, 0x1_0000) == 17 + 0x1_0000 + 16
    ensures CiphertextSize(0x1_0000, 0x1_0001) == 17 + 0x1_0001 + 2 * 16
  {
  }

  /** The largest plaintext whose blob fits in `limit` bytes, or -1 when not even an empty one does. */
  function PlaintextCapacity(frameSize: nat, limit: int): int
    requires frameSize > 0
  {
    if limit < HEADER_SIZE + TAG_LEN then -1
    else
      var full := (limit - HEADER_SIZE) / (frameSize + TAG_LEN);
      var rem := (limit - HEADER_SIZE) % (frameSize + TAG_LEN);
      full * frameSize + if rem > TAG_LEN then rem - TAG_LEN else 0
  }

  lemma DivMod(q: nat, r: nat, d: nat)
    requires r < d
    ensures (q * d + r) / d == q && (q * d + r) % d == r
  {
    var n := q * d + r;
    QuotientUnique(q, r, n / d, n % d, d);
  }

  lemma QuotientUnique(q: int, r: nat, q': int, r': nat, d: nat)
    requires r < d && r' < d && q * d + r == q' * d + r'
    ensures q == q' && r == r'
  {
    assert (q - q') * d == r' - r;
    assert (q' - q) * d == r - r';
    if q - q' >= 1 {
      MultipleAtLeast(q - q', d);
    } else if q' - q >= 1 {
      MultipleAtLeast(q' - q, d);
    }
  }

  lemma {:induction false} MultipleAtLeast(k: int, d: nat)
    requires k >= 1
    ensures k * d >= d
    decreases k
  {
    if k > 1 {
      MultipleAtLeast(k - 1, d);
    }
  }

  /** The size of a plaintext's sealed frames, following the layout frame by frame. */
  function FramesLength(frameSize: nat, n: nat): nat
    requires frameSize > 0
  {
    if n <= frameSize then n + TAG_LEN
    else frameSize + TAG_LEN + FramesLength(frameSize, n - frameSize)
  }

  lemma {:induction false} FramesLengthClosed(frameSize: nat, q: nat, r: nat)
    requires r < frameSize
    ensures q * frameSize + r >= 0
    ensures FramesLength(frameSize, q * frameSize + r) ==
            q * (frameSize + TAG_LEN) + if r > 0 || q == 0 then r + TAG_LEN else 0
    decreases q
  {
    if q > 0 {
      FramesLengthClosed(frameSize, q - 1, r);
      assert (q - 1) * frameSize == q * frameSize - frameSize;
      assert (q - 1) * (frameSize + TAG_LEN) == q * (frameSize + TAG_LEN) - frameSize - TAG_LEN;
    }
  }

  /** The closed form agrees with the layout. */
  lemma CiphertextSizeIsLayoutSize(frameSize: nat, n: nat)
    requires frameSize > 0
    ensures CiphertextSize(frameSize, n) == HEADER_SIZE + FramesLength(frameSize, n)
  {
    var q, r := n / frameSize, n % frameSize;
    assert n == q * frameSize + r;
    FramesLengthClosed(frameSize, q, r);
    if q == 0 {
      assert q * frameSize == 0;
    } else {
      MultipleAtLeast(q, frameSize);
    }
  }

  lemma {:induction false} FramesLengthMonotone(frameSize: nat, m: nat, n: nat)
    requires frameSize > 0 && m < n
    ensures FramesLength(frameSize, m) < FramesLength(frameSize, n)
    decreases n
  {
    if m > frameSize {
      FramesLengthMonotone(frameSize, m - frameSize, n - frameSize);
    } else if n > frameSize {
      assert FramesLength(frameSize, n - frameSize) >= TAG_LEN by { FramesLengthBounds(frameSize, n - frameSize); }
    }
  }

  lemma {:induction false} FramesLengthBounds(frameSize: nat, n: nat)
    requires frameSize > 0
    ensures n + TAG_LEN <= FramesLength(frameSize, n) <= (TAG_LEN + 1) * n + TAG_LEN
    decreases n
  {
    if n > frameSize {
      FramesLengthBounds(frameSize, n - frameSize);
    }
  }

  /** A longer plaintext always has a longer blob, so a blob's size determines its plaintext's size. */
  lemma CiphertextSizeIncreasing(frameSize: nat, m: nat, n: nat)
    requires frameSize > 0 && m < n
    ensures CiphertextSize(frameSize, m) < CiphertextSize(frameSize, n)
  {
    CiphertextSizeIsLayoutSize(frameSize, m);
    CiphertextSizeIsLayoutSize(frameSize, n);
    FramesLengthMonotone(frameSize, m, n);
  }

  /** Nothing on the way to the result overflows int64 for any plaintext of at most 2^58 bytes. */
  lemma CiphertextSizeFitsInt64(frameSize: nat, n: nat)
    requires 1 <= frameSize <= MAX_FRAME_SIZE && n <= 0x400_0000_0000_0000
    ensures n + TAG_LEN < CiphertextSize(frameSize, n) < INT64
    ensures (n / frameSize) * (frameSize + TAG_LEN) < INT64
  {
    CiphertextSizeIsLayoutSize(frameSize, n);
    FramesLengthBounds(frameSize, n);
  }

  lemma CapacityOfFrames(frameSize: nat, q: nat, rem: nat)
    requires frameSize > 0 && rem < frameSize + TAG_LEN
    requires q > 0 || rem >= TAG_LEN
    ensures
      var limit := HEADER_SIZE + q * (frameSize + TAG_LEN) + rem;
      PlaintextCapacity(frameSize, limit) == q * frameSize + if rem > TAG_LEN then rem - TAG_LEN else 0
  {
    DivMod(q, rem, frameSize + TAG_LEN);
    if q > 0 {
      assert q * (frameSize + TAG_LEN) >= frameSize + TAG_LEN;
    }
  }

  /** The capacity of exactly a plaintext's blob is that plaintext's size. */
  lemma CapacityInvertsSize(frameSize: nat, n: nat)
    requires frameSize > 0
    ensures PlaintextCapacity(frameSize, CiphertextSize(frameSize, n)) == n
  {
    hide CiphertextSize;
    hide PlaintextCapacity;
    assert n == (n / frameSize) * frameSize + n % frameSize;
    WholeFramesAndRest(frameSize, n / frameSize, n % frameSize);
  }

  lemma WholeFramesAndRest(frameSize: nat, q: nat, r: nat)
    requires r < frameSize
    ensures PlaintextCapacity(frameSize, CiphertextSize(frameSize, q * frameSize + r)) == q * frameSize + r
  {
    SizeOfFrames(frameSize, q, r);
    CapacityOfFrames(frameSize, q, if r > 0 || q == 0 then r + TAG_LEN else 0);
  }

  /** The size of q whole frames and a ragged one, as the closed form computes it. */
  lemma SizeOfFrames(frameSize: nat, q: nat, r: nat)
    requires r < frameSize
    ensures q * frameSize + r >= 0
    ensures CiphertextSize(frameSize, q * frameSize + r) ==
            HEADER_SIZE + q * (frameSize + TAG_LEN) + if r > 0 || q == 0 then r + TAG_LEN else 0
  {
    DivMod(q, r, frameSize);
    if q > 0 {
      MultipleAtLeast(q, frameSize);
    }
  }

  lemma CapacityFits(frameSize: nat, q: nat, rem: nat)
    requires frameSize > 0 && rem < frameSize + TAG_LEN
    requires q > 0 || rem >= TAG_LEN
    ensures
      var limit := HEADER_SIZE + q * (frameSize + TAG_LEN) + rem;
      var t := PlaintextCapacity(frameSize, limit);
      t >= 0 && CiphertextSize(frameSize, t) <= limit < CiphertextSize(frameSize, t + 1)
  {
    hide CiphertextSize;
    hide PlaintextCapacity;
    CapacityOfFrames(frameSize, q, rem);
    var extra := if rem > TAG_LEN then rem - TAG_LEN else 0;
    SizeOfFrames(frameSize, q, extra);
    if extra + 1 < frameSize {
      SizeOfFrames(frameSize, q, extra + 1);
    } else {
      SizeOfFrames(frameSize, q + 1, 0);
      assert (q + 1) * frameSize == q * frameSize + frameSize;
      assert (q + 1) * (frameSize + TAG_LEN) == q * (frameSize + TAG_LEN) + frameSize + TAG_LEN;
    }
  }

  /** The capacity's own blob fits and the next larger plaintext's does not. */
  lemma CapacityIsMaximal(frameSize: nat, limit: int)
    requires frameSize > 0 && limit >= HEADER_SIZE + TAG_LEN
    ensures
      var t := PlaintextCapacity(frameSize, limit);
      t >= 0 && CiphertextSize(frameSize, t) <= limit < CiphertextSize(frameSize, t + 1)
  {
    var u := frameSize + TAG_LEN;
    var q, rem := (limit - HEADER_SIZE) / u, (limit - HEADER_SIZE) % u;
    assert limit == HEADER_SIZE + q * u + rem;
    CapacityFits(frameSize, q, rem);
  }

  lemma NoRoomForEmpty(frameSize: nat, n: nat)
    requires frameSize > 0
    ensures CiphertextSize(frameSize, n) >= HEADER_SIZE + TAG_LEN
  {
    CiphertextSizeIsLayoutSize(frameSize, n);
    FramesLengthBounds(frameSize, n);
  }

  /** Admission by ciphertext size is one plaintext threshold, and the threshold is computable. */
  lemma AdmissionIsThreshold(frameSize: nat, limit: int, n: nat)
    requires frameSize > 0
    ensures CiphertextSize(frameSize, n) <= limit <==> n <= PlaintextCapacity(frameSize, limit)
  {
    if limit < HEADER_SIZE + TAG_LEN {
      NoRoomForEmpty(frameSize, n);
    } else {
      CapacityIsMaximal(frameSize, limit);
      var t := PlaintextCapacity(frameSize, limit);
      if n < t {
        CiphertextSizeIncreasing(frameSize, n, t);
      } else if n > t + 1 {
        CiphertextSizeIncreasing(frameSize, t + 1, n);
      }
    }
  }

  // --- nonces and associated data ---

  function XorBytes(a: Bytes, b: Bytes): (r: Bytes)
    requires |a| == |b|
    ensures |r| == |a|
  {
    seq(|a|, k requires 0 <= k < |a| => a[k] ^ b[k])
  }

  /** The frame index, a uint64, xored into the low 8 bytes of the base nonce. */
  function FrameNonce(base: Bytes, i: nat): (n: Bytes)
    requires |base| == NONCE_LEN
    ensures |n| == NONCE_LEN
  {
    base[..4] + XorBytes(base[4..], BigEndian(i % UINT64, 8))
  }

  function FrameAad(i: nat): (a: Bytes)
    ensures |a| == 8
  {
    BigEndian(i % UINT64, 8)
  }

  /** frameNonce's loop over the low 8 bytes. */
  method DeriveFrameNonce(base: Bytes, i: nat) returns (n: Bytes)
    requires |base| == NONCE_LEN
    ensures n == FrameNonce(base, i)
  {
    var fn := new Byte[NONCE_LEN](j requires 0 <= j < NONCE_LEN => base[j]);
    var ib := BigEndian(i % UINT64, 8);
    for k := 0 to 8
      invariant forall j :: 0 <= j < 4 ==> fn[j] == base[j]
      invariant forall j :: 0 <= j < k ==> fn[4 + j] == base[4 + j] ^ ib[j]
      invariant forall j :: 4 + k <= j < NONCE_LEN ==> fn[j] == base[j]
    {
      fn[4 + k] := fn[4 + k] ^ ib[k];
    }
    n := fn[..];
    assert forall j :: 4 <= j < NONCE_LEN ==> n[j] == fn[4 + (j - 4)] == XorBytes(base[4..], ib)[j - 4];
  }

  /** The associated data is the frame's index, a uint64 in eight bytes, most significant first. */
  lemma AadIsIndex(i: nat)
    ensures |FrameAad(i)| == 8 && FromBigEndian(FrameAad(i)) == i % 0x1_0000_0000_0000_0000
  {
    hide BigEndian, FromBigEndian, Pow256;
    FixedWidths();
    BigEndianRoundTrip(i % UINT64, 8);
  }

  /** The nonce is the base nonce, with those bytes xored into its last eight. */
  lemma NonceIsBaseAndIndex(base: Bytes, i: nat, k: nat)
    requires |base| == NONCE_LEN && k < 12
    ensures |FrameNonce(base, i)| == 12
    ensures FrameNonce(base, i)[k] == if k < 4 then base[k] else base[k] ^ FrameAad(i)[k - 4]
  {
    hide BigEndian;
  }

  lemma FrameAadInjective(i: nat, j: nat)
    requires i < UINT64 && j < UINT64
    requires FrameAad(i) == FrameAad(j)
    ensures i == j
  {
    hide BigEndian;
    hide Pow256;
    FixedWidths();
    assert i % UINT64 == i && j % UINT64 == j;
    BigEndianInjective(i, j, 8);
  }

  lemma XorCancels(a: Bytes, b: Bytes, c: Bytes)
    requires |a| == |b| == |c|
    requires XorBytes(a, b) == XorBytes(a, c) || XorBytes(b, a) == XorBytes(c, a)
    ensures b == c
  {
    forall k | 0 <= k < |b|
      ensures b[k] == c[k]
    {
      if XorBytes(a, b) == XorBytes(a, c) {
        assert XorBytes(a, b)[k] == XorBytes(a, c)[k];
      } else {
        assert XorBytes(b, a)[k] == XorBytes(c, a)[k];
      }
    }
  }

  /** Within one object no two frames share a nonce, for every index a uint64 counter can take. */
  lemma NoncesDistinctWithinObject(base: Bytes, i: nat, j: nat)
    requires |base| == NONCE_LEN && i < UINT64 && j < UINT64 && i != j
    ensures FrameNonce(base, i) != FrameNonce(base, j)
  {
    hide BigEndian;
    hide Pow256;
    if FrameNonce(base, i) == FrameNonce(base, j) {
      var x, y := BigEndian(i, 8), BigEndian(j, 8);
      assert XorBytes(base[4..], x) == FrameNonce(base, i)[4..];
      assert XorBytes(base[4..], y) == FrameNonce(base, j)[4..];
      XorCancels(base[4..], x, y);
      FixedWidths();
      assert i % UINT64 == i && j % UINT64 == j;
      BigEndianInjective(i, j, 8);
    }
  }

  /** Nonce and associated data together name one object and one frame of it. */
  lemma NonceAndAadNameTheFrame(base: Bytes, i: nat, base': Bytes, j: nat)
    requires |base| == |base'| == NONCE_LEN && i < UINT64 && j < UINT64
    requires FrameNonce(base, i) == FrameNonce(base', j) && FrameAad(i) == FrameAad(j)
    ensures base == base' && i == j
  {
    hide BigEndian;
    FrameAadInjective(i, j);
    assert i % UINT64 == i;
    var x := BigEndian(i, 8);
    var n, n' := FrameNonce(base, i), FrameNonce(base', i);
    assert base[..4] == n[..4] == n'[..4] == base'[..4];
    assert XorBytes(base[4..], x) == n[4..] == n'[4..] == XorBytes(base'[4..], x);
    XorCancels(x, base[4..], base'[4..]);
    assert base == base[..4] + base[4..];
    assert base' == base'[..4] + base'[4..];
  }

  /** Why the associated data is needed: nonces alone coincide across different base nonces. */
  lemma NoncesAloneMayCoincide()
    ensures exists base: Bytes, base': Bytes ::
              |base| == |base'| == NONCE_LEN && base != base' && FrameNonce(base, 0) == FrameNonce(base', 1)
  {
    hide BigEndian;
    FixedWidths();
    var z, o := BigEndian(0, 8), BigEndian(1, 8);
    if z == o {
      BigEndianInjective(0, 1, 8);
    }
    var zeros: Bytes := [0, 0, 0, 0];
    var base, base' := zeros + o, zeros + z;
    assert base[4..] == o && base'[4..] == z;
    assert XorBytes(o, z) == XorBytes(z, o);
    assert FrameNonce(base, 0) == FrameNonce(base', 1);
  }

  // --- the sealed form ---

  function Header(base: Bytes, frameSize: nat): (h: Bytes)
    requires |base| == NONCE_LEN
    ensures |h| == HEADER_SIZE
  {
    [VERSION] + base + BigEndian(frameSize, 4)
  }

  /** The header is the version, which is 1, the base nonce, and the frame size, most significant byte first. */
  lemma HeaderLayout(base: Bytes, frameSize: nat)
    requires |base| == NONCE_LEN && frameSize < UINT32
    ensures
      var h := Header(base, frameSize);
      |h| == 17 && h[0] == 1 && h[1..13] == base && FromBigEndian(h[13..17]) == frameSize
  {
    FixedWidths();
    BigEndianRoundTrip(frameSize, 4);
    hide BigEndian, FromBigEndian, Pow256;
    var h := Header(base, frameSize);
    assert h[13..17] == BigEndian(frameSize, 4);
  }

  /** The default frame size, as the header has it. */
  lemma DefaultSizeBytes(base: Bytes)
    requires |base| == NONCE_LEN
    ensures Header(base, 0x1_0000) == [1] + base + [0, 1, 0, 0]
  {
    assert BigEndian(1, 2) == [0, 1] && BigEndian(0x100, 3) == [0, 1, 0];
  }

  function SealFrame(aead: Aead, base: Bytes, i: nat, plain: Bytes): Bytes
    requires |base| == NONCE_LEN
  {
    aead.seal(FrameNonce(base, i), FrameAad(i), plain)
  }

  function OpenFrame(aead: Aead, base: Bytes, i: nat, c: Bytes): Option<Bytes>
    requires |base| == NONCE_LEN
  {
    aead.open(FrameNonce(base, i), FrameAad(i), c)
  }

  /** The sealed frames of a plaintext, from frame index i on; there is always at least one. */
  function Frames(c: Cipher, base: Bytes, i: nat, plain: Bytes): Bytes
    requires c.frameSize > 0 && |base| == NONCE_LEN
    decreases |plain|
  {
    if |plain| <= c.frameSize then SealFrame(c.aead, base, i, plain)
    else
      SealFrame(c.aead, base, i, plain[..c.frameSize]) + Frames(c, base, i + 1, plain[c.frameSize..])
  }

  /** The whole blob stored for a plaintext. */
  function Sealed(c: Cipher, base: Bytes, plain: Bytes): Bytes
    requires c.frameSize > 0 && |base| == NONCE_LEN
  {
    Header(base, c.frameSize) + Frames(c, base, 0, plain)
  }

  lemma {:induction false} FramesHaveLayoutLength(c: Cipher, base: Bytes, i: nat, plain: Bytes)
    requires c.Valid() && |base| == NONCE_LEN
    ensures |Frames(c, base, i, plain)| == FramesLength(c.frameSize, |plain|)
    decreases |plain|
  {
    if |plain| > c.frameSize {
      FramesHaveLayoutLength(c, base, i + 1, plain[c.frameSize..]);
    }
  }

  /** A blob is exactly as long as CiphertextSize promises its reader. */
  lemma SealedHasCiphertextSize(c: Cipher, base: Bytes, plain: Bytes)
    requires c.Valid() && |base| == NONCE_LEN
    ensures |Sealed(c, base, plain)| == CiphertextSize(c.frameSize, |plain|)
  {
    FramesHaveLayoutLength(c, base, 0, plain);
    CiphertextSizeIsLayoutSize(c.frameSize, |plain|);
  }
}
