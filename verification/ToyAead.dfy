/**
 * An AEAD that hides nothing and meets every hypothesis about AEADs made here, for any objects and any
 * blob. It shows that the hypotheses can be met, and that what they do not exclude can happen.
 */
module ToyAead {
  import opened Bytes
  import opened Aead
  import opened Io
  import opened FrameFormat
  import opened Decrypting
  import opened Authenticity

  const ZERO_TAG: Bytes := [0, 0, 0, 0, 0, 0, 0, 0, 0, 0, 0, 0, 0, 0, 0, 0]

  type Tag = t: Bytes | |t| == TAG_LEN witness ZERO_TAG

  /** Frames that were sealed have the tag zero, all else has the other one. */
  ghost function ToyTag(objs: Sealings, other: Tag, n: Bytes, a: Bytes, p: Bytes): Tag {
    if WellFormed(objs) && Genuine(objs, n, a, p) then ZERO_TAG else other
  }

  ghost function ToySeal(objs: Sealings, other: Tag, n: Bytes, a: Bytes, p: Bytes): Bytes {
    p + ToyTag(objs, other, n, a, p)
  }

  ghost function ToyOpen(objs: Sealings, other: Tag, n: Bytes, a: Bytes, c: Bytes): Option<Bytes> {
    if |c| < TAG_LEN then None
    else
      var p := c[..|c| - TAG_LEN];
      if c[|p|..] == ToyTag(objs, other, n, a, p) then Some(p) else None
  }

  ghost function Toy(objs: Sealings, other: Tag): Aead {
    Aead((n, a, p) => ToySeal(objs, other, n, a, p), (n, a, c) => ToyOpen(objs, other, n, a, c))
  }

  lemma ToyRoundTrip(objs: Sealings, other: Tag, n: Bytes, a: Bytes, p: Bytes)
    ensures |ToySeal(objs, other, n, a, p)| == |p| + TAG_LEN
    ensures ToyOpen(objs, other, n, a, ToySeal(objs, other, n, a, p)) == Some(p)
  {
    hide ToyTag;
    var c := ToySeal(objs, other, n, a, p);
    assert c[..|p|] == p && c[|p|..] == ToyTag(objs, other, n, a, p);
  }

  lemma ToyOpens(objs: Sealings, other: Tag, n: Bytes, a: Bytes, c: Bytes)
    requires ToyOpen(objs, other, n, a, c).Some?
    ensures ToySeal(objs, other, n, a, ToyOpen(objs, other, n, a, c).value) == c
  {
    hide ToyTag;
    var p := ToyOpen(objs, other, n, a, c).value;
    assert c == p + c[|p|..];
  }

  lemma ToyIsCorrect(objs: Sealings, other: Tag)
    ensures Toy(objs, other).Correct()
  {
    hide ToySeal, ToyOpen;
    var aead := Toy(objs, other);
    forall n, a, p
      ensures |aead.seal(n, a, p)| == |p| + TAG_LEN && aead.open(n, a, aead.seal(n, a, p)) == Some(p)
    {
      ToyRoundTrip(objs, other, n, a, p);
    }
    forall n, a, c | aead.open(n, a, c).Some?
      ensures aead.seal(n, a, aead.open(n, a, c).value) == c
    {
      ToyOpens(objs, other, n, a, c);
    }
  }

  // --- tags that do not occur ---

  function Window(blob: Bytes, i: nat): Bytes
    requires i + TAG_LEN <= |blob|
  {
    blob[i..i + TAG_LEN]
  }

  ghost predicate Occurs(t: Bytes, blob: Bytes) {
    exists i :: 0 <= i <= |blob| - TAG_LEN && Window(blob, i) == t
  }

  function Windows(blob: Bytes, n: nat): (w: set<Bytes>)
    requires n + TAG_LEN <= |blob| + 1
    ensures |w| <= n
    ensures forall i :: 0 <= i < n ==> Window(blob, i) in w
  {
    if n == 0 then {} else Windows(blob, n - 1) + {Window(blob, n - 1)}
  }

  function Numbered(n: nat): set<Bytes> {
    if n == 0 then {} else Numbered(n - 1) + {BigEndian(n - 1, TAG_LEN)}
  }

  lemma {:induction false} NumberedMembers(n: nat, t: Bytes)
    requires t in Numbered(n)
    ensures exists k: nat :: k < n && t == BigEndian(k, TAG_LEN)
  {
    hide BigEndian;
    if t != BigEndian(n - 1, TAG_LEN) {
      NumberedMembers(n - 1, t);
      var k: nat :| k < n - 1 && t == BigEndian(k, TAG_LEN);
      assert k < n;
    }
  }

  lemma {:induction false} NumberedCount(n: nat)
    requires n <= Pow256(TAG_LEN)
    ensures |Numbered(n)| == n
  {
    hide BigEndian, Pow256;
    if n > 0 {
      NumberedCount(n - 1);
      var t := BigEndian(n - 1, TAG_LEN);
      if t in Numbered(n - 1) {
        NumberedMembers(n - 1, t);
        var k: nat :| k < n - 1 && t == BigEndian(k, TAG_LEN);
        BigEndianInjective(k, n - 1, TAG_LEN);
      }
    }
  }

  lemma SmallerSet(a: set<Bytes>, b: set<Bytes>)
    requires |a| < |b|
    ensures exists t :: t in b && t !in a
  {
    var extra := a - b;
    assert b <= a ==> a == b + extra;
    assert |b + extra| == |b| + |extra|;
  }

  const MANY := 0x1_0000_0000_0000_0000_0000_0000

  lemma ManyTags()
    ensures MANY < Pow256(TAG_LEN)
  {
    FixedWidths();
    assert Pow256(10) == 256 * (256 * Pow256(8));
    assert Pow256(12) == 256 * (256 * Pow256(10));
    assert Pow256(14) == 256 * (256 * Pow256(12));
    assert Pow256(16) == 256 * (256 * Pow256(14));
  }

  /** There are more tags than places in a blob. */
  lemma FreshTag(blob: Bytes) returns (t: Tag)
    requires |blob| < MANY
    ensures !Occurs(t, blob)
  {
    ManyTags();
    hide Numbered, BigEndian, Pow256;
    NumberedCount(|blob| + 1);
    var seen := if |blob| < TAG_LEN then {} else Windows(blob, |blob| - TAG_LEN + 1);
    SmallerSet(seen, Numbered(|blob| + 1));
    var free :| free in Numbered(|blob| + 1) && free !in seen;
    NumberedMembers(|blob| + 1, free);
    t := free;
  }

  lemma ToyOpensGenuine(objs: Sealings, other: Tag, n: Bytes, a: Bytes, blob: Bytes, lo: nat, hi: nat)
    requires WellFormed(objs) && !Occurs(other, blob) && lo <= hi <= |blob|
    requires ToyOpen(objs, other, n, a, blob[lo..hi]).Some?
    ensures Genuine(objs, n, a, ToyOpen(objs, other, n, a, blob[lo..hi]).value)
  {
    hide Genuine;
    var c := blob[lo..hi];
    SliceOfSlice(blob, lo, hi, |c| - TAG_LEN, |c|);
    assert c[|c| - TAG_LEN..] == Window(blob, hi - TAG_LEN);
  }

  /** No stretch of the blob is a forgery if the other tag does not occur in it. */
  lemma ToyIsUnforged(objs: Sealings, other: Tag, blob: Bytes)
    requires WellFormed(objs) && !Occurs(other, blob)
    ensures Unforged(Toy(objs, other), objs, blob)
  {
    hide Genuine, ToyOpen, ToySeal, WellFormed, Occurs;
    var aead := Toy(objs, other);
    forall lo: nat, hi: nat, n, a | lo <= hi <= |blob| && aead.open(n, a, blob[lo..hi]).Some?
      ensures Genuine(objs, n, a, aead.open(n, a, blob[lo..hi]).value)
    {
      ToyOpensGenuine(objs, other, n, a, blob, lo, hi);
    }
  }

  /** How the objects' own frames are sealed. */
  lemma ToyFrame(objs: Sealings, other: Tag, b: Bytes, i: nat)
    requires WellFormed(objs) && b in objs && i < FrameCount(objs[b].frameSize, |objs[b].plain|)
    ensures
      var p := FrameAt(objs[b].frameSize, objs[b].plain, i);
      SealFrame(Toy(objs, other), b, i, p) == p + ZERO_TAG
  {
    hide FrameNonce, FrameAad, FrameAt, FrameCount;
    assert Genuine(objs, FrameNonce(b, i), FrameAad(i), FrameAt(objs[b].frameSize, objs[b].plain, i));
  }

  // --- a witness ---

  const ZERO_BASE: Bytes := [0, 0, 0, 0, 0, 0, 0, 0, 0, 0, 0, 0]

  /** One object: the bytes 7, 8 and 9, sealed with frames of two bytes. */
  const TWO_FRAMES: Sealings := map[ZERO_BASE := Obj(2, [7, 8, 9])]

  lemma TwoFrames()
    ensures WellFormed(TWO_FRAMES) && ZERO_BASE in TWO_FRAMES && |ZERO_BASE| == NONCE_LEN
    ensures TWO_FRAMES[ZERO_BASE] == Obj(2, [7, 8, 9]) && FrameCount(2, 3) == 2
    ensures FrameAt(2, [7, 8, 9], 0) == [7, 8] && FrameAt(2, [7, 8, 9], 1) == [9]
  {
    var plain: Bytes := [7, 8, 9];
    assert plain[..2] == [7, 8] && plain[2..] == [9];
    assert FrameCount(2, 1) == 1;
    assert FrameAt(2, [9], 0) == [9];
  }

  /** The body of its blob. */
  const TWO_SEALED: Bytes := [7, 8] + ZERO_TAG + ([9] + ZERO_TAG)

  lemma ToyBody(other: Tag)
    ensures Frames(Cipher(Toy(TWO_FRAMES, other), 2), ZERO_BASE, 0, [7, 8, 9]) == TWO_SEALED
  {
    var c := Cipher(Toy(TWO_FRAMES, other), 2);
    TwoFrames();
    ToyFrame(TWO_FRAMES, other, ZERO_BASE, 0);
    ToyFrame(TWO_FRAMES, other, ZERO_BASE, 1);
    hide Toy, SealFrame;
    var plain: Bytes := [7, 8, 9];
    assert plain[..2] == [7, 8] && plain[2..] == [9];
    assert Frames(c, ZERO_BASE, 1, [9]) == SealFrame(c.aead, ZERO_BASE, 1, [9]);
  }

  /** All hypotheses together, with a plaintext released to its end. */
  lemma WitnessReleased() returns (aead: Aead, objs: Sealings, blob: Bytes)
    ensures aead.Correct() && WellFormed(objs) && Unforged(aead, objs, blob)
    ensures HeaderErr(blob, CleanEnd) == NoErr && HeaderBase(blob) in objs
    ensures OpenBlob(aead, blob, CleanEnd).stop == Eof
    ensures OpenBlob(aead, blob, CleanEnd).plain == objs[HeaderBase(blob)].plain == [7, 8, 9]
  {
    hide Toy, Frames, Header, OpenBlob, HeaderErr, HeaderBase, HeaderFrameSize, Unforged, Aead.Correct, WellFormed,
      Occurs, TWO_FRAMES;
    TwoFrames();
    objs := TWO_FRAMES;
    blob := Header(ZERO_BASE, 2) + TWO_SEALED;
    var other := FreshTag(blob);
    aead := Toy(objs, other);
    var c := Cipher(aead, 2);
    var plain: Bytes := [7, 8, 9];
    ToyIsCorrect(objs, other);
    ToyBody(other);
    ToyIsUnforged(objs, other, blob);
    OpenBlobOfSealed(c, ZERO_BASE, plain);
    HeaderRoundTrip(ZERO_BASE, 2, TWO_SEALED, CleanEnd);
  }
}
