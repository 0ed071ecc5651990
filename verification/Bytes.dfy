/** Bytes, the byte-order encodings of encoding/binary, and small shared datatypes. */
module Bytes {

  type Byte = bv8
  type Bytes = seq<Byte>

  datatype Option<+T> = None | Some(value: T)

  function Min(a: int, b: int): int {
    if a <= b then a else b
  }

  function Pow256(n: nat): nat {
    if n == 0 then 1 else 256 * Pow256(n - 1)
  }

  /** The `len` low bytes of n, most significant first. */
  function BigEndian(n: nat, len: nat): (s: Bytes)
    ensures |s| == len
  {
    if len == 0 then [] else BigEndian(n / 256, len - 1) + [(n % 256) as Byte]
  }

  function FromBigEndian(s: Bytes): nat {
    if s == [] then 0 else FromBigEndian(s[..|s| - 1]) * 256 + s[|s| - 1] as nat
  }

  lemma ByteRoundTrip(x: nat)
    requires x < 256
    ensures (x as Byte) as nat == x
  {
    assert x % 256 == x;
  }

  lemma FromBigEndianAppend(s: Bytes, b: Byte)
    ensures FromBigEndian(s + [b]) == FromBigEndian(s) * 256 + b as nat
  {
    assert (s + [b])[..|s|] == s;
  }

  /** What it says: every byte counts 256 times as much as the next one. */
  lemma {:induction false} FromBigEndianMeans(a: Bytes, b: Bytes)
    ensures FromBigEndian(a + b) == FromBigEndian(a) * Pow256(|b|) + FromBigEndian(b)
    ensures forall x: Byte :: FromBigEndian([x]) == x as nat
    decreases |b|
  {
    forall x: Byte
      ensures FromBigEndian([x]) == x as nat
    {
      assert [x][..0] == [];
    }
    if b == [] {
      assert a + b == a;
    } else {
      var n := |b| - 1;
      FromBigEndianMeans(a, b[..n]);
      assert (a + b)[..|a| + n] == a + b[..n] && (a + b)[|a| + n] == b[n];
      TimesOut(FromBigEndian(a), Pow256(n), FromBigEndian(b[..n]), b[n] as nat);
    }
  }

  lemma TimesOut(x: nat, p: nat, y: nat, z: nat)
    ensures (x * p + y) * 256 + z == x * (256 * p) + (y * 256 + z)
  {
  }

  /** Decoding undoes encoding for every number that fits. */
  lemma {:induction false} BigEndianRoundTrip(n: nat, len: nat)
    requires n < Pow256(len)
    ensures FromBigEndian(BigEndian(n, len)) == n
  {
    if len > 0 {
      BigEndianRoundTrip(n / 256, len - 1);
      ByteRoundTrip(n % 256);
      FromBigEndianAppend(BigEndian(n / 256, len - 1), (n % 256) as Byte);
    }
  }

  /** Two numbers that fit and encode alike are the same number. */
  lemma BigEndianInjective(m: nat, n: nat, len: nat)
    requires m < Pow256(len) && n < Pow256(len)
    requires BigEndian(m, len) == BigEndian(n, len)
    ensures m == n
  {
    BigEndianRoundTrip(m, len);
    BigEndianRoundTrip(n, len);
  }

  /** The bound of the fixed widths the format uses. */
  lemma FixedWidths()
    ensures Pow256(4) == 0x1_0000_0000
    ensures Pow256(8) == 0x1_0000_0000_0000_0000
  {
    assert Pow256(2) == 0x1_0000;
    assert Pow256(4) == 256 * (256 * Pow256(2));
    assert Pow256(6) == 256 * (256 * Pow256(4));
    assert Pow256(8) == 256 * (256 * Pow256(6));
  }

  lemma Assoc<T>(a: seq<T>, b: seq<T>, c: seq<T>)
    ensures a + (b + c) == (a + b) + c
  {
  }

  lemma SliceOfSlice<T>(s: seq<T>, a: nat, b: nat, lo: nat, hi: nat)
    requires a <= b <= |s| && lo <= hi <= b - a
    ensures s[a..b][lo..hi] == s[a + lo..a + hi]
  {
    assert forall k :: 0 <= k < hi - lo ==> s[a..b][lo..hi][k] == s[a..b][lo + k] == s[a + lo..a + hi][k];
  }

  lemma SliceOfDrop<T>(s: seq<T>, a: nat, lo: nat, hi: nat)
    requires a <= |s| && lo <= hi <= |s| - a
    ensures s[a..][lo..hi] == s[a + lo..a + hi]
  {
    assert forall k :: 0 <= k < hi - lo ==> s[a..][lo..hi][k] == s[a..][lo + k] == s[a + lo..a + hi][k];
  }

  function Sum(s: seq<nat>): nat {
    if s == [] then 0 else Sum(s[..|s| - 1]) + s[|s| - 1]
  }

  lemma SumAppend(s: seq<nat>, k: nat)
    requires k < |s|
    ensures Sum(s[..k + 1]) == Sum(s[..k]) + s[k]
  {
    assert s[..k + 1][..k] == s[..k];
  }
}
