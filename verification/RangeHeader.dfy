/** The Range header and the range GET built on it. */
module RangeHeader {
  import opened Bytes
  import opened FrameFormat
  import opened Text
  import opened Service
  import Meta = Metadata

  const PREFIX := "bytes="

  /** The bounds that two numbers select, either of which may be left out. */
  function Bounds(noLo: bool, noHi: bool, lo: Option<int>, hi: Option<int>, size: int): Option<(int, int)> {
    if noLo && noHi then None
    else if noLo then
      if hi.None? || hi.value <= 0 || size == 0 then None
      else
        var count := Min(hi.value, size);
        Some((size - count, size - 1))
    else if noHi then
      if lo.None? || lo.value < 0 || lo.value >= size then None
      else Some((lo.value, size - 1))
    else
      if lo.None? || hi.None? || lo.value < 0 || hi.value < lo.value || lo.value >= size then None
      else Some((lo.value, if hi.value >= size then size - 1 else hi.value))
  }

  /** parseRange on a specification split at its dash. */
  function Resolve(loStr: string, hiStr: string, size: int): Option<(int, int)> {
    Bounds(loStr == [], hiStr == [], ParseInt(loStr), ParseInt(hiStr), size)
  }

  /** parseRange: the inclusive bounds a single-range header selects from an object of that size. */
  function ParseRange(s: string, size: int): Option<(int, int)> {
    if !(PREFIX <= s) then None
    else
      var spec := s[|PREFIX|..];
      var dash := IndexByte(spec, '-');
      if ',' in spec || dash < 0 then None
      else
        Resolve(spec[..dash], spec[dash + 1..], size)
  }

  /** Whatever the header says, accepted bounds lie inside the object. */
  lemma AcceptedBoundsLieInside(s: string, size: nat)
    requires ParseRange(s, size).Some?
    ensures var (start, end) := ParseRange(s, size).value; 0 <= start <= end < size
  {
  }

  /** A byte range as section 14.1.2 of RFC 9110 has it: first-last, first-, or the last so many bytes. */
  datatype Spec = FromTo(first: nat, last: nat) | FromOn(first: nat) | Suffix(count: nat)

  function Print(spec: Spec): string {
    PREFIX +
    match spec
    case FromTo(first, last) => Decimal(first) + "-" + Decimal(last)
    case FromOn(first) => Decimal(first) + "-"
    case Suffix(count) => "-" + Decimal(count)
  }

  /** What section 14.1.2 of RFC 9110 selects: ends are clamped, and a range that selects nothing is refused. */
  function Selected(spec: Spec, size: nat): Option<(int, int)> {
    match spec
    case FromTo(first, last) =>
      if first > last || first >= size then None else Some((first, Min(last, size - 1)))
    case FromOn(first) => if first >= size then None else Some((first, size - 1))
    case Suffix(count) => if count == 0 || size == 0 then None else Some((Max0(size - count), size - 1))
  }

  function Max0(n: int): nat {
    if n < 0 then 0 else n
  }

  /** The largest number a specification mentions. */
  function Largest(spec: Spec): nat {
    match spec
    case FromTo(first, last) => if first <= last then last else first
    case FromOn(first) => first
    case Suffix(count) => count
  }

  lemma ParseOfPrinted(lo: string, hi: string, size: int)
    requires '-' !in lo && ',' !in lo && ',' !in hi
    ensures
      var s := PREFIX + (lo + "-" + hi);
      PREFIX <= s && s[|PREFIX|..] == lo + "-" + hi && ',' !in s[|PREFIX|..] &&
      IndexByte(s[|PREFIX|..], '-') == |lo| && s[|PREFIX|..][..|lo|] == lo && s[|PREFIX|..][|lo| + 1..] == hi
  {
    var s := PREFIX + (lo + "-" + hi);
    assert s[|PREFIX|..] == lo + "-" + hi;
    IndexOfFirst(lo, '-', hi);
  }

  lemma ParseOfParts(lo: string, hi: string, size: int)
    requires '-' !in lo && ',' !in lo && ',' !in hi
    ensures ParseRange(PREFIX + (lo + "-" + hi), size) == Resolve(lo, hi, size)
  {
    hide Resolve;
    ParseOfPrinted(lo, hi, size);
  }

  /** Parsing a printed specification, for all numbers: as the RFC selects, except that numbers stop at int64. */
  lemma ParsePrinted(spec: Spec, size: nat)
    ensures ParseRange(Print(spec), size) ==
            if Largest(spec) >= 0x8000_0000_0000_0000 then None else Selected(spec, size)
  {
    hide ParseRange;
    hide ParseInt;
    hide Decimal;
    match spec
    case FromTo(first, last) =>
      ParseDecimal(first);
      ParseDecimal(last);
      ParseOfParts(Decimal(first), Decimal(last), size);
    case FromOn(first) =>
      ParseDecimal(first);
      ParseOfParts(Decimal(first), "", size);
      assert Decimal(first) + "-" + "" == Decimal(first) + "-";
    case Suffix(count) =>
      ParseDecimal(count);
      ParseOfParts("", Decimal(count), size);
      assert "" + "-" + Decimal(count) == "-" + Decimal(count);
  }

  /** For a printed specification, agreement with the RFC is a matter of the numbers alone. */
  lemma PrintedAgreesIffNumbersFit(spec: Spec, size: nat)
    ensures ParseRange(Print(spec), size) == Selected(spec, size) <==>
            Largest(spec) < 0x8000_0000_0000_0000 || Selected(spec, size).None?
  {
    hide ParseRange;
    hide Print;
    ParsePrinted(spec, size);
  }

  /** An instance: the first byte and all after it, with a last position beyond int64, is refused. */
  lemma HugeLastPositionIsRefused(size: nat)
    requires size > 0
    ensures Selected(FromTo(0, 0x8000_0000_0000_0000), size) == Some((0, Min(0x8000_0000_0000_0000, size - 1)))
    ensures ParseRange(Print(FromTo(0, 0x8000_0000_0000_0000)), size) == None
  {
    hide ParseRange;
    hide Print;
    ParsePrinted(FromTo(0, 0x8000_0000_0000_0000), size);
  }

  // --- header texts of any kind ---

  /** A number as section 14.1.2 of RFC 9110 writes it: digits, leading zeros allowed, and nothing else. */
  function RfcNumber(s: string): Option<nat> {
    if s != [] && AllDigits(s) then Some(Value(s)) else None
  }

  function RfcSpec(lo: string, hi: string): Option<Spec> {
    var a, b := RfcNumber(lo), RfcNumber(hi);
    if lo == [] then if b.None? then None else Some(Suffix(b.value))
    else if hi == [] then if a.None? then None else Some(FromOn(a.value))
    else if a.None? || b.None? then None
    else Some(FromTo(a.value, b.value))
  }

  /**
   * The two sides of the dash in a header with one range: the unit's name, in any case, an equals sign, and
   * the range. None for anything else, lists of ranges included.
   */
  function Sides(s: string): Option<(string, string)> {
    if |s| < |PREFIX| || Lower(s[..|PREFIX|]) != PREFIX then None
    else
      var spec := s[|PREFIX|..];
      var dash := IndexByte(spec, '-');
      if ',' in spec || dash < 0 then None else Some((spec[..dash], spec[dash + 1..]))
  }

  /** What the RFC selects by a header with one range. */
  function RfcRange(s: string, size: nat): Option<(int, int)> {
    var sides := Sides(s);
    if sides.None? then None
    else
      var spec := RfcSpec(sides.value.0, sides.value.1);
      if spec.None? then None else Selected(spec.value, size)
  }

  /** What the header would select if numbers could have a sign, as strconv reads them, and any size. */
  function LooseRange(s: string, size: nat): Option<(int, int)> {
    var sides := Sides(s);
    if sides.None? then None
    else
      var (lo, hi) := sides.value;
      Bounds(lo == [], hi == [], SignedValue(lo), SignedValue(hi), size)
  }

  predicate Fits(s: string) {
    var v := SignedValue(s);
    v.Some? ==> -0x8000_0000_0000_0000 <= v.value < 0x8000_0000_0000_0000
  }

  /** Every number of the header fits an int64. */
  predicate NumbersFit(s: string) {
    var sides := Sides(s);
    sides.Some? ==> Fits(sides.value.0) && Fits(sides.value.1)
  }

  /** Some number of the header has a sign. */
  predicate UsesSign(s: string) {
    var sides := Sides(s);
    sides.Some? && (HasSign(sides.value.0) || HasSign(sides.value.1))
  }

  lemma LowerOfPrefix()
    ensures Lower(PREFIX) == PREFIX
  {
    assert Lower("") == "";
    assert Lower("=") == "=";
    assert Lower("s=") == "s=";
    assert Lower("es=") == "es=";
    assert Lower("tes=") == "tes=";
    assert Lower("ytes=") == "ytes=";
  }

  lemma UnsignedNumbersAgree(s: string)
    ensures !HasSign(s) ==> SignedValue(s) == (if RfcNumber(s).None? then None else Some(RfcNumber(s).value))
    ensures HasSign(s) ==> RfcNumber(s).None?
  {
    if HasSign(s) {
      assert !IsDigit(s[0]);
    }
  }

  lemma RfcIsUnsigned(s: string, size: nat)
    ensures RfcRange(s, size) == if UsesSign(s) then None else LooseRange(s, size)
  {
    hide SignedValue, RfcNumber, Sides;
    var sides := Sides(s);
    if sides.Some? {
      UnsignedNumbersAgree(sides.value.0);
      UnsignedNumbersAgree(sides.value.1);
      EmptyIsNoNumber();
    }
  }

  lemma EmptyIsNoNumber()
    ensures RfcNumber([]).None? && SignedValue([]).None? && ParseInt([]).None?
  {
  }

  lemma SidesOfPrefixed(s: string)
    requires PREFIX <= s
    ensures
      var spec := s[|PREFIX|..];
      var dash := IndexByte(spec, '-');
      Sides(s) == if ',' in spec || dash < 0 then None else Some((spec[..dash], spec[dash + 1..]))
  {
    LowerOfPrefix();
    hide Lower;
    assert s[..|PREFIX|] == PREFIX;
  }

  lemma ResolvedIsLoose(lo: string, hi: string, size: nat)
    ensures Resolve(lo, hi, size) ==
            if Fits(lo) && Fits(hi) then Bounds(lo == [], hi == [], SignedValue(lo), SignedValue(hi), size) else None
  {
    EmptyIsNoNumber();
    hide SignedValue;
  }

  lemma ParsedIsLoose(s: string, size: nat)
    ensures ParseRange(s, size) == if PREFIX <= s && NumbersFit(s) then LooseRange(s, size) else None
  {
    hide Sides, Resolve, Bounds, SignedValue, Fits;
    if PREFIX <= s {
      SidesOfPrefixed(s);
      if Sides(s).Some? {
        ResolvedIsLoose(Sides(s).value.0, Sides(s).value.1, size);
      }
    }
  }

  /**
   * For every header text: parseRange agrees with the RFC exactly when the header selects nothing even as
   * strconv reads numbers, or when these hold together: the unit is in lower case and the numbers fit an
   * int64, and no number has a sign. (When neither holds, both refuse.)
   */
  lemma AgreesWithRfc(s: string, size: nat)
    ensures ParseRange(s, size) == RfcRange(s, size) <==>
            LooseRange(s, size).None? || ((PREFIX <= s && NumbersFit(s)) <==> !UsesSign(s))
  {
    hide *;
    ParsedIsLoose(s, size);
    RfcIsUnsigned(s, size);
  }

  /** Instances: a signed number is accepted, a number beyond int64 and a unit in upper case are refused. */
  lemma Disagreements()
    ensures ParseRange("bytes=+0-4", 10) == Some((0, 4)) && RfcRange("bytes=+0-4", 10) == None
    ensures ParseRange("BYTES=0-4", 10) == None && RfcRange("BYTES=0-4", 10) == Some((0, 4))
  {
    hide *;
    SignedDigit();
    UpperUnit();
    LowerOfPrefix();
    NoPunctuation();
    assert "bytes=" + ("+0" + "-" + "4") == "bytes=+0-4";
    assert "BYTES=" + ("0" + "-" + "4") == "BYTES=0-4";
    SplitAtDash("bytes=", "+0", "4");
    SplitAtDash("BYTES=", "0", "4");
    RfcRangeOf("bytes=+0-4", "+0", "4", 10);
    RfcRangeOf("BYTES=0-4", "0", "4", 10);
  }

  lemma NoPunctuation()
    ensures |PREFIX| == 6 && "BYTES=" != PREFIX && "bytes=" == PREFIX
    ensures '-' !in "+0" && ',' !in "+0" && '-' !in "0" && ',' !in "0" && ',' !in "4"
  {
    assert "BYTES="[0] != PREFIX[0];
  }

  lemma SignedDigit()
    ensures Resolve("+0", "4", 10) == Some((0, 4)) && Resolve("0", "4", 10) == Some((0, 4))
    ensures RfcSpec("+0", "4") == None && RfcSpec("0", "4") == Some(FromTo(0, 4))
  {
    DigitAlone('0');
    DigitAlone('4');
    assert "+0"[1..] == "0" && !IsDigit("+0"[0]);
    hide Value, AllDigits;
  }

  lemma RfcRangeOf(s: string, lo: string, hi: string, size: nat)
    requires Sides(s) == Some((lo, hi))
    ensures RfcRange(s, size) ==
            var spec := RfcSpec(lo, hi);
            if spec.None? then None else Selected(spec.value, size)
    ensures Selected(FromTo(0, 4), 10) == Some((0, 4))
  {
    hide Sides, RfcSpec;
  }

  lemma DigitAlone(c: char)
    requires IsDigit(c)
    ensures AllDigits([c]) && Value([c]) == DigitValue(c)
  {
    assert [c][..0] == [];
  }

  lemma UpperUnit()
    ensures Lower("BYTES=") == PREFIX
  {
    assert Lower("") == "";
    assert Lower("=") == "=";
    assert Lower("S=") == "s=";
    assert Lower("ES=") == "es=";
    assert Lower("TES=") == "tes=";
    assert Lower("YTES=") == "ytes=";
  }

  lemma SplitAtDash(unit: string, lo: string, hi: string)
    requires |unit| == |PREFIX| && '-' !in lo && ',' !in lo && ',' !in hi && Lower(unit) == PREFIX
    ensures Sides(unit + (lo + "-" + hi)) == Some((lo, hi))
    ensures ParseRange(unit + (lo + "-" + hi), 10) == if unit == PREFIX then Resolve(lo, hi, 10) else None
  {
    hide Resolve, Lower;
    var s := unit + (lo + "-" + hi);
    assert s[..|PREFIX|] == unit && s[|PREFIX|..] == lo + "-" + hi;
    IndexOfFirst(lo, '-', hi);
    var spec := lo + "-" + hi;
    assert spec[..|lo|] == lo && spec[|lo| + 1..] == hi;
  }

  /** getObjectRange: looks the size up, resolves the header against it and fetches the range. */
  method GetObjectRange(s: Service, bucket: string, key: string, header: string, lost: nat, calm: bool)
    returns (err: S3Err, row: Option<Meta.ObjectRow>, body: Bytes)
    requires s.Valid()
    modifies s`cipherCache
    ensures s.Valid()
    ensures err == Done ==>
              && (bucket, key) in s.contents
              && var plain := s.contents[(bucket, key)];
                 var range := ParseRange(header, |plain|);
                 && range.Some? && 0 <= range.value.0 <= range.value.1 < |plain|
                 && body == plain[range.value.0..range.value.1 + 1]
                 && |body| == range.value.1 - range.value.0 + 1
    ensures err == Done ==> (bucket, key) in s.meta.objects && row == Some(s.meta.objects[(bucket, key)])
    ensures err == NoSuchKey ==> (bucket, key) !in s.contents
    ensures err != Done ==> body == []
    ensures calm || err == Done ==>
              err == if (bucket, key) !in s.contents then NoSuchKey
                     else if ParseRange(header, |s.contents[(bucket, key)]|).None? then InvalidRange
                     else if s.frameSize > MAX_FRAME_SIZE then InternalError else Done
  {
    hide Service.Valid;
    hide ParseRange;
    s.Readable((bucket, key));
    body, row := [], None;
    var m, found := s.meta.GetObject((bucket, key), calm);
    if m != Meta.MetaOk {
      return if m == Meta.NotFound then NoSuchKey else InternalError, None, [];
    }
    var range := ParseRange(header, found.value.size);
    if range.None? {
      return InvalidRange, None, [];
    }
    AcceptedBoundsLieInside(header, found.value.size);
    err, row, body := s.GetObjectRange(bucket, key, range.value.0, range.value.1, lost, calm);
  }
}
