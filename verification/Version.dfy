// Versions: ordering, printing and parsing.
module Versions {
  import opened Wrappers

  newtype UInt16 = x: int | 0 <= x < 0x1_0000

  datatype Version = Version(major: UInt8, minor: UInt8, patch: UInt16)

  // ---------- Order ----------

  /** The derived ordering: major, then minor, then patch. */
  predicate Newer(a: Version, b: Version) {
    a.major > b.major || (a.major == b.major && (a.minor > b.minor || (a.minor == b.minor && a.patch > b.patch)))
  }

  /** A version as one number. */
  function Ordinal(v: Version): nat {
    (v.major as nat * 0x100 + v.minor as nat) * 0x1_0000 + v.patch as nat
  }

  /** The ordering is that of the numbers, so it is total. */
  lemma NewerIsNumeric(a: Version, b: Version)
    ensures Newer(a, b) <==> Ordinal(a) > Ordinal(b)
    ensures a == b <==> Ordinal(a) == Ordinal(b)
    ensures Ordinal(a) == a.major as nat * 0x1_00_0000 + a.minor as nat * 0x1_0000 + a.patch as nat
  {
    var x, y := a.major as nat * 0x100 + a.minor as nat, b.major as nat * 0x100 + b.minor as nat;
    assert x > y <==> a.major > b.major || (a.major == b.major && a.minor > b.minor);
  }

  // ---------- Decimal numerals ----------

  predicate IsDigit(c: char) {
    '0' <= c <= '9'
  }

  function DigitOf(c: char): (d: nat)
    requires IsDigit(c)
    ensures d < 10
  {
    c as nat - '0' as nat
  }

  function CharOf(d: nat): (c: char)
    requires d < 10
    ensures IsDigit(c) && DigitOf(c) == d
  {
    (d + '0' as nat) as char
  }

  predicate AllDigits(s: string) {
    forall i :: 0 <= i < |s| ==> IsDigit(s[i])
  }

  function Decimal(n: nat): (s: string)
    ensures s != "" && AllDigits(s)
  {
    if n < 10 then [CharOf(n)] else Decimal(n / 10) + [CharOf(n % 10)]
  }

  function ValueOf(s: string): nat
    requires AllDigits(s)
  {
    if s == "" then 0 else ValueOf(s[..|s| - 1]) * 10 + DigitOf(s[|s| - 1])
  }

  /** How an unsigned integer is read: an optional plus sign, then one or more digits, no larger than `max`. */
  function ParseUnsigned(s: string, max: nat): (n: Option<nat>)
    ensures n.Some? ==> n.value <= max
  {
    var digits := if s != "" && s[0] == '+' then s[1..] else s;
    if digits == "" || !AllDigits(digits) || ValueOf(digits) > max then None else Some(ValueOf(digits))
  }

  function Zeros(k: nat): (s: string)
    ensures |s| == k && AllDigits(s) && forall i :: 0 <= i < k ==> s[i] == '0'
  {
    if k == 0 then "" else Zeros(k - 1) + "0"
  }

  /** The numerals of `n`: its decimal digits after any number of zeros and an optional plus sign. */
  ghost predicate IsNumeral(s: string, n: nat) {
    exists k: nat :: s == Zeros(k) + Decimal(n) || s == "+" + (Zeros(k) + Decimal(n))
  }

  lemma {:induction false} ValueOfDecimal(n: nat)
    ensures ValueOf(Decimal(n)) == n
  {
    if n >= 10 {
      var s := Decimal(n);
      ValueOfDecimal(n / 10);
      assert s[..|s| - 1] == Decimal(n / 10) && s[|s| - 1] == CharOf(n % 10);
    }
  }

  lemma {:induction false} ValueOfPadded(k: nat, t: string)
    requires AllDigits(t)
    ensures AllDigits(Zeros(k) + t) && ValueOf(Zeros(k) + t) == ValueOf(t)
  {
    var s := Zeros(k) + t;
    if t != "" {
      assert s[..|s| - 1] == Zeros(k) + t[..|t| - 1];
      ValueOfPadded(k, t[..|t| - 1]);
    } else if k > 0 {
      assert s[..|s| - 1] == Zeros(k - 1) + "";
      ValueOfPadded(k - 1, "");
    }
  }

  lemma DecimalSnoc(n: nat, d: nat)
    requires n > 0 && d < 10
    ensures Decimal(10 * n + d) == Decimal(n) + [CharOf(d)]
  {
  }

  lemma ShortNumerals(d: nat)
    requires d < 10
    ensures Decimal(d) == [CharOf(d)] && Zeros(0) + Decimal(d) == [CharOf(d)]
  {
  }

  lemma ZerosSnoc(k: nat)
    ensures Zeros(k + 1) == Zeros(k) + "0" && CharOf(0) == '0'
  {
  }

  /** The decimal digits of a number, most significant first and without leading zeros. */
  lemma DecimalIs(n: nat, d: nat)
    requires d < 10
    ensures Decimal(d) == ["0123456789"[d]]
    ensures n > 0 ==> Decimal(10 * n + d) == Decimal(n) + ["0123456789"[d]]
    ensures forall c :: IsDigit(c) <==> c in "0123456789"
  {
    hide Decimal;
    ShortNumerals(d);
    if n > 0 { DecimalSnoc(n, d); }
    forall c ensures IsDigit(c) <==> c in "0123456789" {
      if IsDigit(c) { assert "0123456789"[c as nat - '0' as nat] == c; }
    }
  }

  /** Every string of digits is the numeral of its value after some zeros. */
  lemma {:induction false} DigitsArePadded(s: string) returns (k: nat)
    requires s != "" && AllDigits(s)
    ensures s == Zeros(k) + Decimal(ValueOf(s))
  {
    hide Decimal, Zeros;
    var front, d := s[..|s| - 1], DigitOf(s[|s| - 1]);
    assert s == front + [CharOf(d)];
    assert ValueOf(s) == ValueOf(front) * 10 + d;
    ShortNumerals(d);
    if front == "" {
      k := 0;
    } else {
      k := DigitsArePadded(front);
      ZerosSnoc(k);
      if ValueOf(front) == 0 {
        ShortNumerals(0);
        k := k + 1;
      } else {
        DecimalSnoc(ValueOf(front), d);
      }
    }
  }

  lemma NumeralIsRead(s: string, max: nat, n: nat, k: nat)
    requires n <= max && (s == Zeros(k) + Decimal(n) || s == "+" + (Zeros(k) + Decimal(n)))
    ensures ParseUnsigned(s, max) == Some(n)
  {
    var t := Zeros(k) + Decimal(n);
    ValueOfDecimal(n);
    ValueOfPadded(k, Decimal(n));
    assert IsDigit(t[0]);
    assert ("+" + t)[1..] == t;
  }

  /** Exactly the numerals of `n` are read as `n`, when it fits. */
  lemma ParseUnsignedIff(s: string, max: nat, n: nat)
    ensures ParseUnsigned(s, max) == Some(n) <==> n <= max && IsNumeral(s, n)
  {
    if ParseUnsigned(s, max) == Some(n) {
      var digits := if s != "" && s[0] == '+' then s[1..] else s;
      var k := DigitsArePadded(digits);
      assert s == digits || s == "+" + digits;
    }
    if n <= max && IsNumeral(s, n) {
      var k: nat :| s == Zeros(k) + Decimal(n) || s == "+" + (Zeros(k) + Decimal(n));
      NumeralIsRead(s, max, n, k);
    }
  }

  // ---------- Printing and parsing ----------

  function Print(v: Version): string {
    Decimal(v.major as nat) + "." + Decimal(v.minor as nat) + "." + Decimal(v.patch as nat)
  }

  /** The parts between dots; there is always at least one. */
  function Split(s: string): (parts: seq<string>)
    ensures parts != []
  {
    if s == "" then [""]
    else
      var rest := Split(s[1..]);
      if s[0] == '.' then [""] + rest else [[s[0]] + rest[0]] + rest[1..]
  }

  datatype ParseError = InvalidMajor | MissingMinor | InvalidMinor | MissingPatch | InvalidPatch | TooManyParts

  function Parse(s: string): Result<Version, ParseError> {
    var parts := Split(s);
    match ParseUnsigned(parts[0], 0xFF)
    case None => Err(InvalidMajor)
    case Some(major) =>
      if |parts| < 2 then Err(MissingMinor)
      else
        match ParseUnsigned(parts[1], 0xFF)
        case None => Err(InvalidMinor)
        case Some(minor) =>
          if |parts| < 3 then Err(MissingPatch)
          else
            match ParseUnsigned(parts[2], 0xFFFF)
            case None => Err(InvalidPatch)
            case Some(patch) =>
              if |parts| > 3 then Err(TooManyParts) else Ok(Version(major as UInt8, minor as UInt8, patch as UInt16))
  }

  function Join(parts: seq<string>): string
    requires parts != []
  {
    if |parts| == 1 then parts[0] else parts[0] + "." + Join(parts[1..])
  }

  predicate NoDots(parts: seq<string>) {
    forall i :: 0 <= i < |parts| ==> '.' !in parts[i]
  }

  /** Splitting and joining are inverse to each other. */
  lemma {:induction false} SplitIsJoin(s: string)
    ensures Join(Split(s)) == s && NoDots(Split(s))
  {
    if s != "" {
      SplitIsJoin(s[1..]);
      var rest := Split(s[1..]);
      if s[0] == '.' {
        assert ([""] + rest)[1..] == rest;
      } else {
        var parts := [[s[0]] + rest[0]] + rest[1..];
        if |rest| > 1 {
          assert parts[1..] == rest[1..];
          assert [s[0]] + rest[0] + "." + Join(rest[1..]) == [s[0]] + (rest[0] + "." + Join(rest[1..]));
        }
      }
    }
  }

  lemma {:induction false} SplitPart(part: string, rest: string)
    requires '.' !in part
    ensures Split(part + "." + rest) == [part] + Split(rest)
  {
    var s := part + "." + rest;
    if part == "" {
      assert s[1..] == rest;
    } else {
      assert part[0] in part && s[1..] == part[1..] + "." + rest;
      SplitPart(part[1..], rest);
      assert ([part[1..]] + Split(rest))[1..] == Split(rest) && [part[0]] + part[1..] == part;
    }
  }

  lemma {:induction false} SplitLast(part: string)
    requires '.' !in part
    ensures Split(part) == [part]
  {
    if part != "" {
      assert part[0] in part && [part[0]] + part[1..] == part;
      SplitLast(part[1..]);
    }
  }

  lemma SplitThree(a: string, b: string, c: string)
    requires '.' !in a && '.' !in b && '.' !in c
    ensures Split(a + "." + b + "." + c) == [a, b, c]
  {
    SplitPart(a, b + "." + c);
    SplitPart(b, c);
    SplitLast(c);
    assert a + "." + b + "." + c == a + "." + (b + "." + c);
  }

  lemma NumeralHasNoDot(s: string, n: nat)
    requires IsNumeral(s, n)
    ensures '.' !in s
  {
    var k: nat :| s == Zeros(k) + Decimal(n) || s == "+" + (Zeros(k) + Decimal(n));
    var t := Zeros(k) + Decimal(n);
    assert forall i :: 0 <= i < |t| ==> IsDigit(t[i]);
  }

  /** Exactly the texts of three numerals between two dots parse, each component in its range. */
  lemma ParseIff(s: string, v: Version)
    ensures Parse(s) == Ok(v) <==>
            exists a, b, c :: s == a + "." + b + "." + c &&
                              IsNumeral(a, v.major as nat) && IsNumeral(b, v.minor as nat) &&
                              IsNumeral(c, v.patch as nat)
  {
    hide ParseUnsigned, IsNumeral;
    if Parse(s) == Ok(v) {
      SplitIsJoin(s);
      var parts := Split(s);
      ParseUnsignedIff(parts[0], 0xFF, v.major as nat);
      ParseUnsignedIff(parts[1], 0xFF, v.minor as nat);
      ParseUnsignedIff(parts[2], 0xFFFF, v.patch as nat);
      assert parts[1..][1..] == [parts[2]] && Join(parts[1..]) == parts[1] + "." + Join([parts[2]]);
      assert s == parts[0] + "." + (parts[1] + "." + parts[2]);
      assert s == parts[0] + "." + parts[1] + "." + parts[2];
    }
    forall a, b, c | s == a + "." + b + "." + c &&
        IsNumeral(a, v.major as nat) && IsNumeral(b, v.minor as nat) && IsNumeral(c, v.patch as nat)
      ensures Parse(s) == Ok(v)
    {
      NumeralHasNoDot(a, v.major as nat);
      NumeralHasNoDot(b, v.minor as nat);
      NumeralHasNoDot(c, v.patch as nat);
      SplitThree(a, b, c);
      ParseUnsignedIff(a, 0xFF, v.major as nat);
      ParseUnsignedIff(b, 0xFF, v.minor as nat);
      ParseUnsignedIff(c, 0xFFFF, v.patch as nat);
    }
  }

  ghost predicate IsNumeralUpTo(s: string, max: nat) {
    exists n: nat :: n <= max && IsNumeral(s, n)
  }

  lemma NumeralUpToIff(s: string, max: nat)
    ensures IsNumeralUpTo(s, max) <==> ParseUnsigned(s, max).Some?
  {
    if ParseUnsigned(s, max).Some? { ParseUnsignedIff(s, max, ParseUnsigned(s, max).value); }
    forall n: nat | n <= max && IsNumeral(s, n) ensures ParseUnsigned(s, max).Some? {
      ParseUnsignedIff(s, max, n);
    }
  }

  lemma {:induction false} SplitOfJoin(parts: seq<string>)
    requires parts != [] && NoDots(parts)
    ensures Split(Join(parts)) == parts
  {
    if |parts| == 1 {
      SplitLast(parts[0]);
    } else {
      SplitOfJoin(parts[1..]);
      SplitPart(parts[0], Join(parts[1..]));
      assert [parts[0]] + parts[1..] == parts;
    }
  }

  /** Which of the six errors is reported: the parts between dots are judged from the left. */
  lemma ParseRefusals(parts: seq<string>)
    requires parts != [] && NoDots(parts)
    ensures var s, n := Join(parts), |parts|;
            var major := IsNumeralUpTo(parts[0], 255);
            var minor := major && n >= 2 && IsNumeralUpTo(parts[1], 255);
            var patch := minor && n >= 3 && IsNumeralUpTo(parts[2], 65535);
            && (Parse(s) == Err(InvalidMajor) <==> !major)
            && (Parse(s) == Err(MissingMinor) <==> major && n == 1)
            && (Parse(s) == Err(InvalidMinor) <==> major && n >= 2 && !minor)
            && (Parse(s) == Err(MissingPatch) <==> minor && n == 2)
            && (Parse(s) == Err(InvalidPatch) <==> minor && n >= 3 && !patch)
            && (Parse(s) == Err(TooManyParts) <==> patch && n >= 4)
  {
    hide ParseUnsigned, IsNumeralUpTo, Join;
    SplitOfJoin(parts);
    NumeralUpToIff(parts[0], 255);
    if |parts| >= 2 { NumeralUpToIff(parts[1], 255); }
    if |parts| >= 3 { NumeralUpToIff(parts[2], 65535); }
  }

  lemma DecimalIsNumeral(n: nat)
    ensures IsNumeral(Decimal(n), n)
  {
    assert Decimal(n) == Zeros(0) + Decimal(n);
  }

  /** Parsing what was printed gives the version back. */
  lemma RoundTrip(v: Version)
    ensures Parse(Print(v)) == Ok(v)
  {
    hide Parse, Decimal;
    DecimalIsNumeral(v.major as nat);
    DecimalIsNumeral(v.minor as nat);
    DecimalIsNumeral(v.patch as nat);
    ParseIff(Print(v), v);
  }

  lemma PrintIsInjective(v: Version, w: Version)
    requires Print(v) == Print(w)
    ensures v == w
  {
    hide Parse, Print;
    RoundTrip(v);
    RoundTrip(w);
  }
}
