/** Character-level helpers shared by the server and the browser client:
    whitespace trimming, splitting on one separator character, and
    decimal integer printing and parsing as JavaScript's parseInt and
    the validator library's isInt see them. */
module Text {

  import opened Base

  /** JavaScript's white space and line terminators, the set `\s`, `trim`
      and `parseInt` skip: tab, line feed, vertical tab, form feed, carriage
      return, the space separators of Unicode category Zs, the line and
      paragraph separators, and the byte-order mark. */
  predicate IsSpace(c: char) {
    || c == '\t' || c == '\n' || c == '\U{000B}' || c == '\U{000C}' || c == '\r'
    || c == ' ' || c == '\U{00A0}' || c == '\U{1680}' || '\U{2000}' <= c <= '\U{200A}'
    || c == '\U{2028}' || c == '\U{2029}' || c == '\U{202F}' || c == '\U{205F}'
    || c == '\U{3000}' || c == '\U{FEFF}'
  }

  predicate IsDigit(c: char) {
    '0' <= c <= '9'
  }

  predicate AllDigits(s: string) {
    forall i :: 0 <= i < |s| ==> IsDigit(s[i])
  }

  // ---------------------------------------------------------------- trimming

  /** Drops leading whitespace: the result is a suffix of `s` that starts with a non-space. */
  function TrimStart(s: string): (r: string)
    ensures |r| <= |s| && r == s[|s| - |r|..]
    ensures |r| > 0 ==> !IsSpace(r[0])
    ensures forall i :: 0 <= i < |s| - |r| ==> IsSpace(s[i])
  {
    if |s| > 0 && IsSpace(s[0]) then TrimStart(s[1..]) else s
  }

  /** Drops trailing whitespace: the result is a prefix of `s` that ends with a non-space. */
  function TrimEnd(s: string): (r: string)
    ensures |r| <= |s| && r == s[..|r|]
    ensures |r| > 0 ==> !IsSpace(r[|r| - 1])
    ensures forall i :: |r| <= i < |s| ==> IsSpace(s[i])
  {
    if |s| > 0 && IsSpace(s[|s| - 1]) then TrimEnd(s[..|s| - 1]) else s
  }

  /** String.prototype.trim: white space dropped at both ends, so what is
      left neither starts nor ends with it. */
  function Trim(s: string): (r: string)
    ensures |r| <= |s|
    ensures |r| > 0 ==> !IsSpace(r[0]) && !IsSpace(r[|r| - 1])
  {
    var t := TrimStart(s);
    var r := TrimEnd(t);
    assert |r| > 0 ==> r[0] == t[0];
    r
  }

  /** The trimmed string starts where the leading whitespace ends. */
  lemma TrimIsSlice(s: string)
    ensures var a := |s| - |TrimStart(s)|;
            && a + |Trim(s)| <= |s|
            && Trim(s) == s[a..a + |Trim(s)|]
  {
  }

  /** Whitespace at the tail of a suffix is whitespace at the tail of the whole. */
  lemma SpacesShift(s: string, a: nat, m: nat)
    requires a <= |s| && m <= |s| - a
    requires forall j :: m <= j < |s| - a ==> IsSpace(s[a..][j])
    ensures forall i :: a + m <= i < |s| ==> IsSpace(s[i])
  {
    forall i | a + m <= i < |s| ensures IsSpace(s[i]) {
      assert s[a..][i - a] == s[i];
    }
  }

  /** Everything after the trimmed string is whitespace. */
  lemma TrimCutsTrailingSpace(s: string)
    ensures var a := |s| - |TrimStart(s)|;
            a + |Trim(s)| <= |s| && forall i :: a + |Trim(s)| <= i < |s| ==> IsSpace(s[i])
  {
    var t := TrimStart(s);
    var a := |s| - |t|;
    assert t == s[a..];
    SpacesShift(s, a, |TrimEnd(t)|);
  }

  /** A non-empty trimmed string neither starts nor ends with whitespace. */
  lemma TrimEdgesNotSpace(s: string)
    ensures |Trim(s)| > 0 ==> !IsSpace(Trim(s)[0]) && !IsSpace(Trim(s)[|Trim(s)| - 1])
  {
    if |Trim(s)| > 0 {
      assert Trim(s)[0] == TrimStart(s)[0];
    }
  }

  /** The trimmed string is a contiguous piece of `s` with only whitespace cut
      away on either side, and it neither starts nor ends with whitespace. */
  lemma TrimIsInfix(s: string)
    ensures exists a, b :: (0 <= a <= b <= |s| && Trim(s) == s[a..b]
                            && (forall i :: 0 <= i < a ==> IsSpace(s[i]))
                            && (forall i :: b <= i < |s| ==> IsSpace(s[i])))
    ensures |Trim(s)| > 0 ==> !IsSpace(Trim(s)[0]) && !IsSpace(Trim(s)[|Trim(s)| - 1])
  {
    TrimIsSlice(s);
    TrimCutsTrailingSpace(s);
    TrimEdgesNotSpace(s);
    var a := |s| - |TrimStart(s)|;
    var b := a + |Trim(s)|;
    assert forall i :: 0 <= i < a ==> IsSpace(s[i]);
    assert 0 <= a <= b <= |s| && Trim(s) == s[a..b]
           && (forall i :: 0 <= i < a ==> IsSpace(s[i]))
           && (forall i :: b <= i < |s| ==> IsSpace(s[i]));
  }

  /** The trimmed string is empty exactly when `s` is all whitespace. */
  lemma TrimEmptyIff(s: string)
    ensures Trim(s) == "" <==> forall i :: 0 <= i < |s| ==> IsSpace(s[i])
  {
    var t := TrimStart(s);
    if Trim(s) == "" {
      assert |t| == 0;
    } else if |t| > 0 {
      assert !IsSpace(s[|s| - |t|]);
    }
  }

  /** Trimming twice is trimming once. */
  lemma TrimIdempotent(s: string)
    ensures Trim(Trim(s)) == Trim(s)
  {
    var r := Trim(s);
    if |r| > 0 {
      assert !IsSpace(r[0]) by { assert r[0] == TrimStart(s)[0]; }
      assert TrimStart(r) == r;
      assert TrimEnd(r) == r;
    }
  }

  // --------------------------------------------------------------- splitting

  /** The pieces joined back together with `sep` between neighbours. */
  function Join(parts: seq<string>, sep: char): string
    requires |parts| >= 1
  {
    if |parts| == 1 then parts[0] else parts[0] + [sep] + Join(parts[1..], sep)
  }

  /** String.prototype.split with a one-character separator: the maximal
      separator-free pieces, empty pieces included, which rejoin to `s`. */
  function Split(s: string, sep: char): (r: seq<string>)
    ensures |r| >= 1
    ensures forall i :: 0 <= i < |r| ==> sep !in r[i]
    ensures Join(r, sep) == s
  {
    if |s| == 0 then [""]
    else
      var rest := Split(s[1..], sep);
      if s[0] == sep then
        assert Join([""] + rest, sep) == [sep] + Join(rest, sep) by {
          assert ([""] + rest)[1..] == rest;
        }
        assert s == [sep] + s[1..];
        [""] + rest
      else
        var r := [[s[0]] + rest[0]] + rest[1..];
        assert r[1..] == rest[1..];
        assert s == [s[0]] + s[1..];
        r
  }

  /** A separator-free string splits into itself alone. */
  lemma {:induction false} SplitNoSep(a: string, sep: char)
    requires sep !in a
    ensures Split(a, sep) == [a]
    decreases |a|
  {
    if |a| > 0 {
      assert sep !in a[1..] by {
        forall i | 0 <= i < |a[1..]| ensures a[1..][i] != sep { assert a[1..][i] == a[i + 1]; }
      }
      SplitNoSep(a[1..], sep);
      assert [a[0]] + a[1..] == a;
    }
  }

  /** Splitting at the first separator peels off the piece before it. */
  lemma {:induction false} SplitFirst(a: string, sep: char, b: string)
    requires sep !in a
    ensures Split(a + [sep] + b, sep) == [a] + Split(b, sep)
    decreases |a|
  {
    var s := a + [sep] + b;
    if |a| == 0 {
      assert s[1..] == b;
    } else {
      assert s[1..] == a[1..] + [sep] + b;
      assert sep !in a[1..] by {
        forall i | 0 <= i < |a[1..]| ensures a[1..][i] != sep { assert a[1..][i] == a[i + 1]; }
      }
      SplitFirst(a[1..], sep, b);
      assert [a[0]] + a[1..] == a;
    }
  }

  /** Split inverts Join on separator-free pieces. */
  lemma {:induction false} SplitJoin(parts: seq<string>, sep: char)
    requires |parts| >= 1
    requires forall i :: 0 <= i < |parts| ==> sep !in parts[i]
    ensures Split(Join(parts, sep), sep) == parts
    decreases |parts|
  {
    if |parts| == 1 {
      SplitNoSep(parts[0], sep);
    } else {
      SplitJoin(parts[1..], sep);
      SplitFirst(parts[0], sep, Join(parts[1..], sep));
      assert [parts[0]] + parts[1..] == parts;
    }
  }

  // ---------------------------------------------------------------- decimals

  function DigitValue(c: char): nat
    requires IsDigit(c)
  {
    (c as int) - ('0' as int)
  }

  function DigitChar(d: nat): (c: char)
    requires d < 10
    ensures IsDigit(c) && DigitValue(c) == d
  {
    ('0' as int + d) as char
  }

  /** The value of a string of decimal digits, most significant first. */
  function DigitsValue(s: string): nat
    requires AllDigits(s)
  {
    if |s| == 0 then 0 else DigitsValue(s[..|s| - 1]) * 10 + DigitValue(s[|s| - 1])
  }

  /** String(n) for a non-negative integer: digits only, no leading zero. */
  function ToDecimal(n: nat): (r: string)
    ensures |r| >= 1 && AllDigits(r)
    ensures |r| > 1 ==> r[0] != '0'
  {
    if n < 10 then [DigitChar(n)] else ToDecimal(n / 10) + [DigitChar(n % 10)]
  }

  /** Printing a number in decimal and reading it back gives the number. */
  lemma {:induction false} DecimalRoundTrip(n: nat)
    ensures DigitsValue(ToDecimal(n)) == n
  {
    if n >= 10 {
      DecimalRoundTrip(n / 10);
      var r := ToDecimal(n);
      assert r[..|r| - 1] == ToDecimal(n / 10);
    }
  }

  /** A leading zero does not change the value of a digit string. */
  lemma {:induction false} LeadingZero(s: string)
    requires AllDigits(s)
    ensures AllDigits("0" + s) && DigitsValue("0" + s) == DigitsValue(s)
    decreases |s|
  {
    assert forall i :: 0 <= i < |"0" + s| ==> IsDigit(("0" + s)[i]);
    if |s| > 0 {
      var init := s[..|s| - 1];
      LeadingZero(init);
      assert ("0" + s)[..|"0" + s| - 1] == "0" + init;
    }
  }

  /** The longest prefix of `s` made of digits. */
  function LeadingDigits(s: string): (r: string)
    ensures |r| <= |s| && r == s[..|r|] && AllDigits(r)
    ensures |r| < |s| ==> !IsDigit(s[|r|])
  {
    if |s| > 0 && IsDigit(s[0]) then
      var rest := LeadingDigits(s[1..]);
      assert [s[0]] + rest == s[..|rest| + 1];
      [s[0]] + rest
    else ""
  }

  predicate IsHexDigit(c: char) {
    IsDigit(c) || 'a' <= c <= 'f' || 'A' <= c <= 'F'
  }

  predicate AllHexDigits(s: string) {
    forall i :: 0 <= i < |s| ==> IsHexDigit(s[i])
  }

  function HexDigitValue(c: char): (d: nat)
    requires IsHexDigit(c)
    ensures d < 16
  {
    if IsDigit(c) then DigitValue(c)
    else if 'a' <= c <= 'f' then (c as int) - ('a' as int) + 10
    else (c as int) - ('A' as int) + 10
  }

  /** The value of a string of hexadecimal digits, most significant first. */
  function HexValue(s: string): nat
    requires AllHexDigits(s)
  {
    if |s| == 0 then 0 else HexValue(s[..|s| - 1]) * 16 + HexDigitValue(s[|s| - 1])
  }

  /** The longest prefix of `s` made of hexadecimal digits. */
  function LeadingHexDigits(s: string): (r: string)
    ensures |r| <= |s| && r == s[..|r|] && AllHexDigits(r)
    ensures |r| < |s| ==> !IsHexDigit(s[|r|])
    ensures AllHexDigits(s) ==> r == s
  {
    if |s| > 0 && IsHexDigit(s[0]) then
      var rest := LeadingHexDigits(s[1..]);
      assert AllHexDigits(s) ==> AllHexDigits(s[1..]);
      assert [s[0]] + rest == s[..|rest| + 1];
      [s[0]] + rest
    else ""
  }

  /** Text after the sign that parseInt reads in base 16: `0x` or `0X` first. */
  predicate HexPrefixed(u: string) {
    |u| >= 2 && u[0] == '0' && (u[1] == 'x' || u[1] == 'X')
  }

  /** The magnitude parseInt reads after the sign: the leading hexadecimal
      digits after a `0x`/`0X` prefix, the leading decimal digits otherwise;
      None when that run is empty. */
  function Magnitude(u: string): (m: Option<nat>)
    ensures m.None? <==> if HexPrefixed(u) then |u| == 2 || !IsHexDigit(u[2]) else |u| == 0 || !IsDigit(u[0])
  {
    if HexPrefixed(u) then
      var digits := LeadingHexDigits(u[2..]);
      if |digits| == 0 then None else Some(HexValue(digits))
    else
      var digits := LeadingDigits(u);
      if |digits| == 0 then None else Some(DigitsValue(digits))
  }

  /** parseInt after its white space is skipped: an optional sign, then the
      magnitude. */
  function ParseTrimmed(t: string): (r: Option<int>)
    ensures r.None? <==> Magnitude(Unsigned(t)).None?
    ensures r.Some? && r.value < 0 ==> t[0] == '-'
  {
    match Magnitude(Unsigned(t))
    case None => None
    case Some(m) => if |t| > 0 && t[0] == '-' then Some(-(m as int)) else Some(m)
  }

  /** JavaScript's parseInt(s) without a radix: leading white space skipped,
      an optional sign, then base 16 after a `0x`/`0X` prefix and base 10
      otherwise, reading as many digits as there are. NaN, here None, exactly
      when the first character after the sign and prefix is not a digit of
      that base. */
  function ParseInt(s: string): (r: Option<int>)
    ensures var u := Unsigned(TrimStart(s));
            r.None? <==> if HexPrefixed(u) then |u| == 2 || !IsHexDigit(u[2]) else |u| == 0 || !IsDigit(u[0])
    ensures r.Some? && r.value < 0 ==> TrimStart(s)[0] == '-'
  {
    ParseTrimmed(TrimStart(s))
  }

  /** After a `0x` or `0X` prefix, a run of hexadecimal digits is read whole. */
  lemma HexMagnitude(digits: string)
    requires |digits| >= 1 && AllHexDigits(digits)
    ensures Magnitude("0x" + digits) == Some(HexValue(digits))
    ensures Magnitude("0X" + digits) == Some(HexValue(digits))
  {
    assert ("0x" + digits)[2..] == digits;
    assert ("0X" + digits)[2..] == digits;
  }

  /** Text that starts with a non-space is parsed as it stands. */
  lemma ParseIntNoSpace(s: string)
    requires |s| > 0 && !IsSpace(s[0])
    ensures ParseInt(s) == ParseTrimmed(s)
  {
  }

  /** Text with no sign and no leading space parses to its magnitude. */
  lemma ParseIntUnsigned(t: string, m: nat)
    requires |t| > 0 && !IsSpace(t[0]) && t[0] != '-' && t[0] != '+'
    requires Magnitude(t) == Some(m)
    ensures ParseInt(t) == Some(m)
  {
    ParseIntNoSpace(t);
    assert Unsigned(t) == t;
  }

  /** parseInt reads `0x` and `0X` text in base 16: "0x1A" is 26, not 0. */
  lemma ParseIntHex(digits: string)
    requires |digits| >= 1 && AllHexDigits(digits)
    ensures ParseInt("0x" + digits) == Some(HexValue(digits))
    ensures ParseInt("0X" + digits) == Some(HexValue(digits))
  {
    HexMagnitude(digits);
    assert ("0x" + digits)[0] == '0';
    ParseIntUnsigned("0x" + digits, HexValue(digits));
    assert ("0X" + digits)[0] == '0';
    ParseIntUnsigned("0X" + digits, HexValue(digits));
  }

  /** A minus sign in front of unsigned text negates what parseInt reads
      there, and leaves NaN as NaN. */
  lemma ParseIntMinus(t: string)
    requires |t| > 0 && !IsSpace(t[0]) && t[0] != '-' && t[0] != '+'
    ensures ParseInt("-" + t) == if ParseInt(t).None? then None else Some(-ParseInt(t).value)
  {
    assert ("-" + t)[0] == '-' && ("-" + t)[1..] == t;
    ParseIntNoSpace("-" + t);
    ParseIntNoSpace(t);
  }

  /** A bare `0x` prefix is NaN, not zero. */
  lemma ParseIntBarePrefix()
    ensures ParseInt("0x") == None
  {
    assert !IsSpace('0');
    assert TrimStart("0x") == "0x";
    assert Unsigned("0x") == "0x" && HexPrefixed("0x");
  }

  /** Leading white space is dropped whole, whatever follows it. */
  lemma {:induction false} TrimStartAppend(w: string, t: string)
    requires forall i :: 0 <= i < |w| ==> IsSpace(w[i])
    ensures TrimStart(w + t) == TrimStart(t)
    decreases |w|
  {
    if |w| > 0 {
      assert IsSpace((w + t)[0]) by { assert (w + t)[0] == w[0]; }
      assert (w + t)[1..] == w[1..] + t;
      TrimStartAppend(w[1..], t);
    } else {
      assert w + t == t;
    }
  }

  /** parseInt ignores leading white space. */
  lemma ParseIntSkipsSpace(w: string, t: string)
    requires forall i :: 0 <= i < |w| ==> IsSpace(w[i])
    ensures ParseInt(w + t) == ParseInt(t)
  {
    TrimStartAppend(w, t);
  }

  /** The text after one optional leading sign. */
  function Unsigned(t: string): string {
    if |t| > 0 && (t[0] == '-' || t[0] == '+') then t[1..] else t
  }

  /** The validator library's isInt with its default options: an optional
      sign, then one or more decimal digits, leading zeros allowed, and
      nothing else (no white space). */
  predicate IsIntText(s: string): (b: bool)
    ensures b ==> |s| >= 1 && IsDigit(s[|s| - 1])
    ensures b ==> IsDigit(s[0]) || s[0] == '-' || s[0] == '+'
    ensures b ==> !IsSpace(s[0]) && !IsSpace(s[|s| - 1])
  {
    var u := Unsigned(s);
    |u| >= 1 && AllDigits(u)
  }

  /** The integer an isInt-valid text denotes. */
  function IntTextValue(s: string): int
    requires IsIntText(s)
  {
    if s[0] == '-' then -(DigitsValue(Unsigned(s)) as int) else DigitsValue(Unsigned(s))
  }

  /** Whatever isInt accepts, parseInt reads as the same integer. */
  lemma IntTextParses(s: string)
    requires IsIntText(s)
    ensures ParseInt(s) == Some(IntTextValue(s))
  {
    var u := Unsigned(s);
    assert !IsSpace(s[0]);
    assert TrimStart(s) == s;
    assert !HexPrefixed(u) by {
      if |u| >= 2 {
        assert IsDigit(u[1]);
      }
    }
    assert |LeadingDigits(u)| == |u|;
    assert LeadingDigits(u) == u[..|u|] == u;
  }

  /** A leading zero keeps text isInt-valid with the same value. */
  lemma LeadingZeroIsInt(s: string)
    requires AllDigits(s) && |s| >= 1
    ensures IsIntText("0" + s) && IntTextValue("0" + s) == DigitsValue(s)
  {
    LeadingZero(s);
  }

  /** Every non-negative number printed in decimal is isInt-valid with that value. */
  lemma DecimalIsIntText(n: nat)
    ensures IsIntText(ToDecimal(n)) && IntTextValue(ToDecimal(n)) == n
  {
    DecimalRoundTrip(n);
  }

  // ---------------------------------------------------------------- lengths

  /** The variation selectors U+FE0E and U+FE0F, which the validator's
      isLength does not count. */
  predicate IsPresentationSelector(c: char) {
    c == '\U{FE0E}' || c == '\U{FE0F}'
  }

  /** The length isLength measures: code points, presentation selectors not counted. */
  function CountedLength(s: string): (n: nat)
    ensures n <= |s|
  {
    if |s| == 0 then 0
    else CountedLength(s[..|s| - 1]) + (if IsPresentationSelector(s[|s| - 1]) then 0 else 1)
  }

  /** Without presentation selectors, isLength counts every code point. */
  lemma {:induction false} CountedLengthPlain(s: string)
    requires forall i :: 0 <= i < |s| ==> !IsPresentationSelector(s[i])
    ensures CountedLength(s) == |s|
    decreases |s|
  {
    if |s| > 0 {
      CountedLengthPlain(s[..|s| - 1]);
    }
  }

  /** A presentation selector appended to text does not lengthen it. */
  lemma CountedLengthSelector(s: string)
    ensures CountedLength(s + "\U{FE0F}") == CountedLength(s)
  {
    assert (s + "\U{FE0F}")[..|s|] == s;
  }

  /** String.prototype.padStart with a single fill character. */
  function PadStart(s: string, width: nat, fill: char): (r: string)
    ensures |r| == if |s| >= width then |s| else width
    ensures r[|r| - |s|..] == s
    ensures forall i :: 0 <= i < |r| - |s| ==> r[i] == fill
  {
    if |s| >= width then s else seq(width - |s|, _ => fill) + s
  }
}
