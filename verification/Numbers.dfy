/** `safe_strtoull` and `safe_strtoll` (util.c), over `strtoull` and `strtoll` in the C locale on a 64-bit machine. */
module Numbers {

  const TWO63 := 0x8000_0000_0000_0000
  const TWO64 := 0x1_0000_0000_0000_0000

  /** A C string, without its terminator. */
  type CString = s: string | '\0' !in s

  predicate IsSpace(c: char) {
    c == ' ' || '\t' <= c <= '\r'
  }

  predicate IsDigit(c: char) {
    '0' <= c <= '9'
  }

  function Digit(c: char): (d: nat)
    requires IsDigit(c)
    ensures d < 10
  {
    c as nat - '0' as nat
  }

  predicate AllDigits(ds: string) {
    forall i :: 0 <= i < |ds| ==> IsDigit(ds[i])
  }

  predicate AllSpaces(ss: string) {
    forall i :: 0 <= i < |ss| ==> IsSpace(ss[i])
  }

  function Value(ds: string): nat
    requires AllDigits(ds)
  {
    if ds == [] then 0 else 10 * Value(ds[..|ds| - 1]) + Digit(ds[|ds| - 1])
  }

  // ---------------------------------------------------------------- what the text means

  /**
   * The decomposition of section 7.20.1.4 of ISO/IEC 9899:1999 for base ten: white space, an optional sign,
   * at least one digit and as many as there are, and the rest.
   */
  ghost predicate Reads(str: string, spaces: string, sign: string, digits: string, rest: string) {
    && str == spaces + sign + digits + rest
    && AllSpaces(spaces)
    && (sign == "" || sign == "+" || sign == "-")
    && digits != [] && AllDigits(digits)
    && (rest == [] || !IsDigit(rest[0]))
  }

  /** The number ends the string or white space follows it. */
  predicate Ended(rest: string) {
    rest == [] || IsSpace(rest[0])
  }

  /** What `strtoull` makes of a magnitude in range: a minus sign negates modulo 2^64. */
  function Unsigned(sign: string, m: nat): nat
    requires m < TWO64
  {
    if sign == "-" && m != 0 then TWO64 - m else m
  }

  ghost predicate UnsignedReading(str: string, v: nat, spaces: string, sign: string, digits: string, rest: string) {
    && Reads(str, spaces, sign, digits, rest)
    && Ended(rest)
    && Value(digits) < TWO64
    && v == Unsigned(sign, Value(digits))
    && !(v >= TWO63 && '-' in str)
  }

  /** `safe_strtoull` should accept `str` as `v`: in range, and not a large value in a string that has a minus sign anywhere. */
  ghost predicate DenotesUnsigned(str: string, v: nat) {
    exists spaces, sign, digits, rest :: UnsignedReading(str, v, spaces, sign, digits, rest)
  }

  function Signed(sign: string, m: int): int {
    if sign == "-" then -m else m
  }

  ghost predicate SignedReading(str: string, v: int, spaces: string, sign: string, digits: string, rest: string) {
    && Reads(str, spaces, sign, digits, rest)
    && Ended(rest)
    && v == Signed(sign, Value(digits))
    && -TWO63 <= v < TWO63
  }

  ghost predicate DenotesSigned(str: string, v: int) {
    exists spaces, sign, digits, rest :: SignedReading(str, v, spaces, sign, digits, rest)
  }

  // ---------------------------------------------------------------- the library's scan

  function SkipSpaces(s: string, i: nat): (j: nat)
    requires i <= |s|
    ensures i <= j <= |s| && AllSpaces(s[i..j]) && (j < |s| ==> !IsSpace(s[j]))
    decreases |s| - i
  {
    if i < |s| && IsSpace(s[i]) then SkipSpaces(s, i + 1) else i
  }

  function SkipDigits(s: string, i: nat): (j: nat)
    requires i <= |s|
    ensures i <= j <= |s| && AllDigits(s[i..j]) && (j < |s| ==> !IsDigit(s[j]))
    decreases |s| - i
  {
    if i < |s| && IsDigit(s[i]) then SkipDigits(s, i + 1) else i
  }

  /** Where the digits start and end; with no digit there is no conversion and `endptr` stays at the start. */
  datatype Scan = NoConversion | Number(negative: bool, first: nat, end: nat)

  function ScanDecimal(s: string): (r: Scan)
    ensures r.Number? ==> r.first < r.end <= |s| && AllDigits(s[r.first..r.end])
  {
    var i := SkipSpaces(s, 0);
    var signed := i < |s| && (s[i] == '+' || s[i] == '-');
    var j := if signed then i + 1 else i;
    var k := SkipDigits(s, j);
    if k == j then NoConversion else Number(signed && s[i] == '-', j, k)
  }

  datatype Conversion = Conversion(value: int, end: nat, rangeError: bool)

  function Strtoull(s: string): (c: Conversion)
    ensures 0 <= c.value < TWO64 && c.end <= |s|
  {
    match ScanDecimal(s)
    case NoConversion => Conversion(0, 0, false)
    case Number(negative, first, end) =>
      var m := Value(s[first..end]);
      if m >= TWO64 then Conversion(TWO64 - 1, end, true)
      else Conversion(Unsigned(if negative then "-" else "", m), end, false)
  }

  function Strtoll(s: string): (c: Conversion)
    ensures -TWO63 <= c.value < TWO63 && c.end <= |s|
  {
    match ScanDecimal(s)
    case NoConversion => Conversion(0, 0, false)
    case Number(negative, first, end) =>
      var v := Signed(if negative then "-" else "", Value(s[first..end]));
      if v >= TWO63 then Conversion(TWO63 - 1, end, true)
      else if v < -TWO63 then Conversion(-TWO63, end, true)
      else Conversion(v, end, false)
  }

  /** The scan finds a decomposition. */
  lemma ScanSound(s: string)
    requires ScanDecimal(s).Number?
    ensures var Number(negative, first, end) := ScanDecimal(s);
            exists spaces, sign ::
              && Reads(s, spaces, sign, s[first..end], s[end..])
              && (negative <==> sign == "-")
  {
    var i := SkipSpaces(s, 0);
    var Number(negative, first, end) := ScanDecimal(s);
    var sign := s[i..first];
    assert s == s[..i] + sign + s[first..end] + s[end..];
    assert s[..i] == s[0..i];
    assert Reads(s, s[..i], sign, s[first..end], s[end..]);
  }

  lemma {:induction false} SpacesStop(s: string, i: nat, j: nat)
    requires i <= j <= |s| && AllSpaces(s[i..j]) && (j < |s| ==> !IsSpace(s[j]))
    ensures SkipSpaces(s, i) == j
    decreases j - i
  {
    if i == j {
    } else {
      assert s[i..j][0] == s[i] && s[i..j][1..] == s[i + 1..j];
      SpacesStop(s, i + 1, j);
    }
  }

  lemma {:induction false} DigitsStop(s: string, i: nat, j: nat)
    requires i <= j <= |s| && AllDigits(s[i..j]) && (j < |s| ==> !IsDigit(s[j]))
    ensures SkipDigits(s, i) == j
    decreases j - i
  {
    if i == j {
    } else {
      assert s[i..j][0] == s[i] && s[i..j][1..] == s[i + 1..j];
      DigitsStop(s, i + 1, j);
    }
  }

  /** Every decomposition is the one the scan finds. */
  lemma ScanComplete(s: string, spaces: string, sign: string, digits: string, rest: string)
    requires Reads(s, spaces, sign, digits, rest)
    ensures ScanDecimal(s) == Number(sign == "-", |spaces + sign|, |spaces + sign + digits|)
    ensures s[|spaces + sign|..|spaces + sign + digits|] == digits && s[|spaces + sign + digits|..] == rest
  {
    var i, j, k := |spaces|, |spaces + sign|, |spaces + sign + digits|;
    assert s[0..i] == spaces && s[i..j] == sign && s[j..k] == digits && s[k..] == rest;
    assert s[j] == digits[0];
    assert sign != "" ==> s[i] == sign[0];
    SpacesStop(s, 0, i);
    assert k < |s| ==> s[k] == rest[0];
    DigitsStop(s, j, k);
    hide SkipSpaces, SkipDigits;
  }

  // ---------------------------------------------------------------- the code

  /** `safe_strtoull`: accepts exactly the strings that denote a number, and leaves 0 on failure. */
  method SafeStrtoull(str: CString) returns (ok: bool, out: nat)
    ensures ok ==> DenotesUnsigned(str, out)
    ensures !ok ==> out == 0 && forall v :: !DenotesUnsigned(str, v)
  {
    out := 0;
    var Conversion(ull, end, rangeError) := Strtoull(str);
    UnsignedVerdict(str);
    if rangeError || end == 0 {
      return false, 0;
    }
    if (end < |str| && IsSpace(str[end])) || end == |str| {
      if ull >= TWO63 {
        if '-' in str {
          return false, 0;
        }
      }
      out := ull;
      return true, out;
    }
    return false, 0;
  }

  predicate UnsignedAccepted(str: string) {
    var c := Strtoull(str);
    !c.rangeError && c.end > 0 && Ended(str[c.end..]) && !(c.value >= TWO63 && '-' in str)
  }

  lemma UnsignedVerdict(str: string)
    ensures forall v :: DenotesUnsigned(str, v) <==> UnsignedAccepted(str) && v == Strtoull(str).value
  {
    if UnsignedAccepted(str) {
      var Number(negative, first, end) := ScanDecimal(str);
      ScanSound(str);
      var spaces, sign :| Reads(str, spaces, sign, str[first..end], str[end..]) && (negative <==> sign == "-");
      assert UnsignedReading(str, Strtoull(str).value, spaces, sign, str[first..end], str[end..]);
    }
    forall v | DenotesUnsigned(str, v)
      ensures UnsignedAccepted(str) && v == Strtoull(str).value
    {
      var spaces, sign, digits, rest :| UnsignedReading(str, v, spaces, sign, digits, rest);
      ScanComplete(str, spaces, sign, digits, rest);
    }
  }

  /** `safe_strtoll`. */
  method SafeStrtoll(str: CString) returns (ok: bool, out: int)
    ensures ok ==> DenotesSigned(str, out)
    ensures !ok ==> out == 0 && forall v :: !DenotesSigned(str, v)
  {
    out := 0;
    var Conversion(ll, end, rangeError) := Strtoll(str);
    SignedVerdict(str);
    if rangeError || end == 0 {
      return false, 0;
    }
    if (end < |str| && IsSpace(str[end])) || end == |str| {
      out := ll;
      return true, out;
    }
    return false, 0;
  }

  predicate SignedAccepted(str: string) {
    var c := Strtoll(str);
    !c.rangeError && c.end > 0 && Ended(str[c.end..])
  }

  lemma SignedVerdict(str: string)
    ensures forall v :: DenotesSigned(str, v) <==> SignedAccepted(str) && v == Strtoll(str).value
  {
    if SignedAccepted(str) {
      var Number(negative, first, end) := ScanDecimal(str);
      ScanSound(str);
      var spaces, sign :| Reads(str, spaces, sign, str[first..end], str[end..]) && (negative <==> sign == "-");
      assert SignedReading(str, Strtoll(str).value, spaces, sign, str[first..end], str[end..]);
    }
    forall v | DenotesSigned(str, v)
      ensures SignedAccepted(str) && v == Strtoll(str).value
    {
      var spaces, sign, digits, rest :| SignedReading(str, v, spaces, sign, digits, rest);
      ScanComplete(str, spaces, sign, digits, rest);
    }
  }

  /** One decomposition decides what the string denotes. */
  lemma UnsignedDecided(str: string, spaces: string, sign: string, digits: string, rest: string, v: nat)
    requires Reads(str, spaces, sign, digits, rest)
    ensures DenotesUnsigned(str, v) <==>
              && Ended(rest) && Value(digits) < TWO64 && v == Unsigned(sign, Value(digits))
              && !(v >= TWO63 && '-' in str)
  {
    if UnsignedReading(str, v, spaces, sign, digits, rest) {
    }
    if DenotesUnsigned(str, v) {
      var spaces', sign', digits', rest' :| UnsignedReading(str, v, spaces', sign', digits', rest');
      ScanComplete(str, spaces, sign, digits, rest);
      ScanComplete(str, spaces', sign', digits', rest');
    }
  }

  lemma SignedDecided(str: string, spaces: string, sign: string, digits: string, rest: string, v: int)
    requires Reads(str, spaces, sign, digits, rest)
    ensures DenotesSigned(str, v) <==>
              Ended(rest) && v == Signed(sign, Value(digits)) && -TWO63 <= v < TWO63
  {
    if SignedReading(str, v, spaces, sign, digits, rest) {
    }
    if DenotesSigned(str, v) {
      var spaces', sign', digits', rest' :| SignedReading(str, v, spaces', sign', digits', rest');
      ScanComplete(str, spaces, sign, digits, rest);
      ScanComplete(str, spaces', sign', digits', rest');
    }
  }

  // ---------------------------------------------------------------- how the value grows with the text

  lemma Occurring(str: string, spaces: string, sign: string, digits: string, rest: string)
    requires Reads(str, spaces, sign, digits, rest)
    ensures digits[0] in str
    ensures spaces == [] ==> str[0] == '+' || str[0] == '-' || IsDigit(str[0])
    ensures spaces != [] ==> str[0] == spaces[0]
  {
    assert str[|spaces + sign|] == digits[0];
  }

  lemma DigitsRead(sign: string, ds: string, rest: string)
    requires sign == "" || sign == "+" || sign == "-"
    requires ds != [] && AllDigits(ds) && (rest == [] || !IsDigit(rest[0]))
    ensures Reads(sign + ds + rest, "", sign, ds, rest)
  {
    assert "" + sign + ds + rest == sign + ds + rest;
  }

  lemma PlainDigits(ds: string, v: int)
    requires ds != [] && AllDigits(ds)
    ensures v >= 0 ==> (DenotesUnsigned(ds, v) <==> v == Value(ds) < TWO64)
    ensures DenotesSigned(ds, v) <==> v == Value(ds) < TWO63
    ensures v >= 0 ==> (DenotesUnsigned("+" + ds, v) <==> v == Value(ds) < TWO64)
    ensures DenotesSigned("+" + ds, v) <==> v == Value(ds) < TWO63
    ensures DenotesSigned("-" + ds, v) <==> v + Value(ds) == 0 && v >= -TWO63
  {
    hide Value;
    DigitsRead("", ds, "");
    DigitsRead("+", ds, "");
    DigitsRead("-", ds, "");
    assert "" + ds + "" == ds && "+" + ds + "" == "+" + ds && "-" + ds + "" == "-" + ds;
    if v >= 0 {
      UnsignedDecided(ds, "", "", ds, "", v);
      UnsignedDecided("+" + ds, "", "+", ds, "", v);
    }
    SignedDecided(ds, "", "", ds, "", v);
    SignedDecided("+" + ds, "", "+", ds, "", v);
    SignedDecided("-" + ds, "", "-", ds, "", v);
  }

  /** A string of one character denotes a number if and only if it is a digit, and then that digit. */
  lemma OneCharacter(c: char, v: int)
    ensures v >= 0 ==> (DenotesUnsigned([c], v) <==> '0' <= c <= '9' && v == c as int - 48)
    ensures DenotesSigned([c], v) <==> '0' <= c <= '9' && v == c as int - 48
  {
    if IsDigit(c) {
      assert [c][..0] == [] && Value([c]) == Digit(c);
      PlainDigits([c], v);
    } else {
      forall spaces, sign, digits, rest
        ensures !Reads([c], spaces, sign, digits, rest)
      {
        if Reads([c], spaces, sign, digits, rest) {
          Occurring([c], spaces, sign, digits, rest);
          assert false;
        }
      }
    }
  }

  /** One more digit multiplies by ten and adds, as long as the result is in range; out of range is never left again. */
  lemma AppendDigit(ds: string, c: char, v: nat, w: int)
    requires ds != [] && AllDigits(ds) && '0' <= c <= '9'
    ensures DenotesUnsigned(ds, v) && w >= 0 ==>
              (DenotesUnsigned(ds + [c], w) <==> w == 10 * v + (c as int - 48) < 0x1_0000_0000_0000_0000)
    ensures DenotesSigned(ds, v) ==>
              (DenotesSigned(ds + [c], w) <==> w == 10 * v + (c as int - 48) < 0x8000_0000_0000_0000)
    ensures w >= 0 && DenotesUnsigned(ds + [c], w) ==> exists u: nat :: DenotesUnsigned(ds, u)
    ensures DenotesSigned(ds + [c], w) ==> exists u: nat :: DenotesSigned(ds, u)
  {
    PlainDigits(ds, v);
    PlainDigits(ds, Value(ds));
    PlainDigits(ds + [c], w);
    assert (ds + [c])[..|ds|] == ds;
  }

  lemma {:induction false} ZeroInFront(ds: string)
    requires AllDigits(ds)
    ensures Value("0" + ds) == Value(ds)
  {
    if ds == [] {
      assert "0" + ds == "0" && "0"[..0] == [];
    } else {
      var front := ds[..|ds| - 1];
      ZeroInFront(front);
      assert ("0" + ds)[..|ds|] == "0" + front;
    }
  }

  /** Leading zeros and a plus sign change nothing, and for the signed form a minus sign negates. */
  lemma ZeroAndSigns(ds: string, v: int)
    requires ds != [] && AllDigits(ds)
    ensures v >= 0 ==> (DenotesUnsigned("0" + ds, v) <==> DenotesUnsigned(ds, v))
    ensures v >= 0 ==> (DenotesUnsigned("+" + ds, v) <==> DenotesUnsigned(ds, v))
    ensures DenotesSigned("0" + ds, v) <==> DenotesSigned(ds, v)
    ensures DenotesSigned("+" + ds, v) <==> DenotesSigned(ds, v)
    ensures v != -0x8000_0000_0000_0000 ==> (DenotesSigned("-" + ds, v) <==> DenotesSigned(ds, -v))
  {
    PlainDigits(ds, v);
    PlainDigits(ds, -v);
    PlainDigits("0" + ds, v);
    ZeroInFront(ds);
  }

  /** White space: the six characters of the C locale. */
  predicate SixSpaces(c: char) {
    c as int in {9, 10, 11, 12, 13, 32}
  }

  lemma SpaceRead(c: char, str: string, spaces: string, sign: string, digits: string, rest: string)
    requires SixSpaces(c)
    ensures Reads(str, spaces, sign, digits, rest) ==> Reads([c] + str, [c] + spaces, sign, digits, rest)
    ensures Reads([c] + str, spaces, sign, digits, rest) ==> spaces != [] && Reads(str, spaces[1..], sign, digits, rest)
  {
    if Reads(str, spaces, sign, digits, rest) {
      assert [c] + str == [c] + spaces + sign + digits + rest;
    }
    if Reads([c] + str, spaces, sign, digits, rest) {
      assert ([c] + str)[0] == c;
      Occurring([c] + str, spaces, sign, digits, rest);
      assert str == ([c] + str)[1..] == spaces[1..] + sign + digits + rest;
    }
  }

  /** White space in front of any string changes nothing. */
  lemma SpaceInFront(c: char, str: string, v: int)
    requires SixSpaces(c)
    ensures v >= 0 ==> (DenotesUnsigned([c] + str, v) <==> DenotesUnsigned(str, v))
    ensures DenotesSigned([c] + str, v) <==> DenotesSigned(str, v)
  {
    hide Reads, Value;
    assert '-' in [c] + str <==> '-' in str;
    if v >= 0 && DenotesUnsigned(str, v) {
      var spaces, sign, digits, rest :| UnsignedReading(str, v, spaces, sign, digits, rest);
      SpaceRead(c, str, spaces, sign, digits, rest);
      assert UnsignedReading([c] + str, v, [c] + spaces, sign, digits, rest);
    }
    if v >= 0 && DenotesUnsigned([c] + str, v) {
      var spaces, sign, digits, rest :| UnsignedReading([c] + str, v, spaces, sign, digits, rest);
      SpaceRead(c, str, spaces, sign, digits, rest);
      assert UnsignedReading(str, v, spaces[1..], sign, digits, rest);
    }
    if DenotesSigned(str, v) {
      var spaces, sign, digits, rest :| SignedReading(str, v, spaces, sign, digits, rest);
      SpaceRead(c, str, spaces, sign, digits, rest);
      assert SignedReading([c] + str, v, [c] + spaces, sign, digits, rest);
    }
    if DenotesSigned([c] + str, v) {
      var spaces, sign, digits, rest :| SignedReading([c] + str, v, spaces, sign, digits, rest);
      SpaceRead(c, str, spaces, sign, digits, rest);
      assert SignedReading(str, v, spaces[1..], sign, digits, rest);
    }
  }

  /** What may follow the digits: nothing else matters than whether the next character is white space. */
  lemma NextCharacter(ds: string, c: char, more: string, v: int)
    requires ds != [] && AllDigits(ds) && !('0' <= c <= '9')
    ensures DenotesSigned(ds + [c] + more, v) <==> SixSpaces(c) && DenotesSigned(ds, v)
    ensures 0 <= v < 0x8000_0000_0000_0000 ==>
              (DenotesUnsigned(ds + [c] + more, v) <==> SixSpaces(c) && DenotesUnsigned(ds, v))
    ensures v >= 0x8000_0000_0000_0000 ==>
              (DenotesUnsigned(ds + [c] + more, v) <==> SixSpaces(c) && DenotesUnsigned(ds, v) && '-' !in more)
  {
    hide Value;
    var rest := [c] + more;
    assert "" + ds + rest == ds + [c] + more;
    DigitsRead("", ds, rest);
    PlainDigits(ds, v);
    SignedDecided(ds + [c] + more, "", "", ds, rest, v);
    if v >= 0 {
      UnsignedDecided(ds + [c] + more, "", "", ds, rest, v);
    }
  }

  // ---------------------------------------------------------------- printing and reading back

  function DigitChar(d: nat): (c: char)
    requires d < 10
    ensures IsDigit(c) && Digit(c) == d
  {
    ('0' as nat + d) as char
  }

  function Decimal(n: nat): (ds: string)
    ensures ds != [] && AllDigits(ds) && Value(ds) == n
  {
    if n < 10 then
      assert [DigitChar(n)][..0] == [];
      [DigitChar(n)]
    else
      var front := Decimal(n / 10);
      var ds := front + [DigitChar(n % 10)];
      assert ds[..|ds| - 1] == front;
      ds
  }

  lemma DecimalHasNoDash(n: nat)
    ensures '-' !in Decimal(n)
  {
  }

  /** A sign in front of printed digits is read as just that. */
  lemma SignedDecimalReads(sign: string, n: nat, rest: string)
    requires sign == "" || sign == "+" || sign == "-"
    requires rest == [] || !IsDigit(rest[0])
    ensures Reads(sign + Decimal(n) + rest, "", sign, Decimal(n), rest)
  {
    hide Decimal;
    assert "" + sign + Decimal(n) + rest == sign + Decimal(n) + rest;
  }

  lemma UnsignedOfDecimal(sign: string, n: nat, rest: string, v: nat)
    requires sign == "" || sign == "+" || sign == "-"
    requires Ended(rest)
    ensures var str := sign + Decimal(n) + rest;
            DenotesUnsigned(str, v) <==>
              n < TWO64 && v == Unsigned(sign, n) && !(v >= TWO63 && '-' in str)
  {
    hide Decimal;
    SignedDecimalReads(sign, n, rest);
    UnsignedDecided(sign + Decimal(n) + rest, "", sign, Decimal(n), rest, v);
  }

  /** A printed number is read back as itself if and only if it is below 2^64; nothing else is ever read. */
  lemma UnsignedRoundTrip(n: nat, v: nat)
    ensures DenotesUnsigned(Decimal(n), v) <==> n < 0x1_0000_0000_0000_0000 && v == n
  {
    hide Decimal;
    DecimalHasNoDash(n);
    UnsignedOfDecimal("", n, "", v);
    assert "" + Decimal(n) + "" == Decimal(n);
  }

  /**
   * A minus sign is not always rejected: magnitudes 1 to 2^63 are, while zero is accepted, and so are the magnitudes
   * above 2^63 and below 2^64, with the value wrapped around.
   */
  lemma MinusSignVerdict(m: nat, v: nat)
    ensures DenotesUnsigned("-" + Decimal(m), v) <==>
              (m == 0 || 0x8000_0000_0000_0000 < m < 0x1_0000_0000_0000_0000)
              && v == if m == 0 then 0 else 0x1_0000_0000_0000_0000 - m
  {
    hide Decimal;
    UnsignedOfDecimal("-", m, "", v);
    assert "-" + Decimal(m) + "" == "-" + Decimal(m);
    assert ("-" + Decimal(m))[0] == '-';
  }

  /**
   * The search for a minus sign covers the whole string: a dash anywhere after the number spoils a value of at least 2^63,
   * and no smaller one.
   */
  lemma LaterDashVerdict(n: nat, rest: string, v: nat)
    requires Ended(rest) && '-' in rest
    ensures DenotesUnsigned(Decimal(n) + rest, v) <==> n < 0x8000_0000_0000_0000 && v == n
  {
    hide Decimal;
    UnsignedOfDecimal("", n, rest, v);
    assert "" + Decimal(n) + rest == Decimal(n) + rest;
  }

  function PrintInt(z: int): string {
    if z < 0 then "-" + Decimal(-z) else Decimal(z)
  }

  /** Every 64-bit signed integer survives printing and `safe_strtoll`, and no other integer is accepted. */
  lemma SignedRoundTrip(z: int, v: int)
    ensures DenotesSigned(PrintInt(z), v) <==> -0x8000_0000_0000_0000 <= z < 0x8000_0000_0000_0000 && v == z
  {
    hide Decimal;
    var sign, n := if z < 0 then "-" else "", if z < 0 then -z else z;
    var str := PrintInt(z);
    SignedDecimalReads(sign, n, "");
    assert sign + Decimal(n) + "" == str;
    SignedDecided(str, "", sign, Decimal(n), "", v);
  }
}
