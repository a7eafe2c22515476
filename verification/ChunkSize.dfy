/** The number at the start of a chunk-size line, as `strtoull(line, &end, 16)` reads it,
    and the conversions of modules/src/http_client.c that follow. */
module ChunkSize {
  import opened CText
  import opened StringUtils

  /** `char line[48]` */
  const LINE_BUFFER := 48
  const TWO31: nat := 0x8000_0000
  const TWO32: nat := 0x1_0000_0000
  const TWO63: nat := 0x8000_0000_0000_0000
  const TWO64: nat := 0x1_0000_0000_0000_0000

  predicate IsHex(c: char) { '0' <= c <= '9' || 'a' <= c <= 'f' || 'A' <= c <= 'F' }

  function HexDigit(c: char): (v: nat)
    requires IsHex(c)
    ensures v < 16
  {
    if c <= '9' then c as int - '0' as int
    else if c <= 'F' then c as int - 'A' as int + 10
    else c as int - 'a' as int + 10
  }

  function HexRun(s: string): (n: nat)
    ensures n <= |s|
    ensures forall i :: 0 <= i < n ==> IsHex(s[i])
    ensures n < |s| ==> !IsHex(s[n])
  {
    if s != "" && IsHex(s[0]) then 1 + HexRun(s[1..]) else 0
  }

  function HexValue(s: string): nat
    requires forall i :: 0 <= i < |s| ==> IsHex(s[i])
  {
    if s == "" then 0 else 16 * HexValue(s[..|s| - 1]) + HexDigit(s[|s| - 1])
  }

  /** The digits behind the sign, with or without a `0x` prefix; None when there are none. */
  function Magnitude(u: string): Option<nat> {
    var w := if |u| > 2 && u[0] == '0' && (u[1] == 'x' || u[1] == 'X') && IsHex(u[2]) then u[2..] else u;
    var n := HexRun(w);
    if n == 0 then None else Some(HexValue(w[..n]))
  }

  /** `strtoull` in base 16: leading white space, a sign and a `0x` prefix are accepted, the
      value saturates, and a minus sign negates modulo 2^64. None when nothing converts. */
  function Strtoull16(line: string): (r: Option<nat>)
    ensures r.Some? ==> r.value < TWO64
  {
    var t := SkipSpace(CStr(line));
    var signed := t != "" && (t[0] == '-' || t[0] == '+');
    match Magnitude(if signed then t[1..] else t)
    case None => None
    case Some(v) =>
      Some(if v >= TWO64 then TWO64 - 1
           else if signed && t[0] == '-' then (TWO64 - v) % TWO64
           else v)
  }

  /** `chunk_remaining = (int)(ssize_t)val`, stored in a `size_t`. */
  function Remaining(val: nat): nat
    requires val < TWO64
  {
    var low := val % TWO32;
    if low < TWO31 then low else low + TWO64 - TWO32
  }

  /** Where the number stops: the first ';', space or tab, else the end of the line. */
  function SizeFieldLength(line: string): (n: nat)
    ensures n <= |line|
    ensures forall i :: 0 <= i < n ==> line[i] !in {';', ' ', '\t'}
    ensures n < |line| ==> line[n] in {';', ' ', '\t'}
  {
    if line == "" || EndsSize(line[0]) then 0 else 1 + SizeFieldLength(line[1..])
  }

  predicate EndsSize(c: char) { c == ';' || c == ' ' || c == '\t' }

  /** The outcome of reading one chunk-size line. */
  datatype SizeResult = BadSize | Overflows | Size(val: nat)

  function SizeOf(line: string): (r: SizeResult)
    ensures r.Size? ==> r.val < TWO64
  {
    var n := SizeFieldLength(line);
    if n == 0 then BadSize
    else if n >= LINE_BUFFER then Overflows
    else match Strtoull16(line[..n])
      case None => BadSize
      case Some(v) => Size(v)
  }

  /** A size field that overruns the line buffer, or a size that is negative as an `int`: the C code leaves
      defined behaviour. */
  predicate Spoils(r: SizeResult)
    requires r.Size? ==> r.val < TWO64
  {
    r == Overflows || (r.Size? && Remaining(r.val) >= TWO63)
  }

  lemma ZeroSpoilsNothing()
    ensures !Spoils(Size(0))
  {}

  /** A size field of section 7.1 of RFC 9112 that fits the client's buffer, with an extension. */
  predicate GoodSize(digits: string, ext: string, val: nat) {
    && 0 < |digits| < LINE_BUFFER
    && (forall i :: 0 <= i < |digits| ==> IsHex(digits[i]))
    && HexValue(digits) == val
    && val < TWO31
    && (ext == "" || EndsSize(ext[0]))
  }

  lemma HexText(digits: string)
    requires 0 < |digits| && (forall i :: 0 <= i < |digits| ==> IsHex(digits[i])) && HexValue(digits) < TWO64
    ensures Strtoull16(digits) == Some(HexValue(digits))
  {
    hide HexValue, IndexOf, HexRun;
    assert '\0' !in digits;
    CStrId(digits);
    assert IsHex(digits[0]);
    assert SkipSpace(digits) == digits;
    assert HexRun(digits) == |digits|;
    assert digits[..|digits|] == digits;
    assert |digits| > 1 ==> IsHex(digits[1]);
  }

  lemma SizeFieldEnds(digits: string, ext: string)
    requires (forall i :: 0 <= i < |digits| ==> IsHex(digits[i])) && (ext == "" || EndsSize(ext[0]))
    ensures SizeFieldLength(digits + ext) == |digits|
  {
    var n := SizeFieldLength(digits + ext);
    var line := digits + ext;
    assert n < |digits| ==> !IsHex(line[n]);
    assert ext != "" ==> line[|digits|] == ext[0];
  }

  /** Every well-formed size line is read as its hexadecimal value, extension ignored. */
  lemma GoodSizeIsRead(digits: string, ext: string, val: nat)
    requires GoodSize(digits, ext, val)
    ensures SizeOf(digits + ext) == Size(val) && Remaining(val) == val
  {
    hide HexValue, Strtoull16, SizeFieldLength;
    SizeFieldEnds(digits, ext);
    assert (digits + ext)[..|digits|] == digits;
    HexText(digits);
  }

  // ---------------------------------------------------------------------------------------
  // Numbers as printed

  const LOWER := "0123456789abcdef"
  const UPPER := "0123456789ABCDEF"

  /** `n` printed in base 16; `upper` says which digits, counted from the right from `k` on, are in upper case. */
  function Hex(n: nat, upper: nat -> bool, k: nat): (s: string)
    ensures s != ""
  {
    (if n < 16 then "" else Hex(n / 16, upper, k + 1)) + [(if upper(k) then UPPER else LOWER)[n % 16]]
  }

  lemma DigitRead(d: nat, upper: bool)
    requires d < 16
    ensures var c := (if upper then UPPER else LOWER)[d];
            IsHex(c) && HexDigit(c) == d && c !in {'\0', '-', '+', 'x', 'X'} && !WhiteSpace([c])
  {
    var c := (if upper then UPPER else LOWER)[d];
    assert c in [c];
  }

  /** A character is a hexadecimal digit exactly when it is one of the 22 that get printed. */
  lemma IsHexMeans(c: char)
    ensures IsHex(c) <==> c in LOWER || c in UPPER
  {
    if IsHex(c) {
      var d := HexDigit(c);
      assert c == LOWER[d] || c == UPPER[d];
    }
  }

  predicate AllHex(s: string) { forall i :: 0 <= i < |s| ==> IsHex(s[i]) }

  lemma OneMoreDigit(front: string, c: char)
    requires AllHex(front) && IsHex(c)
    ensures AllHex(front + [c]) && HexValue(front + [c]) == 16 * HexValue(front) + HexDigit(c)
  {
    hide IsHex, HexDigit;
    assert (front + [c])[..|front|] == front;
  }

  lemma {:induction false} HexOfZeros(zeros: string)
    requires AllZeros(zeros)
    ensures AllHex(zeros) && HexValue(zeros) == 0
  {
    if zeros == "" {
    } else {
      var front := zeros[..|zeros| - 1];
      assert forall i :: 0 <= i < |zeros| ==> zeros[i] in zeros;
      HexOfZeros(front);
    }
  }

  /** Printed numbers are read back, whatever case their digits are in and however many zeros lead. */
  lemma {:induction false} HexRoundTrip(zeros: string, n: nat, upper: nat -> bool, k: nat)
    requires AllZeros(zeros)
    ensures AllHex(zeros + Hex(n, upper, k))
    ensures HexValue(zeros + Hex(n, upper, k)) == n
  {
    hide HexDigit, IsHex, HexValue, AllHex;
    var c := (if upper(k) then UPPER else LOWER)[n % 16];
    var front := zeros + if n < 16 then "" else Hex(n / 16, upper, k + 1);
    assert zeros + Hex(n, upper, k) == front + [c];
    DigitRead(n % 16, upper(k));
    if n < 16 {
      HexOfZeros(zeros);
      assert front == zeros;
    } else {
      HexRoundTrip(zeros, n / 16, upper, k + 1);
    }
    OneMoreDigit(front, c);
  }

  lemma {:induction false} RunOfDigits(digits: string, junk: string)
    requires AllHex(digits) && (junk != "" ==> !IsHex(junk[0]))
    ensures HexRun(digits + junk) == |digits|
  {
    if digits == "" {
      assert digits + junk == junk;
    } else {
      assert (digits + junk)[1..] == digits[1..] + junk;
      RunOfDigits(digits[1..], junk);
    }
  }

  /** Digits are neither NUL nor a sign nor an `x`, and do not start with white space. */
  predicate Plain(s: string) {
    '\0' !in s && '-' !in s && '+' !in s && 'x' !in s && 'X' !in s && (s != "" ==> !WhiteSpace([s[0]]))
  }

  lemma DigitsArePlain(digits: string)
    requires AllHex(digits)
    ensures Plain(digits)
  {
    assert digits != "" ==> digits[0] in [digits[0]];
  }

  /** What `strtoull` looks at first: the text behind the white space. */
  lemma SpaceIsSkipped(space: string, t: string)
    requires WhiteSpace(space) && '\0' !in t && (t != "" ==> !WhiteSpace([t[0]]))
    ensures SkipSpace(CStr(space + t)) == t
  {
    hide SkipSpace;
    CStrId(space + t);
    SkipsSpace(space, t);
  }

  /** Digits and something else, without a prefix in front. */
  lemma DigitsRead(digits: string, junk: string)
    requires AllHex(digits) && digits != "" && (junk != "" ==> junk[0] !in LOWER + UPPER + "xX")
    ensures var w := digits + junk;
            IsHex(w[0]) && HexRun(w) == |digits| && w[..|digits|] == digits && (|w| > 1 ==> w[1] != 'x' && w[1] != 'X')
  {
    hide IsHex, HexRun, AllHex;
    var w := digits + junk;
    DigitsArePlain(digits);
    if junk != "" {
      IsHexMeans(junk[0]);
      assert junk[0] != 'x' && junk[0] != 'X';
    }
    RunOfDigits(digits, junk);
    assert w[0] == digits[0] && w[..|digits|] == digits;
    if |w| > 1 {
      assert w[1] == if |digits| > 1 then digits[1] else junk[0];
    }
    FirstIsHex(digits);
  }

  lemma FirstIsHex(digits: string)
    requires AllHex(digits) && digits != ""
    ensures IsHex(digits[0])
  {}

  /** Behind the sign: a prefix, digits, and something else. */
  lemma MagnitudeRead(prefix: string, digits: string, junk: string)
    requires prefix in {"", "0x", "0X"} && AllHex(digits) && digits != ""
    requires junk != "" ==> junk[0] !in LOWER + UPPER + "xX"
    ensures Magnitude(prefix + (digits + junk)) == Some(HexValue(digits))
  {
    hide HexValue, IsHex, HexRun;
    var w := digits + junk;
    DigitsRead(digits, junk);
    if prefix == "" {
      assert prefix + w == w;
    } else {
      assert (prefix + w)[2..] == w && (prefix + w)[2] == w[0];
    }
  }

  lemma SignRead(space: string, sign: string, u: string)
    requires WhiteSpace(space) && sign in {"", "+", "-"} && '\0' !in u
    requires u != "" ==> sign != "" || (u[0] !in "+-" && !WhiteSpace([u[0]]))
    ensures Strtoull16(space + (sign + u)) ==
            match Magnitude(u)
            case None => None
            case Some(v) => Some(if v >= TWO64 then TWO64 - 1 else if sign == "-" then (TWO64 - v) % TWO64 else v)
  {
    hide Magnitude, SkipSpace, CStr;
    var t := sign + u;
    if sign == "" {
      assert t == u;
    } else {
      assert t[0] in [t[0]] && t[1..] == u;
    }
    SpaceIsSkipped(space, t);
  }

  /** `strtoull` in base 16: white space, a sign and a prefix in front of a printed number are skipped; the number
      is saturated, or negated modulo 2^64 behind a minus sign; what is behind it is ignored. */
  lemma NumberRead(space: string, sign: string, prefix: string, zeros: string, n: nat, upper: nat -> bool, junk: string)
    requires WhiteSpace(space) && sign in {"", "+", "-"} && prefix in {"", "0x", "0X"} && AllZeros(zeros)
    requires '\0' !in junk && (junk != "" ==> junk[0] !in LOWER + UPPER + "xX")
    ensures Strtoull16(space + (sign + (prefix + (zeros + Hex(n, upper, 0) + junk)))) ==
            Some(if n > 0xFFFF_FFFF_FFFF_FFFF then 0xFFFF_FFFF_FFFF_FFFF
                 else if sign == "-" then (0x1_0000_0000_0000_0000 - n) % 0x1_0000_0000_0000_0000
                 else n)
  {
    hide Strtoull16, HexValue, Magnitude, AllHex, Hex;
    var digits := zeros + Hex(n, upper, 0);
    var u := prefix + (digits + junk);
    HexRoundTrip(zeros, n, upper, 0);
    DigitsArePlain(digits);
    MagnitudeRead(prefix, digits, junk);
    assert u[0] == if prefix == "" then digits[0] else '0';
    assert prefix == "" || !WhiteSpace([u[0]]) by { assert u[0] in [u[0]]; }
    SignRead(space, sign, u);
  }

  /** Without a digit behind white space and sign nothing converts. */
  lemma NumberMissing(space: string, sign: string, rest: string)
    requires WhiteSpace(space) && sign in {"", "+", "-"} && '\0' !in rest
    requires rest != "" ==> rest[0] !in LOWER + UPPER
    requires sign == "" && rest != "" ==> rest[0] !in "+-" && !WhiteSpace([rest[0]])
    ensures Strtoull16(space + (sign + rest)) == None
  {
    hide Strtoull16, IsHex;
    SignRead(space, sign, rest);
    if rest != "" {
      IsHexMeans(rest[0]);
      IsHexMeans('0');
    }
  }

  /** Every chunk-size line of section 7.1 of RFC 9112 whose number has at most 47 digits, leading zeros
      included: read as its value, extension ignored. One digit more overruns the line buffer. */
  lemma SizeLineRead(zeros: string, n: nat, upper: nat -> bool, ext: string)
    requires AllZeros(zeros) && n < 0x1_0000_0000_0000_0000
    requires ext == "" || ext[0] in {';', ' ', '\t'}
    ensures var digits := zeros + Hex(n, upper, 0);
            SizeOf(digits + ext) == if |digits| <= 47 then Size(n) else Overflows
  {
    hide Strtoull16, HexValue, Hex, SizeFieldLength;
    var digits := zeros + Hex(n, upper, 0);
    HexRoundTrip(zeros, n, upper, 0);
    SizeFieldEnds(digits, ext);
    assert (digits + ext)[..|digits|] == digits;
    assert "" + ("" + ("" + (digits + ""))) == digits;
    NumberRead("", "", "", zeros, n, upper, "");
  }

  /** Printed sizes below 2^31 of at most 47 digits are the sizes of well-formed chunks. */
  lemma PrintedIsGood(zeros: string, n: nat, upper: nat -> bool, ext: string)
    requires AllZeros(zeros) && n < 0x8000_0000 && |zeros + Hex(n, upper, 0)| <= 47
    requires ext == "" || ext[0] in {';', ' ', '\t'}
    ensures GoodSize(zeros + Hex(n, upper, 0), ext, n)
  {
    HexRoundTrip(zeros, n, upper, 0);
  }

  /** A size line that does not start with white space, a sign or a digit is no size line. */
  lemma NotASizeLine(line: string)
    requires '\0' !in line && (line == "" || line[0] !in LOWER + UPPER + "+-")
    requires line != "" ==> !WhiteSpace([line[0]])
    ensures SizeFieldLength(line) <= 47 ==> SizeOf(line) == BadSize
  {
    hide Strtoull16, SizeFieldLength;
    var n := SizeFieldLength(line);
    assert "" + ("" + line[..n]) == line[..n];
    if 0 < n {
      assert line[..n][0] == line[0];
      NumberMissing("", "", line[..n]);
    }
  }

  /** A size as the `int` it is cut down to: the same low 32 bits, in the range of a positive `int` or, as a
      `size_t`, of a negative one. */
  lemma RemainingMeans(val: nat)
    requires val < TWO64
    ensures Remaining(val) % 0x1_0000_0000 == val % 0x1_0000_0000
    ensures 0 <= Remaining(val) < 0x8000_0000
            || 0x1_0000_0000_0000_0000 - 0x8000_0000 <= Remaining(val) < 0x1_0000_0000_0000_0000
  {}
}
