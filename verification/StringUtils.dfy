/** utils/src/string_utils.c: integer parsing and the growing receive buffer. */
module StringUtils {
  import opened CText

  const INT_MAX := 0x7FFF_FFFF
  const MAX_INT_TEXT := 36

  function DecimalValue(s: string): (v: nat)
    requires forall c <- s :: IsDigit(c)
  {
    if s == "" then 0 else 
      assert IsDigit(s[|s| - 1]);
      10 * DecimalValue(s[..|s| - 1]) + (s[|s| - 1] as int - '0' as int)
  }

  function DigitRun(s: string): (n: nat)
    ensures n <= |s|
    ensures forall c <- s[..n] :: IsDigit(c)
    ensures n < |s| ==> !IsDigit(s[n])
  {
    if s != "" && IsDigit(s[0]) then
      assert forall j :: 0 < j < 1 + DigitRun(s[1..]) ==> s[j] == s[1..][..DigitRun(s[1..])][j - 1];
      1 + DigitRun(s[1..])
    else 0
  }

  /** `strtol(buf, &end, 10)` together with the tests that follow it. The result is None
      when nothing was converted, when text is left over, or when the value is not an int. */
  function StrictInt(buf: string): Option<int> {
    var t := SkipSpace(buf);
    var signed := t != "" && (t[0] == '-' || t[0] == '+');
    var u := if signed then t[1..] else t;
    if u == "" || DigitRun(u) < |u| then None else
      var m: int := DecimalValue(u[..DigitRun(u)]);
      var v: int := if signed && t[0] == '-' then -m else m;
      if -INT_MAX - 1 <= v <= INT_MAX then Some(v) else None
  }

  /** `parse_string_to_int`: only the first 36 characters are looked at. */
  function ParseInt(str: string): Option<int> {
    var s := CStr(str);
    StrictInt(if |s| > MAX_INT_TEXT then s[..MAX_INT_TEXT] else s)
  }

  /** `%d` / `%zu` of a natural number. */
  function Decimal(n: nat): (s: string)
    ensures s != "" && forall c <- s :: IsDigit(c)
  {
    var d := [(n % 10 + '0' as int) as char];
    if n < 10 then d else Decimal(n / 10) + d
  }

  function Pow10(k: nat): nat { if k == 0 then 1 else 10 * Pow10(k - 1) }

  lemma {:induction false} DecimalLength(n: nat, k: nat)
    requires n < Pow10(k) && k > 0
    ensures |Decimal(n)| <= k
  {
    if n >= 10 {
      assert Pow10(1) == 10 * Pow10(0);
      DecimalLength(n / 10, k - 1);
    }
  }

  lemma IntHasTenDigits(n: nat)
    requires n <= INT_MAX
    ensures |Decimal(n)| <= 10
  {
    assert Pow10(10) == 10_000_000_000 by {
      assert Pow10(5) == 100_000;
      assert Pow10(8) == 1000 * Pow10(5);
    }
    DecimalLength(n, 10);
  }

  predicate AllZeros(s: string) { forall c <- s :: c == '0' }

  predicate DecimalDigits(s: string) { forall c <- s :: c in "0123456789" }

  lemma {:induction false} ZerosAreNothing(zeros: string)
    requires AllZeros(zeros)
    ensures (forall c <- zeros :: IsDigit(c)) && DecimalValue(zeros) == 0
  {
    if zeros == "" {
    } else {
      var front := zeros[..|zeros| - 1];
      forall c | c in front ensures c == '0' {
        assert c in zeros;
      }
      assert zeros[|zeros| - 1] in zeros;
      ZerosAreNothing(front);
    }
  }

  lemma OneMoreDigit(front: string, c: char)
    requires (forall d <- front :: IsDigit(d)) && '0' <= c <= '9'
    ensures forall d <- front + [c] :: IsDigit(d)
    ensures DecimalValue(front + [c]) == 10 * DecimalValue(front) + (c as int - '0' as int)
  {
    assert (front + [c])[..|front|] == front;
  }

  /** Leading zeros do not change the value. */
  lemma {:induction false} DecimalWithZeros(zeros: string, n: nat)
    requires AllZeros(zeros)
    ensures forall c <- zeros + Decimal(n) :: IsDigit(c)
    ensures DecimalValue(zeros + Decimal(n)) == n
  {
    hide DecimalValue, IsDigit;
    var front := zeros + if n < 10 then "" else Decimal(n / 10);
    var c := (n % 10 + '0' as int) as char;
    assert zeros + Decimal(n) == front + [c];
    if n < 10 {
      ZerosAreNothing(zeros);
      assert front == zeros;
    } else {
      DecimalWithZeros(zeros, n / 10);
    }
    OneMoreDigit(front, c);
  }

  /** `parse_string_to_int` on white space, a sign and digits: the value when it is an `int`, else an error. */
  lemma IntRead(space: string, sign: string, zeros: string, n: nat)
    requires WhiteSpace(space) && sign in {"", "+", "-"} && AllZeros(zeros)
    requires |space + (sign + (zeros + Decimal(n)))| <= 36
    ensures var m: int := n; var v := if sign == "-" then -m else m;
            ParseInt(space + (sign + (zeros + Decimal(n))))
            == if -2147483648 <= v <= 2147483647 then Some(v) else None
  {
    hide DecimalValue, Decimal, SkipSpace, DigitRun;
    DecimalWithZeros(zeros, n);
    var u := zeros + Decimal(n);
    var t := sign + u;
    assert '\0' !in u && '\0' !in t && '\0' !in space + t;
    CStrId(space + t);
    assert u[0] in u && !WhiteSpace([t[0]]) by { assert t[0] in [t[0]]; }
    SkipsSpace(space, t);
    assert sign != "" ==> t[1..] == u;
    assert sign == "" ==> t == u;
    assert DigitRun(u) == |u| && u[..|u|] == u;
  }

  /** It accepts nothing else: with no digit, or with anything but digits behind the sign, the answer is an error. */
  lemma IntRejected(space: string, sign: string, rest: string)
    requires WhiteSpace(space) && sign in {"", "+", "-"}
    requires rest == "" || !DecimalDigits(rest)
    requires sign == "" && rest != "" ==> !WhiteSpace([rest[0]]) && rest[0] != '+' && rest[0] != '-'
    requires |space + (sign + rest)| <= 36 && '\0' !in rest
    ensures ParseInt(space + (sign + rest)) == None
  {
    hide DecimalValue, SkipSpace, DigitRun;
    var t := sign + rest;
    assert '\0' !in t && '\0' !in space + t;
    CStrId(space + t);
    if t != "" {
      assert sign != "" ==> t[0] in [t[0]] && !WhiteSpace([t[0]]);
      assert t[0] == if sign == "" then rest[0] else sign[0];
    }
    SkipsSpace(space, t);
    assert sign != "" ==> t[1..] == rest;
    assert sign == "" ==> t == rest;
    if DigitRun(rest) == |rest| {
      assert rest[..|rest|] == rest;
      assert DecimalDigits(rest);
    }
  }

  /** Only the first 36 characters count. */
  lemma IntCut(s: string)
    requires '\0' !in s && |s| > 36
    ensures ParseInt(s) == ParseInt(s[..36])
  {
    hide StrictInt;
    CStrId(s);
    CStrId(s[..36]);
    assert s[..36][..36] == s[..36];
  }

  /** Every non-negative int survives being printed and read back as a Content-Length. */
  lemma IntRoundTrip(n: nat)
    requires n <= INT_MAX
    ensures ParseInt(Decimal(n)) == Some(n)
  {
    hide Decimal, ParseInt;
    IntHasTenDigits(n);
    assert "" + ("" + ("" + Decimal(n))) == Decimal(n);
    IntRead("", "", "", n);
  }

  /** A buffer on the heap with `size` bytes in use, always followed by a NUL once it has been
      appended to (`buffer_append`), and shifted down in place when a prefix is consumed. */
  class GrowBuffer {
    var addr: array<char>
    var size: nat

    ghost predicate Valid()
      reads this
    {
      size <= addr.Length
    }

    ghost function Contents(): string
      requires Valid()
      reads this, addr
    {
      addr[..size]
    }

    constructor ()
      ensures Valid() && fresh(addr) && Contents() == ""
    {
      addr := new char[0];
      size := 0;
    }

    /** `buffer_append`: the old bytes stay, the input follows, a NUL comes after it. */
    method Append(input: string)
      requires Valid() && input != ""
      modifies this, addr
      ensures Valid() && fresh(addr)
      ensures Contents() == old(Contents()) + input
      ensures addr.Length == size + 1 && addr[size] == '\0'
    {
      var total := size + |input|;
      var grown := new char[total + 1];
      forall i | 0 <= i < size { grown[i] := addr[i]; }
      forall i | 0 <= i < |input| { grown[size + i] := input[i]; }
      grown[total] := '\0';
      ghost var before := Contents();
      assert grown[..size] == before && grown[size..total] == input;
      assert grown[..total] == grown[..size] + grown[size..total] == before + input;
      addr, size := grown, total;
    }

    /** The `memmove` and `size -=` that follow every consumed prefix. */
    method Consume(n: nat)
      requires Valid() && n <= size
      modifies this, addr
      ensures Valid() && addr == old(addr)
      ensures Contents() == old(Contents())[n..]
    {
      var i := 0;
      while i < size - n
        invariant 0 <= i <= size - n && size == old(size) && addr == old(addr)
        invariant forall k :: 0 <= k < i ==> addr[k] == old(addr[k + n])
        invariant forall k :: i <= k < addr.Length ==> addr[k] == old(addr[k])
      {
        addr[i] := addr[i + n];
        i := i + 1;
      }
      size := size - n;
    }
  }
}
