/** The pieces of the C string library that the parsers are written on.
    A byte is a `char`; a C string is the text before the first NUL. */
module CText {

  datatype Option<+T> = None | Some(value: T)

  const CRLF := "\r\n"

  /** `strchr` as an offset: the first `c` in `s`, or `|s|` when there is none. */
  function IndexOf(s: string, c: char): (i: nat)
    ensures i <= |s|
    ensures c !in s[..i]
    ensures i < |s| ==> s[i] == c
  {
    if s == "" || s[0] == c then 0 else
      assert forall j :: 0 < j < 1 + IndexOf(s[1..], c) ==> s[j] == s[1..][..IndexOf(s[1..], c)][j - 1];
      1 + IndexOf(s[1..], c)
  }

  /** The contract of `IndexOf` determines it. */
  lemma IndexOfIs(s: string, c: char, i: nat)
    requires i <= |s| && c !in s[..i]
    requires i < |s| ==> s[i] == c
    ensures IndexOf(s, c) == i
  {}

  /** Searching past a prefix that does not contain `c`. */
  lemma IndexOfAfter(p: string, c: char, rest: string)
    requires c !in p
    ensures IndexOf(p + [c] + rest, c) == |p|
  {
    var s := p + [c] + rest;
    assert s[..|p|] == p;
    IndexOfIs(s, c, |p|);
  }

  /** What a C function sees of a byte buffer that was NUL-terminated after its last byte. */
  function CStr(s: string): (r: string)
    ensures r <= s && '\0' !in r
    ensures |r| < |s| ==> s[|r|] == '\0'
  {
    s[..IndexOf(s, '\0')]
  }

  lemma CStrId(s: string)
    requires '\0' !in s
    ensures CStr(s) == s
  {}

  predicate IsBlank(c: char) { c == ' ' || c == '\t' }

  /** `isspace` in the C locale. */
  predicate IsSpace(c: char) {
    c == ' ' || c == '\t' || c == '\n' || c == 0x0B as char || c == 0x0C as char || c == '\r'
  }

  predicate IsDigit(c: char) { '0' <= c <= '9' }

  function ToLower(c: char): char {
    if 'A' <= c <= 'Z' then (c as int + 32) as char else c
  }

  function Lowered(s: string): (r: string)
    ensures |r| == |s|
  {
    seq(|s|, i requires 0 <= i < |s| => ToLower(s[i]))
  }

  /** `strstr(s, pat) != NULL` */
  predicate Contains(s: string, pat: string) {
    |pat| <= |s| && (s[..|pat|] == pat || (s != "" && Contains(s[1..], pat)))
  }

  predicate OccursAt(s: string, pat: string, i: nat) {
    i + |pat| <= |s| && s[i..i + |pat|] == pat
  }

  /** `strstr` finds the pattern exactly when it occurs somewhere. */
  lemma {:induction false} ContainsMeans(s: string, pat: string)
    ensures Contains(s, pat) <==> exists i: nat :: OccursAt(s, pat, i)
  {
    if |pat| <= |s| {
      if s[..|pat|] == pat {
        assert OccursAt(s, pat, 0);
      } else if s != "" {
        ContainsMeans(s[1..], pat);
        forall i: nat ensures OccursAt(s[1..], pat, i) <==> OccursAt(s, pat, i + 1) {
          assert i + 1 + |pat| <= |s| ==> s[1..][i..i + |pat|] == s[i + 1..i + 1 + |pat|];
        }
        assert !OccursAt(s, pat, 0);
        if i: nat :| OccursAt(s, pat, i) {
          assert OccursAt(s[1..], pat, i - 1);
        }
      }
    }
  }

  /** The six characters `isspace` accepts. */
  predicate WhiteSpace(s: string) {
    forall c <- s :: c in " \t\n\r" || c == 11 as char || c == 12 as char
  }

  lemma {:induction false} SkipsSpace(space: string, rest: string)
    requires WhiteSpace(space) && (rest != "" ==> !WhiteSpace([rest[0]]))
    ensures SkipSpace(space + rest) == rest
  {
    if space == "" {
      assert space + rest == rest && (rest != "" ==> rest[0] in [rest[0]]);
    } else {
      assert space[0] in space && (space + rest)[1..] == space[1..] + rest;
      SkipsSpace(space[1..], rest);
    }
  }

  function SkipSpace(s: string): (r: string)
    ensures |r| <= |s| && (r != "" ==> !IsSpace(r[0]))
  {
    if s != "" && IsSpace(s[0]) then SkipSpace(s[1..]) else s
  }
}
