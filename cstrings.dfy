/** The C string conventions the server relies on: NUL-terminated buffers,
    strstr, index, strcasecmp, isspace with sscanf("%s %s %s"), and the
    decimal numbers sprintf("%d") prints. */
module CStrings {

  datatype Option<+T> = None | Some(value: T)

  const NUL: char := '\0'

  function Min(a: int, b: int): int
  {
    if a < b then a else b
  }

  /** The C string a char buffer holds: everything before its first NUL. */
  function CString(s: seq<char>): (r: seq<char>)
    ensures r <= s && NUL !in r
    ensures |r| < |s| ==> s[|r|] == NUL
  {
    if s == [] || s[0] == NUL then [] else [s[0]] + CString(s[1..])
  }

  /** A NUL written right after `g` ends the C string there, whatever follows. */
  lemma {:induction false} CStringTerminated(g: seq<char>, tail: seq<char>)
    requires NUL !in g
    ensures CString(g + [NUL] + tail) == g
    decreases |g|
  {
    if g != [] {
      assert (g + [NUL] + tail)[1..] == g[1..] + [NUL] + tail;
      CStringTerminated(g[1..], tail);
    }
  }

  /** `p` sits in `s` at offset `i`. */
  predicate OccursAt(s: seq<char>, p: seq<char>, i: nat)
  {
    i + |p| <= |s| && s[i..i + |p|] == p
  }

  /** strstr(s, p) != NULL: `p` occurs in `s` (the empty string occurs in every string). */
  predicate Contains(s: seq<char>, p: seq<char>)
    ensures p == [] ==> Contains(s, p)
    ensures Contains(s, p) ==> |p| <= |s|
    ensures |p| == |s| ==> (Contains(s, p) <==> s == p)
    decreases |s|
  {
    |p| <= |s| && (s[..|p|] == p || Contains(s[1..], p))
  }

  /** The scan that Contains performs finds exactly the offsets where `p` occurs. */
  lemma {:induction false} ContainsIff(s: seq<char>, p: seq<char>)
    ensures Contains(s, p) <==> exists i: nat :: OccursAt(s, p, i)
    decreases |s|
  {
    if Contains(s, p) {
      if s[..|p|] == p {
        assert OccursAt(s, p, 0);
      } else {
        ContainsIff(s[1..], p);
        var i: nat :| OccursAt(s[1..], p, i);
        assert s[i + 1..i + 1 + |p|] == s[1..][i..i + |p|];
        assert OccursAt(s, p, i + 1);
      }
    }
    if i: nat :| OccursAt(s, p, i) {
      if i > 0 {
        assert s[1..][i - 1..i - 1 + |p|] == s[i..i + |p|];
        assert OccursAt(s[1..], p, i - 1);
        ContainsIff(s[1..], p);
      }
    }
  }

  /** index(s, c): the position of the first `c` in `s`, if any. */
  function IndexOf(s: seq<char>, c: char): (r: Option<nat>)
    ensures r.None? <==> c !in s
    ensures r.Some? ==> r.value < |s| && s[r.value] == c && c !in s[..r.value]
  {
    if s == [] then None
    else if s[0] == c then Some(0)
    else match IndexOf(s[1..], c)
      case None => None
      case Some(i) =>
        assert s[..i + 1] == [s[0]] + s[1..][..i];
        Some(i + 1)
  }

  /** tolower in the C locale. */
  function ToLower(c: char): char
  {
    if 'A' <= c <= 'Z' then (c as int + 32) as char else c
  }

  /** strcasecmp(a, b) == 0 for NUL-free strings. */
  predicate EqualsIgnoreCase(a: seq<char>, b: seq<char>)
  {
    |a| == |b| && forall i :: 0 <= i < |a| ==> ToLower(a[i]) == ToLower(b[i])
  }

  /** isspace in the C locale: space, \t, \n, \v, \f and \r. */
  predicate IsSpace(c: char)
  {
    c == ' ' || c == '\t' || c == '\n' || c == '\r' || c as int == 11 || c as int == 12
  }

  predicate NoSpace(s: seq<char>)
  {
    forall i :: 0 <= i < |s| ==> !IsSpace(s[i])
  }

  /** What a conversion skips before a token: the leading white space. */
  function SkipSpace(s: seq<char>): (r: seq<char>)
    ensures |r| <= |s| && r == s[|s| - |r|..]
    ensures r == [] || !IsSpace(r[0])
  {
    if s != [] && IsSpace(s[0]) then SkipSpace(s[1..]) else s
  }

  /** The longest prefix of `s` without white space: what one %s stores. */
  function TakeWord(s: seq<char>): (w: seq<char>)
    ensures w <= s && NoSpace(w)
    ensures |w| < |s| ==> IsSpace(s[|w|])
  {
    if s == [] || IsSpace(s[0]) then [] else [s[0]] + TakeWord(s[1..])
  }

  /** The first `k` white-space separated tokens of `s`, as sscanf's %s conversions read them. */
  function Words(s: seq<char>, k: nat): (ws: seq<seq<char>>)
    ensures |ws| <= k
    ensures forall j :: 0 <= j < |ws| ==> ws[j] != [] && NoSpace(ws[j])
    decreases k
  {
    if k == 0 then []
    else
      var t := SkipSpace(s);
      if t == [] then []
      else
        var w := TakeWord(t);
        [w] + Words(t[|w|..], k - 1)
  }

  /** A token followed by white space (or nothing) is read back as itself. */
  lemma {:induction false} WordsOfToken(w: seq<char>, rest: seq<char>, k: nat)
    requires w != [] && NoSpace(w)
    requires rest == [] || IsSpace(rest[0])
    ensures Words(w + rest, k + 1) == [w] + Words(rest, k)
  {
    assert SkipSpace(w + rest) == w + rest;
    TakeWordOfToken(w, rest);
    assert (w + rest)[|w|..] == rest;
  }

  lemma {:induction false} TakeWordOfToken(w: seq<char>, rest: seq<char>)
    requires NoSpace(w)
    requires rest == [] || IsSpace(rest[0])
    ensures TakeWord(w + rest) == w
    decreases |w|
  {
    if w != [] {
      assert (w + rest)[1..] == w[1..] + rest;
      TakeWordOfToken(w[1..], rest);
    }
  }

  /** Leading white space is skipped before a token. */
  lemma {:induction false} WordsAfterSpace(sp: char, s: seq<char>, k: nat)
    requires IsSpace(sp)
    ensures Words([sp] + s, k) == Words(s, k)
  {
    if k > 0 {
      assert ([sp] + s)[1..] == s;
      assert SkipSpace([sp] + s) == SkipSpace(s);
    }
  }

  predicate IsDigit(c: char)
  {
    '0' <= c <= '9'
  }

  predicate AllDigits(s: seq<char>)
  {
    forall i :: 0 <= i < |s| ==> IsDigit(s[i])
  }

  function DigitChar(d: nat): (c: char)
    requires d < 10
    ensures IsDigit(c) && c as int - '0' as int == d
  {
    ('0' as int + d) as char
  }

  /** The text sprintf("%d", n) produces for a non-negative n. */
  function Decimal(n: nat): (s: seq<char>)
    ensures s != [] && AllDigits(s)
    ensures s[0] == '0' ==> n == 0 && |s| == 1
    decreases n
  {
    if n < 10 then [DigitChar(n)] else Decimal(n / 10) + [DigitChar(n % 10)]
  }

  /** The value a reader of a decimal field computes from its digits. */
  function ParseDecimal(s: seq<char>): nat
    requires AllDigits(s)
  {
    if s == [] then 0
    else ParseDecimal(s[..|s| - 1]) * 10 + (s[|s| - 1] as int - '0' as int)
  }

  /** Printing a number in decimal and reading it back gives the number. */
  lemma {:induction false} DecimalRoundTrip(n: nat)
    ensures ParseDecimal(Decimal(n)) == n
    decreases n
  {
    if n >= 10 {
      var s := Decimal(n);
      assert s[..|s| - 1] == Decimal(n / 10);
      DecimalRoundTrip(n / 10);
    }
  }
}
