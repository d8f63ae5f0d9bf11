/**
  The JavaScript string and number primitives the query controller relies on:
  `toLowerCase`/`toUpperCase` (ASCII letters only), `trim`, the tag-stripping
  `replace(/<[^>]*>/g, "")`, and the round trip between integers and their
  decimal text (`Number(s)` on decimal strings, `n.toString()`).
*/
module JsText {

  // ---------------------------------------------------------------------
  // Case mapping
  // ---------------------------------------------------------------------

  function LowerChar(c: char): char {
    if 'A' <= c <= 'Z' then (c as int + 32) as char else c
  }

  function UpperChar(c: char): char {
    if 'a' <= c <= 'z' then (c as int - 32) as char else c
  }

  /** `s.toLowerCase()`, letter by letter. */
  function Lower(s: string): (r: string)
    ensures |r| == |s|
    ensures forall i :: 0 <= i < |s| ==> r[i] == LowerChar(s[i])
  {
    if s == [] then [] else [LowerChar(s[0])] + Lower(s[1..])
  }

  /** `s.charAt(0).toUpperCase() + s.slice(1)`. */
  function Capitalize(s: string): (r: string)
    ensures |r| == |s|
    ensures s != [] ==> r[0] == UpperChar(s[0]) && r[1..] == s[1..]
  {
    if s == [] then [] else [UpperChar(s[0])] + s[1..]
  }

  /** Lower-casing twice is lower-casing once: a lower-cased key is already canonical. */
  lemma LowerIdempotent(s: string)
    ensures Lower(Lower(s)) == Lower(s)
  {
    assert forall i :: 0 <= i < |s| ==> LowerChar(LowerChar(s[i])) == LowerChar(s[i]);
  }

  /** A name without upper-case letters is its own lower-case form. */
  lemma LowerNoUpper(s: string)
    requires forall i :: 0 <= i < |s| ==> !('A' <= s[i] <= 'Z')
    ensures Lower(s) == s
  {
  }

  /** The capitalised form of a name is the same name ignoring case. */
  lemma LowerCapitalize(s: string)
    ensures Lower(Capitalize(s)) == Lower(s)
  {
    if s != [] {
      var c := Capitalize(s);
      assert LowerChar(UpperChar(s[0])) == LowerChar(s[0]);
      assert forall i :: 1 <= i < |s| ==> c[i] == s[i];
    }
  }

  // ---------------------------------------------------------------------
  // Whitespace and `trim`
  // ---------------------------------------------------------------------

  /** ECMAScript LineTerminator: the characters `.` does not match in a regular expression. */
  predicate IsLineTerminator(c: char) {
    c == '\n' || c == '\r' || c == '\U{2028}' || c == '\U{2029}'
  }

  /** ECMAScript WhiteSpace and LineTerminator: what `String.prototype.trim` removes. */
  const Whitespace: set<char> := {
    '\t', '\U{B}', '\U{C}', ' ', '\U{A0}', '\U{1680}',
    '\U{2000}', '\U{2001}', '\U{2002}', '\U{2003}', '\U{2004}', '\U{2005}',
    '\U{2006}', '\U{2007}', '\U{2008}', '\U{2009}', '\U{200A}',
    '\U{202F}', '\U{205F}', '\U{3000}', '\U{FEFF}',
    '\n', '\r', '\U{2028}', '\U{2029}'}

  predicate IsWhitespace(c: char) {
    c in Whitespace
  }

  predicate AllWhitespace(s: string) {
    forall i :: 0 <= i < |s| ==> IsWhitespace(s[i])
  }

  /** How many whitespace characters `s` starts with. */
  function BlankPrefix(s: string): (n: nat)
    ensures n <= |s|
    ensures forall i :: 0 <= i < n ==> IsWhitespace(s[i])
    ensures n < |s| ==> !IsWhitespace(s[n])
  {
    if s == [] || !IsWhitespace(s[0]) then 0
    else
      var m := BlankPrefix(s[1..]);
      assert forall i :: 1 <= i <= m ==> s[i] == s[1..][i - 1];
      m + 1
  }

  /** How many whitespace characters `s` ends with. */
  function BlankSuffix(s: string): (n: nat)
    ensures n <= |s|
    ensures forall i :: |s| - n <= i < |s| ==> IsWhitespace(s[i])
    ensures n < |s| ==> !IsWhitespace(s[|s| - n - 1])
  {
    if s == [] || !IsWhitespace(s[|s| - 1]) then 0
    else
      var m := BlankSuffix(s[..|s| - 1]);
      assert forall i :: |s| - 1 - m <= i < |s| - 1 ==> s[i] == s[..|s| - 1][i];
      m + 1
  }

  /** `s.trim()`: the input without its blank prefix and its blank suffix. */
  function Trim(s: string): (r: string)
    ensures |r| <= |s|
    ensures r == [] || (!IsWhitespace(r[0]) && !IsWhitespace(r[|r| - 1]))
  {
    var a := BlankPrefix(s);
    if a == |s| then [] else s[a..|s| - BlankSuffix(s)]
  }

  /** A trimmed string neither starts nor ends with whitespace, and is the slice of the input
      left after cutting the leading and the trailing whitespace. */
  lemma TrimShape(s: string)
    ensures var r := Trim(s);
      var a := BlankPrefix(s);
      && a + |r| <= |s| && r == s[a..a + |r|]
      && (forall i :: 0 <= i < a ==> IsWhitespace(s[i]))
      && (forall i :: a + |r| <= i < |s| ==> IsWhitespace(s[i]))
      && (r == [] || (!IsWhitespace(r[0]) && !IsWhitespace(r[|r| - 1])))
  {
    var r := Trim(s);
    var a := BlankPrefix(s);
    if a < |s| {
      var e := |s| - BlankSuffix(s);
      assert r[0] == s[a] && r[|r| - 1] == s[e - 1];
    }
  }

  /** `trim()` yields the empty string exactly when the input is blank. */
  lemma TrimBlank(s: string)
    ensures Trim(s) == [] <==> AllWhitespace(s)
  {
    TrimShape(s);
  }

  /** Trimming an already trimmed string changes nothing. */
  lemma TrimIdempotent(s: string)
    ensures Trim(Trim(s)) == Trim(s)
  {
    TrimShape(s);
    var r := Trim(s);
    if r != [] {
      assert BlankPrefix(r) == 0 && BlankSuffix(r) == 0;
      assert r[0..|r|] == r;
    }
  }

  // ---------------------------------------------------------------------
  // `replace(/<[^>]*>/g, "")`
  // ---------------------------------------------------------------------

  /** No `<` is followed, anywhere later, by a `>`: the regular expression has no match. */
  predicate NoTag(s: string) {
    forall i, j :: 0 <= i < j < |s| ==> !(s[i] == '<' && s[j] == '>')
  }

  /** The rest of `t` after its first `c`. */
  function AfterFirst(t: string, c: char): (r: string)
    requires c in t
    ensures |r| < |t| && r == t[|t| - |r|..]
  {
    if t[0] == c then t[1..] else AfterFirst(t[1..], c)
  }

  /** The characters of a suffix are characters of the whole. */
  lemma SuffixMembers(s: string, m: nat)
    requires m <= |s|
    ensures forall c :: c in s[m..] ==> c in s
  {
    forall c | c in s[m..] ensures c in s {
      var i :| 0 <= i < |s[m..]| && s[m..][i] == c;
      assert s[m + i] == c;
    }
  }

  /** Putting a character in front of tag-free text keeps it tag-free unless it opens a tag
      that the text closes. */
  lemma NoTagCons(c: char, tail: string)
    requires NoTag(tail) && (c == '<' ==> '>' !in tail)
    ensures NoTag([c] + tail)
  {
    var r := [c] + tail;
    forall i, j | 0 <= i < j < |r| ensures !(r[i] == '<' && r[j] == '>') {
      assert r[j] == tail[j - 1];
      if i > 0 {
        assert r[i] == tail[i - 1];
      }
    }
  }

  /** Removes every tag: a `<` that has a `>` somewhere after it starts a tag that runs to the
      first such `>` (`[^>]*` may cross line breaks); any other character is kept. */
  function StripTags(s: string): string
    decreases |s|
  {
    if s == [] then []
    else if s[0] == '<' && '>' in s[1..] then StripTags(AfterFirst(s[1..], '>'))
    else [s[0]] + StripTags(s[1..])
  }

  /** No tag is left, and what is left is no longer than the input and made of its characters. */
  lemma {:induction false} StripTagsShape(s: string)
    ensures var r := StripTags(s);
      NoTag(r) && |r| <= |s| && forall c :: c in r ==> c in s
    decreases |s|
  {
    if s == [] {
    } else if s[0] == '<' && '>' in s[1..] {
      var rest := AfterFirst(s[1..], '>');
      SuffixMembers(s, |s| - |rest|);
      StripTagsShape(rest);
    } else {
      var tail := StripTags(s[1..]);
      StripTagsShape(s[1..]);
      SuffixMembers(s, 1);
      NoTagCons(s[0], tail);
      assert forall c :: c in [s[0]] + tail ==> c == s[0] || c in tail;
    }
  }

  /** The rest after the first `>` of a tag body without `>`, then `>`, is what follows. */
  lemma {:induction false} AfterFirstClose(t: string, y: string)
    requires '>' !in t
    ensures AfterFirst(t + ">" + y, '>') == y
  {
    if t != [] {
      assert (t + ">" + y)[1..] == t[1..] + ">" + y;
      AfterFirstClose(t[1..], y);
    }
  }

  /** Text before the first `<` is copied as it is. */
  lemma {:induction false} StripTagsCopies(x: string, y: string)
    requires '<' !in x
    ensures StripTags(x + y) == x + StripTags(y)
  {
    if x == [] {
      assert x + y == y;
    } else {
      var c, x', s := x[0], x[1..], x + y;
      assert x == [c] + x' && s == [c] + (x' + y);
      assert s[0] == c && s[1..] == x' + y;
      StripTagsKeeps(s);
      StripTagsCopies(x', y);
      assert [c] + (x' + StripTags(y)) == x + StripTags(y);
    }
  }

  /** A first character other than `<` is kept. */
  lemma StripTagsKeeps(s: string)
    requires s != [] && s[0] != '<'
    ensures StripTags(s) == [s[0]] + StripTags(s[1..])
  {
  }

  /** A tag, from `<` to the first `>` after it, is dropped, whatever it encloses. */
  lemma StripTagsDropsTag(t: string, y: string)
    requires '>' !in t
    ensures StripTags("<" + t + ">" + y) == StripTags(y)
  {
    var s := "<" + t + ">" + y;
    assert s[1..] == t + ">" + y;
    assert s[1 + |t|] == '>';
    AfterFirstClose(t, y);
  }

  /** Text without tags is left as it is, so stripping twice equals stripping once. */
  lemma {:induction false} StripTagsNoTag(s: string)
    requires NoTag(s)
    ensures StripTags(s) == s
  {
    if s != [] {
      if s[0] == '<' {
        assert forall j :: 0 <= j < |s[1..]| ==> s[1..][j] == s[j + 1] != '>';
        assert '>' !in s[1..];
      }
      assert NoTag(s[1..]) by {
        forall i, j | 0 <= i < j < |s[1..]| ensures !(s[1..][i] == '<' && s[1..][j] == '>') {
          assert s[1..][i] == s[i + 1] && s[1..][j] == s[j + 1];
        }
      }
      StripTagsNoTag(s[1..]);
    }
  }

  lemma StripTagsIdempotent(s: string)
    ensures StripTags(StripTags(s)) == StripTags(s)
  {
    StripTagsShape(s);
    StripTagsNoTag(StripTags(s));
  }

  // ---------------------------------------------------------------------
  // Decimal integers
  // ---------------------------------------------------------------------

  predicate IsDigit(c: char) {
    '0' <= c <= '9'
  }

  predicate AllDigits(s: string) {
    forall i :: 0 <= i < |s| ==> IsDigit(s[i])
  }

  function DigitChar(d: nat): (c: char)
    requires d < 10
    ensures IsDigit(c)
  {
    ('0' as int + d) as char
  }

  function DigitValue(c: char): nat
    requires IsDigit(c)
  {
    c as int - '0' as int
  }

  /** The digits `toString` writes for a natural number: at least one, and no leading zero
      unless the number is zero itself. */
  predicate CanonicalNat(t: string) {
    |t| > 0 && AllDigits(t) && (|t| == 1 || t[0] != '0')
  }

  /** The text `toString` writes for an integer: canonical digits, with a `-` in front for a
      negative number; never a `+` and never `-0`. */
  predicate IsCanonical(s: string) {
    || CanonicalNat(s)
    || (|s| > 1 && s[0] == '-' && CanonicalNat(s[1..]) && s[1] != '0')
  }

  /** `n.toString()` for a natural number: its decimal digits, most significant first. */
  function NatToString(n: nat): (r: string)
    ensures CanonicalNat(r)
    ensures r[0] == '0' <==> n == 0
  {
    if n < 10 then [DigitChar(n)] else NatToString(n / 10) + [DigitChar(n % 10)]
  }

  /** `n.toString()` for an integer. */
  function IntToString(n: int): (r: string)
    ensures IsCanonical(r)
    ensures r[0] == '-' <==> n < 0
  {
    if n < 0 then
      var t := NatToString(-n);
      assert ("-" + t)[1..] == t;
      "-" + t
    else NatToString(n)
  }

  /** The decimal integers `Number(s)` accepts: an optional sign and at least one digit. */
  predicate IsNumeric(s: string) {
    || (|s| > 0 && AllDigits(s))
    || (|s| > 1 && (s[0] == '-' || s[0] == '+') && AllDigits(s[1..]))
  }

  function ParseNat(s: string): nat
    requires AllDigits(s)
  {
    if s == [] then 0 else ParseNat(s[..|s| - 1]) * 10 + DigitValue(s[|s| - 1])
  }

  /** `Number(s)` on a decimal integer string. */
  function ParseInt(s: string): int
    requires IsNumeric(s)
  {
    if s[0] == '-' then -(ParseNat(s[1..]) as int)
    else if s[0] == '+' then ParseNat(s[1..])
    else ParseNat(s)
  }

  lemma {:induction false} ParseNatToString(n: nat)
    ensures ParseNat(NatToString(n)) == n
  {
    if n >= 10 {
      var t := NatToString(n / 10);
      var s := t + [DigitChar(n % 10)];
      assert s[..|s| - 1] == t;
      ParseNatToString(n / 10);
    }
  }

  /** A number's digits start with a non-zero digit when it is not zero. */
  lemma {:induction false} ParseNatPositive(t: string)
    requires |t| > 0 && AllDigits(t) && t[0] != '0'
    ensures ParseNat(t) >= 1
  {
    if |t| > 1 {
      ParseNatPositive(t[..|t| - 1]);
    }
  }

  /** Canonical digits are the only text of the number they denote. */
  lemma {:induction false} NatToStringParse(t: string)
    requires CanonicalNat(t)
    ensures NatToString(ParseNat(t)) == t
  {
    var p, d := t[..|t| - 1], DigitValue(t[|t| - 1]);
    if |t| > 1 {
      assert p[0] == t[0];
      ParseNatPositive(p);
      NatToStringParse(p);
      var m := ParseNat(t);
      assert m == ParseNat(p) * 10 + d && d < 10;
      assert m / 10 == ParseNat(p) && m % 10 == d;
      assert DigitChar(d) == t[|t| - 1];
      assert t == p + [t[|t| - 1]];
    } else {
      assert DigitChar(d) == t[0];
    }
  }

  /** Reading back an integer's text gives the integer: `Number(String(n)) === n`. */
  lemma IntRoundTrip(n: int)
    ensures IsNumeric(IntToString(n)) && ParseInt(IntToString(n)) == n
  {
    if n < 0 {
      var t := NatToString(-n);
      assert IntToString(n)[1..] == t;
      ParseNatToString(-n);
    } else {
      ParseNatToString(n);
    }
  }

  /** `toString` writes each integer one way only: a text is an integer's text exactly when it
      is canonical (no `+`, no leading zero, no `-0`) and reads back as that integer. */
  lemma IntToStringIff(n: int, s: string)
    ensures IntToString(n) == s <==> IsCanonical(s) && IsNumeric(s) && ParseInt(s) == n
  {
    IntRoundTrip(n);
    if IsCanonical(s) && IsNumeric(s) && ParseInt(s) == n {
      if s[0] == '-' {
        NatToStringParse(s[1..]);
        ParseNatPositive(s[1..]);
        assert s == "-" + s[1..];
      } else {
        NatToStringParse(s);
      }
    }
  }

  /** `"07"`, `"+7"` and `"-0"` are nobody's text, though `Number` reads them. */
  lemma NonCanonicalTexts()
    ensures IntToString(7) == "7" && IntToString(7) != "07" && IntToString(7) != "+7"
    ensures forall n :: IntToString(n) != "-0"
  {
    assert IntToString(7) == [DigitChar(7)];
    assert !IsCanonical("-0") by {
      assert "-0"[1] == '0';
    }
  }
}
