/**
  The observations and follow-up questions panel of src/components/Insights.jsx: the guard
  that renders nothing when both lists are empty, and `formatMarkdownBold`, the global
  replacement of each lazy match of two asterisks, any text on one line, two asterisks, by
  `<strong>` around that text.
*/
module Insights {
  import opened Wrappers
  import JsText

  // ---------------------------------------------------------------------
  // Matching the bold markers
  // ---------------------------------------------------------------------

  /** A `**` marker starts at position `i`. */
  predicate MarkerAt(s: string, i: int) {
    0 <= i && i + 1 < |s| && s[i] == '*' && s[i + 1] == '*'
  }

  /** `s` contains no `**`. */
  predicate NoMarker(s: string) {
    forall i :: 0 <= i < |s| - 1 ==> !(s[i] == '*' && s[i + 1] == '*')
  }

  /** Every character of `s` is matched by `.`. */
  predicate NoLineTerminator(s: string) {
    forall i :: 0 <= i < |s| ==> !JsText.IsLineTerminator(s[i])
  }

  /** Where a match whose enclosed text starts at `j` closes under the lazy `(.*?)`: the
      first `k >= j` with a marker at `k` such that `.` can cover `s[j..k]`; `None` when a
      line terminator or the end comes first. */
  function CloseFrom(s: string, j: nat): (r: Option<nat>)
    requires j <= |s|
    ensures r.Some? ==> j <= r.value && MarkerAt(s, r.value)
    decreases |s| - j
  {
    if j + 1 >= |s| then None
    else if s[j] == '*' && s[j + 1] == '*' then Some(j)
    else if JsText.IsLineTerminator(s[j]) then None
    else CloseFrom(s, j + 1)
  }

  /** The close found is the first marker reachable from `j` without crossing a line break,
      and when none is found there is no such marker. */
  lemma {:induction false} CloseFromSpec(s: string, j: nat)
    requires j <= |s|
    ensures var r := CloseFrom(s, j);
      && (r.Some? ==> NoLineTerminator(s[j..r.value]) && forall m :: j <= m < r.value ==> !MarkerAt(s, m))
      && (r.None? ==> forall k :: j <= k && MarkerAt(s, k) ==> !NoLineTerminator(s[j..k]))
    decreases |s| - j
  {
    if j + 1 >= |s| {
    } else if s[j] == '*' && s[j + 1] == '*' {
    } else if JsText.IsLineTerminator(s[j]) {
      assert forall k :: j < k <= |s| ==> s[j..k][0] == s[j];
    } else {
      CloseFromSpec(s, j + 1);
      assert forall k :: j + 1 <= k <= |s| ==> s[j..k] == [s[j]] + s[j + 1..k];
    }
  }

  /** A piece of the rewritten text: a character outside every match, or the text a match
      encloses. */
  datatype Piece = Plain(c: char) | Strong(text: string)

  /** The enclosed text of a match is what the lazy `(.*?)` captures: no marker, no line
      break, and no final `*` (with one, the closing marker would have started a character
      earlier). */
  predicate WellMatched(p: Piece) {
    p.Strong? ==> NoMarker(p.text) && NoLineTerminator(p.text) && (p.text == [] || p.text[|p.text| - 1] != '*')
  }

  /** The matches of the global regular expression, left to right without overlap: at each
      position a match is tried; on success scanning resumes after it, otherwise one
      character is copied and scanning moves on by one. */
  function Scan(s: string): (ps: seq<Piece>)
    ensures |ps| <= |s|
    decreases |s|
  {
    if s == [] then []
    else if MarkerAt(s, 0) && CloseFrom(s, 2).Some? then
      var k := CloseFrom(s, 2).value;
      [Strong(s[2..k])] + Scan(s[k + 2..])
    else
      [Plain(s[0])] + Scan(s[1..])
  }

  /** The text a match encloses has no marker and does not end with `*`: either would have
      closed the match earlier. */
  lemma EnclosedHasNoMarker(s: string, k: nat)
    requires 2 <= k && MarkerAt(s, k) && forall m :: 2 <= m < k ==> !MarkerAt(s, m)
    ensures NoMarker(s[2..k])
    ensures k == 2 || s[2..k][k - 3] != '*'
  {
    var t := s[2..k];
    forall i | 0 <= i < |t| - 1 ensures !(t[i] == '*' && t[i + 1] == '*') {
      assert t[i] == s[i + 2] && t[i + 1] == s[i + 3];
      assert !MarkerAt(s, i + 2);
    }
    if k > 2 {
      assert t[k - 3] == s[k - 1];
      assert !MarkerAt(s, k - 1);
    }
  }

  /** Prepending a well-matched piece keeps every piece well matched. */
  lemma WellMatchedCons(p: Piece, ps: seq<Piece>)
    requires WellMatched(p) && forall i :: 0 <= i < |ps| ==> WellMatched(ps[i])
    ensures forall i :: 0 <= i < |[p] + ps| ==> WellMatched(([p] + ps)[i])
  {
    assert forall i :: 1 <= i < |[p] + ps| ==> ([p] + ps)[i] == ps[i - 1];
  }

  /** Every matched text is what `(.*?)` can capture: no marker and no line break. */
  lemma {:induction false} ScanWellMatched(s: string)
    ensures forall i :: 0 <= i < |Scan(s)| ==> WellMatched(Scan(s)[i])
    decreases |s|
  {
    if s != [] {
      ScanStep(s);
      if MarkerAt(s, 0) && CloseFrom(s, 2).Some? {
        var k := CloseFrom(s, 2).value;
        CloseFromSpec(s, 2);
        EnclosedHasNoMarker(s, k);
        ScanWellMatched(s[k + 2..]);
        WellMatchedCons(Strong(s[2..k]), Scan(s[k + 2..]));
      } else {
        ScanWellMatched(s[1..]);
        WellMatchedCons(Plain(s[0]), Scan(s[1..]));
      }
    }
  }

  /** The text of a piece in the output. */
  function RenderPiece(p: Piece): string {
    match p
    case Plain(c) => [c]
    case Strong(t) => "<strong>" + t + "</strong>"
  }

  /** The text of a piece in the input. */
  function OriginalPiece(p: Piece): string {
    match p
    case Plain(c) => [c]
    case Strong(t) => "**" + t + "**"
  }

  function Render(ps: seq<Piece>): string {
    if ps == [] then [] else RenderPiece(ps[0]) + Render(ps[1..])
  }

  function Original(ps: seq<Piece>): string {
    if ps == [] then [] else OriginalPiece(ps[0]) + Original(ps[1..])
  }

  /** Each piece is no longer in the output than in the input. */
  lemma {:induction false} RenderNotShorter(ps: seq<Piece>)
    ensures |Original(ps)| <= |Render(ps)|
  {
    if ps != [] {
      RenderNotShorter(ps[1..]);
    }
  }

  /** `formatMarkdownBold(text)`: the pieces of the scan, rendered. Since the scan gives the
      input back (`ScanKeepsText`) and no piece shrinks, the output is never shorter. */
  function FormatMarkdownBold(s: string): (r: string)
    ensures |s| <= |r|
  {
    ScanKeepsText(s);
    RenderNotShorter(Scan(s));
    Render(Scan(s))
  }

  lemma OriginalCons(p: Piece, ps: seq<Piece>)
    ensures Original([p] + ps) == OriginalPiece(p) + Original(ps)
  {
    assert ([p] + ps)[1..] == ps;
  }

  /** A match followed by pieces that give back the rest of the input gives back the input:
      the opening marker, the enclosed text, the closing marker and the rest. */
  lemma StrongStep(s: string, k: nat, tail: seq<Piece>)
    requires MarkerAt(s, 0) && 2 <= k && MarkerAt(s, k) && Original(tail) == s[k + 2..]
    ensures Original([Strong(s[2..k])] + tail) == s
  {
    var t := s[2..k];
    OriginalCons(Strong(t), tail);
    var head := "**" + t + "**";
    assert |head| == k + 2;
    assert forall i :: 0 <= i < k + 2 ==> head[i] == s[i];
    assert s == s[..k + 2] + s[k + 2..];
    assert s[..k + 2] == head;
  }

  /** A copied character followed by pieces that give back the rest gives back the input. */
  lemma PlainStep(s: string, tail: seq<Piece>)
    requires s != [] && Original(tail) == s[1..]
    ensures Original([Plain(s[0])] + tail) == s
  {
    OriginalCons(Plain(s[0]), tail);
    assert s == [s[0]] + s[1..];
  }

  /** What one step of the scan produces. */
  lemma ScanStep(s: string)
    requires s != []
    ensures MarkerAt(s, 0) && CloseFrom(s, 2).Some? ==>
      Scan(s) == [Strong(s[2..CloseFrom(s, 2).value])] + Scan(s[CloseFrom(s, 2).value + 2..])
    ensures !(MarkerAt(s, 0) && CloseFrom(s, 2).Some?) ==> Scan(s) == [Plain(s[0])] + Scan(s[1..])
  {
  }

  /** The matches and the characters between them make up the input exactly: the text
      outside the matches is copied, and each match's text is what it encloses. */
  lemma {:induction false} ScanKeepsText(s: string)
    ensures Original(Scan(s)) == s
    decreases |s|
  {
    if s != [] {
      ScanStep(s);
      if MarkerAt(s, 0) && CloseFrom(s, 2).Some? {
        var k := CloseFrom(s, 2).value;
        ScanKeepsText(s[k + 2..]);
        StrongStep(s, k, Scan(s[k + 2..]));
      } else {
        ScanKeepsText(s[1..]);
        PlainStep(s, Scan(s[1..]));
      }
    }
  }

  /** No two markers with only `.`-characters between them: the expression has no match. */
  ghost predicate NoPair(s: string) {
    forall i, k :: MarkerAt(s, i) && i + 2 <= k && MarkerAt(s, k) ==> !NoLineTerminator(s[i + 2..k])
  }

  /** Text in which no pair can be matched is returned unchanged. */
  lemma {:induction false} NoPairUnchanged(s: string)
    requires NoPair(s)
    ensures FormatMarkdownBold(s) == s
    decreases |s|
  {
    if s != [] {
      if MarkerAt(s, 0) {
        CloseFromSpec(s, 2);
        assert CloseFrom(s, 2).None?;
      }
      var t := s[1..];
      assert NoPair(t) by {
        forall i, k | MarkerAt(t, i) && i + 2 <= k && MarkerAt(t, k)
          ensures !NoLineTerminator(t[i + 2..k])
        {
          assert MarkerAt(s, i + 1) && MarkerAt(s, k + 1);
          assert t[i + 2..k] == s[i + 3..k + 1];
        }
      }
      NoPairUnchanged(t);
      var ps := Scan(s);
      assert ps[1..] == Scan(t);
      assert s == [s[0]] + t;
    }
  }

  /** A string without `**` is returned unchanged. */
  lemma NoMarkerUnchanged(s: string)
    requires NoMarker(s)
    ensures FormatMarkdownBold(s) == s
  {
    assert forall i :: !MarkerAt(s, i);
    NoPairUnchanged(s);
  }

  /** A string with exactly one `**` is returned unchanged. */
  lemma LoneMarkerUnchanged(s: string, i: nat)
    requires MarkerAt(s, i) && forall j :: MarkerAt(s, j) ==> j == i
    ensures FormatMarkdownBold(s) == s
  {
    NoPairUnchanged(s);
  }

  /** `.` does not match a line break, so a pair around one stays as it is. */
  lemma LineBreakExample()
    ensures FormatMarkdownBold("**a\nb**") == "**a\nb**"
  {
    var s := "**a\nb**";
    assert NoPair(s) by {
      forall i, k | MarkerAt(s, i) && i + 2 <= k && MarkerAt(s, k)
        ensures !NoLineTerminator(s[i + 2..k])
      {
        assert i == 0 && k == 5;
        assert s[i + 2..k][1] == '\n';
      }
    }
    NoPairUnchanged(s);
  }

  /** The lazy match closes at the first marker reachable from `j` when every position before
      it is neither a marker start nor a line terminator. */
  lemma CloseAtFirst(s: string, j: nat, k: nat)
    requires j <= k && MarkerAt(s, k)
    requires forall m :: j <= m < k ==> !MarkerAt(s, m) && !JsText.IsLineTerminator(s[m])
    ensures CloseFrom(s, j) == Some(k)
  {
    CloseFromSpec(s, j);
    assert NoLineTerminator(s[j..k]) by {
      forall i | 0 <= i < |s[j..k]| ensures !JsText.IsLineTerminator(s[j..k][i]) {
        assert s[j..k][i] == s[j + i];
      }
    }
  }

  /** One pair around text `x` becomes one `<strong>` element, provided `x` has no marker and
      no line break and does not end with `*` (see `TrailingStarExample`). */
  lemma SinglePair(x: string)
    requires NoMarker(x) && NoLineTerminator(x)
    requires x == [] || x[|x| - 1] != '*'
    ensures FormatMarkdownBold("**" + x + "**") == "<strong>" + x + "</strong>"
  {
    var s := "**" + x + "**";
    var k := |x| + 2;
    forall m | 2 <= m < k ensures !MarkerAt(s, m) && !JsText.IsLineTerminator(s[m]) {
      assert s[m] == x[m - 2];
      if m + 1 < k {
        assert s[m + 1] == x[m - 1];
      }
    }
    CloseAtFirst(s, 2, k);
    assert MarkerAt(s, 0);
    assert s[2..k] == x;
    assert s[k + 2..] == [];
    assert Scan(s) == [Strong(x)] + Scan([]);
    assert Render([Strong(x)]) == RenderPiece(Strong(x)) + Render([]);
  }

  lemma RenderCons(p: Piece, ps: seq<Piece>)
    ensures Render([p] + ps) == RenderPiece(p) + Render(ps)
  {
    assert ([p] + ps)[1..] == ps;
  }

  /** After a match, scanning resumes behind its closing marker: a pair around `t` becomes one
      `<strong>` element and whatever follows is formatted in turn. */
  lemma MatchStep(t: string, y: string)
    requires NoMarker(t) && NoLineTerminator(t)
    requires t == [] || t[|t| - 1] != '*'
    ensures FormatMarkdownBold("**" + t + "**" + y) == "<strong>" + t + "</strong>" + FormatMarkdownBold(y)
  {
    var s := "**" + t + "**" + y;
    var k := |t| + 2;
    forall m | 2 <= m < k ensures !MarkerAt(s, m) && !JsText.IsLineTerminator(s[m]) {
      assert s[m] == t[m - 2];
      if m + 1 < k {
        assert s[m + 1] == t[m - 1];
      }
    }
    CloseAtFirst(s, 2, k);
    assert MarkerAt(s, 0);
    assert s[2..k] == t;
    assert s[k + 2..] == y;
    ScanStep(s);
    RenderCons(Strong(t), Scan(y));
  }

  /** A character that does not start a marker is copied, and the rest is formatted. */
  lemma PlainLead(s: string)
    requires s != [] && !MarkerAt(s, 0)
    ensures FormatMarkdownBold(s) == [s[0]] + FormatMarkdownBold(s[1..])
  {
    ScanStep(s);
    RenderCons(Plain(s[0]), Scan(s[1..]));
  }

  /** A first character other than `*` is copied ahead of the rest of `x`, formatted with `y`. */
  lemma CopyLead(x: string, y: string, z: string)
    requires x != [] && x[0] != '*' && FormatMarkdownBold(x[1..] + y) == z
    ensures FormatMarkdownBold(x + y) == [x[0]] + z
  {
    var s := x + y;
    assert s[0] == x[0] && s[1..] == x[1..] + y;
    PlainLead(s);
  }

  /** Text without `*` has a first character other than `*` and a rest without `*`. */
  lemma NoStarTail(x: string)
    requires x != [] && '*' !in x
    ensures x[0] != '*' && '*' !in x[1..]
  {
    assert x[0] in x;
    assert forall c :: c in x[1..] ==> c in x;
  }

  lemma ConsConcat(x: string, z: string)
    requires x != []
    ensures [x[0]] + (x[1..] + z) == x + z
  {
    assert x == [x[0]] + x[1..];
  }

  /** `CopyStep` for a given formatting `z` of what follows. */
  lemma {:induction false} CopyBefore(x: string, y: string, z: string)
    requires '*' !in x && FormatMarkdownBold(y) == z
    ensures FormatMarkdownBold(x + y) == x + z
    decreases |x|
  {
    if x == [] {
      assert x + y == y;
    } else {
      NoStarTail(x);
      CopyBefore(x[1..], y, z);
      CopyLead(x, y, x[1..] + z);
      ConsConcat(x, z);
    }
  }

  /** Text without `*` cannot start a match, so it is copied and the rest is formatted. */
  lemma CopyStep(x: string, y: string)
    requires '*' !in x
    ensures FormatMarkdownBold(x + y) == x + FormatMarkdownBold(y)
  {
    CopyBefore(x, y, FormatMarkdownBold(y));
  }

  /** Every pair is replaced, not just the first: two pairs separated by text without `*`
      (`"**a** **b**"`, say) become two `<strong>` elements with that text between them. */
  lemma TwoPairs(t: string, x: string, u: string)
    requires NoMarker(t) && NoLineTerminator(t) && (t == [] || t[|t| - 1] != '*')
    requires NoMarker(u) && NoLineTerminator(u) && (u == [] || u[|u| - 1] != '*')
    requires '*' !in x
    ensures FormatMarkdownBold("**" + t + "**" + (x + ("**" + u + "**")))
      == "<strong>" + t + "</strong>" + (x + ("<strong>" + u + "</strong>"))
  {
    SinglePair(u);
    CopyStep(x, "**" + u + "**");
    MatchStep(t, x + ("**" + u + "**"));
  }

  /** A match of the expression starts at `p`: a marker there, closed on the same line. */
  predicate MatchStartsAt(s: string, p: int) {
    MarkerAt(s, p) && CloseFrom(s, p + 2).Some?
  }

  /** Whether a match closes from position `j` does not depend on the text before `d`. */
  lemma {:induction false} CloseFromShift(s: string, d: nat, j: nat)
    requires d <= j <= |s|
    ensures CloseFrom(s[d..], j - d).Some? == CloseFrom(s, j).Some?
    decreases |s| - j
  {
    if j + 1 < |s| {
      assert s[d..][j - d] == s[j] && s[d..][j - d + 1] == s[j + 1];
      if !(s[j] == '*' && s[j + 1] == '*') && !JsText.IsLineTerminator(s[j]) {
        CloseFromShift(s, d, j + 1);
      }
    }
  }

  /** Whether a match starts at a position is the same in the text and in any suffix holding
      that position. */
  lemma MatchStartsShift(s: string, d: nat, o: nat)
    requires d <= |s|
    ensures MatchStartsAt(s, d + o) == MatchStartsAt(s[d..], o)
  {
    if d + o + 1 < |s| {
      assert s[d..][o] == s[d + o] && s[d..][o + 1] == s[d + o + 1];
      CloseFromShift(s, d, d + o + 2);
    }
  }

  /** No match at position `o` of the suffix from `d` means none at `d + o` in the text. */
  lemma OffsetStep(s: string, d: nat, o: nat, q: int, b: bool)
    requires d <= |s| && q == d + o
    requires b ==> !MatchStartsAt(s[d..], o)
    ensures b ==> !MatchStartsAt(s, q)
  {
    MatchStartsShift(s, d, o);
  }

  /** Where the `i`-th piece starts, measured in the input, after a first piece `p`. */
  lemma PrefixOffset(p: Piece, tail: seq<Piece>, i: nat)
    requires 1 <= i <= |tail| + 1
    ensures |Original(([p] + tail)[..i])| == |OriginalPiece(p)| + |Original(tail[..i - 1])|
  {
    assert ([p] + tail)[..i] == [p] + tail[..i - 1];
    OriginalCons(p, tail[..i - 1]);
  }

  /** Every piece of `ps` that copies a character of `s` sits where no match starts. */
  predicate CopiesOnlyOffMatch(s: string, ps: seq<Piece>) {
    forall i :: 0 <= i < |ps| && ps[i].Plain? ==> !MatchStartsAt(s, |Original(ps[..i])|)
  }

  lemma TailOffMatch(s: string, p: Piece, d: nat, tail: seq<Piece>, i: nat)
    requires d <= |s| && |OriginalPiece(p)| == d && 1 <= i <= |tail|
    requires tail[i - 1].Plain? ==> !MatchStartsAt(s[d..], |Original(tail[..i - 1])|)
    ensures ([p] + tail)[i].Plain? ==> !MatchStartsAt(s, |Original(([p] + tail)[..i])|)
  {
    PrefixOffset(p, tail, i);
    assert ([p] + tail)[i] == tail[i - 1];
    OffsetStep(s, d, |Original(tail[..i - 1])|, |Original(([p] + tail)[..i])|, tail[i - 1].Plain?);
  }

  /** One step of `ScanTakesEveryMatch`: a first piece of input length `d`, copied only where
      no match starts, followed by pieces for the rest that have the property. */
  lemma TakesEveryMatchStep(s: string, p: Piece, d: nat, tail: seq<Piece>)
    requires 1 <= d <= |s| && |OriginalPiece(p)| == d
    requires p.Plain? ==> !MatchStartsAt(s, 0)
    requires CopiesOnlyOffMatch(s[d..], tail)
    ensures CopiesOnlyOffMatch(s, [p] + tail)
  {
    var ps := [p] + tail;
    forall i | 0 <= i < |ps| && ps[i].Plain? ensures !MatchStartsAt(s, |Original(ps[..i])|) {
      if i == 0 {
        assert ps[..0] == [];
      } else {
        TailOffMatch(s, p, d, tail, i);
      }
    }
  }

  /** The replacement is global: a character is copied only at a position where no match
      starts, so wherever a match can start outside the matches already taken, one is taken. */
  lemma {:induction false} ScanTakesEveryMatch(s: string)
    ensures CopiesOnlyOffMatch(s, Scan(s))
    decreases |s|
  {
    if s != [] {
      ScanStep(s);
      if MarkerAt(s, 0) && CloseFrom(s, 2).Some? {
        var k := CloseFrom(s, 2).value;
        ScanTakesEveryMatch(s[k + 2..]);
        TakesEveryMatchStep(s, Strong(s[2..k]), k + 2, Scan(s[k + 2..]));
      } else {
        ScanTakesEveryMatch(s[1..]);
        TakesEveryMatchStep(s, Plain(s[0]), 1, Scan(s[1..]));
      }
    }
  }

  /** When the enclosed text ends with `*`, the match closes one character early. */
  lemma TrailingStarExample()
    ensures FormatMarkdownBold("**a***") == "<strong>a</strong>*"
  {
    var s := "**a***";
    CloseAtFirst(s, 2, 3);
    assert s[2..3] == "a" && s[5..] == "*";
    var rest := s[5..];
    assert !MarkerAt(rest, 0);
    assert Scan(rest) == [Plain('*')] + Scan(rest[1..]);
    assert Scan(rest) == [Plain('*')];
    assert Scan(s) == [Strong("a"), Plain('*')];
  }

  // ---------------------------------------------------------------------
  // The panel
  // ---------------------------------------------------------------------

  /** `list && list.length > 0` for a prop that may be absent. */
  predicate HasItems(list: Option<seq<string>>) {
    list.Some? && |list.value| > 0
  }

  /** What the panel shows: each section (present only when its list is non-empty) with every
      item formatted. */
  datatype Panel = Panel(observations: Option<seq<string>>, followUps: Option<seq<string>>)

  function FormatAll(list: seq<string>): (r: seq<string>)
    ensures |r| == |list| && forall i :: 0 <= i < |list| ==> r[i] == FormatMarkdownBold(list[i])
  {
    seq(|list|, i requires 0 <= i < |list| => FormatMarkdownBold(list[i]))
  }

  /** `Insights({ comments, suggestions })`: nothing at all when both lists are empty or absent. */
  function View(comments: Option<seq<string>>, suggestions: Option<seq<string>>): (v: Option<Panel>)
    ensures v.None? <==> (comments.None? || comments.value == []) && (suggestions.None? || suggestions.value == [])
    ensures v.Some? ==> (v.value.observations.Some? <==> HasItems(comments))
    ensures v.Some? ==> (v.value.followUps.Some? <==> HasItems(suggestions))
    ensures v.Some? && HasItems(comments) ==> v.value.observations == Some(FormatAll(comments.value))
    ensures v.Some? && HasItems(suggestions) ==> v.value.followUps == Some(FormatAll(suggestions.value))
  {
    if !HasItems(comments) && !HasItems(suggestions) then None
    else Some(Panel(
      if HasItems(comments) then Some(FormatAll(comments.value)) else None,
      if HasItems(suggestions) then Some(FormatAll(suggestions.value)) else None))
  }

  /** Plain items (no `**`) are shown as they are. */
  lemma PlainItemsShownVerbatim(comments: seq<string>)
    requires comments != [] && forall i :: 0 <= i < |comments| ==> NoMarker(comments[i])
    ensures View(Some(comments), None) == Some(Panel(Some(comments), None))
  {
    forall i | 0 <= i < |comments| ensures FormatMarkdownBold(comments[i]) == comments[i] {
      NoMarkerUnchanged(comments[i]);
    }
    assert FormatAll(comments) == comments;
  }
}
