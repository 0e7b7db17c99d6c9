/** The java.lang.String operations the task tracker relies on: trim,
    indexOf/contains, split on a literal separator, split on runs of
    whitespace, and ASCII lower-casing. Strings are sequences of chars. */
module JavaString {

  /** String.trim() strips every character whose code is at most U+0020. */
  predicate IsTrimmable(c: char) {
    c <= ' '
  }

  /** The characters the regular-expression class \s matches: space, tab,
      line feed, vertical tab, form feed and carriage return. */
  predicate IsWhitespace(c: char) {
    c == ' ' || '\t' <= c <= '\r'
  }

  // ---------------------------------------------------------------- trim

  /** How many trimmable characters s starts with: the first index the
      forward scan of String.trim() stops at. */
  function LeadingTrimmable(s: string): (k: nat)
    ensures k <= |s|
    ensures forall i :: 0 <= i < k ==> IsTrimmable(s[i])
    ensures k < |s| ==> !IsTrimmable(s[k])
  {
    if s != [] && IsTrimmable(s[0]) then 1 + LeadingTrimmable(s[1..]) else 0
  }

  /** Where the backward scan of String.trim() stops: starting from e and
      never going below lo, it steps back over trimmable characters. */
  function TrailingCut(s: string, lo: nat, e: nat): (r: nat)
    requires lo <= e <= |s|
    ensures lo <= r <= e
    ensures forall i :: r <= i < e ==> IsTrimmable(s[i])
    ensures r > lo ==> !IsTrimmable(s[r - 1])
    decreases e
  {
    if e > lo && IsTrimmable(s[e - 1]) then TrailingCut(s, lo, e - 1) else e
  }

  /** String.trim(): the slice of s left after dropping the leading and the
      trailing runs of characters at most U+0020. */
  function Trim(s: string): (r: string)
    ensures r == [] || (!IsTrimmable(r[0]) && !IsTrimmable(r[|r| - 1]))
    ensures var k := LeadingTrimmable(s);
              && k + |r| <= |s|
              && r == s[k..k + |r|]
              && (forall i :: 0 <= i < k ==> IsTrimmable(s[i]))
              && (forall i :: k + |r| <= i < |s| ==> IsTrimmable(s[i]))
  {
    var k := LeadingTrimmable(s);
    s[k..TrailingCut(s, k, |s|)]
  }

  /** Trim yields nothing exactly when every character is trimmable. */
  lemma TrimEmptyIffBlank(s: string)
    ensures Trim(s) == [] <==> forall i :: 0 <= i < |s| ==> IsTrimmable(s[i])
  {
    var k := LeadingTrimmable(s);
    if Trim(s) != [] {
      assert s[k] == Trim(s)[0];
    }
  }

  /** Trimming text that already has no trimmable ends gives it back. */
  lemma TrimFixesTrimmed(s: string)
    requires s == [] || (!IsTrimmable(s[0]) && !IsTrimmable(s[|s| - 1]))
    ensures Trim(s) == s
  {
    TrimPadded([], s, []);
  }

  /** Surrounding text with trimmable characters is undone by Trim. */
  lemma TrimPadded(pre: string, x: string, post: string)
    requires forall i :: 0 <= i < |pre| ==> IsTrimmable(pre[i])
    requires forall i :: 0 <= i < |post| ==> IsTrimmable(post[i])
    requires x == [] || (!IsTrimmable(x[0]) && !IsTrimmable(x[|x| - 1]))
    requires x == [] ==> pre == [] && post == []
    ensures Trim(pre + x + post) == x
  {
    var s := pre + x + post;
    if x != [] {
      var k := LeadingTrimmable(s);
      assert s[|pre|] == x[0];
      assert forall i :: 0 <= i < |pre| ==> s[i] == pre[i];
      assert k == |pre|;
      var e := |pre| + |x|;
      assert s[e - 1] == x[|x| - 1];
      assert forall i :: e <= i < |s| ==> s[i] == post[i - e];
      assert TrailingCut(s, k, |s|) == e;
      assert s[k..e] == x;
    }
  }

  // ------------------------------------------------------ indexOf / contains

  /** sub occurs in s starting at position i. */
  predicate OccursAt(s: string, sub: string, i: int) {
    0 <= i && i + |sub| <= |s| && s[i..i + |sub|] == sub
  }

  lemma ShiftOccurrence(s: string, sub: string)
    requires |s| > 0
    ensures forall i :: 1 <= i ==> (OccursAt(s, sub, i) <==> OccursAt(s[1..], sub, i - 1))
  {
    forall i | 1 <= i
      ensures OccursAt(s, sub, i) <==> OccursAt(s[1..], sub, i - 1)
    {
      if i + |sub| <= |s| {
        assert s[1..][i - 1..i - 1 + |sub|] == s[i..i + |sub|];
      }
    }
  }

  /** String.indexOf(sub): the first position where sub occurs, or -1. */
  function IndexOf(s: string, sub: string): (r: int)
    ensures -1 <= r <= |s|
    ensures r >= 0 ==> OccursAt(s, sub, r)
    ensures forall i :: 0 <= i && (r < 0 || i < r) ==> !OccursAt(s, sub, i)
    decreases |s|
  {
    if |s| < |sub| then -1
    else if s[..|sub|] == sub then 0
    else
      ShiftOccurrence(s, sub);
      var k := IndexOf(s[1..], sub);
      if k < 0 then -1 else k + 1
  }

  /** String.contains(sub). */
  function Contains(s: string, sub: string): (b: bool)
    ensures b <==> exists i :: OccursAt(s, sub, i)
  {
    IndexOf(s, sub) >= 0
  }

  /** A one-character text is contained exactly when the character occurs. */
  lemma ContainsChar(s: string, c: char)
    ensures Contains(s, [c]) <==> c in s
  {
    if c in s {
      var i :| 0 <= i < |s| && s[i] == c;
      assert OccursAt(s, [c], i);
    }
    if Contains(s, [c]) {
      var i :| OccursAt(s, [c], i);
      assert s[i] == s[i..i + 1][0];
    }
  }

  /** What a prefix contains, the whole text contains. */
  lemma ContainsInPrefix(a: string, b: string, sub: string)
    requires Contains(a, sub)
    ensures Contains(a + b, sub)
  {
    var i :| OccursAt(a, sub, i);
    assert (a + b)[i..i + |sub|] == a[i..i + |sub|];
    assert OccursAt(a + b, sub, i);
  }

  /** A text without the separator's second character cannot contain it. */
  lemma AbsentCharNotContained(s: string, sub: string)
    requires |sub| >= 2 && sub[1] !in s
    ensures !Contains(s, sub)
  {
    forall i
      ensures !OccursAt(s, sub, i)
    {
      if 0 <= i && i + |sub| <= |s| {
        assert s[i..i + |sub|][1] == s[i + 1];
      }
    }
  }

  /** A text missing any one character of sub cannot contain sub. */
  lemma MissingCharNotContained(s: string, sub: string, k: nat)
    requires k < |sub| && sub[k] !in s
    ensures !Contains(s, sub)
  {
    forall i
      ensures !OccursAt(s, sub, i)
    {
      if 0 <= i && i + |sub| <= |s| {
        assert s[i..i + |sub|][k] == s[i + k];
      }
    }
  }

  /** A text without the separator's second character can stand before the
      separator, provided the separator's first two characters differ. */
  lemma SeparableByAbsence(x: string, sep: string)
    requires |sep| >= 2 && sep[0] != sep[1] && sep[1] !in x
    ensures Separable(x, sep) && !Contains(x, sep)
  {
    AbsentCharNotContained(x, sep);
    var y := x + sep[..|sep| - 1];
    forall i
      ensures !OccursAt(y, sep, i)
    {
      if 0 <= i && i + |sep| <= |y| {
        assert y[i..i + |sep|][1] == y[i + 1];
        if i + 1 < |x| {
          assert y[i + 1] == x[i + 1];
        } else {
          assert y[i + 1] == sep[0];
        }
      }
    }
  }

  // ------------------------------------------------- split on a separator

  /** The pieces of s between successive leftmost occurrences of sep,
      trailing empty pieces included. */
  function Pieces(s: string, sep: string): (r: seq<string>)
    requires |sep| > 0
    ensures |r| >= 1
    decreases |s|
  {
    var i := IndexOf(s, sep);
    if i < 0 then [s] else [s[..i]] + Pieces(s[i + |sep|..], sep)
  }

  /** ps without its trailing run of empty strings. */
  function DropTrailingEmpty(ps: seq<string>): (r: seq<string>)
    ensures |r| <= |ps| && r == ps[..|r|]
    ensures r == [] || r[|r| - 1] != []
    ensures forall i :: |r| <= i < |ps| ==> ps[i] == []
  {
    if |ps| > 0 && ps[|ps| - 1] == [] then DropTrailingEmpty(ps[..|ps| - 1]) else ps
  }

  /** String.split(regex) where regex matches exactly the literal sep:
      all pieces, trailing empty ones dropped, and the whole text when sep
      does not occur at all. */
  function Split(s: string, sep: string): (r: seq<string>)
    requires |sep| > 0
  {
    if IndexOf(s, sep) < 0 then [s] else DropTrailingEmpty(Pieces(s, sep))
  }

  /** The pieces glued back together with sep between them. */
  function Join(ps: seq<string>, sep: string): string
    requires |ps| >= 1
  {
    if |ps| == 1 then ps[0] else ps[0] + sep + Join(ps[1..], sep)
  }

  /** Joining a field in front of at least one more puts one separator
      between them. */
  lemma JoinCons(x: string, ps: seq<string>, sep: string)
    requires |ps| >= 1
    ensures Join([x] + ps, sep) == x + sep + Join(ps, sep)
  {
    assert ([x] + ps)[1..] == ps;
  }

  /** Cutting s at two positions and gluing the three parts back gives s. */
  lemma SliceSplit(s: string, i: int, j: int)
    requires 0 <= i <= j <= |s|
    ensures s == s[..i] + s[i..j] + s[j..]
  {
  }

  /** Splitting loses nothing: joining the pieces gives the text back. */
  lemma {:induction false} JoinPieces(s: string, sep: string)
    requires |sep| > 0
    ensures Join(Pieces(s, sep), sep) == s
    decreases |s|
  {
    var i := IndexOf(s, sep);
    if i >= 0 {
      var rest := s[i + |sep|..];
      assert Pieces(s, sep) == [s[..i]] + Pieces(rest, sep);
      JoinCons(s[..i], Pieces(rest, sep), sep);
      JoinPieces(rest, sep);
      SliceSplit(s, i, i + |sep|);
    }
  }

  /** x can stand before sep in a joined text without sep being found
      earlier: x holds no sep, and no sep straddles the end of x. */
  predicate Separable(x: string, sep: string)
    requires |sep| > 0
  {
    !Contains(x + sep[..|sep| - 1], sep)
  }

  /** A separable field ends exactly where the first sep begins. */
  lemma IndexOfAfterSeparable(x: string, sep: string, rest: string)
    requires |sep| > 0 && Separable(x, sep)
    ensures IndexOf(x + sep + rest, sep) == |x|
  {
    var s := x + sep + rest;
    var t := x + sep[..|sep| - 1];
    assert s[|x|..|x| + |sep|] == sep;
    assert OccursAt(s, sep, |x|);
    forall i | 0 <= i < |x|
      ensures !OccursAt(s, sep, i)
    {
      assert !OccursAt(t, sep, i);
      assert s[i..i + |sep|] == t[i..i + |sep|];
    }
  }

  /** Splitting a join gives the fields back when every field but the last
      is separable and the last holds no sep. */
  lemma {:induction false} PiecesOfJoin(ps: seq<string>, sep: string)
    requires |sep| > 0 && |ps| >= 1
    requires forall k :: 0 <= k < |ps| - 1 ==> Separable(ps[k], sep)
    requires !Contains(ps[|ps| - 1], sep)
    ensures Pieces(Join(ps, sep), sep) == ps
  {
    if |ps| > 1 {
      var rest := Join(ps[1..], sep);
      var s := ps[0] + sep + rest;
      IndexOfAfterSeparable(ps[0], sep, rest);
      assert s[..|ps[0]|] == ps[0];
      assert s[|ps[0]| + |sep|..] == rest;
      PiecesOfJoin(ps[1..], sep);
      assert ps == [ps[0]] + ps[1..];
    }
  }

  /** Split inverts Join under the same side conditions, provided there are
      at least two fields and the last is not empty. */
  lemma SplitJoin(ps: seq<string>, sep: string)
    requires |sep| > 0 && |ps| >= 2
    requires forall k :: 0 <= k < |ps| - 1 ==> Separable(ps[k], sep)
    requires !Contains(ps[|ps| - 1], sep) && ps[|ps| - 1] != []
    ensures Split(Join(ps, sep), sep) == ps
  {
    PiecesOfJoin(ps, sep);
    assert Pieces(Join(ps, sep), sep) == ps;
    assert IndexOf(Join(ps, sep), sep) >= 0;
  }

  /** The text between the first occurrence of sep and the next one, or the
      end of s when there is no next one. */
  function SecondPiece(s: string, sep: string): string
    requires |sep| > 0 && Contains(s, sep)
  {
    var rest := s[IndexOf(s, sep) + |sep|..];
    var j := IndexOf(rest, sep);
    if j < 0 then rest else rest[..j]
  }

  /** The first two fields of Split, read off the occurrences of sep: the
      text before the first sep, and the text after it up to the next. */
  lemma SplitFirstFields(s: string, sep: string)
    requires |sep| > 0
    ensures |Split(s, sep)| >= 2 ==>
              Contains(s, sep)
              && Split(s, sep)[0] == s[..IndexOf(s, sep)]
              && Split(s, sep)[1] == SecondPiece(s, sep)
    ensures (|Split(s, sep)| >= 2 && Split(s, sep)[1] != []) <==>
              (Contains(s, sep) && SecondPiece(s, sep) != [])
  {
    var i := IndexOf(s, sep);
    if i >= 0 {
      var rest := s[i + |sep|..];
      var ps := Pieces(s, sep);
      assert ps[0] == s[..i];
      assert ps[1] == Pieces(rest, sep)[0];
      assert ps[1] == SecondPiece(s, sep);
    }
  }

  /** When s does not end the way sep ends, the last piece is not empty. */
  lemma {:induction false} LastPieceNonEmpty(s: string, sep: string)
    requires |sep| > 0 && |s| > 0 && s[|s| - 1] != sep[|sep| - 1]
    ensures Pieces(s, sep)[|Pieces(s, sep)| - 1] != []
    decreases |s|
  {
    var i := IndexOf(s, sep);
    if i >= 0 {
      assert s[i + |sep| - 1] == s[i..i + |sep|][|sep| - 1];
      var rest := s[i + |sep|..];
      assert rest[|rest| - 1] == s[|s| - 1];
      LastPieceNonEmpty(rest, sep);
    }
  }

  /** For a text that does not end the way sep ends (a trimmed text, when
      sep ends in a space), Split yields two or more fields exactly when sep
      occurs. */
  lemma SplitHasTwoFields(s: string, sep: string)
    requires |sep| > 0 && |s| > 0 && s[|s| - 1] != sep[|sep| - 1]
    ensures |Split(s, sep)| >= 2 <==> Contains(s, sep)
  {
    if Contains(s, sep) {
      LastPieceNonEmpty(s, sep);
      var i := IndexOf(s, sep);
      assert |Pieces(s, sep)| >= 2;
    }
  }

  // ------------------------------------------------- split on whitespace

  /** Index of the first \s character of s, or |s| when there is none. */
  function FirstWhitespace(s: string): (i: nat)
    ensures i <= |s|
    ensures i < |s| ==> IsWhitespace(s[i])
    ensures forall j :: 0 <= j < i ==> !IsWhitespace(s[j])
  {
    if |s| == 0 || IsWhitespace(s[0]) then 0 else 1 + FirstWhitespace(s[1..])
  }

  /** s without its leading run of \s characters. */
  function SkipWhitespace(s: string): (r: string)
    ensures |r| <= |s| && r == s[|s| - |r|..]
    ensures r == [] || !IsWhitespace(r[0])
    ensures forall j :: 0 <= j < |s| - |r| ==> IsWhitespace(s[j])
  {
    if |s| > 0 && IsWhitespace(s[0]) then SkipWhitespace(s[1..]) else s
  }

  /** The pieces of s between maximal runs of \s characters. */
  function WhitespacePieces(s: string): (r: seq<string>)
    ensures |r| >= 1
    decreases |s|
  {
    var i := FirstWhitespace(s);
    if i == |s| then [s]
    else
      var rest := SkipWhitespace(s[i..]);
      assert |rest| < |s[i..]|;
      [s[..i]] + WhitespacePieces(rest)
  }

  /** String.split("\\s+"). */
  function SplitWhitespace(s: string): seq<string>
  {
    if FirstWhitespace(s) == |s| then [s] else DropTrailingEmpty(WhitespacePieces(s))
  }

  /** A non-empty run of characters none of which is \s. */
  predicate IsToken(t: string) {
    t != [] && forall j :: 0 <= j < |t| ==> !IsWhitespace(t[j])
  }

  function Concat(ps: seq<string>): string
  {
    if ps == [] then [] else ps[0] + Concat(ps[1..])
  }

  /** s with every \s character deleted. */
  function RemoveWhitespace(s: string): string
  {
    if s == [] then [] else (if IsWhitespace(s[0]) then [] else [s[0]]) + RemoveWhitespace(s[1..])
  }

  lemma {:induction false} RemoveWhitespaceAppend(a: string, b: string)
    ensures RemoveWhitespace(a + b) == RemoveWhitespace(a) + RemoveWhitespace(b)
    decreases |a|
  {
    if a == [] {
      assert a + b == b;
    } else {
      assert (a + b)[0] == a[0];
      assert (a + b)[1..] == a[1..] + b;
      RemoveWhitespaceAppend(a[1..], b);
    }
  }

  lemma {:induction false} RemoveWhitespaceOfToken(a: string)
    requires forall j :: 0 <= j < |a| ==> !IsWhitespace(a[j])
    ensures RemoveWhitespace(a) == a
    decreases |a|
  {
    if a != [] {
      RemoveWhitespaceOfToken(a[1..]);
    }
  }

  lemma ConcatCons(x: string, ps: seq<string>)
    ensures Concat([x] + ps) == x + Concat(ps)
  {
    assert ([x] + ps)[1..] == ps;
  }

  /** What follows the first whitespace run of s is shorter than s and, as
      s does not end with \s, starts and ends with a non-\s character. */
  lemma WhitespaceRunRest(s: string, i: nat)
    requires s != [] && !IsWhitespace(s[|s| - 1])
    requires i < |s| && IsWhitespace(s[i])
    ensures var u := SkipWhitespace(s[i..]);
              u != [] && !IsWhitespace(u[0]) && !IsWhitespace(u[|u| - 1]) && |u| < |s|
  {
    var t := s[i..];
    var u := SkipWhitespace(t);
    assert t[|t| - 1] == s[|s| - 1];
    assert u != [];
    assert u[|u| - 1] == t[|t| - 1];
  }

  /** Deleting whitespace from s keeps the first token and deletes it from
      what follows the first whitespace run. */
  lemma WhitespaceRunRemoved(s: string, i: nat)
    requires i == FirstWhitespace(s) && i < |s|
    ensures RemoveWhitespace(s) == s[..i] + RemoveWhitespace(SkipWhitespace(s[i..]))
  {
    var head := s[..i];
    var t := s[i..];
    assert RemoveWhitespace(head) == head by {
      assert forall j :: 0 <= j < |head| ==> !IsWhitespace(head[j]);
      RemoveWhitespaceOfToken(head);
    }
    assert RemoveWhitespace(s) == RemoveWhitespace(head) + RemoveWhitespace(t) by {
      assert s == head + t;
      RemoveWhitespaceAppend(head, t);
    }
    RemoveWhitespaceSkips(t);
  }

  lemma {:induction false} RemoveWhitespaceSkips(t: string)
    ensures RemoveWhitespace(t) == RemoveWhitespace(SkipWhitespace(t))
    decreases |t|
  {
    if |t| > 0 && IsWhitespace(t[0]) {
      RemoveWhitespaceSkips(t[1..]);
    }
  }

  predicate AllTokens(ps: seq<string>) {
    forall k :: 0 <= k < |ps| ==> IsToken(ps[k])
  }

  lemma AllTokensCons(x: string, ps: seq<string>)
    requires IsToken(x) && AllTokens(ps)
    ensures AllTokens([x] + ps)
  {
    var qs := [x] + ps;
    forall k | 0 <= k < |qs|
      ensures IsToken(qs[k])
    {
      if k > 0 {
        assert qs[k] == ps[k - 1];
      }
    }
  }

  /** For a text that neither starts nor ends with \s, every whitespace
      piece is a token. */
  lemma {:induction false} WhitespacePiecesAreTokens(s: string)
    requires s != [] && !IsWhitespace(s[0]) && !IsWhitespace(s[|s| - 1])
    ensures AllTokens(WhitespacePieces(s))
    decreases |s|
  {
    var i := FirstWhitespace(s);
    if i == |s| {
      assert IsToken(s);
    } else {
      var u := SkipWhitespace(s[i..]);
      WhitespaceRunRest(s, i);
      WhitespacePiecesAreTokens(u);
      assert IsToken(s[..i]);
      AllTokensCons(s[..i], WhitespacePieces(u));
    }
  }

  /** For a text that neither starts nor ends with \s, the whitespace pieces
      read in order spell the text without its whitespace. */
  lemma {:induction false} WhitespacePiecesSpellText(s: string)
    requires s != [] && !IsWhitespace(s[0]) && !IsWhitespace(s[|s| - 1])
    ensures Concat(WhitespacePieces(s)) == RemoveWhitespace(s)
    decreases |s|
  {
    var i := FirstWhitespace(s);
    if i == |s| {
      RemoveWhitespaceOfToken(s);
      ConcatCons(s, []);
    } else {
      var u := SkipWhitespace(s[i..]);
      WhitespaceRunRest(s, i);
      WhitespaceRunRemoved(s, i);
      WhitespacePiecesSpellText(u);
      ConcatCons(s[..i], WhitespacePieces(u));
    }
  }

  /** String.split("\\s+") on a text with no whitespace at either end gives
      one or more tokens that, read in order, spell the text without its
      whitespace. */
  lemma SplitWhitespaceTokens(s: string)
    requires s != [] && !IsWhitespace(s[0]) && !IsWhitespace(s[|s| - 1])
    ensures |SplitWhitespace(s)| >= 1
    ensures AllTokens(SplitWhitespace(s))
    ensures Concat(SplitWhitespace(s)) == RemoveWhitespace(s)
  {
    WhitespacePiecesAreTokens(s);
    WhitespacePiecesSpellText(s);
    var ps := WhitespacePieces(s);
    assert ps[|ps| - 1] != [];
    assert DropTrailingEmpty(ps) == ps;
  }

  /** A non-empty run of \s characters. */
  predicate IsGap(g: string) {
    g != [] && forall j :: 0 <= j < |g| ==> IsWhitespace(g[j])
  }

  /** Tokens with a gap between each two: any text that neither starts nor
      ends with \s has this form. */
  function Spaced(ts: seq<string>, gaps: seq<string>): string
    requires |ts| >= 1 && |gaps| == |ts| - 1
  {
    if |ts| == 1 then ts[0] else ts[0] + gaps[0] + Spaced(ts[1..], gaps[1..])
  }

  /** A spaced text starts with its first token's first character and ends
      with its last token's last character. */
  lemma {:induction false} SpacedEnds(ts: seq<string>, gaps: seq<string>)
    requires |ts| >= 1 && |gaps| == |ts| - 1 && AllTokens(ts)
    ensures var s, last := Spaced(ts, gaps), ts[|ts| - 1];
            s != [] && s[0] == ts[0][0] && s[|s| - 1] == last[|last| - 1]
  {
    if |ts| > 1 {
      SpacedEnds(ts[1..], gaps[1..]);
    }
  }

  /** Skipping a gap in front of a text that starts with no \s gives the
      text. */
  lemma {:induction false} SkipGap(g: string, u: string)
    requires forall j :: 0 <= j < |g| ==> IsWhitespace(g[j])
    requires u == [] || !IsWhitespace(u[0])
    ensures SkipWhitespace(g + u) == u
    decreases |g|
  {
    if g == [] {
      assert g + u == u;
    } else {
      assert (g + u)[1..] == g[1..] + u;
      SkipGap(g[1..], u);
    }
  }

  /** Cutting a spaced text at its whitespace runs gives the tokens back,
      however wide each gap is. */
  lemma {:induction false} WhitespacePiecesOfSpaced(ts: seq<string>, gaps: seq<string>)
    requires |ts| >= 1 && |gaps| == |ts| - 1 && AllTokens(ts)
    requires forall k :: 0 <= k < |gaps| ==> IsGap(gaps[k])
    ensures WhitespacePieces(Spaced(ts, gaps)) == ts
  {
    if |ts| == 1 {
      TokenIsOnePiece(ts[0]);
    } else {
      var rest, more := ts[1..], gaps[1..];
      assert AllTokens(rest) && forall k :: 0 <= k < |more| ==> IsGap(more[k]);
      SpacedCons(ts, gaps);
      WhitespacePiecesOfSpaced(rest, more);
      ConsTail(ts);
    }
  }

  lemma ConsTail<T>(xs: seq<T>)
    requires xs != []
    ensures [xs[0]] + xs[1..] == xs
  {
  }

  lemma TokenIsOnePiece(t: string)
    requires IsToken(t)
    ensures WhitespacePieces(t) == [t]
  {
    assert FirstWhitespace(t) == |t|;
  }

  lemma SpacedCons(ts: seq<string>, gaps: seq<string>)
    requires |ts| >= 2 && |gaps| == |ts| - 1 && AllTokens(ts)
    requires forall k :: 0 <= k < |gaps| ==> IsGap(gaps[k])
    ensures WhitespacePieces(Spaced(ts, gaps)) == [ts[0]] + WhitespacePieces(Spaced(ts[1..], gaps[1..]))
  {
    var u := Spaced(ts[1..], gaps[1..]);
    assert IsToken(ts[0]) && IsGap(gaps[0]);
    SpacedEnds(ts[1..], gaps[1..]);
    SpacedStep(ts[0], gaps[0], u);
  }

  /** One step of the cut: the first piece is the token, and what follows
      the first whitespace run is the rest. */
  lemma SpacedStep(t: string, g: string, u: string)
    requires IsToken(t) && IsGap(g) && u != [] && !IsWhitespace(u[0])
    ensures WhitespacePieces(t + g + u) == [t] + WhitespacePieces(u)
  {
    var s := t + g + u;
    var i := FirstWhitespace(s);
    assert s[|t|] == g[0];
    assert forall j :: 0 <= j < |t| ==> s[j] == t[j];
    assert i == |t|;
    assert s[..i] == t;
    assert s[i..] == g + u;
    SkipGap(g, u);
  }

  /** String.split("\\s+") inverts spacing: the tokens come back whatever
      whitespace runs separate them. */
  lemma SplitWhitespaceSpaced(ts: seq<string>, gaps: seq<string>)
    requires |ts| >= 1 && |gaps| == |ts| - 1 && AllTokens(ts)
    requires forall k :: 0 <= k < |gaps| ==> IsGap(gaps[k])
    ensures SplitWhitespace(Spaced(ts, gaps)) == ts
  {
    WhitespacePiecesOfSpaced(ts, gaps);
    var s := Spaced(ts, gaps);
    assert IsToken(ts[|ts| - 1]);
    if FirstWhitespace(s) < |s| {
      assert DropTrailingEmpty(ts) == ts;
    } else {
      assert WhitespacePieces(s) == [s];
    }
  }

  // ---------------------------------------------------------- lower case

  /** Character.toLowerCase restricted to ASCII letters, in a locale with
      no special rule for 'I' (not Turkish, Azerbaijani or Lithuanian). */
  function ToLowerChar(c: char): char
  {
    if 'A' <= c <= 'Z' then (c as int + 32) as char else c
  }

  /** String.toLowerCase() over ASCII, in such a locale. */
  function ToLower(s: string): (r: string)
    ensures |r| == |s|
    ensures forall i :: 0 <= i < |s| ==> r[i] == ToLowerChar(s[i])
  {
    seq(|s|, i requires 0 <= i < |s| => ToLowerChar(s[i]))
  }

  /** Lowering leaves no upper-case ASCII letter and changes nothing else,
      so lowering twice is lowering once. */
  lemma ToLowerIdempotent(s: string)
    ensures forall i :: 0 <= i < |s| ==> !('A' <= ToLower(s)[i] <= 'Z')
    ensures forall i :: 0 <= i < |s| ==> ('A' <= s[i] <= 'Z' || ToLower(s)[i] == s[i])
    ensures ToLower(ToLower(s)) == ToLower(s)
  {
  }
}
