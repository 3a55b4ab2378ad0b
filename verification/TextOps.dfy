/**
 Text operations of the Go library as the parsers and generators here use them: trimming,
 splitting, searching and upper-casing (of ASCII letters).
 */
module TextOps {
  import opened Prelude

  /** White space in the sense of strings.TrimSpace. */
  predicate IsSpace(c: char) {
    c == ' ' || '\t' <= c <= '\r' || c == '\U{85}' || c == '\U{A0}' || c == '\U{1680}' ||
    '\U{2000}' <= c <= '\U{200A}' || c == '\U{2028}' || c == '\U{2029}' || c == '\U{202F}' ||
    c == '\U{205F}' || c == '\U{3000}'
  }

  /** White space in the sense of \s, which leaves out the vertical tab and all of Unicode. */
  predicate IsPatternSpace(c: char) {
    c == ' ' || c == '\t' || c == '\n' || c == '\U{0C}' || c == '\r'
  }

  /** White space, character by character: all that strings.TrimSpace takes away. */
  predicate White(s: string) {
    forall i :: 0 <= i < |s| ==>
      s[i] in {' ', '\t', '\n', '\U{0B}', '\U{0C}', '\r', '\U{85}', '\U{A0}', '\U{1680}',
               '\U{2000}', '\U{2001}', '\U{2002}', '\U{2003}', '\U{2004}', '\U{2005}', '\U{2006}', '\U{2007}',
               '\U{2008}', '\U{2009}', '\U{200A}', '\U{2028}', '\U{2029}', '\U{202F}', '\U{205F}', '\U{3000}'}
  }

  lemma WhiteIsBlank(s: string)
    ensures White(s) <==> Blank(s)
  {
  }

  predicate Blank(s: string) {
    forall i :: 0 <= i < |s| ==> IsSpace(s[i])
  }

  /** Begins and ends with something other than white space. */
  predicate Tight(s: string) {
    |s| > 0 && !IsSpace(s[0]) && !IsSpace(s[|s| - 1])
  }

  function TrimLeft(s: string): string {
    if s == "" || !IsSpace(s[0]) then s else TrimLeft(s[1..])
  }

  function TrimRight(s: string): string {
    if s == "" || !IsSpace(s[|s| - 1]) then s else TrimRight(s[..|s| - 1])
  }

  function Trim(s: string): string {
    TrimRight(TrimLeft(s))
  }

  lemma {:induction false} TrimLeftBlank(gap: string, s: string)
    requires Blank(gap) && (s == "" || !IsSpace(s[0]))
    ensures TrimLeft(gap + s) == s
    decreases |gap|
  {
    if gap == "" {
      assert gap + s == s;
    } else {
      assert (gap + s)[1..] == gap[1..] + s;
      TrimLeftBlank(gap[1..], s);
    }
  }

  lemma {:induction false} TrimRightBlank(s: string, gap: string)
    requires Blank(gap) && (s == "" || !IsSpace(s[|s| - 1]))
    ensures TrimRight(s + gap) == s
    decreases |gap|
  {
    if gap == "" {
      assert s + gap == s;
    } else {
      assert (s + gap)[..|s + gap| - 1] == s + gap[..|gap| - 1];
      TrimRightBlank(s, gap[..|gap| - 1]);
    }
  }

  lemma TrimTight(lead: string, s: string, trail: string)
    requires Blank(lead) && Blank(trail) && Tight(s)
    ensures Trim(lead + s + trail) == s
  {
    assert lead + s + trail == lead + (s + trail);
    TrimLeftBlank(lead, s + trail);
    TrimRightBlank(s, trail);
  }

  /** The first index of c, or |s|. */
  function CharIndex(s: string, c: char): (i: nat)
    ensures i <= |s| && (i < |s| ==> s[i] == c)
    ensures forall j :: 0 <= j < i ==> s[j] != c
  {
    if s == "" || s[0] == c then 0 else 1 + CharIndex(s[1..], c)
  }

  /** The first index of a character that satisfies p, or |s|. */
  function FirstIndex(s: string, p: char -> bool): (i: nat)
    ensures i <= |s| && (i < |s| ==> p(s[i]))
    ensures forall j :: 0 <= j < i ==> !p(s[j])
  {
    if s == "" || p(s[0]) then 0 else 1 + FirstIndex(s[1..], p)
  }

  /** strings.Split at single commas. */
  function SplitCommas(s: string): (parts: seq<string>)
    ensures |parts| > 0
  {
    var i := CharIndex(s, ',');
    if i == |s| then [s] else [s[..i]] + SplitCommas(s[i + 1..])
  }

  predicate Free(s: string, c: char) {
    forall i :: 0 <= i < |s| ==> s[i] != c
  }

  lemma CharIndexAppend(a: string, b: string, c: char)
    ensures CharIndex(a + b, c) == if Free(a, c) then |a| + CharIndex(b, c) else CharIndex(a, c)
  {
    var s, i := a + b, CharIndex(a, c);
    assert forall j :: 0 <= j < |a| ==> s[j] == a[j];
    if Free(a, c) {
      var k := CharIndex(b, c);
      assert forall j :: 0 <= j < |b| ==> s[|a| + j] == b[j];
      assert forall j :: |a| <= j < |a| + k ==> s[j] == b[j - |a|];
      if k < |b| { assert s[|a| + k] == c; }
    } else {
      assert s[i] == c;
    }
  }

  lemma FreeAppend(a: string, b: string, c: char)
    ensures Free(a + b, c) <==> Free(a, c) && Free(b, c)
  {
    if Free(a + b, c) {
      forall i | 0 <= i < |a| ensures a[i] != c { assert (a + b)[i] == a[i]; }
      forall i | 0 <= i < |b| ensures b[i] != c { assert (a + b)[|a| + i] == b[i]; }
    }
  }

  lemma SplitAtComma(a: string, rest: string)
    requires Free(a, ',')
    ensures SplitCommas(a + "," + rest) == [a] + SplitCommas(rest)
  {
    var s := a + "," + rest;
    assert s[|a|] == ',';
    assert CharIndex(s, ',') == |a|;
    assert s[..|a|] == a && s[|a| + 1..] == rest;
  }

  /** The two parts around the first run of pattern space, if there is one.  Called on
      trimmed text, so that neither part is empty. */
  function SplitAtSpace(s: string): Option<(string, string)> {
    var i := FirstIndex(s, IsPatternSpace);
    if i == |s| then None
    else
      var j := i + FirstIndex(s[i..], c => !IsPatternSpace(c));
      Some((s[..i], s[j..]))
  }

  /** The five characters of a separator. */
  predicate Separator(s: string) {
    |s| > 0 && forall i :: 0 <= i < |s| ==>
      s[i] == ' ' || s[i] == '\t' || s[i] == '\n' || s[i] == '\U{0C}' || s[i] == '\r'
  }

  /** A separator of any length is taken away as a whole. */
  lemma SplitTokens(a: string, sep: string, b: string)
    requires Separator(sep) && |b| > 0 && !IsPatternSpace(b[0])
    requires forall i :: 0 <= i < |a| ==> !IsPatternSpace(a[i])
    ensures SplitAtSpace(a + sep + b) == Some((a, b))
  {
    var s := a + sep + b;
    assert s[|a|] == sep[0];
    assert forall i :: 0 <= i < |a| ==> s[i] == a[i];
    assert FirstIndex(s, IsPatternSpace) == |a|;
    var t := s[|a|..];
    assert t == sep + b;
    assert forall i :: 0 <= i < |sep| ==> t[i] == sep[i] && IsPatternSpace(t[i]);
    assert t[|sep|] == b[0];
    assert FirstIndex(t, c => !IsPatternSpace(c)) == |sep|;
    assert s[..|a|] == a && s[|a| + |sep|..] == b;
  }

  function Remove(s: string, c: char): string {
    if s == "" then "" else (if s[0] == c then "" else [s[0]]) + Remove(s[1..], c)
  }

  lemma {:induction false} RemoveSplits(s: string, t: string, c: char)
    ensures Remove(s + t, c) == Remove(s, c) + Remove(t, c)
    decreases |s|
  {
    if s == "" {
      assert s + t == t;
    } else {
      assert (s + t)[1..] == s[1..] + t;
      RemoveSplits(s[1..], t, c);
    }
  }

  lemma {:induction false} RemoveNothing(s: string, c: char)
    requires Free(s, c)
    ensures Remove(s, c) == s
    decreases |s|
  {
    if s != "" { RemoveNothing(s[1..], c); }
  }

  function UpperChar(c: char): char {
    if 'a' <= c <= 'z' then (c as int - 32) as char else c
  }

  function Upper(s: string): (r: string)
    ensures |r| == |s| && forall i :: 0 <= i < |s| ==> r[i] == UpperChar(s[i])
  {
    seq(|s|, i requires 0 <= i < |s| => UpperChar(s[i]))
  }

  /** strings.Index. */
  function Index(s: string, sub: string, i: nat := 0): (r: int)
    requires i <= |s|
    ensures r == -1 || (i <= r <= |s| && sub <= s[r..])
    ensures forall j :: i <= j <= |s| && (r == -1 || j < r) ==> !(sub <= s[j..])
    decreases |s| - i
  {
    if sub <= s[i..] then i
    else if i == |s| then -1
    else Index(s, sub, i + 1)
  }
}
