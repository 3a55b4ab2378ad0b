/**
 The geometry parser that the generator writes into every new project (the string literal
 of generateGeometryUtil in cmd/goupter/internal/cmd/new.go), for the well-known text of
 section 7.2 of OGC 06-103r4.  Numbers are abstract: `parse` reads a token.
 */
module Wkt {
  import opened Prelude
  import opened TextOps

  datatype Coord<N> = Coord(lng: N, lat: N)

  type Reader<N> = string -> Option<N>

  function CoordPair<N>(parse: Reader<N>, s: string): Option<Coord<N>> {
    match SplitAtSpace(Trim(s))
    case None => None
    case Some((a, b)) =>
      if parse(a).Some? && parse(b).Some? then Some(Coord(parse(a).value, parse(b).value)) else None
  }

  function Readable<N>(parse: Reader<N>, pairs: seq<string>): seq<Coord<N>> {
    if pairs == [] then [] else
      (match CoordPair(parse, pairs[0]) case Some(c) => [c] case None => []) +
      Readable(parse, pairs[1..])
  }

  function CoordList<N>(parse: Reader<N>, s: string): seq<Coord<N>> {
    var t := Trim(s);
    if t == "" then [] else Readable(parse, SplitCommas(t))
  }

  /** The contents of the top-level groups of s.  `depth` groups are open (fewer than none
      after stray closing ones), `group` is what the current one holds so far. */
  function Groups(s: string, depth: int := 0, group: Option<string> := None): seq<string>
    decreases |s|
  {
    if s == "" then []
    else if s[0] == '(' then
      Groups(s[1..], depth + 1, if depth == 0 then Some("") else Grown(group, '('))
    else if s[0] == ')' then
      if depth == 1 && group.Some? then [group.value] + Groups(s[1..], 0, None)
      else Groups(s[1..], depth - 1, Grown(group, ')'))
    else Groups(s[1..], depth, Grown(group, s[0]))
  }

  function Grown(group: Option<string>, c: char): Option<string> {
    match group case Some(g) => Some(g + [c]) case None => None
  }

  /** What f makes of each group, leaving out what comes to nothing. */
  function Kept<T>(f: string -> seq<T>, groups: seq<string>): (r: seq<seq<T>>)
    ensures forall i :: 0 <= i < |r| ==> |r[i]| > 0
  {
    if groups == [] then [] else
      (if |f(groups[0])| > 0 then [f(groups[0])] else []) + Kept(f, groups[1..])
  }

  function Rings<N>(parse: Reader<N>, s: string): seq<seq<Coord<N>>> {
    Kept(g => CoordList(parse, g), Groups(s))
  }

  function Polygons<N>(parse: Reader<N>, s: string): seq<seq<seq<Coord<N>>>> {
    Kept(g => Rings(parse, g), Groups(s))
  }

  // ------------------------------------------------- the loops

  method ParseCoordList<N>(parse: Reader<N>, s: string) returns (coords: seq<Coord<N>>)
    ensures coords == CoordList(parse, s)
  {
    hide CoordPair, Trim, SplitCommas, Readable;
    var t := Trim(s);
    if t == "" {
      return [];
    }
    var pairs := SplitCommas(t);
    coords := [];
    for i := 0 to |pairs|
      invariant Readable(parse, pairs) == coords + Readable(parse, pairs[i..])
    {
      ReadableFrom(parse, pairs, i);
      var c := CoordPair(parse, pairs[i]);
      if c.Some? {
        coords := coords + [c.value];
      }
    }
    ReadableNothing(parse, pairs);
  }

  lemma ReadableFrom<N>(parse: Reader<N>, pairs: seq<string>, i: nat)
    requires i < |pairs|
    ensures pairs[0..] == pairs
    ensures Readable(parse, pairs[i..]) ==
            (match CoordPair(parse, pairs[i]) case Some(c) => [c] case None => []) + Readable(parse, pairs[i + 1..])
  {
    assert pairs[i..][1..] == pairs[i + 1..];
  }

  lemma ReadableNothing<N>(parse: Reader<N>, pairs: seq<string>)
    ensures Readable(parse, pairs[|pairs|..]) == []
  {
  }

  lemma GroupsFrom(s: string, i: nat, depth: int, group: Option<string>)
    requires i < |s|
    ensures Groups(s[i..], depth, group) ==
            if s[i] == '(' then Groups(s[i + 1..], depth + 1, if depth == 0 then Some("") else Grown(group, '('))
            else if s[i] == ')' then
              if depth == 1 && group.Some? then [group.value] + Groups(s[i + 1..], 0, None)
              else Groups(s[i + 1..], depth - 1, Grown(group, ')'))
            else Groups(s[i + 1..], depth, Grown(group, s[i]))
  {
    assert s[i..][1..] == s[i + 1..];
  }

  lemma GroupsEnds(s: string, depth: int, group: Option<string>)
    ensures s[0..] == s && Groups(s[|s|..], depth, group) == []
  {
  }

  ghost function Open(content: string, start: int, i: nat): Option<string>
    requires start <= i <= |content|
  {
    if start < 0 then None else Some(content[start..i])
  }

  lemma OpenNext(content: string, start: int, i: nat)
    requires start <= i < |content|
    ensures Open(content, start, i + 1) == Grown(Open(content, start, i), content[i])
  {
    if 0 <= start {
      assert content[start..i + 1] == content[start..i] + [content[i]];
    }
  }

  lemma KeptNothing<T>(f: string -> seq<T>)
    ensures Kept(f, []) == []
  {
  }

  lemma {:induction false} KeptAppend<T>(f: string -> seq<T>, xs: seq<string>, g: string)
    ensures Kept(f, xs + [g]) == if |f(g)| > 0 then Kept(f, xs) + [f(g)] else Kept(f, xs)
    decreases |xs|
  {
    KeptNothing(f);
    KeptCons(f, g, []);
    hide Kept;
    assert [g] + [] == [g];
    if xs == [] {
      assert xs + [g] == [g];
    } else {
      var x, rest := xs[0], xs[1..];
      assert xs == [x] + rest && xs + [g] == [x] + (rest + [g]);
      KeptAppend(f, rest, g);
      KeptCons(f, x, rest);
      KeptCons(f, x, rest + [g]);
    }
  }

  lemma KeptCons<T>(f: string -> seq<T>, x: string, xs: seq<string>)
    ensures Kept(f, [x] + xs) == (if |f(x)| > 0 then [f(x)] else []) + Kept(f, xs)
  {
    assert ([x] + xs)[1..] == xs;
  }

  /** For any text at all, balanced or not, every slice is in range. */
  method ParseRings<N>(parse: Reader<N>, content: string) returns (rings: seq<seq<Coord<N>>>)
    ensures rings == Rings(parse, content)
  {
    hide Groups, Grown, Kept, CoordList;
    ghost var f := g => CoordList(parse, g);
    ghost var seen := [];
    GroupsEnds(content, 0, None);
    KeptNothing(f);
    rings := [];
    var depth, start := 0, -1;
    for i := 0 to |content|
      invariant start <= i
      invariant Groups(content) == seen + Groups(content[i..], depth, Open(content, start, i))
      invariant rings == Kept(f, seen)
    {
      var c := content[i];
      OpenNext(content, start, i);
      GroupsFrom(content, i, depth, Open(content, start, i));
      if c == '(' {
        if depth == 0 {
          start := i + 1;
        }
        depth := depth + 1;
      } else if c == ')' {
        depth := depth - 1;
        if depth == 0 && start >= 0 {
          var ringContent := content[start..i];
          var coords := ParseCoordList(parse, ringContent);
          KeptAppend(f, seen, ringContent);
          seen := seen + [ringContent];
          if |coords| > 0 {
            rings := rings + [coords];
          }
          start := -1;
        }
      }
    }
    GroupsEnds(content, depth, Open(content, start, |content|));
    assert Groups(content) == seen;
  }

  method ParsePolygons<N>(parse: Reader<N>, content: string) returns (polygons: seq<seq<seq<Coord<N>>>>)
    ensures polygons == Polygons(parse, content)
  {
    hide Groups, Grown, Kept, Rings;
    ghost var f := g => Rings(parse, g);
    ghost var seen := [];
    GroupsEnds(content, 0, None);
    KeptNothing(f);
    polygons := [];
    var depth, start := 0, -1;
    for i := 0 to |content|
      invariant start <= i
      invariant Groups(content) == seen + Groups(content[i..], depth, Open(content, start, i))
      invariant polygons == Kept(f, seen)
    {
      var c := content[i];
      OpenNext(content, start, i);
      GroupsFrom(content, i, depth, Open(content, start, i));
      if c == '(' {
        if depth == 0 {
          start := i + 1;
        }
        depth := depth + 1;
      } else if c == ')' {
        depth := depth - 1;
        if depth == 0 && start >= 0 {
          var polyContent := content[start..i];
          var rings := ParseRings(parse, polyContent);
          KeptAppend(f, seen, polyContent);
          seen := seen + [polyContent];
          if |rings| > 0 {
            polygons := polygons + [rings];
          }
          start := -1;
        }
      }
    }
    GroupsEnds(content, depth, Open(content, start, |content|));
    assert Groups(content) == seen;
  }

  // ------------------------------------------------- printing

  type Writer<!N> = N -> string

  ghost predicate Token(t: string) {
    |t| > 0 &&
    forall i :: 0 <= i < |t| ==> !IsSpace(t[i]) && t[i] != ',' && t[i] != '(' && t[i] != ')'
  }

  /** Numbers print as tokens that read back as themselves. */
  ghost predicate ReadsBack<N(!new)>(parse: Reader<N>, show: Writer<N>) {
    forall n :: Token(show(n)) && parse(show(n)) == Some(n)
  }

  /** How a text is laid out: what stands between the two numbers of a pair, before and after
      each comma, and inside each pair of parentheses. */
  datatype Style = Style(sep: string, before: string, after: string, pad: string)

  ghost predicate Proper(st: Style) {
    Separator(st.sep) && White(st.before) && White(st.after) && White(st.pad)
  }

  function ShowCoord<N>(show: Writer<N>, c: Coord<N>, st: Style): string {
    show(c.lng) + st.sep + show(c.lat)
  }

  function Comma(st: Style): string {
    st.before + ("," + st.after)
  }

  function Padded(s: string, st: Style): string {
    st.pad + s + st.pad
  }

  function Joined(parts: seq<string>, sep: string): string {
    if parts == [] then "" else if |parts| == 1 then parts[0]
    else parts[0] + sep + Joined(parts[1..], sep)
  }

  function ShowCoords<N>(show: Writer<N>, cs: seq<Coord<N>>, st: Style): string {
    Joined(seq(|cs|, i requires 0 <= i < |cs| => ShowCoord(show, cs[i], st)), Comma(st))
  }

  function InParens(s: string): string {
    "(" + s + ")"
  }

  function ShowRings<N>(show: Writer<N>, rs: seq<seq<Coord<N>>>, st: Style): string {
    Joined(seq(|rs|, i requires 0 <= i < |rs| => InParens(Padded(ShowCoords(show, rs[i], st), st))), Comma(st))
  }

  function ShowPolygons<N>(show: Writer<N>, ps: seq<seq<seq<Coord<N>>>>, st: Style): string {
    Joined(seq(|ps|, i requires 0 <= i < |ps| => InParens(Padded(ShowRings(show, ps[i], st), st))), Comma(st))
  }

  // ------------------------------------------------- coordinate lists

  ghost predicate Plain(s: string) {
    Free(s, '(') && Free(s, ')')
  }

  lemma ShowCoordIsTight<N(!new)>(parse: Reader<N>, show: Writer<N>, c: Coord<N>, st: Style)
    requires ReadsBack(parse, show) && Proper(st)
    ensures var t := ShowCoord(show, c, st); Tight(t) && Free(t, ',') && Plain(t)
  {
    var a, b, t := show(c.lng), show(c.lat), ShowCoord(show, c, st);
    assert Token(a) && Token(b);
    assert t[0] == a[0] && t[|t| - 1] == b[|b| - 1];
    forall i | 0 <= i < |t| ensures t[i] != ',' && t[i] != '(' && t[i] != ')' {
      if i < |a| { assert t[i] == a[i]; }
      else if i < |a| + |st.sep| { assert t[i] == st.sep[i - |a|]; }
      else { assert t[i] == b[i - |a| - |st.sep|]; }
    }
  }

  /** A pair reads back with any white space around it and any separator in it. */
  lemma PairReadsBack<N(!new)>(parse: Reader<N>, show: Writer<N>, c: Coord<N>, st: Style, lead: string, trail: string)
    requires ReadsBack(parse, show) && Proper(st) && White(lead) && White(trail)
    ensures CoordPair(parse, lead + ShowCoord(show, c, st) + trail) == Some(c)
  {
    var a, b, t := show(c.lng), show(c.lat), ShowCoord(show, c, st);
    assert Token(a) && Token(b);
    ShowCoordIsTight(parse, show, c, st);
    WhiteIsBlank(lead);
    WhiteIsBlank(trail);
    hide White;
    TrimTight(lead, t, trail);
    SplitTokens(a, st.sep, b);
  }

  /** A pair without a separator, or of which a part is no number, is not read. */
  lemma PairNotRead<N>(parse: Reader<N>, s: string)
    requires (forall i :: 0 <= i < |Trim(s)| ==> !IsPatternSpace(Trim(s)[i]))
    ensures CoordPair(parse, s) == None
  {
  }

  lemma PartNotRead<N>(parse: Reader<N>, a: string, sep: string, b: string)
    requires Separator(sep) && Tight(a + sep + b) && |b| > 0 && !IsPatternSpace(b[0])
    requires forall i :: 0 <= i < |a| ==> !IsPatternSpace(a[i])
    requires parse(a).None? || parse(b).None?
    ensures CoordPair(parse, a + sep + b) == None
  {
    TrimTight("", a + sep + b, "");
    assert "" + (a + sep + b) + "" == a + sep + b;
    SplitTokens(a, sep, b);
  }

  lemma ShowCoordsCons<N>(show: Writer<N>, c: Coord<N>, cs: seq<Coord<N>>, st: Style)
    requires |cs| > 0
    ensures ShowCoords(show, [c] + cs, st) == ShowCoord(show, c, st) + Comma(st) + ShowCoords(show, cs, st)
  {
    var parts := seq(|[c] + cs|, i requires 0 <= i < |[c] + cs| => ShowCoord(show, ([c] + cs)[i], st));
    assert parts[1..] == seq(|cs|, i requires 0 <= i < |cs| => ShowCoord(show, cs[i], st));
  }

  lemma ShowCoordsOne<N>(show: Writer<N>, c: Coord<N>, st: Style)
    ensures ShowCoords(show, [c], st) == ShowCoord(show, c, st)
  {
  }

  lemma CommaIsPlain(st: Style)
    requires Proper(st)
    ensures Plain(Comma(st))
  {
    WhiteIsFree(st.before);
    WhiteIsFree(st.after);
    hide White;
    var s := Comma(st);
    forall i | 0 <= i < |s| ensures s[i] != '(' && s[i] != ')' {
      if i < |st.before| { assert s[i] == st.before[i]; }
      else if i == |st.before| { assert s[i] == ','; }
      else { assert s[i] == st.after[i - |st.before| - 1]; }
    }
  }

  lemma GlueTight(a: string, mid: string, b: string)
    requires Tight(a) && Tight(b) && Plain(a) && Plain(b) && Plain(mid)
    ensures Tight(a + mid + b) && Plain(a + mid + b)
  {
    var s := a + mid + b;
    assert s[0] == a[0] && s[|s| - 1] == b[|b| - 1];
    forall i | 0 <= i < |s| ensures s[i] != '(' && s[i] != ')' {
      if i < |a| { assert s[i] == a[i]; }
      else if i < |a| + |mid| { assert s[i] == mid[i - |a|]; }
      else { assert s[i] == b[i - |a| - |mid|]; }
    }
  }

  /** A printed list is tight and plain, and its comma-separated parts read back. */
  lemma {:induction false} ListReadsBack<N(!new)>(parse: Reader<N>, show: Writer<N>, cs: seq<Coord<N>>,
                                                  st: Style, lead: string)
    requires ReadsBack(parse, show) && Proper(st) && White(lead) && |cs| > 0
    ensures Tight(ShowCoords(show, cs, st)) && Plain(ShowCoords(show, cs, st))
    ensures Readable(parse, SplitCommas(lead + ShowCoords(show, cs, st))) == cs
    decreases |cs|
  {
    hide CoordPair, ShowCoord, ShowCoords, SplitCommas, Readable, Tight, Plain, White, Separator;
    var c, rest := cs[0], cs[1..];
    var t := ShowCoord(show, c, st);
    ShowCoordIsTight(parse, show, c, st);
    WhiteIsFree(lead);
    FreeGlue(lead, t);
    if |cs| == 1 {
      assert cs == [c];
      NoWhite();
      PairReadsBack(parse, show, c, st, lead, "");
      assert lead + t + "" == lead + t;
      ShowCoordsOne(show, c, st);
      SplitNoComma(lead + t);
      ReadableCons(parse, lead + t, []);
      assert [lead + t] + [] == [lead + t];
    } else {
      assert cs == [c] + rest;
      ShowCoordsCons(show, c, rest, st);
      ListReadsBack(parse, show, rest, st, st.after);
      CommaIsPlain(st);
      GlueTight(t, Comma(st), ShowCoords(show, rest, st));
      var head, tail := lead + t + st.before, st.after + ShowCoords(show, rest, st);
      assert lead + ShowCoords(show, cs, st) == head + "," + tail;
      PairReadsBack(parse, show, c, st, lead, st.before);
      WhiteIsFree(st.before);
      FreeGlue(lead + t, st.before);
      SplitAtComma(head, tail);
      ReadableCons(parse, head, SplitCommas(tail));
    }
  }

  lemma NoWhite()
    ensures White("")
  {
  }

  lemma FreeGlue(a: string, b: string)
    requires Free(a, ',') && Free(b, ',')
    ensures Free(a + b, ',')
  {
  }

  lemma SplitNoComma(a: string)
    requires Free(a, ',')
    ensures SplitCommas(a) == [a]
  {
  }

  lemma ReadableCons<N>(parse: Reader<N>, p: string, ps: seq<string>)
    ensures Readable(parse, [p] + ps) ==
            (match CoordPair(parse, p) case Some(c) => [c] case None => []) + Readable(parse, ps)
    ensures Readable(parse, []) == []
  {
    assert ([p] + ps)[1..] == ps;
  }

  lemma WhiteIsFree(gap: string)
    requires White(gap)
    ensures Free(gap, ',') && Plain(gap)
  {
  }

  /** A printed list reads back with any white space around it, in the layout of any style. */
  lemma CoordListReadsBack<N(!new)>(parse: Reader<N>, show: Writer<N>, cs: seq<Coord<N>>, st: Style,
                                    lead: string, trail: string)
    requires ReadsBack(parse, show) && Proper(st) && White(lead) && White(trail)
    ensures CoordList(parse, lead + ShowCoords(show, cs, st) + trail) == cs
    ensures Plain(ShowCoords(show, cs, st))
  {
    hide White, Separator;
    var t := ShowCoords(show, cs, st);
    WhiteIsBlank(lead);
    WhiteIsBlank(trail);
    if |cs| > 0 {
      NoWhite();
      ListReadsBack(parse, show, cs, st, "");
      hide ShowCoords, Readable, SplitCommas;
      TrimTight(lead, t, trail);
      assert "" + t == t;
    } else {
      assert t == "" && lead + t + trail == lead + trail;
      TrimBlank(lead, trail);
    }
  }

  lemma TrimBlank(lead: string, trail: string)
    requires Blank(lead) && Blank(trail)
    ensures Trim(lead + trail) == ""
  {
    assert Blank(lead + trail);
    TrimLeftBlank(lead + trail, "");
    assert lead + trail + "" == lead + trail;
  }

  lemma PaddedIsPlain(s: string, st: Style)
    requires Plain(s) && Proper(st)
    ensures Plain(Padded(s, st))
  {
    WhiteIsFree(st.pad);
    hide White;
    FreeAppend(st.pad + s, st.pad, '(');
    FreeAppend(st.pad, s, '(');
    FreeAppend(st.pad + s, st.pad, ')');
    FreeAppend(st.pad, s, ')');
  }

  // ------------------------------------------------- groups of balanced text

  /** From `depth` open parentheses, s never closes one too many and closes all. */
  ghost predicate Closes(s: string, depth: nat) {
    if s == "" then depth == 0
    else if s[0] == '(' then Closes(s[1..], depth + 1)
    else if s[0] == ')' then depth > 0 && Closes(s[1..], depth - 1)
    else Closes(s[1..], depth)
  }

  ghost predicate Balanced(s: string) {
    Closes(s, 0)
  }

  lemma {:induction false} ClosesJoin(s: string, t: string, depth: nat)
    requires Closes(s, depth) && Balanced(t)
    ensures Closes(s + t, depth)
    decreases |s|
  {
    if s == "" {
      assert s + t == t;
    } else {
      assert (s + t)[1..] == s[1..] + t;
      ClosesJoin(s[1..], t, if s[0] == '(' then depth + 1 else if s[0] == ')' then depth - 1 else depth);
    }
  }

  lemma {:induction false} PlainIsBalanced(s: string)
    requires Plain(s)
    ensures Balanced(s)
    decreases |s|
  {
    if s != "" {
      assert Plain(s[1..]);
      PlainIsBalanced(s[1..]);
    }
  }

  lemma {:induction false} ClosesOneMore(s: string, depth: nat)
    requires Closes(s, depth)
    ensures Closes(s + ")", depth + 1)
    decreases |s|
  {
    if s == "" {
      assert (s + ")")[1..] == "";
    } else {
      assert (s + ")")[1..] == s[1..] + ")";
      ClosesOneMore(s[1..], if s[0] == '(' then depth + 1 else if s[0] == ')' then depth - 1 else depth);
    }
  }

  lemma InParensBalanced(s: string)
    requires Balanced(s)
    ensures Balanced(InParens(s))
  {
    ClosesOneMore(s, 0);
    assert InParens(s)[0] == '(' && InParens(s)[1..] == s + ")";
  }

  /** Outside all groups, text without parentheses is skipped. */
  lemma {:induction false} SkipPlain(s: string, rest: string)
    requires Plain(s)
    ensures Groups(s + rest) == Groups(rest)
    decreases |s|
  {
    if s == "" {
      assert s + rest == rest;
    } else {
      assert (s + rest)[1..] == s[1..] + rest;
      assert Plain(s[1..]);
      SkipPlain(s[1..], rest);
    }
  }

  /** Inside a group, balanced text and the closing parenthesis complete the group. */
  lemma {:induction false} FinishGroup(s: string, depth: nat, g: string, rest: string)
    requires Closes(s, depth)
    ensures Groups(s + ")" + rest, depth + 1, Some(g)) == [g + s] + Groups(rest)
    decreases |s|
  {
    var t := s + ")" + rest;
    if s == "" {
      assert t[0] == ')' && t[1..] == rest;
      assert g + s == g;
    } else {
      assert t[0] == s[0] && t[1..] == s[1..] + ")" + rest;
      FinishGroup(s[1..], if s[0] == '(' then depth + 1 else if s[0] == ')' then depth - 1 else depth,
                  g + [s[0]], rest);
      assert g + [s[0]] + s[1..] == g + s;
    }
  }

  lemma OneGroup(g: string, rest: string)
    requires Balanced(g)
    ensures Groups(InParens(g) + rest) == [g] + Groups(rest)
  {
    var t := InParens(g) + rest;
    assert t[0] == '(' && t[1..] == g + ")" + rest;
    FinishGroup(g, 0, "", rest);
    assert "" + g == g;
  }

  /** Any balanced contents in parentheses, with anything but parentheses around and in
      between, are found again as the top-level groups. */
  lemma GroupsReadBack(gs: seq<string>, sep: string, lead: string, trail: string)
    requires Plain(sep) && Plain(lead) && Plain(trail) && forall i :: 0 <= i < |gs| ==> Balanced(gs[i])
    ensures var t := Joined(seq(|gs|, i requires 0 <= i < |gs| => InParens(gs[i])), sep);
            Groups(lead + t + trail) == gs && Balanced(lead + t + trail)
  {
    var t := Joined(seq(|gs|, i requires 0 <= i < |gs| => InParens(gs[i])), sep);
    GroupsBefore(gs, sep, trail);
    SkipPlain(lead, t + trail);
    PlainIsBalanced(lead);
    ClosesJoin(lead, t + trail, 0);
    assert lead + (t + trail) == lead + t + trail;
  }

  lemma {:induction false} GroupsBefore(gs: seq<string>, sep: string, trail: string)
    requires Plain(sep) && Plain(trail) && forall i :: 0 <= i < |gs| ==> Balanced(gs[i])
    ensures Groups(Joined(seq(|gs|, i requires 0 <= i < |gs| => InParens(gs[i])), sep) + trail) == gs
    ensures Balanced(Joined(seq(|gs|, i requires 0 <= i < |gs| => InParens(gs[i])), sep) + trail)
    decreases |gs|
  {
    var parts := seq(|gs|, i requires 0 <= i < |gs| => InParens(gs[i]));
    PlainIsBalanced(trail);
    SkipPlain(trail, "");
    assert trail + "" == trail;
    if |gs| == 0 {
      assert Joined(parts, sep) + trail == trail;
    } else if |gs| == 1 {
      OneGroup(gs[0], trail);
      InParensBalanced(gs[0]);
      ClosesJoin(InParens(gs[0]), trail, 0);
      assert gs == [gs[0]];
    } else {
      var rest := Joined(parts[1..], sep) + trail;
      assert parts[1..] == seq(|gs[1..]|, i requires 0 <= i < |gs[1..]| => InParens(gs[1..][i]));
      GroupsBefore(gs[1..], sep, trail);
      OneGroup(gs[0], sep + rest);
      SkipPlain(sep, rest);
      assert Joined(parts, sep) + trail == InParens(gs[0]) + (sep + rest);
      InParensBalanced(gs[0]);
      PlainIsBalanced(sep);
      ClosesJoin(sep, rest, 0);
      ClosesJoin(InParens(gs[0]), sep + rest, 0);
    }
  }

  /** Text without parentheses, in whatever state, leaves the state as it is. */
  lemma {:induction false} PlainKeepsDepth(s: string, rest: string, depth: int, group: Option<string>)
    requires Plain(s)
    ensures Groups(s + rest, depth, group) ==
            Groups(rest, depth, match group case Some(g) => Some(g + s) case None => None)
    decreases |s|
  {
    if s == "" {
      assert s + rest == rest;
      assert group.Some? ==> group.value + s == group.value;
    } else {
      assert (s + rest)[1..] == s[1..] + rest && s[0] == (s + rest)[0];
      assert Plain(s[1..]);
      PlainKeepsDepth(s[1..], rest, depth, Grown(group, s[0]));
      assert group.Some? ==> group.value + [s[0]] + s[1..] == group.value + s;
    }
  }

  lemma GroupOpens(rest: string, depth: int, group: Option<string>)
    ensures Groups("(" + rest, depth, group)
         == Groups(rest, depth + 1, if depth == 0 then Some("") else Grown(group, '('))
  {
    assert ("(" + rest)[1..] == rest;
  }

  lemma GroupCloses(rest: string, depth: int, group: Option<string>)
    ensures Groups(")" + rest, depth, group) ==
            if depth == 1 && group.Some? then [group.value] + Groups(rest, 0, None)
            else Groups(rest, depth - 1, Grown(group, ')'))
  {
    assert (")" + rest)[1..] == rest;
  }

  /** A group that is never closed is lost ... */
  lemma OpenGroupIsLost(g: string)
    requires Plain(g)
    ensures Groups("(" + g) == []
  {
    GroupOpens(g, 0, None);
    PlainKeepsDepth(g, "", 1, Some(""));
    assert g + "" == g;
  }

  /** ... and so is the group after a stray closing parenthesis, which leaves one level to
      make up for: the next group is found if it is wrapped once more. */
  lemma GroupAfterStrayIsLost(g: string, h: string)
    requires Plain(g) && Plain(h)
    ensures Groups(")" + ("(" + (g + ")"))) == []
    ensures Groups(")" + ("(" + (g + (")" + ("(" + ("(" + (h + ")"))))))) == [h]
  {
    var tail := "(" + ("(" + (h + ")"));
    GroupCloses("(" + (g + ")"), 0, None);
    GroupOpens(g + ")", -1, None);
    PlainKeepsDepth(g, ")", 0, None);
    GroupCloses("", 0, None);
    assert ")" + "" == ")";
    GroupCloses("(" + (g + (")" + tail)), 0, None);
    GroupOpens(g + (")" + tail), -1, None);
    PlainKeepsDepth(g, ")" + tail, 0, None);
    GroupCloses(tail, 0, None);
    GroupOpens("(" + (h + ")"), -1, None);
    GroupOpens(h + ")", 0, None);
    PlainKeepsDepth(h, ")", 1, Some(""));
    assert "" + h == h;
    GroupCloses("", 1, Some(h));
    GroupsEnds("", 0, None);
    GroupsEnds("", -1, None);
    hide Groups;
  }

  function Nonempty<T>(items: seq<seq<T>>): (r: seq<seq<T>>)
    ensures |r| <= |items|
  {
    if items == [] then [] else
      (if |items[0]| > 0 then [items[0]] else []) + Nonempty(items[1..])
  }

  ghost predicate NoneEmpty<T>(xs: seq<seq<T>>) {
    forall i :: 0 <= i < |xs| ==> |xs[i]| > 0
  }

  lemma {:induction false} NonemptyIsAll<T>(xs: seq<seq<T>>)
    ensures Nonempty(xs) == xs <==> NoneEmpty(xs)
    ensures |Nonempty(xs)| == |xs| <==> NoneEmpty(xs)
    ensures NoneEmpty(Nonempty(xs))
    decreases |xs|
  {
    if xs != [] {
      NonemptyIsAll(xs[1..]);
      assert NoneEmpty(xs) <==> |xs[0]| > 0 && NoneEmpty(xs[1..]) by {
        if |xs[0]| > 0 && NoneEmpty(xs[1..]) {
          forall i | 0 <= i < |xs| ensures |xs[i]| > 0 { if i > 0 { assert xs[i] == xs[1..][i - 1]; } }
        }
      }
      assert xs == [xs[0]] + xs[1..];
    }
  }

  lemma {:induction false} KeptIsNonempty<T>(f: string -> seq<T>, groups: seq<string>, items: seq<seq<T>>)
    requires |groups| == |items|
    requires forall i :: 0 <= i < |items| ==> f(groups[i]) == items[i]
    ensures Kept(f, groups) == Nonempty(items)
    decreases |groups|
  {
    if groups != [] { KeptIsNonempty(f, groups[1..], items[1..]); }
  }

  // ------------------------------------------------- round trips

  /** Printing lines or rings and parsing them gives the non-empty ones in order: all of
      them if and only if none is empty. */
  lemma RingsRoundTrip<N(!new)>(parse: Reader<N>, show: Writer<N>, rs: seq<seq<Coord<N>>>, st: Style)
    requires ReadsBack(parse, show) && Proper(st)
    ensures var t := Padded(ShowRings(show, rs, st), st);
            Rings(parse, t) == Nonempty(rs) && (Rings(parse, t) == rs <==> NoneEmpty(rs)) && Balanced(t)
  {
    hide White, Separator;
    var gs := seq(|rs|, i requires 0 <= i < |rs| => Padded(ShowCoords(show, rs[i], st), st));
    forall i | 0 <= i < |rs|
      ensures Balanced(gs[i]) && CoordList(parse, gs[i]) == rs[i]
    {
      CoordListReadsBack(parse, show, rs[i], st, st.pad, st.pad);
      PaddedIsPlain(ShowCoords(show, rs[i], st), st);
      PlainIsBalanced(gs[i]);
    }
    CommaIsPlain(st);
    WhiteIsFree(st.pad);
    GroupsReadBack(gs, Comma(st), st.pad, st.pad);
    assert seq(|gs|, i requires 0 <= i < |gs| => InParens(gs[i]))
        == seq(|rs|, i requires 0 <= i < |rs| => InParens(Padded(ShowCoords(show, rs[i], st), st)));
    KeptIsNonempty(g => CoordList(parse, g), gs, rs);
    NonemptyIsAll(rs);
  }

  function NonemptyEach<T>(xss: seq<seq<seq<T>>>): (r: seq<seq<seq<T>>>)
  {
    seq(|xss|, i requires 0 <= i < |xss| => Nonempty(xss[i]))
  }

  /** The same for polygons, whose rings are filtered first. */
  lemma PolygonsRoundTrip<N(!new)>(parse: Reader<N>, show: Writer<N>, ps: seq<seq<seq<Coord<N>>>>, st: Style)
    requires ReadsBack(parse, show) && Proper(st)
    ensures var t := Padded(ShowPolygons(show, ps, st), st);
            Polygons(parse, t) == Nonempty(NonemptyEach(ps)) && Balanced(t) &&
            (NoneEmpty(ps) && (forall i :: 0 <= i < |ps| ==> NoneEmpty(ps[i])) <==> Polygons(parse, t) == ps)
  {
    hide White, Separator;
    var gs := seq(|ps|, i requires 0 <= i < |ps| => Padded(ShowRings(show, ps[i], st), st));
    forall i | 0 <= i < |ps|
      ensures Balanced(gs[i]) && Rings(parse, gs[i]) == Nonempty(ps[i])
    {
      RingsRoundTrip(parse, show, ps[i], st);
    }
    CommaIsPlain(st);
    WhiteIsFree(st.pad);
    GroupsReadBack(gs, Comma(st), st.pad, st.pad);
    assert seq(|gs|, i requires 0 <= i < |gs| => InParens(gs[i]))
        == seq(|ps|, i requires 0 <= i < |ps| => InParens(Padded(ShowRings(show, ps[i], st), st)));
    KeptIsNonempty(g => Rings(parse, g), gs, NonemptyEach(ps));
    NonemptyEachIsAll(ps);
  }

  lemma NonemptyEachIsAll<T>(ps: seq<seq<seq<T>>>)
    ensures NoneEmpty(ps) && (forall i :: 0 <= i < |ps| ==> NoneEmpty(ps[i])) <==>
            Nonempty(NonemptyEach(ps)) == ps
  {
    var qs := NonemptyEach(ps);
    NonemptyIsAll(qs);
    forall i | 0 <= i < |ps| ensures Nonempty(ps[i]) == ps[i] <==> NoneEmpty(ps[i]) {
      NonemptyIsAll(ps[i]);
    }
    if NoneEmpty(ps) && forall i :: 0 <= i < |ps| ==> NoneEmpty(ps[i]) {
      assert qs == ps;
    }
    if Nonempty(qs) == ps {
      assert Nonempty(qs) == qs;
      forall i | 0 <= i < |ps| ensures NoneEmpty(ps[i]) && |ps[i]| > 0 { assert qs[i] == ps[i]; }
    }
  }

  /** For arbitrary text, what the parser found prints to a text in which it finds the same. */
  lemma ParsingNormalises<N(!new)>(parse: Reader<N>, show: Writer<N>, text: string, st: Style)
    requires ReadsBack(parse, show) && Proper(st)
    ensures var rs := Rings(parse, text); Rings(parse, Padded(ShowRings(show, rs, st), st)) == rs
    ensures var ps := Polygons(parse, text); Polygons(parse, Padded(ShowPolygons(show, ps, st), st)) == ps
  {
    RingsRoundTrip(parse, show, Rings(parse, text), st);
    var ps := Polygons(parse, text);
    forall i | 0 <= i < |ps| ensures NoneEmpty(ps[i]) {
      var g := KeptComesFrom(g => Rings(parse, g), Groups(text), i);
    }
    PolygonsRoundTrip(parse, show, ps, st);
  }

  lemma {:induction false} KeptComesFrom<T>(f: string -> seq<T>, groups: seq<string>, i: nat) returns (g: string)
    requires i < |Kept(f, groups)|
    ensures f(g) == Kept(f, groups)[i]
    decreases |groups|
  {
    if |f(groups[0])| == 0 {
      g := KeptComesFrom(f, groups[1..], i);
    } else if i == 0 {
      g := groups[0];
    } else {
      g := KeptComesFrom(f, groups[1..], i - 1);
    }
  }
}
