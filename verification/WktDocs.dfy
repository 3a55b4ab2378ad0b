/**
 WKTToJSON of the same generated file: which parser is used for which tag, and what comes
 back for a whole geometry.  The JSON encoding of the result is left abstract.
 */
module WktDocs {
  import opened Prelude
  import opened TextOps
  import opened Wkt

  datatype Kind = Point | LineString | Polygon | MultiPoint | MultiLineString | MultiPolygon

  function Tag(k: Kind): string {
    match k
    case Point => "POINT"
    case LineString => "LINESTRING"
    case Polygon => "POLYGON"
    case MultiPoint => "MULTIPOINT"
    case MultiLineString => "MULTILINESTRING"
    case MultiPolygon => "MULTIPOLYGON"
  }

  /** The first tag in the order of the switch that the upper-cased text starts with. */
  function KindOf(upper: string): Option<Kind> {
    if Tag(Point) <= upper then Some(Point)
    else if Tag(LineString) <= upper then Some(LineString)
    else if Tag(Polygon) <= upper then Some(Polygon)
    else if Tag(MultiPoint) <= upper then Some(MultiPoint)
    else if Tag(MultiLineString) <= upper then Some(MultiLineString)
    else if Tag(MultiPolygon) <= upper then Some(MultiPolygon)
    else None
  }

  /** strings.LastIndex of one character. */
  function LastIndex(s: string, c: char): (i: int)
    ensures -1 <= i < |s| && (i >= 0 ==> s[i] == c)
    ensures forall j :: i < j < |s| ==> s[j] != c
  {
    if s == "" then -1
    else if s[|s| - 1] == c then |s| - 1
    else LastIndex(s[..|s| - 1], c)
  }

  /** What lies between the first opening and the last closing parenthesis. */
  function ExtractContent(wkt: string, prefix: string): string {
    var idx := Index(Upper(wkt), prefix);
    if idx == -1 then "" else
      var rest := wkt[idx + |prefix|..];
      var start := CharIndex(rest, '(');
      var end := LastIndex(rest, ')');
      if start == |rest| || end == -1 || end <= start then "" else rest[start + 1..end]
  }

  /** The shapes of JSON the converter can answer with: the text itself, [], a list of
      coordinates, a list of lists, a list of lists of lists. */
  datatype Doc<N> =
    | Text(s: string)
    | Nothing
    | Flat(cs: seq<Coord<N>>)
    | Nested(css: seq<seq<Coord<N>>>)
    | Deep(csss: seq<seq<seq<Coord<N>>>>)

  function FlatDoc<N>(cs: seq<Coord<N>>): Doc<N> {
    if |cs| == 0 then Nothing else Flat(cs)
  }

  function NestedDoc<N>(css: seq<seq<Coord<N>>>): Doc<N> {
    if |css| == 0 then Nothing else Nested(css)
  }

  function DeepDoc<N>(csss: seq<seq<seq<Coord<N>>>>): Doc<N> {
    if |csss| == 0 then Nothing else Deep(csss)
  }

  function Singletons<N>(cs: seq<Coord<N>>): seq<seq<Coord<N>>> {
    seq(|cs|, i requires 0 <= i < |cs| => [cs[i]])
  }

  function ParseContent<N>(parse: Reader<N>, k: Kind, content: string): Doc<N> {
    match k
    case Point => (match CoordPair(parse, content) case Some(c) => Flat([c]) case None => Nothing)
    case LineString => FlatDoc(CoordList(parse, content))
    case Polygon => NestedDoc(Rings(parse, content))
    case MultiPoint => NestedDoc(Singletons(CoordList(parse, Remove(Remove(content, '('), ')'))))
    case MultiLineString => NestedDoc(Rings(parse, content))
    case MultiPolygon => DeepDoc(Polygons(parse, content))
  }

  function ToJSON<N>(parse: Reader<N>, wkt: string): Doc<N> {
    if wkt == "" then Text("") else
      var t := Trim(wkt);
      match KindOf(Upper(t))
      case None => Text(t)
      case Some(k) => ParseContent(parse, k, ExtractContent(t, Tag(k)))
  }

  // ------------------------------------------------- whole geometries

  datatype Geometry<N> =
    | APoint(c: Coord<N>)
    | ALine(cs: seq<Coord<N>>)
    | APolygon(rings: seq<seq<Coord<N>>>)
    | Points(cs: seq<Coord<N>>, wrapped: bool)   // MULTIPOINT((1 2), (3 4)) or MULTIPOINT(1 2, 3 4)
    | LineStrings(lines: seq<seq<Coord<N>>>)
    | ManyPolygons(polygons: seq<seq<seq<Coord<N>>>>)

  function KindFor<N>(g: Geometry<N>): Kind {
    match g
    case APoint(_) => Point
    case ALine(_) => LineString
    case APolygon(_) => Polygon
    case Points(_, _) => MultiPoint
    case LineStrings(_) => MultiLineString
    case ManyPolygons(_) => MultiPolygon
  }

  function ShowWrapped<N>(show: Writer<N>, cs: seq<Coord<N>>, st: Style): string {
    Joined(seq(|cs|, i requires 0 <= i < |cs| => InParens(Padded(ShowCoord(show, cs[i], st), st))), Comma(st))
  }

  function ShowContent<N>(show: Writer<N>, g: Geometry<N>, st: Style): string {
    match g
    case APoint(c) => ShowCoord(show, c, st)
    case ALine(cs) => ShowCoords(show, cs, st)
    case APolygon(rs) => ShowRings(show, rs, st)
    case Points(cs, wrapped) => if wrapped then ShowWrapped(show, cs, st) else ShowCoords(show, cs, st)
    case LineStrings(ls) => ShowRings(show, ls, st)
    case ManyPolygons(ps) => ShowPolygons(show, ps, st)
  }

  /** The answer that holds the geometry's coordinates in their nesting; lines, rings and
      polygons without coordinates are left out. */
  function DocOf<N>(g: Geometry<N>): Doc<N> {
    match g
    case APoint(c) => Flat([c])
    case ALine(cs) => FlatDoc(cs)
    case APolygon(rs) => NestedDoc(Nonempty(rs))
    case Points(cs, _) => NestedDoc(Singletons(cs))
    case LineStrings(ls) => NestedDoc(Nonempty(ls))
    case ManyPolygons(ps) => DeepDoc(Nonempty(NonemptyEach(ps)))
  }

  lemma SameAt(p: string, q: string, s: string, i: nat)
    requires i < |p| && i < |q|
    ensures p <= s && q <= s ==> p[i] == q[i]
  {
    if p <= s && q <= s { assert p[i] == s[i] == q[i]; }
  }

  /** An index at which the tags of two kinds differ. */
  function Mismatch(j: Kind, k: Kind): nat {
    if (j == Point && k == Polygon) || (j == Polygon && k == Point) then 2
    else if (j == MultiPoint && k == MultiPolygon) || (j == MultiPolygon && k == MultiPoint) then 7
    else if Tag(j)[0] == 'M' && Tag(k)[0] == 'M' then 5
    else 0
  }

  lemma KindRecognised(upper: string, k: Kind)
    requires Tag(k) <= upper
    ensures KindOf(upper) == Some(k)
  {
    forall j: Kind | j != k
      ensures !(Tag(j) <= upper)
    {
      SameAt(Tag(j), Tag(k), upper, Mismatch(j, k));
    }
  }

  lemma TagIsPrefix(tag: string, prefix: string, rest: string)
    requires Upper(tag) == prefix
    ensures prefix <= Upper(tag + rest) && Index(Upper(tag + rest), prefix) == 0
  {
    var u := Upper(tag + rest);
    forall i | 0 <= i < |tag| ensures u[i] == prefix[i] {
      assert (tag + rest)[i] == tag[i];
    }
    assert u[0..] == u && u[..|prefix|] == prefix;
  }

  lemma OutermostParens(gap: string, content: string)
    requires Plain(gap)
    ensures var rest := gap + InParens(content);
            CharIndex(rest, '(') == |gap| && LastIndex(rest, ')') == |rest| - 1 &&
            rest[|gap| + 1..|rest| - 1] == content
  {
    var rest := gap + InParens(content);
    assert rest[|gap|] == '(' && rest[|rest| - 1] == ')';
    assert forall i :: 0 <= i < |gap| ==> rest[i] == gap[i];
    assert rest[|gap| + 1..|rest| - 1] == content;
  }

  /** The tag may be in any case; what stands between it and the parenthesis may be anything
      without parentheses. */
  lemma ContentExtracted(tag: string, prefix: string, gap: string, content: string)
    requires Upper(tag) == prefix && Plain(gap)
    ensures ExtractContent(tag + (gap + InParens(content)), prefix) == content
    ensures prefix <= Upper(tag + (gap + InParens(content)))
  {
    var rest := gap + InParens(content);
    TagIsPrefix(tag, prefix, rest);
    OutermostParens(gap, content);
    assert (tag + rest)[0 + |prefix|..] == rest;
    hide Index, CharIndex, LastIndex, Upper, InParens;
  }

  lemma RemoveParens(s: string)
    requires Plain(s)
    ensures Remove(Remove(InParens(s), '('), ')') == s
  {
    RemoveNothing(s, '(');
    RemoveNothing(s, ')');
    RemoveSplits("(" + s, ")", '(');
    RemoveSplits("(", s, '(');
    RemoveSplits(s, ")", ')');
    assert Remove("(", '(') == "" && Remove(")", '(') == ")" && Remove(")", ')') == "";
    assert s + "" == s && "" + s == s;
  }

  /** Without its parentheses a list of wrapped points is a list in another layout. */
  function Unwrapped(st: Style): Style {
    Style(st.sep, st.pad + st.before, st.after + st.pad, "")
  }

  lemma UnwrappedIsProper(st: Style)
    requires Proper(st)
    ensures Proper(Unwrapped(st))
  {
  }

  lemma {:induction false} WrappedPointsUnwrap<N(!new)>(parse: Reader<N>, show: Writer<N>,
                                                        cs: seq<Coord<N>>, st: Style)
    requires ReadsBack(parse, show) && Proper(st) && |cs| > 0
    ensures Remove(Remove(ShowWrapped(show, cs, st), '('), ')') == Padded(ShowCoords(show, cs, Unwrapped(st)), st)
    decreases |cs|
  {
    hide White, Separator;
    var c, u := cs[0], Unwrapped(st);
    var one := Padded(ShowCoord(show, c, st), st);
    ShowCoordIsTight(parse, show, c, st);
    PaddedIsPlain(ShowCoord(show, c, st), st);
    RemoveParens(one);
    assert ShowCoord(show, c, st) == ShowCoord(show, c, u);
    if |cs| == 1 {
      assert cs == [c];
      ShowCoordsOne(show, c, u);
      WrappedOne(show, c, st);
    } else {
      var rest := cs[1..];
      assert cs == [c] + rest;
      WrappedCons(show, c, rest, st);
      ShowCoordsCons(show, c, rest, u);
      WrappedPointsUnwrap(parse, show, rest, st);
      CommaIsPlain(st);
      hide ShowWrapped, ShowCoords, Remove, ShowCoord, Plain, Padded, InParens, Comma;
      RemoveThree(InParens(one), Comma(st), ShowWrapped(show, rest, st), '(');
      PlainStays(Comma(st));
      RemoveThree(Remove(InParens(one), '('), Comma(st), Remove(ShowWrapped(show, rest, st), '('), ')');
      PadsMove(ShowCoord(show, c, st), ShowCoords(show, rest, u), st);
    }
  }

  lemma WrappedOne<N>(show: Writer<N>, c: Coord<N>, st: Style)
    ensures ShowWrapped(show, [c], st) == InParens(Padded(ShowCoord(show, c, st), st))
  {
  }

  lemma WrappedCons<N>(show: Writer<N>, c: Coord<N>, cs: seq<Coord<N>>, st: Style)
    requires |cs| > 0
    ensures ShowWrapped(show, [c] + cs, st)
         == InParens(Padded(ShowCoord(show, c, st), st)) + Comma(st) + ShowWrapped(show, cs, st)
  {
    hide Padded, ShowCoord, InParens;
    var all := [c] + cs;
    var parts := seq(|all|, i requires 0 <= i < |all| => InParens(Padded(ShowCoord(show, all[i], st), st)));
    assert parts[1..] == seq(|cs|, i requires 0 <= i < |cs| => InParens(Padded(ShowCoord(show, cs[i], st), st)));
  }

  lemma PadsMove(x: string, y: string, st: Style)
    ensures Padded(x + Comma(Unwrapped(st)) + y, st) == Padded(x, st) + Comma(st) + Padded(y, st)
  {
  }

  lemma PlainStays(s: string)
    requires Plain(s)
    ensures Remove(s, '(') == s && Remove(s, ')') == s
  {
    RemoveNothing(s, '(');
    RemoveNothing(s, ')');
  }

  lemma RemoveThree(r: string, s: string, t: string, c: char)
    ensures Remove(r + s + t, c) == Remove(r, c) + Remove(s, c) + Remove(t, c)
  {
    RemoveSplits(r + s, t, c);
    RemoveSplits(r, s, c);
  }

  /** Both ways of writing a multipoint. */
  lemma ContentReadsBack<N(!new)>(parse: Reader<N>, show: Writer<N>, cs: seq<Coord<N>>, wrapped: bool, st: Style)
    requires ReadsBack(parse, show) && Proper(st)
    ensures var content := if wrapped then ShowWrapped(show, cs, st) else ShowCoords(show, cs, st);
            CoordList(parse, Remove(Remove(Padded(content, st), '('), ')')) == cs
  {
    hide White, Separator, ShowWrapped, ShowCoords, Remove, CoordList, Plain;
    var content := if wrapped then ShowWrapped(show, cs, st) else ShowCoords(show, cs, st);
    RemoveThree(st.pad, content, st.pad, '(');
    RemoveThree(st.pad, Remove(content, '('), st.pad, ')');
    WhiteIsFree(st.pad);
    PlainStays(st.pad);
    CoordListReadsBack(parse, show, cs, st, st.pad, st.pad);
    PlainStays(ShowCoords(show, cs, st));
    if wrapped {
      if |cs| == 0 {
        NothingShown(show, cs, st);
      } else {
        var u := Unwrapped(st);
        UnwrappedIsProper(st);
        WrappedPointsUnwrap(parse, show, cs, st);
        TwicePadIsWhite(st);
        CoordListReadsBack(parse, show, cs, u, st.pad + st.pad, st.pad + st.pad);
        PadsTwice(ShowCoords(show, cs, u), st);
      }
    }
  }

  lemma NothingShown<N>(show: Writer<N>, cs: seq<Coord<N>>, st: Style)
    requires |cs| == 0
    ensures ShowWrapped(show, cs, st) == ShowCoords(show, cs, st)
  {
  }

  lemma PadsTwice(x: string, st: Style)
    ensures Padded(Padded(x, st), st) == (st.pad + st.pad) + x + (st.pad + st.pad)
  {
  }

  lemma TwicePadIsWhite(st: Style)
    requires Proper(st)
    ensures White(st.pad + st.pad)
  {
  }

  /** The tag of a kind, each letter in upper or lower case. */
  predicate Spells(tag: string, k: Kind) {
    var name := match k
      case Point => "POINT"
      case LineString => "LINESTRING"
      case Polygon => "POLYGON"
      case MultiPoint => "MULTIPOINT"
      case MultiLineString => "MULTILINESTRING"
      case MultiPolygon => "MULTIPOLYGON";
    |tag| == |name| && forall i :: 0 <= i < |tag| ==> tag[i] == name[i] || tag[i] as int == name[i] as int + 32
  }

  lemma SpellsTag(tag: string, k: Kind)
    requires Spells(tag, k)
    ensures Upper(tag) == Tag(k) && |tag| > 0
  {
    assert forall i :: 0 <= i < |tag| ==> 'A' <= Tag(k)[i] <= 'Z';
    forall i | 0 <= i < |tag| ensures Upper(tag)[i] == Tag(k)[i] { LetterUpper(tag[i], Tag(k)[i]); }
  }

  lemma LetterUpper(c: char, u: char)
    requires 'A' <= u <= 'Z' && (c == u || c as int == u as int + 32)
    ensures UpperChar(c) == u
  {
  }

  /** Every geometry of the six kinds comes back from its text with the same coordinates in
      the same nesting: the tag in upper, lower or mixed case, anything but parentheses between
      tag and content, and whatever white space in the places where it may stand. */
  lemma WktRoundTrip<N(!new)>(parse: Reader<N>, show: Writer<N>, g: Geometry<N>, st: Style,
                              lead: string, tag: string, space: string, trail: string)
    requires ReadsBack(parse, show) && Proper(st) && White(lead) && White(trail)
    requires Spells(tag, KindFor(g)) && Plain(space)
    ensures ToJSON(parse, lead + (tag + (space + InParens(Padded(ShowContent(show, g, st), st)))) + trail) == DocOf(g)
  {
    hide White, Separator, Spells;
    var content, k := Padded(ShowContent(show, g, st), st), KindFor(g);
    var t := tag + (space + InParens(content));
    SpellsTag(tag, k);
    assert UpperChar(tag[0]) == Tag(k)[0];
    assert t[0] == tag[0] && t[|t| - 1] == ')';
    WhiteIsBlank(lead);
    WhiteIsBlank(trail);
    TrimTight(lead, t, trail);
    ContentExtracted(tag, Tag(k), space, content);
    KindRecognised(Upper(t), k);
    ContentParses(parse, show, g, st);
  }

  lemma ContentParses<N(!new)>(parse: Reader<N>, show: Writer<N>, g: Geometry<N>, st: Style)
    requires ReadsBack(parse, show) && Proper(st)
    ensures ParseContent(parse, KindFor(g), Padded(ShowContent(show, g, st), st)) == DocOf(g)
  {
    hide CoordPair, CoordList, Rings, Polygons, Remove, ShowCoords, ShowRings, ShowPolygons, ShowWrapped, Nonempty, White, Separator;
    match g
    case APoint(c) => PairReadsBack(parse, show, c, st, st.pad, st.pad);
    case ALine(cs) => CoordListReadsBack(parse, show, cs, st, st.pad, st.pad);
    case APolygon(rs) => RingsRoundTrip(parse, show, rs, st);
    case Points(cs, wrapped) => ContentReadsBack(parse, show, cs, wrapped, st);
    case LineStrings(ls) => RingsRoundTrip(parse, show, ls, st);
    case ManyPolygons(ps) => PolygonsRoundTrip(parse, show, ps, st);
  }

  /** A text that begins, after white space, with none of the six tags is handed back without
      the white space; the empty text as it is. */
  lemma OtherTexts<N>(parse: Reader<N>, lead: string, text: string, trail: string)
    requires White(lead) && White(trail) && Tight(text)
    requires forall k: Kind :: !(Tag(k) <= Upper(text))
    ensures ToJSON(parse, lead + text + trail) == Text(text) && ToJSON(parse, "") == Text("")
  {
    WhiteIsBlank(lead);
    WhiteIsBlank(trail);
    hide White;
    TrimTight(lead, text, trail);
    hide Tag, Upper, Trim;
    NoKind(Upper(text));
    hide KindOf;
    assert lead + text + trail != "";
  }

  lemma NoKind(upper: string)
    requires forall k: Kind :: !(Tag(k) <= upper)
    ensures KindOf(upper) == None
  {
    hide Tag;
  }

  /** A tag that is not followed by parentheses around something readable gives []. */
  lemma NothingReadable<N>(parse: Reader<N>, text: string, k: Kind)
    requires Tight(text) && Tag(k) <= Upper(text) && Free(text, '(')
    ensures ToJSON(parse, text) == Nothing
  {
    hide Trim, Upper, Tag, KindOf, ExtractContent, ParseContent, Free, Tight;
    TrimsToItself(text);
    KindRecognised(Upper(text), k);
    NoContent(text, Tag(k));
    EmptyContent(parse, k);
  }

  lemma TrimsToItself(text: string)
    requires Tight(text)
    ensures Trim(text) == text && text != ""
  {
    TrimTight("", text, "");
    assert "" + text + "" == text;
  }

  lemma NoContent(text: string, prefix: string)
    requires Free(text, '(')
    ensures ExtractContent(text, prefix) == ""
  {
  }

  lemma EmptyContent<N>(parse: Reader<N>, k: Kind)
    ensures ParseContent(parse, k, "") == Nothing
  {
    assert Trim("") == "" && Remove("", '(') == "" && Remove("", ')') == "" && Groups("") == [];
    assert SplitAtSpace("") == None;
  }
}
