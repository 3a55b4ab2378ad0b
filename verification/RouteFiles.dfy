/**
 generateRoutes on a route file somebody else wrote, or that was generated under other
 settings: inserting the imports it lacks does not disturb the functions it declares.
 */
module RouteFiles {
  import opened Prelude
  import opened TextOps
  import opened Imports
  import opened Routes

  function LastLine(s: string): string {
    Lines(s)[|Lines(s)| - 1]
  }

  /** What precedes the place on its line settles what the line declares, whatever follows
      there: no function starts in it, or the whole of a name stands in it. */
  predicate Settled(line: string) {
    !("func Register" <= TrimLeft(line)) || Contains(TrimLeft(line), "Routes(")
  }

  ghost predicate PlaceIsSettled(content: string) {
    Contains(content, IMPORT_OPEN) && HasPlace(content) ==>
      Settled(LastLine(content[..InsertionFor(content, "").at]))
  }

  /** The line with the parenthesis that closes the import block declares what it declares
      once the import has taken the parenthesis' place. */
  ghost predicate SameName(content: string, imp: string) {
    Contains(content, IMPORT_OPEN) && HasPlace(content) ==>
      var at := InsertionFor(content, imp).at;
      var before := LastLine(content[..at]);
      DeclaredName(before + ("\t" + imp)) == DeclaredName(before + Lines(content[at..])[0])
  }

  // ------------------------------------------------- lines of inserted text

  /** xs and ys with the last of the one and the first of the other run together. */
  function Glued(xs: seq<string>, ys: seq<string>): seq<string>
    requires |xs| > 0 && |ys| > 0
  {
    xs[..|xs| - 1] + [xs[|xs| - 1] + ys[0]] + ys[1..]
  }

  lemma GluedCons(x: string, xs: seq<string>, ys: seq<string>)
    requires |xs| > 0 && |ys| > 0
    ensures Glued([x] + xs, ys) == [x] + Glued(xs, ys)
  {
  }

  lemma GluedOne(x: string, y: string, ys: seq<string>)
    ensures Glued([x], [y] + ys) == [x + y] + ys
  {
  }

  lemma {:induction false} LinesOfGlue(x: string, y: string)
    ensures Lines(x + y) == Glued(Lines(x), Lines(y))
    decreases |x|
  {
    hide CharIndex, Lines, Glued;
    var i := CharIndex(x, '\n');
    LinesUnfold(x);
    LinesUnfold(x + y);
    CharIndexAppend(x, y, '\n');
    if i == |x| {
      LinesUnfold(y);
      var k := CharIndex(y, '\n');
      assert (x + y)[..i + k] == x + y[..k];
      if k < |y| {
        assert (x + y)[i + k + 1..] == y[k + 1..];
        GluedOne(x, y[..k], Lines(y[k + 1..]));
      } else {
        GluedOne(x, y, []);
        assert [y] + [] == [y] && [x + y] + [] == [x + y];
      }
    } else {
      assert (x + y)[..i] == x[..i] && (x + y)[i + 1..] == x[i + 1..] + y;
      LinesOfGlue(x[i + 1..], y);
      GluedCons(x[..i], Lines(x[i + 1..]), Lines(y));
    }
  }

  /** The names of x and y run together: the two lines at the seam count as one. */
  lemma NamesOfGlue(x: string, y: string)
    ensures NamesIn(x + y)
         == DeclaredNames(Lines(x)[..|Lines(x)| - 1]) + DeclaredNames([LastLine(x) + Lines(y)[0]])
            + DeclaredNames(Lines(y)[1..])
  {
    hide Lines, DeclaredName, DeclaredNames;
    var xs, ys := Lines(x), Lines(y);
    LinesOfGlue(x, y);
    NamesSplit(xs[..|xs| - 1] + [LastLine(x) + ys[0]], ys[1..]);
    NamesSplit(xs[..|xs| - 1], [LastLine(x) + ys[0]]);
  }

  lemma FirstLine(y: string)
    requires y != "" && y[0] == ')'
    ensures Lines(y)[0] != "" && Lines(y)[0][0] == ')'
    ensures DeclaredNames(Lines(y)) == DeclaredNames(Lines(y)[1..])
  {
    hide DeclaredName;
    NotAFunc(Lines(y)[0], 0);
  }

  lemma OneName(line: string)
    ensures DeclaredNames([line]) == match DeclaredName(line) case Some(n) => [n] case None => []
  {
    hide DeclaredName;
    assert [line][1..] == [];
  }

  lemma MiddleIff(xs: seq<string>, u: seq<string>, v: seq<string>, ys: seq<string>)
    ensures xs + u + ys == xs + v + ys <==> u == v
  {
    if xs + u + ys == xs + v + ys {
      assert u == (xs + u + ys)[|xs|..|xs| + |u|] && v == (xs + v + ys)[|xs|..|xs| + |v|];
      assert |u| == |v|;
    }
  }

  /** A line put before a parenthesis keeps the names if and only if the line it is put on
      declares the same with it as with what it pushes away. */
  lemma LineBeforeParen(x: string, line: string, y: string)
    requires y != "" && y[0] == ')' && OneLine(line)
    ensures NamesIn(x + (line + "\n") + y) == NamesIn(x + y)
            <==> DeclaredName(LastLine(x) + line) == DeclaredName(LastLine(x) + Lines(y)[0])
  {
    hide Lines, DeclaredName, DeclaredNames;
    FirstLine(y);
    NamesOfGlue(x, y);
    OneLineLines(line);
    NamesOfGlue(x, line);
    assert Lines(line)[1..] == [];
    NoNames([]);
    LinesOfJoin(x + line, y);
    NamesSplit(Lines(x + line), Lines(y));
    assert x + (line + "\n") + y == x + line + "\n" + y;
    var init, tail := DeclaredNames(Lines(x)[..|Lines(x)| - 1]), DeclaredNames(Lines(y)[1..]);
    var with_, without := LastLine(x) + line, LastLine(x) + Lines(y)[0];
    assert init + DeclaredNames([with_]) + [] == init + DeclaredNames([with_]);
    MiddleIff(init, DeclaredNames([with_]), DeclaredNames([without]), tail);
    OneName(with_);
    OneName(without);
  }

  // ------------------------------------------------- what a settled line declares

  lemma {:induction false} TrimLeftGlue(a: string, x: string)
    ensures TrimLeft(a + x) == if TrimLeft(a) == "" then TrimLeft(x) else TrimLeft(a) + x
    decreases |a|
  {
    if a == "" {
      assert a + x == x;
    } else if IsSpace(a[0]) {
      assert (a + x)[1..] == a[1..] + x;
      TrimLeftGlue(a[1..], x);
    }
  }

  lemma {:induction false} TrimRightGlue(a: string, x: string, i: nat)
    requires i < |x| && !IsSpace(x[i])
    ensures TrimRight(a + x) == a + TrimRight(x) && i < |TrimRight(x)| && TrimRight(x) <= x
    decreases |x|
  {
    var last := x[|x| - 1];
    assert (a + x)[|a + x| - 1] == last;
    if IsSpace(last) {
      assert i < |x| - 1 && x[..|x| - 1][i] == x[i];
      assert (a + x)[..|a + x| - 1] == a + x[..|x| - 1];
      TrimRightGlue(a, x[..|x| - 1], i);
    }
  }

  /** In any file, a line that declares a register function, indented or not and whatever
      follows the first parenthesis, is recognised with the function's whole name. */
  lemma RegisterFunctionIsRecognised(lead: string, name: string, rest: string)
    requires White(lead) && Free(name, '(')
    ensures DeclaredName(lead + ("func Register" + name + "Routes(" + rest)) == Some("Register" + name + "Routes")
  {
    hide Contains, CharIndex;
    var a, x := "func Register" + name, "Routes(" + rest;
    WhiteIsBlank(lead);
    hide White;
    assert "func Register" + name + "Routes(" + rest == a + x;
    TrimLeftBlank(lead, a + x);
    TrimRightGlue(a, x, 6);
    var cut := TrimRight(x);
    assert "Routes(" <= cut by { assert x[..7] == "Routes("; }
    NameStandsWhole(name, cut);
    assert Trim(lead + (a + x)) == a + cut;
  }

  lemma NameStandsWhole(name: string, cut: string)
    requires Free(name, '(') && "Routes(" <= cut
    ensures var l := "func Register" + name + cut;
            "func Register" <= l && Contains(l, "Routes(") &&
            (if FUNC <= l[..CharIndex(l, '(')] then l[..CharIndex(l, '(')][|FUNC|..] else l[..CharIndex(l, '(')])
              == "Register" + name + "Routes"
  {
    hide Contains, CharIndex, Free;
    var l := "func Register" + name + cut;
    RoutesWithin("func Register" + name, cut);
    WordsAreFree();
    FuncThenName();
    var tail := cut[6..];
    assert cut == "Routes" + tail && tail[0] == '(' by { RoutesThenParen(cut); }
    Rejoined(FUNC, "Register", name, "Routes", tail);
    NameCut(FUNC, "Register", name, "Routes", tail);
    StartsWith("func Register", name, cut);
  }

  lemma Rejoined(f: string, r: string, name: string, o: string, tail: string)
    ensures (f + r) + name + (o + tail) == f + (r + name + o) + tail
  {
  }

  lemma StartsWith(a: string, b: string, c: string)
    ensures a <= a + b + c
  {
  }

  lemma RoutesWithin(a: string, cut: string)
    requires "Routes(" <= cut
    ensures Contains(a + cut, "Routes(")
  {
    hide Contains, Index;
    assert (a + cut)[|a|..|a| + 7] == cut[..7];
    Occurs(a + cut, "Routes(", |a|);
  }

  lemma RoutesThenParen(cut: string)
    requires "Routes(" <= cut
    ensures cut[..6] == "Routes" && cut[6] == '('
  {
  }

  lemma WordsAreFree()
    ensures Free(FUNC, '(') && Free("Register", '(') && Free("Routes", '(')
  {
  }

  lemma NameCut(f: string, r: string, name: string, o: string, tail: string)
    requires Free(f, '(') && Free(r, '(') && Free(name, '(') && Free(o, '(') && tail != "" && tail[0] == '('
    ensures var l := f + (r + name + o) + tail;
            var head := l[..CharIndex(l, '(')];
            f <= head && head[|f|..] == r + name + o
  {
    hide CharIndex, Free;
    var head := f + (r + name + o);
    FreeAppend(f, r + name + o, '(');
    FreeAppend(r + name, o, '(');
    FreeAppend(r, name, '(');
    CharIndexAppend(head, tail, '(');
    StartsHere(tail);
    assert (head + tail)[..|head|] == head;
  }

  lemma FuncThenName()
    ensures FUNC + "Register" == "func Register"
  {
  }

  lemma StartsHere(tail: string)
    requires tail != "" && tail[0] == '('
    ensures CharIndex(tail, '(') == 0
  {
  }

  /** A line that does not begin so, or does not mention routes, declares nothing. */
  lemma OtherLinesDeclareNothing(lead: string, line: string, trail: string)
    requires White(lead) && White(trail) && Tight(line)
    requires !("func Register" <= line) || !Contains(line, "Routes(")
    ensures DeclaredName(lead + line + trail) == None
  {
    WhiteIsBlank(lead);
    WhiteIsBlank(trail);
    hide White;
    TrimTight(lead, line, trail);
  }

  /** What a settled line declares, cut short of what follows. */
  function SettledName(line: string): Option<string> {
    var l := TrimLeft(line);
    if "func Register" <= l then Some(l[..CharIndex(l, '(')][|FUNC|..]) else None
  }

  lemma SettledDeclares(line: string, rest: string, i: nat)
    requires Settled(line) && i < |rest| && !IsSpace(rest[i]) && rest[i] != 'f'
    requires forall j :: 0 <= j < i ==> IsSpace(rest[j])
    requires rest[0] == '\t' || rest[0] == ')'
    ensures DeclaredName(line + rest) == SettledName(line)
  {
    hide TrimRight, CharIndex, Contains, IsSpace;
    var l := TrimLeft(line);
    TrimLeftGlue(line, rest);
    if l == "" {
      BlankThen(line, rest, i);
    } else {
      TrimRightGlue(l, rest, i);
      var cut := TrimRight(rest);
      assert Trim(line + rest) == l + cut && cut[0] == rest[0];
      hide Trim, TrimLeft;
      if "func Register" <= l {
        ContainsLeft(l, cut, "Routes(");
        RoutesHasParen(l);
        CharIndexAppend(l, cut, '(');
        NameWithin(l, cut);
      } else {
        NotContinued(l, cut);
      }
    }
  }

  lemma NameWithin(l: string, cut: string)
    requires CharIndex(l, '(') < |l| && CharIndex(l + cut, '(') == CharIndex(l, '(')
    ensures (l + cut)[..CharIndex(l + cut, '(')] == l[..CharIndex(l, '(')]
    ensures "func Register" <= l ==> "func Register" <= l + cut
  {
    hide CharIndex;
    assert |l| >= 13 ==> (l + cut)[..13] == l[..13];
  }

  lemma NotContinued(l: string, cut: string)
    requires !("func Register" <= l) && cut != "" && (cut[0] == '\t' || cut[0] == ')')
    ensures !("func Register" <= l + cut)
  {
    if |l| < |"func Register"| {
      assert (l + cut)[|l|] == cut[0];
    } else {
      assert (l + cut)[..|"func Register"|] == l[..|"func Register"|];
    }
  }

  lemma RoutesHasParen(l: string)
    requires Contains(l, "Routes(") && "func Register" <= l
    ensures !Free(l, '(') && CharIndex(l, '(') < |l| && FUNC <= l[..CharIndex(l, '(')]
  {
    hide Contains, Index;
    OccursAt(l, "Routes(");
    var i := Index(l, "Routes(");
    CharAt(l, "Routes(", i, i + 6);
    assert l[i + 6] == '(';
    FuncBeforeParen(l, CharIndex(l, '('));
  }

  lemma FuncBeforeParen(l: string, k: nat)
    requires "func Register" <= l && k < |l| && l[k] == '('
    ensures FUNC <= l[..k]
  {
    assert "func Register"[..|FUNC|] == FUNC && Free(FUNC, '(');
    assert l[..|FUNC|] == FUNC;
  }

  lemma {:induction false} BlankThen(line: string, rest: string, i: nat)
    requires TrimLeft(line) == "" && i < |rest| && !IsSpace(rest[i]) && rest[i] != 'f'
    requires forall j :: 0 <= j < i ==> IsSpace(rest[j])
    ensures DeclaredName(line + rest) == None
    decreases |line|
  {
    hide Contains, CharIndex, TrimRight;
    if line == "" {
      assert line + rest == rest;
      NotAFunc(rest, i);
    } else {
      assert (line + rest)[1..] == line[1..] + rest;
      BlankThen(line[1..], rest, i);
    }
  }

  // ------------------------------------------------- one import

  /** An import as the generator writes it: a quoted string on one line. */
  predicate Quoted(imp: string) {
    imp != "" && imp[0] == '"' && OneLine(imp)
  }

  lemma ImportBlockText(imp: string)
    ensures "\n\nimport (\n\t" + imp + "\n)\n" == Unlines(["", IMPORT_OPEN, "\t" + imp, ")"])
  {
    var last, line := [")"], "\t" + imp;
    assert last[1..] == [] && Unlines(last) == "\n)\n";
    var two := [line] + last;
    assert two[1..] == last && Unlines(two) == "\n" + line + "\n)\n";
    var three := [IMPORT_OPEN] + two;
    assert three[1..] == two && Unlines(three) == "\n" + IMPORT_OPEN + Unlines(two);
    var four := [""] + three;
    assert four[1..] == three && Unlines(four) == "\n" + Unlines(three);
    assert four == ["", IMPORT_OPEN, "\t" + imp, ")"];
    BlockText(imp);
  }

  lemma BlockText(imp: string)
    ensures "\n\nimport (\n\t" + imp + "\n)\n" == "\n" + ("\n" + IMPORT_OPEN + ("\n" + ("\t" + imp) + "\n)\n"))
  {
  }

  lemma ImportBlockLines(imp: string)
    requires Quoted(imp)
    ensures var lines := ["", IMPORT_OPEN, "\t" + imp, ")"];
            DeclaredNames(lines) == [] && forall l :: l in lines ==> OneLine(l)
  {
    hide DeclaredName, IsSpace;
    var lines := ["", IMPORT_OPEN, "\t" + imp, ")"];
    BlankLine();
    VisibleChars();
    NotAFunc(IMPORT_OPEN, 0);
    NotAFunc("\t" + imp, 1);
    NotAFunc(")", 0);
    FreeAppend("\t", imp, '\n');
    NoNames(lines);
  }

  lemma VisibleChars()
    ensures !IsSpace(IMPORT_OPEN[0]) && !IsSpace(')') && !IsSpace('"') && IsSpace('\t')
  {
  }

  /** Inserting an import keeps the declared names if and only if it keeps what the line it
      comes to stand on declares. */
  lemma AddImportKeepsNamesIff(content: string, imp: string)
    requires Quoted(imp)
    ensures NamesIn(AddImport(content, imp)) == NamesIn(content) <==> SameName(content, imp)
  {
    hide Index, Lines, DeclaredName, DeclaredNames, Unlines, CharIndex, NamesIn;
    if !HasPlace(content) {
      NoPlaceNoChange(content, imp);
    } else if Contains(content, IMPORT_OPEN) {
      InsertsIntoBlock(content, imp);
      var at := InsertionFor(content, imp).at;
      var x, y := content[..at], content[at..];
      assert x + y == content;
      FreeAppend("\t", imp, '\n');
      LineBeforeParen(x, "\t" + imp, y);
    } else {
      OccursAt(content, "\n");
      var i := Index(content, "\n");
      CharAt(content, "\n", i, i);
      BlockAfterLine(content[..i], content[i + 1..], imp);
      assert content == content[..i] + "\n" + content[i + 1..];
      assert content[..i + 1] == content[..i] + "\n";
    }
  }

  /** A settled place is enough for every import. */
  lemma SettledIsSame(content: string, imp: string)
    requires PlaceIsSettled(content) && Quoted(imp)
    ensures SameName(content, imp)
  {
    hide Index, Lines, DeclaredName, CharIndex, Settled, SettledName, IsSpace;
    if HasPlace(content) && Contains(content, IMPORT_OPEN) {
      InsertsIntoBlock(content, imp);
      var at := InsertionFor(content, imp).at;
      assert at == InsertionFor(content, "").at;
      var before, y := LastLine(content[..at]), content[at..];
      VisibleChars();
      assert y[0] == ')';
      FirstLine(y);
      SettledDeclares(before, "\t" + imp, 1);
      SettledDeclares(before, Lines(y)[0], 0);
    }
  }

  lemma BlockAfterLine(x: string, y: string, imp: string)
    requires Quoted(imp)
    ensures NamesIn(x + "\n" + ("\nimport (\n\t" + imp + "\n)\n") + y) == NamesIn(x + "\n" + y)
  {
    hide Lines, DeclaredName, DeclaredNames, Unlines;
    var lines := ["", IMPORT_OPEN, "\t" + imp, ")"];
    var z := x + ("\n\nimport (\n\t" + imp + "\n)");
    ImportBlockText(imp);
    ImportBlockLines(imp);
    NamesAfterUnlines(x, lines);
    assert z + "\n" == x + Unlines(lines);
    NamesAfterBreak(z, "");
    NamesAfterBreak(z, y);
    NamesAfterBreak(x, y);
    OneLineLines("");
    EmptyLineDeclaresNothing();
    assert NamesIn(x) + [] == NamesIn(x) && NamesIn(z) + [] == NamesIn(z);
    assert z + "\n" + "" == z + "\n";
    assert z + "\n" + y == x + "\n" + ("\nimport (\n\t" + imp + "\n)\n") + y;
  }

  // ------------------------------------------------- the place of the next import

  /** q is the first parenthesis after the import block opens. */
  ghost predicate ClosesAt(t: string, start: nat, q: nat) {
    Contains(t, IMPORT_OPEN) && Index(t, IMPORT_OPEN) == start <= q < |t| && t[q] == ')' &&
    Free(t[start..q], ')')
  }

  lemma FirstParenIs(rest: string, d: nat)
    requires d < |rest| && rest[d] == ')' && Free(rest[..d], ')')
    ensures Contains(rest, ")") && Index(rest, ")") == d
  {
    hide Index, Contains;
    assert rest[d..d + 1] == ")";
    Occurs(rest, ")", d);
    OccursAt(rest, ")");
    var k := Index(rest, ")");
    CharAt(rest, ")", k, k);
    forall j | 0 <= j < d ensures rest[j] != ')' { assert rest[..d][j] == rest[j]; }
  }

  lemma ParenAt(t: string, start: nat, q: nat)
    requires ClosesAt(t, start, q)
    ensures HasPlace(t) && InsertionFor(t, "").at == q
  {
    hide Index;
    assert t[start..][..q - start] == t[start..q];
    FirstParenIs(t[start..], q - start);
  }

  lemma PlaceCloses(t: string)
    requires HasPlace(t) && Contains(t, IMPORT_OPEN)
    ensures 0 <= Index(t, IMPORT_OPEN) && ClosesAt(t, Index(t, IMPORT_OPEN), InsertionFor(t, "").at)
  {
    InsertsIntoBlock(t, "");
    var start, q := Index(t, IMPORT_OPEN), InsertionFor(t, "").at;
    if !Free(t[start..q], ')') {
      var k :| 0 <= k < |t[start..q]| && t[start..q][k] == ')';
      assert t[start..][k..k + 1] == ")";
      Occurs(t[start..], ")", k);
    }
  }

  lemma FirstOpenIs(t: string, start: nat, head: string)
    requires At(t, IMPORT_OPEN, start) && start + |IMPORT_OPEN| <= |head| && head <= t
    requires forall i :: 0 <= i < start ==> !At(head, IMPORT_OPEN, i)
    ensures Contains(t, IMPORT_OPEN) && Index(t, IMPORT_OPEN) == start
  {
    hide Contains, Index;
    Occurs(t, IMPORT_OPEN, start);
    OccursAt(t, IMPORT_OPEN);
    var i := Index(t, IMPORT_OPEN);
    AtPrefix(head, t, IMPORT_OPEN, i);
  }

  lemma AtPrefix(head: string, t: string, sub: string, i: nat)
    requires head <= t
    ensures At(t, sub, i) && i + |sub| <= |head| ==> At(head, sub, i)
  {
    if i + |sub| <= |head| { assert t[i..i + |sub|] == head[i..i + |sub|]; }
  }

  /** After an import without a parenthesis the place of the next one is settled. */
  lemma NextPlaceIsSettled(content: string, imp: string)
    requires HasPlace(content) && Quoted(imp) && Free(imp, ')')
    ensures PlaceIsSettled(AddImport(content, imp))
  {
    hide Index, Lines, Settled, Contains, AddImport, PlaceIsSettled, InsertionFor, HasPlace, Quoted, Free;
    if Contains(content, IMPORT_OPEN) {
      PlaceCloses(content);
      var start, at := Index(content, IMPORT_OPEN), InsertionFor(content, "").at;
      InsertionFits(content, imp);
      InsertionInBlock(content, imp);
      InsertedBeforeParen(content, start, at, imp);
    } else {
      FirstBlock(content, imp);
    }
  }

  lemma InsertionInBlock(content: string, imp: string)
    requires HasPlace(content) && Contains(content, IMPORT_OPEN)
    ensures InsertionFor(content, imp) == Insertion(InsertionFor(content, "").at, "\t" + imp + "\n")
  {
    hide Index;
  }

  lemma InsertedBeforeParen(content: string, start: nat, at: nat, imp: string)
    requires ClosesAt(content, start, at) && Free(imp, ')')
    ensures PlaceIsSettled(Inserted(content, at, "\t" + imp + "\n"))
  {
    hide Index, Lines, Settled, Contains, HasPlace, InsertionFor, Free;
    var text, head := "\t" + imp + "\n", content[..at];
    var t := Inserted(content, at, text);
    OccursAt(content, IMPORT_OPEN);
    BlockBeforeParen(content, start, at);
    assert At(t, IMPORT_OPEN, start) by {
      assert t[start..start + |IMPORT_OPEN|] == content[start..start + |IMPORT_OPEN|];
    }
    NotBefore(content, start, at);
    FirstOpenIs(t, start, head);
    assert t[start..at + |text|] == content[start..at] + text;
    FreeText(imp);
    FreeAppend(content[start..at], text, ')');
    assert t[at + |text|] == content[at];
    ParenAt(t, start, at + |text|);
    EndsWithBreak(t, at + |text|);
  }

  lemma FreeText(imp: string)
    requires Free(imp, ')')
    ensures Free("\t" + imp + "\n", ')')
  {
  }

  lemma NotBefore(content: string, start: nat, at: nat)
    requires Contains(content, IMPORT_OPEN) && Index(content, IMPORT_OPEN) == start <= at <= |content|
    ensures forall i :: 0 <= i < start ==> !At(content[..at], IMPORT_OPEN, i)
  {
    hide Index, Contains;
    forall i | 0 <= i < start ensures !At(content[..at], IMPORT_OPEN, i) {
      if At(content[..at], IMPORT_OPEN, i) {
        assert content[..at][i..i + |IMPORT_OPEN|] == content[i..i + |IMPORT_OPEN|];
        Occurs(content, IMPORT_OPEN, i);
      }
    }
  }

  lemma EndsWithBreak(t: string, q: nat)
    requires 0 < q <= |t| && t[q - 1] == '\n'
    ensures Settled(LastLine(t[..q]))
  {
    LinesOfJoin(t[..q - 1], "");
    assert t[..q] == t[..q - 1] + "\n" + "";
  }

  lemma FirstBlock(content: string, imp: string)
    requires HasPlace(content) && !Contains(content, IMPORT_OPEN) && Quoted(imp) && Free(imp, ')')
    ensures PlaceIsSettled(AddImport(content, imp))
  {
    hide Index, Lines, Settled, Contains, InsertionFor, AddImport, HasPlace, Quoted, Free;
    var t, at := AddImport(content, imp), InsertionFor(content, imp).at;
    InsertionFits(content, imp);
    InsertsBlock(content, imp);
    PlaceAfterBreak(content, imp);
    var head, inner := content[..at] + "\n" + IMPORT_OPEN, "\n\t" + imp + "\n";
    assert "\n\t" + imp + "\n)\n" == inner + ")\n";
    assert t == head + inner + (")\n" + content[at..]);
    var start, q := at + 1, |head + inner|;
    assert At(t, IMPORT_OPEN, start) by { assert t[start..start + |IMPORT_OPEN|] == IMPORT_OPEN; }
    NoneBefore(content, at);
    FirstOpenIs(t, start, head);
    assert t[start..q] == IMPORT_OPEN + inner;
    FreeBlock(imp);
    ParenAt(t, start, q);
    EndsWithBreak(t, q);
  }

  lemma FreeBlock(imp: string)
    requires Free(imp, ')')
    ensures Free(IMPORT_OPEN + ("\n\t" + imp + "\n"), ')')
  {
  }

  lemma PlaceAfterBreak(content: string, imp: string)
    requires HasPlace(content) && !Contains(content, IMPORT_OPEN)
    ensures var at := InsertionFor(content, imp).at; 0 < at <= |content| && content[at - 1] == '\n'
  {
    OccursAt(content, "\n");
    CharAt(content, "\n", Index(content, "\n"), Index(content, "\n"));
  }

  lemma NoneBefore(content: string, at: nat)
    requires 0 < at <= |content| && content[at - 1] == '\n' && !Contains(content, IMPORT_OPEN)
    ensures forall j :: 0 <= j <= at ==> !At(content[..at] + "\n" + IMPORT_OPEN, IMPORT_OPEN, j)
  {
    hide Contains, Index;
    var head := content[..at] + "\n" + IMPORT_OPEN;
    forall j | 0 <= j <= at ensures !At(head, IMPORT_OPEN, j) {
      if At(head, IMPORT_OPEN, j) {
        NotAcross(head, IMPORT_OPEN, j, at);
        if j == at {
          CharAt(head, IMPORT_OPEN, j, j);
        } else {
          assert head[j..j + |IMPORT_OPEN|] == content[j..j + |IMPORT_OPEN|];
          Occurs(content, IMPORT_OPEN, j);
        }
      }
    }
  }

  // ------------------------------------------------- where an import is put

  /** Into a file with an import block: at the end of the first block. */
  lemma AddedAtTheEndOfTheBlock(pre: string, body: string, post: string, imp: string)
    requires Free(body, ')')
    requires forall i :: 0 <= i < |pre| ==> !At(pre + "import (" + body + ")" + post, "import (", i)
    ensures AddImport(pre + "import (" + body + ")" + post, imp)
         == pre + "import (" + body + ("\t" + imp + "\n") + ")" + post
  {
    hide Index, Contains, Free;
    var t := pre + "import (" + body + ")" + post;
    var start, q := |pre|, |pre| + |IMPORT_OPEN| + |body|;
    assert t[start..start + |IMPORT_OPEN|] == IMPORT_OPEN;
    FirstOpenIs(t, start, t);
    assert t[q] == ')' && t[start..q] == IMPORT_OPEN + body;
    OpenIsFree();
    FreeAppend(IMPORT_OPEN, body, ')');
    ParenAt(t, start, q);
    InsertionInBlock(t, imp);
    InsertionFits(t, imp);
    assert t[..q] == pre + "import (" + body && t[q..] == ")" + post;
  }

  lemma OpenIsFree()
    ensures Free(IMPORT_OPEN, ')')
  {
  }

  /** Into a file without one: in a block of its own after the first line. */
  lemma AddedAfterTheFirstLine(line: string, rest: string, imp: string)
    requires OneLine(line) && !Contains(line + "\n" + rest, "import (")
    ensures AddImport(line + "\n" + rest, imp) == line + "\n" + ("\nimport (\n\t" + imp + "\n)\n") + rest
  {
    hide Index;
    var t := line + "\n" + rest;
    assert t[|line|..|line| + 1] == "\n";
    Occurs(t, "\n", |line|);
    OccursAt(t, "\n");
    var i := Index(t, "\n");
    CharAt(t, "\n", i, i);
    assert forall j :: 0 <= j < |line| ==> t[j] == line[j];
    assert i == |line|;
    assert t[..|line| + 1] == line + "\n" && t[|line| + 1..] == rest;
  }

  // ------------------------------------------------- all imports

  lemma {:induction false} SettledStays(content: string, required: seq<string>)
    requires PlaceIsSettled(content) && EarlierSimple(required) && forall r :: r in required ==> Quoted(r)
    ensures NamesIn(EnsureImports(content, required)) == NamesIn(content)
    decreases |required|
  {
    hide PlaceIsSettled, SameName, AddImport, Contains, NamesIn;
    if required != [] {
      var rest := required[1..];
      assert required[0] in required && forall r :: r in rest ==> r in required;
      assert forall i :: 0 <= i < |rest| ==> rest[i] == required[i + 1];
      if Contains(content, required[0]) {
        SettledStays(content, rest);
      } else {
        SettledIsSame(content, required[0]);
        AddImportKeepsNamesIff(content, required[0]);
        if rest != [] {
          if HasPlace(content) { NextPlaceIsSettled(content, required[0]); } else { NoPlaceNoChange(content, required[0]); }
          SettledStays(AddImport(content, required[0]), rest);
        }
      }
    }
  }

  function FirstMissing(content: string, required: seq<string>): Option<string>
    decreases |required|
  {
    if required == [] then None
    else if Contains(content, required[0]) then FirstMissing(content, required[1..])
    else Some(required[0])
  }

  lemma {:induction false} EnsureKeepsNamesIff(content: string, required: seq<string>)
    requires EarlierSimple(required) && forall r :: r in required ==> Quoted(r)
    ensures var imp := FirstMissing(content, required);
            NamesIn(EnsureImports(content, required)) == NamesIn(content)
            <==> imp.None? || SameName(content, imp.value)
    decreases |required|
  {
    hide PlaceIsSettled, SameName, AddImport, Contains, NamesIn;
    if required != [] {
      var rest := required[1..];
      assert required[0] in required && forall r :: r in rest ==> r in required;
      assert forall i :: 0 <= i < |rest| ==> rest[i] == required[i + 1];
      if Contains(content, required[0]) {
        EnsureKeepsNamesIff(content, rest);
      } else if HasPlace(content) {
        AddImportKeepsNamesIff(content, required[0]);
        if rest != [] {
          NextPlaceIsSettled(content, required[0]);
          SettledStays(AddImport(content, required[0]), rest);
        }
      } else {
        NothingToDo(content, required);
        AddImportKeepsNamesIff(content, required[0]);
        NoPlaceNoChange(content, required[0]);
      }
    }
  }

  function WithImports(c: Settings, file: string): string {
    EnsureImports(file, RequiredImports(c.handlerImport))
  }

  /** The first import that is missing does not disturb the line it comes to stand on. */
  ghost predicate Undisturbed(c: Settings, content: string) {
    var imp := FirstMissing(content, RequiredImports(c.handlerImport));
    imp.None? || SameName(content, imp.value)
  }

  /** Adding the required imports changes none of the declared names if and only if the first
      of them does not. */
  lemma ImportsKeepNamesIff(c: Settings, content: string)
    requires OneLine(c.handlerImport)
    ensures NamesIn(WithImports(c, content)) == NamesIn(content) <==> Undisturbed(c, content)
  {
    hide SameName, NamesIn, EnsureImports, FirstMissing;
    RequiredAreSimple(c.handlerImport);
    assert Quoted(GIN) && Quoted(GORM) && Quoted("\"" + c.handlerImport + "\"");
    EnsureKeepsNamesIff(content, RequiredImports(c.handlerImport));
  }

  // ------------------------------------------------- all runs

  /** There is a place for the imports, or they are there. */
  ghost predicate Placed(c: Settings, file: string) {
    HasPlace(file) || AllContained(file, RequiredImports(c.handlerImport))
  }

  /** The first run that prints something works on the file with its imports. */
  lemma FirstPrint(c: Settings, file: string, ts: seq<Table>)
    requires Placed(c, file) && Undisturbed(c, file) && OneLine(c.handlerImport)
    ensures var first := WithImports(c, file);
            NamesIn(first) == NamesIn(file) && AllContained(first, RequiredImports(c.handlerImport)) &&
            Generated(c, Some(file), ts) ==
              if Missing(ts, NamesIn(file)) == [] then Some(file) else Generated(c, Some(first), ts)
  {
    hide NamesIn, EnsureImports, HasPlace, Missing, AllContained, RequiredImports, Undisturbed;
    ImportsKeepNamesIff(c, file);
    EnsureImportsComplete(file, c.handlerImport);
    EnsureImportsFixpoint(file, c.handlerImport);
  }

  /** Any number of runs onto a file somebody else wrote: it is left alone as long as nothing
      is missing; then it gets its imports, keeps its declarations, and is followed by one
      block for each function printed. */
  lemma {:induction false} EachFunctionOnceInAnyFile(c: Settings, file: string, runs: seq<seq<Table>>)
    requires Placed(c, file) && Undisturbed(c, file) && OneLine(c.handlerImport) && AllPrintable(runs)
    ensures var all := Printed(runs, NamesIn(file));
            RunAll(c, Some(file), runs) ==
              (if all == [] then Some(file) else Some(WithImports(c, file) + Blocks(all, c.useHandlerPkg))) &&
            Declares(RunAll(c, Some(file), runs), NamesIn(file), runs)
    decreases |runs|
  {
    hide Placed, Undisturbed, NamesIn, Generated, Missing, Blocks, Distinct, FuncName, WithImports, AllPrintable, FuncNames, NoRepeats;
    AllPrinted(runs, NamesIn(file));
    NothingTwiceIff(runs, NamesIn(file));
    if runs == [] {
      NoFuncNames();
      assert NamesIn(file) + [] == NamesIn(file);
    } else {
      FirstPrint(c, file, runs[0]);
      AllPrintableTail(runs);
      if Missing(runs[0], NamesIn(file)) == [] {
        NoFuncNames();
        assert NamesIn(file) + [] == NamesIn(file);
        EachFunctionOnceInAnyFile(c, file, runs[1..]);
        assert Printed(runs, NamesIn(file)) == Printed(runs[1..], NamesIn(file));
      } else {
        EachFunctionOnce(c, WithImports(c, file), runs);
        assert Printed(runs, NamesIn(file)) != [];
      }
    }
  }

  /** The outcome declares what was declared and what the runs print after it, in this order;
      all that was asked for; and nothing twice, if and only if nothing was and no run asks
      twice for what it finds missing. */
  ghost predicate Declares(file: Option<string>, names: seq<string>, runs: seq<seq<Table>>) {
    file.Some? &&
    var end := NamesIn(file.value);
    end == names + FuncNames(Printed(runs, names)) &&
    (forall i, t :: 0 <= i < |runs| && t in runs[i] ==> FuncName(t) in end) &&
    (Distinct(end) <==> Distinct(names) && NoRepeats(runs, names))
  }

  // ------------------------------------------------- a file without a place

  /** Before a closing parenthesis in the line, what precedes it is settled. */
  ghost predicate Tame(line: string) {
    OneLine(line) && forall k :: 0 <= k < |line| && line[k] == ')' ==> Settled(line[..k])
  }

  lemma LastOfJoin(x: string, line: string)
    requires OneLine(line)
    ensures LastLine(x + "\n" + line) == line
  {
    hide Lines;
    LinesOfJoin(x, line);
    OneLineLines(line);
  }

  lemma {:induction false} UnlinesAreTame(x: string, lines: seq<string>, p: nat)
    requires (forall i :: 0 <= i < |lines| ==> Tame(lines[i])) && p < |Unlines(lines)| && Unlines(lines)[p] == ')'
    ensures Settled(LastLine(x + Unlines(lines)[..p]))
    decreases |lines|
  {
    hide Lines, Settled;
    if lines != [] {
      var l, rest := lines[0], lines[1..];
      var u := Unlines(lines);
      assert u == "\n" + l + Unlines(rest) && Tame(l);
      if p <= |l| {
        assert l[p - 1] == ')' && x + u[..p] == x + "\n" + l[..p - 1];
        assert OneLine(l[..p - 1]);
        LastOfJoin(x, l[..p - 1]);
      } else {
        var q := p - 1 - |l|;
        assert Unlines(rest)[q] == ')' && x + u[..p] == (x + "\n" + l) + Unlines(rest)[..q];
        assert forall i :: 0 <= i < |rest| ==> rest[i] == lines[i + 1];
        UnlinesAreTame(x + "\n" + l, rest, q);
      }
    }
  }

  lemma {:induction false} PrefixStart(line: string, i: nat, k: nat)
    requires i < |line| && !IsSpace(line[i]) && line[i] != 'f' && k <= |line|
    requires forall j :: 0 <= j < i ==> IsSpace(line[j])
    ensures Settled(line[..k])
    decreases i
  {
    hide Contains;
    if k > 0 && i > 0 {
      PrefixStart(line[1..], i - 1, k - 1);
      assert line[..k][1..] == line[1..][..k - 1];
    }
  }

  lemma NameEnds()
    ensures (ROUTES + FUNC_TAIL)[..7] == "Routes(" && |ROUTES + FUNC_TAIL| > 7
    ensures Free((ROUTES + FUNC_TAIL)[..7], ')') && Free(FUNC + REGISTER, ')')
  {
    var back := ROUTES + FUNC_TAIL;
    assert |ROUTES| == 6 && FUNC_TAIL[0] == '(' && back[|ROUTES|] == FUNC_TAIL[0];
    assert back[..6] == ROUTES && back[..7] == back[..6] + [back[6]];
    assert ROUTES + ['('] == "Routes(";
  }

  lemma FuncLineParts(t: Table)
    ensures var n := |FUNC + REGISTER + t.structName|;
            n + 7 <= |FuncLine(t)| && FuncLine(t)[n..n + 7] == "Routes(" && FuncLine(t)[0] == 'f' &&
            (Free(t.structName, ')') ==> Free(FuncLine(t)[..n + 7], ')'))
  {
    var front, back := FUNC + REGISTER + t.structName, ROUTES + FUNC_TAIL;
    assert FuncLine(t) == front + back && front[0] == 'f';
    NameEnds();
    hide FuncLine, Free;
    assert (front + back)[|front|..|front| + 7] == back[..7];
    assert (front + back)[..|front| + 7] == front + back[..7];
    FreeAppend(FUNC + REGISTER, t.structName, ')');
    FreeAppend(front, back[..7], ')');
  }

  lemma FuncLineIsTame(t: Table)
    requires OneLineTable(t) && Free(t.structName, ')')
    ensures Tame(FuncLine(t))
  {
    FuncIsOneLine(t);
    FuncLineParts(t);
    hide FuncLine, Contains, OneLine, Settled;
    var line, n := FuncLine(t), |FUNC + REGISTER + t.structName|;
    assert forall k :: 0 <= k < n + 7 ==> line[..n + 7][k] == line[k];
    hide Free;
    forall k | 0 <= k < |line| && line[k] == ')' ensures Settled(line[..k]) {
      assert line[..k][n..n + 7] == line[n..n + 7];
      Occurs(line[..k], "Routes(", n);
      SettledByName(line[..k]);
    }
  }

  lemma SettledByName(l: string)
    requires l != "" && l[0] == 'f' && Contains(l, "Routes(")
    ensures Settled(l)
  {
    hide Contains;
    assert !IsSpace('f');
    assert TrimLeft(l) == l;
  }

  lemma BlockIsTame(t: Table, h: bool)
    requires OneLineTable(t) && Free(t.structName, ')')
    ensures forall i :: 0 <= i < |BlockLines(t, h)| ==> Tame(BlockLines(t, h)[i])
  {
    hide BodyLine, CommentLine, FuncLine, OneLine, Settled;
    FuncLineIsTame(t);
    CommentIsOneLine(t);
    CommentStart(t);
    forall k | 0 <= k < |CommentLine(t)| ensures Settled(CommentLine(t)[..k]) { PrefixStart(CommentLine(t), 0, k); }
    forall i: nat | i < 10 ensures Tame(BodyLine(t, h, i)) {
      BodyLineIsOneLine(t, h, i);
      var line := BodyLine(t, h, i);
      var j := BodyStart(t, h, i);
      forall k | 0 <= k < |line| ensures Settled(line[..k]) { PrefixStart(line, j, k); }
    }
  }

  lemma CommentStart(t: Table)
    ensures CommentLine(t) != "" && CommentLine(t)[0] == '/'
  {
  }

  lemma BodyStart(t: Table, h: bool, i: nat) returns (j: nat)
    requires i < 10
    ensures j < |BodyLine(t, h, i)| && !IsSpace(BodyLine(t, h, i)[j]) && BodyLine(t, h, i)[j] != 'f'
    ensures forall k :: 0 <= k < j ==> IsSpace(BodyLine(t, h, i)[k])
  {
    BodyLineStart(t, h, i);
    j := Indent(i);
    hide BodyLine;
  }

  /** All on one line, and no parenthesis in the struct name. */
  ghost predicate Closed(t: Table) {
    OneLineTable(t) && Free(t.structName, '(') && Free(t.structName, ')')
  }

  lemma {:induction false} BlocksAreTame(x: string, ts: seq<Table>, h: bool, p: nat)
    requires (forall t :: t in ts ==> Closed(t)) && p < |Blocks(ts, h)| && Blocks(ts, h)[p] == ')'
    ensures Settled(LastLine(x + Blocks(ts, h)[..p]))
    decreases |ts|
  {
    hide Block, Settled, Closed, Lines, BlockLines;
    var block, rest := Block(ts[0], h), Blocks(ts[1..], h);
    assert ts[0] in ts && forall t :: t in ts[1..] ==> t in ts;
    assert Blocks(ts, h) == block + rest;
    if p < |block| {
      assert (block + rest)[..p] == block[..p];
      TameBlock(x, ts[0], h, p);
    } else {
      assert x + (block + rest)[..p] == (x + block) + rest[..p - |block|];
      BlocksAreTame(x + block, ts[1..], h, p - |block|);
    }
  }

  lemma TameBlock(x: string, t: Table, h: bool, p: nat)
    requires Closed(t) && p < |Block(t, h)| && Block(t, h)[p] == ')'
    ensures Settled(LastLine(x + Block(t, h)[..p]))
  {
    hide BlockLines, Settled, Lines, Tame, Unlines;
    BlockIsTame(t, h);
    UnlinesAreTame(x, BlockLines(t, h), p);
  }

  /** The last parenthesis of a block is so near its end that no import block opens after it. */
  lemma {:induction false} UnlinesEnd(lines: seq<string>, k: nat)
    requires k <= |lines|
    ensures |Unlines(lines[k..])| <= |Unlines(lines)|
    ensures Unlines(lines)[|Unlines(lines)| - |Unlines(lines[k..])|..] == Unlines(lines[k..])
    decreases k
  {
    if k == 0 {
      assert lines[0..] == lines;
    } else {
      UnlinesEnd(lines[1..], k - 1);
      assert lines[1..][k - 1..] == lines[k..];
      assert Unlines(lines) == ("\n" + lines[0]) + Unlines(lines[1..]);
      hide Unlines;
      SameEnd("\n" + lines[0], Unlines(lines[1..]), |Unlines(lines[k..])|);
    }
  }

  lemma SameEnd(a: string, v: string, n: nat)
    requires n <= |v|
    ensures (a + v)[|a + v| - n..] == v[|v| - n..]
  {
  }

  lemma BlockEnd(t: Table, h: bool)
    ensures var b := Block(t, h); |b| > 7 && b[|b| - 7] == ')'
  {
    hide Unlines, BodyLine;
    var lines := BlockLines(t, h);
    var end := [BodyLine(t, h, 7), BodyLine(t, h, 8), BodyLine(t, h, 9)];
    assert lines[9..] == end;
    UnlinesEnd(lines, 9);
    EndText(t, h);
    var b, u := Unlines(lines), Unlines(end);
    assert b[|b| - |u|..][|u| - 7] == b[|b| - 7];
  }

  lemma EndText(t: Table, h: bool)
    ensures var u := Unlines([BodyLine(t, h, 7), BodyLine(t, h, 8), BodyLine(t, h, 9)]);
            |u| > 7 && u[|u| - 7] == ')'
  {
    var x, y, z := BodyLine(t, h, 7), BodyLine(t, h, 8), BodyLine(t, h, 9);
    assert x[|x| - 1] == ')' && |y| == 2 && |z| == 1;
    hide BodyLine;
    assert [x, y, z][1..] == [y, z] && [y, z][1..] == [z] && [z][1..] == [];
    assert Unlines([z]) == "\n" + z + "\n" && Unlines([y, z]) == "\n" + y + Unlines([z]);
    assert Unlines([x, y, z]) == "\n" + x + Unlines([y, z]);
    hide Unlines;
    assert ("\n" + x)[|x|] == x[|x| - 1];
  }

  lemma {:induction false} BlocksEnd(ts: seq<Table>, h: bool)
    requires ts != []
    ensures var b := Blocks(ts, h); |b| > 7 && b[|b| - 7] == ')' && b[0] == '\n'
    decreases |ts|
  {
    hide Block;
    BlockEnd(ts[0], h);
    assert Block(ts[0], h)[0] == '\n' by { BlockBegins(ts[0], h); }
    if |ts| == 1 {
      assert Blocks(ts, h) == Block(ts[0], h) + "";
    } else {
      BlocksEnd(ts[1..], h);
    }
  }

  lemma BlockBegins(t: Table, h: bool)
    ensures Block(t, h) != "" && Block(t, h)[0] == '\n'
  {
    hide CommentLine, FuncLine, BodyLines;
  }

  /** Printed onto a file without a place for imports, the blocks make one ... */
  lemma BlocksMakeAPlace(file: string, ts: seq<Table>, h: bool)
    requires ts != []
    ensures HasPlace(file + Blocks(ts, h))
  {
    hide Index, Contains, HasPlace, Blocks;
    BlocksEnd(ts, h);
    var b := Blocks(ts, h);
    var t := file + b;
    if Contains(t, IMPORT_OPEN) {
      assert t[|t| - 7] == b[|b| - 7];
      OccursAt(t, IMPORT_OPEN);
      ParenAfter(t, |t| - 7);
    } else {
      assert t[|file|..|file| + 1] == "\n";
      Occurs(t, "\n", |file|);
      PlaceAtBreak(t);
    }
  }

  /** ... which is settled when all is on one line and no struct name holds a parenthesis. */
  lemma BlocksMakeASettledPlace(file: string, ts: seq<Table>, h: bool)
    requires !HasPlace(file) && ts != [] && forall t :: t in ts ==> Closed(t)
    ensures PlaceIsSettled(file + Blocks(ts, h))
  {
    hide Index, Contains, HasPlace, InsertionFor, Blocks, Closed, Lines, Settled, ClosesAt, LastLine;
    BlocksMakeAPlace(file, ts, h);
    BlocksEnd(ts, h);
    var b := Blocks(ts, h);
    var t := file + b;
    if Contains(t, IMPORT_OPEN) {
      PlaceCloses(t);
      var q := InsertionFor(t, "").at;
      PlaceIsNew(file, b, q);
      assert t[q] == ')' && q < |t| by { ClosesMeans(t, Index(t, IMPORT_OPEN), q); }
      assert b[q - |file|] == ')';
      BlocksAreTame(file, ts, h, q - |file|);
      assert t[..q] == file + b[..q - |file|];
    }
  }

  lemma ClosesMeans(t: string, start: nat, q: nat)
    requires ClosesAt(t, start, q)
    ensures q < |t| && t[q] == ')'
  {
  }

  lemma PlaceAtBreak(t: string)
    requires Contains(t, "\n") && !Contains(t, IMPORT_OPEN)
    ensures HasPlace(t)
  {
  }

  lemma PlaceIsNew(file: string, b: string, q: nat)
    requires !HasPlace(file) && Contains(file + b, IMPORT_OPEN)
    requires ClosesAt(file + b, Index(file + b, IMPORT_OPEN), q)
    ensures |file| <= q
  {
    hide HasPlace, Index, Contains;
    var t := file + b;
    OccursAt(t, IMPORT_OPEN);
    var i := Index(t, IMPORT_OPEN);
    BlockBeforeParen(t, i, q);
    if q < |file| {
      assert file[i..i + |IMPORT_OPEN|] == t[i..i + |IMPORT_OPEN|];
      Occurs(file, IMPORT_OPEN, i);
      ParenAfter(file, q);
    }
  }

  lemma NothingDisturbed(c: Settings, content: string)
    requires PlaceIsSettled(content) && OneLine(c.handlerImport)
    ensures Undisturbed(c, content)
  {
    hide PlaceIsSettled, SameName;
    RequiredAreSimple(c.handlerImport);
    assert Quoted(GIN) && Quoted(GORM) && Quoted("\"" + c.handlerImport + "\"");
    var imp := FirstMissing(content, RequiredImports(c.handlerImport));
    FirstMissingIsIn(content, RequiredImports(c.handlerImport));
    if imp.Some? { SettledIsSame(content, imp.value); }
  }

  lemma {:induction false} FirstMissingIsIn(content: string, required: seq<string>)
    ensures FirstMissing(content, required).Some? ==> FirstMissing(content, required).value in required
    decreases |required|
  {
    if required != [] { FirstMissingIsIn(content, required[1..]); }
  }

  /** The file as the first run that prints something leaves it. */
  function AfterFirstPrint(c: Settings, file: string, runs: seq<seq<Table>>): string
    decreases |runs|
  {
    if runs == [] then file
    else
      var more := Missing(runs[0], NamesIn(file));
      if more == [] then AfterFirstPrint(c, file, runs[1..])
      else WithImports(c, file) + Blocks(more, c.useHandlerPkg)
  }

  /** On any file at all -- also an empty one, one of a single line, or one with an import
      block that is never closed -- the declarations are kept and what is missing is added,
      provided that the first missing import does not disturb a name.  Where there is no place
      for imports that proviso is about the file after the first print, which has one. */
  lemma {:induction false} NamesAreKeptAnywhere(c: Settings, file: string, runs: seq<seq<Table>>)
    requires OneLine(c.handlerImport) && AllPrintable(runs)
    requires Undisturbed(c, if Placed(c, file) then file else AfterFirstPrint(c, file, runs))
    ensures Declares(RunAll(c, Some(file), runs), NamesIn(file), runs)
    decreases |runs|
  {
    hide Placed, Undisturbed, NamesIn, Generated, Missing, Blocks, Distinct, FuncName, FuncNames, NoRepeats, AllPrintable, WithImports;
    AllPrinted(runs, NamesIn(file));
    NothingTwiceIff(runs, NamesIn(file));
    if Placed(c, file) {
      EachFunctionOnceInAnyFile(c, file, runs);
    } else if runs == [] {
      NoFuncNames();
      assert NamesIn(file) + [] == NamesIn(file);
    } else {
      var more := Missing(runs[0], NamesIn(file));
      var next := file + Blocks(more, c.useHandlerPkg);
      AllPrintableTail(runs);
      PrintsWithoutPlace(c, file, runs[0]);
      PrintedCons(runs, NamesIn(file));
      if more == [] {
        NoFuncNames();
        assert NamesIn(file) + [] == NamesIn(file);
        NamesAreKeptAnywhere(c, file, runs[1..]);
      } else {
        EachFunctionOnceInAnyFile(c, next, runs[1..]);
      }
    }
  }

  lemma PrintsWithoutPlace(c: Settings, file: string, ts: seq<Table>)
    requires !Placed(c, file) && forall t :: t in ts ==> Printable(t)
    ensures var more := Missing(ts, NamesIn(file));
            var next := file + Blocks(more, c.useHandlerPkg);
            Generated(c, Some(file), ts) == Some(next) && WithImports(c, file) == file &&
            NamesIn(next) == NamesIn(file) + FuncNames(more) &&
            if more == [] then next == file else Placed(c, next)
  {
    hide NamesIn, Missing, Blocks, FuncNames, FuncName, HasPlace, EnsureImports, RequiredImports;
    var more := Missing(ts, NamesIn(file));
    MissingIs(ts, NamesIn(file));
    NothingToDo(file, RequiredImports(c.handlerImport));
    NamesAfterBlocks(file, more, c.useHandlerPkg);
    if more == [] {
      NoBlocks(c.useHandlerPkg);
      assert file + "" == file;
    } else {
      BlocksMakeAPlace(file, more, c.useHandlerPkg);
    }
  }

  /** The proviso holds when all is on one line and no struct name holds a parenthesis. */
  lemma {:induction false} ClosedTablesDisturbNothing(c: Settings, file: string, runs: seq<seq<Table>>)
    requires !Placed(c, file) && OneLine(c.handlerImport)
    requires forall i, t :: 0 <= i < |runs| && t in runs[i] ==> Closed(t)
    ensures Undisturbed(c, AfterFirstPrint(c, file, runs))
    decreases |runs|
  {
    hide Missing, NamesIn, Blocks, Closed, PlaceIsSettled, HasPlace;
    if runs == [] {
      PlaceIsSettledNowhere(file);
      NothingDisturbed(c, file);
    } else {
      var more := Missing(runs[0], NamesIn(file));
      assert forall i :: 0 <= i < |runs[1..]| ==> runs[1..][i] == runs[i + 1];
      if more == [] {
        ClosedTablesDisturbNothing(c, file, runs[1..]);
      } else {
        MissingIs(runs[0], NamesIn(file));
        NothingToDo(file, RequiredImports(c.handlerImport));
        assert forall t :: t in more ==> t in runs[0];
        BlocksMakeASettledPlace(file, more, c.useHandlerPkg);
        NothingDisturbed(c, file + Blocks(more, c.useHandlerPkg));
      }
    }
  }

  lemma PlaceIsSettledNowhere(file: string)
    requires !HasPlace(file)
    ensures PlaceIsSettled(file)
  {
  }

  // ------------------------------------------------- no other condition will do

  /** A table whose function no file of this length declares. */
  function NewTable(n: nat): Table {
    Table("", seq(n, i => 'A'), "")
  }

  lemma {:induction false} NamesFitTheFile(lines: seq<string>, n: nat)
    requires forall i :: 0 <= i < |lines| ==> |lines[i]| <= n
    ensures forall name :: name in DeclaredNames(lines) ==> |name| <= n
    decreases |lines|
  {
    if lines != [] {
      NameFitsTheLine(lines[0]);
      hide DeclaredName;
      assert forall i :: 0 <= i < |lines[1..]| ==> lines[1..][i] == lines[i + 1];
      NamesFitTheFile(lines[1..], n);
    }
  }

  lemma NameFitsTheLine(line: string)
    ensures DeclaredName(line).Some? ==> |DeclaredName(line).value| <= |line|
  {
    TrimIsShorter(line);
    hide Trim, Contains;
  }

  lemma TrimIsShorter(line: string)
    ensures |Trim(line)| <= |line|
  {
    TrimLeftIsShorter(line);
    TrimRightIsShorter(TrimLeft(line));
  }

  lemma {:induction false} TrimLeftIsShorter(s: string)
    ensures |TrimLeft(s)| <= |s|
  {
    if s != "" && IsSpace(s[0]) { TrimLeftIsShorter(s[1..]); }
  }

  lemma {:induction false} TrimRightIsShorter(s: string)
    ensures |TrimRight(s)| <= |s|
  {
    if s != "" && IsSpace(s[|s| - 1]) { TrimRightIsShorter(s[..|s| - 1]); }
  }

  lemma {:induction false} LinesFitTheFile(s: string)
    ensures forall i :: 0 <= i < |Lines(s)| ==> |Lines(s)[i]| <= |s|
    decreases |s|
  {
    var i := CharIndex(s, '\n');
    if i < |s| { LinesFitTheFile(s[i + 1..]); }
  }

  lemma NewTableIsNew(file: string)
    ensures Printable(NewTable(|file|)) && FuncName(NewTable(|file|)) !in NamesIn(file)
  {
    var t := NewTable(|file|);
    OneLineIsPrintable(t);
    LinesFitTheFile(file);
    hide Lines, DeclaredNames, Printable;
    NamesFitTheFile(Lines(file), |file|);
    assert |FuncName(t)| > |file|;
  }

  ghost predicate DeclaresForAll(c: Settings, file: string) {
    forall runs :: AllPrintable(runs) ==> Declares(RunAll(c, Some(file), runs), NamesIn(file), runs)
  }

  /** On a file with a place for its imports, or with its imports, all runs keep the
      declarations and add what is missing if and only if the first missing import does not
      disturb the line it comes to stand on. */
  lemma DeclaresForAllIff(c: Settings, file: string)
    requires Placed(c, file) && OneLine(c.handlerImport)
    ensures DeclaresForAll(c, file) <==> Undisturbed(c, file)
  {
    if Undisturbed(c, file) {
      forall runs | AllPrintable(runs) ensures Declares(RunAll(c, Some(file), runs), NamesIn(file), runs) {
        EachFunctionOnceInAnyFile(c, file, runs);
      }
    } else {
      var t := NewTable(|file|);
      NewTableIsNew(file);
      NewTablePrints(c, file, t);
      assert AllPrintable([[t]]);
    }
  }

  lemma NewTablePrints(c: Settings, file: string, t: Table)
    requires Placed(c, file) && OneLine(c.handlerImport) && !Undisturbed(c, file)
    requires Printable(t) && FuncName(t) !in NamesIn(file)
    ensures !Declares(RunAll(c, Some(file), [[t]]), NamesIn(file), [[t]])
  {
    hide NamesIn, Undisturbed, FuncName, Printable, Blocks, EnsureImports, Placed;
    var runs, first := [[t]], WithImports(c, file);
    ImportsKeepNamesIff(c, file);
    assert [t][1..] == [] && runs[1..] == [];
    assert Missing([], NamesIn(file)) == [] && Missing([t], NamesIn(file)) == [t];
    var next := first + Blocks([t], c.useHandlerPkg);
    assert Generated(c, Some(file), [t]) == Some(next);
    assert RunAll(c, Some(next), []) == Some(next);
    NamesAfterBlocks(first, [t], c.useHandlerPkg);
    assert Printed([], NamesIn(file) + FuncNames([t])) == [] && [t] + [] == [t];
    assert Printed(runs, NamesIn(file)) == [t];
    SameTail(NamesIn(first), NamesIn(file), FuncNames([t]));
  }

  lemma SameTail(xs: seq<string>, ys: seq<string>, zs: seq<string>)
    ensures xs + zs == ys + zs <==> xs == ys
  {
    if xs + zs == ys + zs {
      assert |xs + zs| == |ys + zs|;
      assert xs == (xs + zs)[..|xs|] && ys == (ys + zs)[..|ys|];
    }
  }

  /** On any file whose names the imports do not disturb, running again on the same tables
      changes nothing if and only if no struct name holds an opening parenthesis or a line
      break. */
  lemma IdempotentOnAnyFile(c: Settings, file: string, ts: seq<Table>)
    requires OneLine(c.handlerImport) && Undisturbed(c, file)
    ensures var once := Generated(c, Some(file), ts);
            Generated(c, once, ts) == once <==> forall t :: t in ts ==> Named(t)
  {
    hide Generated, NamesIn, Undisturbed, Named;
    ImportsKeepNamesIff(c, file);
    IdempotentIff(c, file, ts);
  }
}
