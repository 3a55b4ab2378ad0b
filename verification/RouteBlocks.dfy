/**
 What the blocks printed by appendRouteFuncs of cmd/goupter/internal/gen/crud.go register:
 the lines are read back for the routes, the group and the handler they name.
 */
module RouteBlocks {
  import opened Prelude
  import opened TextOps
  import opened Imports
  import opened Routes

  datatype Route = Route(verb: string, path: string, handler: string)

  /** g.VERB("path", h.Handler) */
  function RouteLine(r: Route): string {
    "g." + r.verb + "(\"" + r.path + "\", h." + r.handler + ")"
  }

  function ReadRoute(line: string): Option<Route> {
    var l := Trim(line);
    if "g." <= l then ReadCall(l[2..]) else None
  }

  /** VERB("path", h.Handler) */
  function ReadCall(s: string): Option<Route> {
    var i := CharIndex(s, '(');
    if "(\"" <= s[i..] then ReadArguments(s[..i], s[i + 2..]) else None
  }

  /** path", h.Handler) */
  function ReadArguments(verb: string, s: string): Option<Route> {
    var j := CharIndex(s, '"');
    if "\", h." <= s[j..] then ReadHandler(verb, s[..j], s[j + 5..]) else None
  }

  /** Handler) */
  function ReadHandler(verb: string, path: string, s: string): Option<Route> {
    if s != "" && s[|s| - 1] == ')' then Some(Route(verb, path, s[..|s| - 1])) else None
  }

  function RoutesOf(lines: seq<string>): seq<Route> {
    if lines == [] then [] else
      (match ReadRoute(lines[0]) case Some(r) => [r] case None => []) + RoutesOf(lines[1..])
  }

  /** The routes a text registers, line by line. */
  function RoutesIn(text: string): seq<Route> {
    RoutesOf(Lines(text))
  }

  lemma CharIndexIs(a: string, c: char, b: string)
    requires Free(a, c)
    ensures CharIndex(a + [c] + b, c) == |a|
  {
    var s := a + [c] + b;
    assert s[|a|] == c;
    assert forall i :: 0 <= i < |a| ==> s[i] == a[i];
  }

  lemma CallReadsBack(verb: string, args: string)
    requires Free(verb, '(')
    ensures ReadCall(verb + ("(\"" + args)) == ReadArguments(verb, args)
  {
    hide ReadArguments;
    var s := verb + ("(\"" + args);
    assert s == verb + ['('] + ("\"" + args);
    CharIndexIs(verb, '(', "\"" + args);
    hide CharIndex;
    assert s[|verb|..] == "(\"" + args && s[..|verb|] == verb && s[|verb| + 2..] == args;
    assert ("(\"" + args)[..2] == "(\"";
  }

  lemma ArgumentsReadBack(verb: string, path: string, handler: string)
    requires Free(path, '"')
    ensures ReadArguments(verb, path + ("\", h." + (handler + ")"))) == Some(Route(verb, path, handler))
  {
    var tail := "\", h." + (handler + ")");
    var s := path + tail;
    assert s == path + ['"'] + (", h." + (handler + ")"));
    CharIndexIs(path, '"', ", h." + (handler + ")"));
    hide CharIndex;
    assert s[|path|..] == tail && s[..|path|] == path && s[|path| + 5..] == handler + ")";
    assert tail[..5] == "\", h.";
    assert (handler + ")")[..|handler|] == handler;
  }

  /** A registering line reads back as what it registers, however it is indented. */
  lemma RouteReadsBack(r: Route, indent: string)
    requires Free(r.verb, '(') && Free(r.path, '"') && White(indent)
    ensures ReadRoute(indent + RouteLine(r)) == Some(r)
  {
    var args := r.path + ("\", h." + (r.handler + ")"));
    var call := r.verb + ("(\"" + args);
    var l := RouteLine(r);
    assert l == "g." + call;
    assert l[0] == 'g' && l[|l| - 1] == ')';
    WhiteIsBlank(indent);
    NoWhiteAfter(indent, l);
    assert l[..2] == "g." && l[2..] == call;
    hide Trim, White, ReadCall, ReadArguments, RouteLine;
    CallReadsBack(r.verb, args);
    ArgumentsReadBack(r.verb, r.path, r.handler);
  }

  lemma NoWhiteAfter(indent: string, l: string)
    requires Blank(indent) && Tight(l)
    ensures Trim(indent + l) == l
  {
    TrimTight(indent, l, "");
    assert indent + l + "" == indent + l;
  }

  /** A line whose first visible characters are not g. registers nothing. */
  lemma NoRoute(line: string, i: nat)
    requires i + 1 < |line| && !IsSpace(line[i]) && (line[i] != 'g' || line[i + 1] != '.')
    requires forall j :: 0 <= j < i ==> IsSpace(line[j])
    ensures ReadRoute(line) == None
  {
    TrimStart(line, i);
  }

  lemma {:induction false} TrimStart(line: string, i: nat)
    requires i < |line| && !IsSpace(line[i]) && forall j :: 0 <= j < i ==> IsSpace(line[j])
    ensures var l := Trim(line);
            l != "" && l[0] == line[i] && (i + 1 < |line| && !IsSpace(line[i + 1]) ==> |l| > 1 && l[1] == line[i + 1])
            && (|l| > 1 ==> i + 1 < |line| && l[1] == line[i + 1])
    decreases i
  {
    if i > 0 {
      TrimStart(line[1..], i - 1);
    } else {
      TrimRightStart(line);
    }
  }

  lemma {:induction false} TrimRightStart(s: string)
    requires s != "" && !IsSpace(s[0])
    ensures var l := TrimRight(s);
            l != "" && l <= s && (|s| > 1 && !IsSpace(s[1]) ==> |l| > 1)
    decreases |s|
  {
    if IsSpace(s[|s| - 1]) { TrimRightStart(s[..|s| - 1]); }
  }

  // ------------------------------------------------- one block

  lemma {:induction false} LinesOfUnlines(lines: seq<string>)
    requires forall i :: 0 <= i < |lines| ==> OneLine(lines[i])
    ensures Lines(Unlines(lines)) == [""] + lines + [""]
    decreases |lines|
  {
    hide Lines;
    OneLineLines("");
    if lines == [] {
      LinesOfJoin("", "");
      assert Unlines(lines) == "" + "\n" + "";
    } else {
      var rest := Unlines(lines[1..]);
      assert forall i :: 0 <= i < |lines[1..]| ==> lines[1..][i] == lines[i + 1];
      LinesOfUnlines(lines[1..]);
      UnlinesBegins(lines[1..]);
      var tail := rest[1..];
      assert rest == "" + "\n" + tail;
      LinesOfJoin("", tail);
      assert ([""] + lines[1..] + [""])[1..] == lines[1..] + [""];
      assert Unlines(lines) == "" + "\n" + (lines[0] + "\n" + tail);
      LinesOfJoin("", lines[0] + "\n" + tail);
      LinesOfJoin(lines[0], tail);
      OneLineLines(lines[0]);
      assert [lines[0]] + lines[1..] == lines;
    }
  }

  lemma UnlinesBegins(lines: seq<string>)
    ensures Unlines(lines) != "" && Unlines(lines)[0] == '\n'
  {
  }

  /** The lines of a block, the blank one that sets it apart first. */
  lemma LinesOfBlock(t: Table, h: bool)
    requires OneLineTable(t)
    ensures Lines(Block(t, h)) == [""] + BlockLines(t, h) + [""]
  {
    hide CommentLine, FuncLine, BodyLine, OneLine;
    CommentIsOneLine(t);
    FuncIsOneLine(t);
    forall i: nat | i < 10 ensures OneLine(BodyLine(t, h, i)) { BodyLineIsOneLine(t, h, i); }
    LinesOfUnlines(BlockLines(t, h));
  }

  const REGISTERED: seq<Route> := [
    Route("POST", "", "Create"),
    Route("GET", "/:id", "Get"),
    Route("GET", "", "List"),
    Route("PUT", "/:id", "Update"),
    Route("DELETE", "/:id", "Delete")]

  lemma RegisteringLine(t: Table, h: bool, i: nat)
    requires i < 5
    ensures BodyLine(t, h, 3 + i) == "\t\t" + RouteLine(REGISTERED[i])
    ensures ReadRoute(BodyLine(t, h, 3 + i)) == Some(REGISTERED[i])
  {
    RegisteringText(t, h, i);
    RegisteredIsFree(i);
    hide BodyLine, ReadRoute, RouteLine;
    RouteReadsBack(REGISTERED[i], "\t\t");
  }

  lemma RegisteringText(t: Table, h: bool, i: nat)
    requires i < 5
    ensures BodyLine(t, h, 3 + i) == "\t\t" + RouteLine(REGISTERED[i])
  {
    if i == 0 { CreateText(t, h); }
    else if i == 1 { GetText(t, h); }
    else if i == 2 { ListText(t, h); }
    else if i == 3 { UpdateText(t, h); }
    else { DeleteText(t, h); }
    hide RouteLine, BodyLine;
  }

  lemma CreateText(t: Table, h: bool)
    ensures BodyLine(t, h, 3) == "\t\t" + RouteLine(Route("POST", "", "Create"))
  {
    assert "g." + "POST" + "(\"" == "g.POST(\"";
    assert "g.POST(\"" + "" + "\", h." == "g.POST(\"\", h.";
    assert "g.POST(\"\", h." + "Create" + ")" == "g.POST(\"\", h.Create)";
    assert "\t\t" + "g.POST(\"\", h.Create)" == "\t\tg.POST(\"\", h.Create)";
  }

  lemma GetText(t: Table, h: bool)
    ensures BodyLine(t, h, 4) == "\t\t" + RouteLine(Route("GET", "/:id", "Get"))
  {
    assert "g." + "GET" + "(\"" == "g.GET(\"";
    assert "g.GET(\"" + "/:id" + "\", h." == "g.GET(\"/:id\", h.";
    assert "g.GET(\"/:id\", h." + "Get" + ")" == "g.GET(\"/:id\", h.Get)";
    assert "\t\t" + "g.GET(\"/:id\", h.Get)" == "\t\tg.GET(\"/:id\", h.Get)";
  }

  lemma ListText(t: Table, h: bool)
    ensures BodyLine(t, h, 5) == "\t\t" + RouteLine(Route("GET", "", "List"))
  {
    assert "g." + "GET" + "(\"" == "g.GET(\"";
    assert "g.GET(\"" + "" + "\", h." == "g.GET(\"\", h.";
    assert "g.GET(\"\", h." + "List" + ")" == "g.GET(\"\", h.List)";
    assert "\t\t" + "g.GET(\"\", h.List)" == "\t\tg.GET(\"\", h.List)";
  }

  lemma UpdateText(t: Table, h: bool)
    ensures BodyLine(t, h, 6) == "\t\t" + RouteLine(Route("PUT", "/:id", "Update"))
  {
    assert "g." + "PUT" + "(\"" == "g.PUT(\"";
    assert "g.PUT(\"" + "/:id" + "\", h." == "g.PUT(\"/:id\", h.";
    assert "g.PUT(\"/:id\", h." + "Update" + ")" == "g.PUT(\"/:id\", h.Update)";
    assert "\t\t" + "g.PUT(\"/:id\", h.Update)" == "\t\tg.PUT(\"/:id\", h.Update)";
  }

  lemma DeleteText(t: Table, h: bool)
    ensures BodyLine(t, h, 7) == "\t\t" + RouteLine(Route("DELETE", "/:id", "Delete"))
  {
    assert "g." + "DELETE" + "(\"" == "g.DELETE(\"";
    assert "g.DELETE(\"" + "/:id" + "\", h." == "g.DELETE(\"/:id\", h.";
    assert "g.DELETE(\"/:id\", h." + "Delete" + ")" == "g.DELETE(\"/:id\", h.Delete)";
    assert "\t\t" + "g.DELETE(\"/:id\", h.Delete)" == "\t\tg.DELETE(\"/:id\", h.Delete)";
  }

  lemma RegisteredIsFree(i: nat)
    requires i < 5
    ensures Free(REGISTERED[i].verb, '(') && Free(REGISTERED[i].path, '"') && White("\t\t")
  {
  }

  lemma OtherLine(t: Table, h: bool, i: nat)
    requires i < 3 || 8 <= i < 10
    ensures ReadRoute(BodyLine(t, h, i)) == None
  {
    Visible();
    var line := BodyLine(t, h, i);
    if i == 9 {
      assert line == "}";
      ShortLine(line);
    } else if i == 2 || i == 8 {
      assert |line| == 2 && line[0] == '\t' && line[1] != 'g';
      ShortLine(line);
    } else {
      assert line[0] == '\t' && (line[1] == 'h' || line[1] == 'g') && line[2] == ' ';
      hide ReadRoute, IsSpace;
      NoRoute(line, 1);
    }
  }

  lemma Visible()
    ensures IsSpace('\t') && !IsSpace('g') && !IsSpace('h') && !IsSpace('/') && !IsSpace('f')
  {
  }

  lemma ShortLine(line: string)
    requires line == "}" || (|line| == 2 && line[0] == '\t' && line[1] != 'g')
    ensures ReadRoute(line) == None
  {
    TrimNoLonger(line);
  }

  lemma TrimNoLonger(line: string)
    requires line == "}" || (|line| == 2 && line[0] == '\t' && line[1] != 'g')
    ensures |Trim(line)| < 2
  {
    assert IsSpace('\t');
    if |line| == 2 {
      assert TrimLeft(line) == TrimLeft(line[1..]) && |TrimLeft(line[1..])| <= 1;
    }
  }

  lemma TopLine(t: Table)
    ensures ReadRoute(CommentLine(t)) == None && ReadRoute(FuncLine(t)) == None && ReadRoute("") == None
  {
    Visible();
    assert |CommentLine(t)| > 1 && CommentLine(t)[0] == '/' && |FuncLine(t)| > 1 && FuncLine(t)[0] == 'f';
    assert Trim("") == "";
    hide IsSpace, CommentLine, FuncLine;
    NoRoute(CommentLine(t), 0);
    NoRoute(FuncLine(t), 0);
  }

  lemma {:induction false} RoutesSplit(xs: seq<string>, ys: seq<string>)
    ensures RoutesOf(xs + ys) == RoutesOf(xs) + RoutesOf(ys)
    decreases |xs|
  {
    hide ReadRoute;
    if xs == [] {
      assert xs + ys == ys;
    } else {
      assert (xs + ys)[1..] == xs[1..] + ys;
      RoutesSplit(xs[1..], ys);
    }
  }

  lemma {:induction false} NoRoutes(lines: seq<string>)
    requires forall i :: 0 <= i < |lines| ==> ReadRoute(lines[i]) == None
    ensures RoutesOf(lines) == []
    decreases |lines|
  {
    hide ReadRoute;
    if lines != [] {
      assert forall i :: 0 <= i < |lines[1..]| ==> lines[1..][i] == lines[i + 1];
      NoRoutes(lines[1..]);
    }
  }

  lemma {:induction false} AllRoutes(lines: seq<string>, rs: seq<Route>)
    requires |lines| == |rs| && forall i :: 0 <= i < |lines| ==> ReadRoute(lines[i]) == Some(rs[i])
    ensures RoutesOf(lines) == rs
    decreases |lines|
  {
    hide ReadRoute;
    if lines != [] {
      assert forall i :: 0 <= i < |lines[1..]| ==> lines[1..][i] == lines[i + 1] && rs[1..][i] == rs[i + 1];
      AllRoutes(lines[1..], rs[1..]);
      assert rs == [rs[0]] + rs[1..];
    }
  }

  /** The block of a table registers the five operations on their own handlers and nothing
      else, in this order. */
  lemma BlockRegisters(t: Table, h: bool)
    requires OneLineTable(t)
    ensures RoutesIn(Block(t, h)) ==
            [Route("POST", "", "Create"), Route("GET", "/:id", "Get"), Route("GET", "", "List"),
             Route("PUT", "/:id", "Update"), Route("DELETE", "/:id", "Delete")]
  {
    hide CommentLine, FuncLine, BodyLine, ReadRoute, Lines, Block;
    LinesOfBlock(t, h);
    TopLine(t);
    var body := BodyLines(t, h);
    forall i: nat | i < 10
      ensures if 3 <= i < 8 then ReadRoute(body[i]) == Some(REGISTERED[i - 3]) else ReadRoute(body[i]) == None
    {
      if 3 <= i < 8 { RegisteringLine(t, h, i - 3); } else { OtherLine(t, h, i); }
    }
    var top, bottom := ["", CommentLine(t), FuncLine(t)] + body[..3], body[8..] + [""];
    NoRoutes(top);
    NoRoutes(bottom);
    AllRoutes(body[3..8], REGISTERED);
    assert Lines(Block(t, h)) == top + body[3..8] + bottom;
    RoutesSplit(top + body[3..8], bottom);
    RoutesSplit(top, body[3..8]);
  }

  /** The group they are registered in is named after the table, and the handler is made by
      the constructor named after the struct, of package handler if the routes lie elsewhere. */
  lemma BlockNames(t: Table, h: bool)
    requires OneLineTable(t)
    ensures var lines := Lines(Block(t, h));
            |lines| == 14 &&
            lines[1] == "// Register" + t.structName + "Routes 注册 " + t.comment + " 路由" &&
            lines[2] == "func Register" + t.structName + "Routes(r *gin.RouterGroup, db *gorm.DB) {" &&
            lines[3] == "\th := " + (if h then "handler.New" else "New") + t.structName + "Handler(db)" &&
            lines[4] == "\tg := r.Group(\"/" + t.name + "s\")"
  {
    LinesOfBlock(t, h);
    FuncText(t);
    HandlerText(t, h);
    hide FuncLine, BodyLine, CommentLine, Lines, Block;
    CommentText(t);
    GroupText(t, h);
  }

  lemma CommentText(t: Table)
    ensures CommentLine(t) == "// Register" + t.structName + "Routes 注册 " + t.comment + " 路由"
  {
  }

  lemma GroupText(t: Table, h: bool)
    ensures BodyLine(t, h, 1) == "\tg := r.Group(\"/" + t.name + "s\")"
  {
  }

  lemma FuncText(t: Table)
    ensures FuncLine(t) == "func Register" + t.structName + "Routes(r *gin.RouterGroup, db *gorm.DB) {"
  {
    FuncBegins();
    FuncEnds();
    Regroup(FUNC, REGISTER, t.structName, ROUTES, FUNC_TAIL);
  }

  lemma FuncBegins()
    ensures FUNC + REGISTER == "func Register"
  {
  }

  lemma FuncEnds()
    ensures ROUTES + FUNC_TAIL == "Routes(r *gin.RouterGroup, db *gorm.DB) {"
  {
  }

  lemma Regroup(a: string, b: string, c: string, d: string, e: string)
    ensures a + (b + c + d) + e == (a + b) + c + (d + e)
  {
  }

  lemma HandlerText(t: Table, h: bool)
    ensures BodyLine(t, h, 0) == "\th := " + (if h then "handler.New" else "New") + t.structName + "Handler(db)"
  {
    assert "handler." + "New" == "handler.New" && "" + "New" == "New";
    var p := if h then "handler." else "";
    assert "\th := " + p + "New" == "\th := " + (p + "New");
  }

  // ------------------------------------------------- the header

  /** Beside the handlers without a service name -- white space counts as none -- and in
      package main with the handlers imported otherwise. */
  lemma SettingsMean(config: Config, join: seq<string> -> string)
    ensures SettingsFor(config, join) ==
            if White(config.serviceName) then Settings("handler", false, "")
            else Settings("main", true, join([config.moduleName, "cmd", config.serviceName, "handler"]))
  {
    WhiteIsBlank(config.serviceName);
    TrimIsEmptyIff(config.serviceName);
    hide White, Trim;
  }

  lemma TrimIsEmptyIff(s: string)
    ensures Trim(s) == "" <==> Blank(s)
  {
    if Blank(s) {
      TrimLeftBlank(s, "");
      assert s + "" == s;
    } else {
      var i := FirstIndex(s, c => !IsSpace(c));
      var k :| 0 <= k < |s| && !IsSpace(s[k]);
      assert i < |s|;
      TrimStart(s, i);
    }
  }

  /** The header names the package and imports what every block needs, and the handlers if
      they lie elsewhere. */
  lemma HeaderReads(c: Settings)
    requires OneLine(c.routesPkg) && OneLine(c.handlerImport)
    ensures Lines(Header(c)) ==
            ["package " + c.routesPkg, "", "import (", "\t\"github.com/gin-gonic/gin\"", "\t\"gorm.io/gorm\""] +
            (if c.handlerImport == "" then [] else ["", "\t\"" + c.handlerImport + "\""]) + [")", ""]
  {
    hide Lines, Unlines;
    var lines := HeaderLines(c);
    HeaderIsOneLine(c);
    LinesOfUnlines(lines);
    UnlinesBegins(lines);
    var u := Unlines(lines);
    var tail := u[1..];
    assert u == "" + "\n" + tail;
    LinesOfJoin("", tail);
    OneLineLines("");
    assert Lines(u) == [""] + Lines(tail);
    assert Lines(tail) == lines + [""] by { assert ([""] + lines + [""])[1..] == lines + [""]; }
    assert Header(c) == PackageLine(c) + "\n" + tail;
    LinesOfJoin(PackageLine(c), tail);
    FreeAppend("package ", c.routesPkg, '\n');
    OneLineLines(PackageLine(c));
    HandlerImportText(c);
  }

  lemma HandlerImportText(c: Settings)
    ensures "\t" + ("\"" + c.handlerImport + "\"") == "\t\"" + c.handlerImport + "\""
    ensures "\t" + GIN == "\t\"github.com/gin-gonic/gin\"" && "\t" + GORM == "\t\"gorm.io/gorm\""
  {
  }

  lemma HeaderIsOneLine(c: Settings)
    requires OneLine(c.handlerImport)
    ensures forall i :: 0 <= i < |HeaderLines(c)| ==> OneLine(HeaderLines(c)[i])
  {
    FixedHeaderLines();
    if c.handlerImport != "" { HandlerLineFacts(c); }
    hide OneLine, DeclaredName;
  }

  /** The imports a file must have, whoever wrote it. */
  lemma RequiredAre(handlerImport: string)
    ensures RequiredImports(handlerImport) ==
            ["\"github.com/gin-gonic/gin\"", "\"gorm.io/gorm\""] +
            if handlerImport == "" then [] else ["\"" + handlerImport + "\""]
  {
  }
}
