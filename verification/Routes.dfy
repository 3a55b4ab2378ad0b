/**
 generateRoutes of cmd/goupter/internal/gen/crud.go: register functions are appended to the
 route file for the tables that do not have one yet, found by reading the file back.
 */
module Routes {
  import opened Prelude
  import opened TextOps
  import opened Imports

  datatype Table = Table(name: string, structName: string, comment: string)

  datatype Settings = Settings(routesPkg: string, useHandlerPkg: bool, handlerImport: string)

  datatype Config = Config(serviceName: string, moduleName: string)

  /** Without a service name the routes go beside the handlers.  `join` is path.Join. */
  function SettingsFor(config: Config, join: seq<string> -> string): Settings {
    if Trim(config.serviceName) != "" then
      Settings("main", true, join([config.moduleName, "cmd", config.serviceName, "handler"]))
    else Settings("handler", false, "")
  }

  const FUNC := "func "
  const REGISTER := "Register"
  const ROUTES := "Routes"
  const FUNC_TAIL := "(r *gin.RouterGroup, db *gorm.DB) {"

  function FuncName(t: Table): string {
    REGISTER + t.structName + ROUTES
  }

  // ------------------------------------------------- the two templates

  function PackageLine(c: Settings): string {
    "package " + c.routesPkg
  }

  function HandlerLines(c: Settings): seq<string> {
    if c.handlerImport == "" then [] else ["", "\t" + ("\"" + c.handlerImport + "\"")]
  }

  function HeaderLines(c: Settings): seq<string> {
    ["", "import (", "\t" + GIN, "\t" + GORM] + HandlerLines(c) + [")"]
  }

  function Header(c: Settings): string {
    PackageLine(c) + Unlines(HeaderLines(c))
  }

  function CommentLine(t: Table): string {
    "// Register" + t.structName + "Routes 注册 " + t.comment + " 路由"
  }

  function FuncLine(t: Table): string {
    FUNC + FuncName(t) + FUNC_TAIL
  }

  function BodyLine(t: Table, useHandlerPkg: bool, i: nat): string
    requires i < 10
  {
    match i
    case 0 => "\th := " + (if useHandlerPkg then "handler." else "") + "New" + t.structName + "Handler(db)"
    case 1 => "\tg := r.Group(\"/" + t.name + "s\")"
    case 2 => "\t{"
    case 3 => "\t\tg.POST(\"\", h.Create)"
    case 4 => "\t\tg.GET(\"/:id\", h.Get)"
    case 5 => "\t\tg.GET(\"\", h.List)"
    case 6 => "\t\tg.PUT(\"/:id\", h.Update)"
    case 7 => "\t\tg.DELETE(\"/:id\", h.Delete)"
    case 8 => "\t}"
    case _ => "}"
  }

  function BodyLines(t: Table, useHandlerPkg: bool): seq<string> {
    seq(10, i requires 0 <= i < 10 => BodyLine(t, useHandlerPkg, i))
  }

  function BlockLines(t: Table, useHandlerPkg: bool): seq<string> {
    [CommentLine(t), FuncLine(t)] + BodyLines(t, useHandlerPkg)
  }

  /** Each line is preceded by a line break and the last one is followed by one. */
  function Unlines(lines: seq<string>): string {
    if lines == [] then "\n" else "\n" + lines[0] + Unlines(lines[1..])
  }

  function Block(t: Table, useHandlerPkg: bool): string {
    Unlines(BlockLines(t, useHandlerPkg))
  }

  function Blocks(ts: seq<Table>, useHandlerPkg: bool): string {
    if ts == [] then "" else Block(ts[0], useHandlerPkg) + Blocks(ts[1..], useHandlerPkg)
  }

  // ------------------------------------------------- reading the file back

  function Lines(s: string): (lines: seq<string>)
    ensures |lines| > 0
    decreases |s|
  {
    var i := CharIndex(s, '\n');
    if i == |s| then [s] else [s[..i]] + Lines(s[i + 1..])
  }

  /** The name a line declares: what stands before its first parenthesis. */
  function DeclaredName(text: string): Option<string> {
    var line := Trim(text);
    if "func Register" <= line && Contains(line, "Routes(") then
      var head := line[..CharIndex(line, '(')];
      Some(if FUNC <= head then head[|FUNC|..] else head)
    else None
  }

  function DeclaredNames(lines: seq<string>): seq<string> {
    if lines == [] then [] else
      (match DeclaredName(lines[0]) case Some(n) => [n] case None => []) + DeclaredNames(lines[1..])
  }

  function NamesIn(file: string): seq<string> {
    DeclaredNames(Lines(file))
  }

  // ------------------------------------------------- the generator

  function Missing(ts: seq<Table>, existing: seq<string>): seq<Table> {
    if ts == [] then [] else
      (if FuncName(ts[0]) in existing then [] else [ts[0]]) + Missing(ts[1..], existing)
  }

  lemma MissingFrom(ts: seq<Table>, existing: seq<string>, i: nat)
    requires i <= |ts|
    ensures ts[0..] == ts
    ensures i == |ts| ==> Missing(ts[i..], existing) == []
    ensures i < |ts| ==>
              Missing(ts[i..], existing)
                == (if FuncName(ts[i]) in existing then [] else [ts[i]]) + Missing(ts[i + 1..], existing)
  {
    if i < |ts| { assert ts[i..][1..] == ts[i + 1..]; }
  }

  function Generated(c: Settings, file: Option<string>, ts: seq<Table>): Option<string> {
    var existing := match file case Some(f) => NamesIn(f) case None => [];
    var newTables := Missing(ts, existing);
    if newTables == [] then file else
      var base := match file
        case Some(f) => EnsureImports(f, RequiredImports(c.handlerImport))
        case None => Header(c);
      Some(base + Blocks(newTables, c.useHandlerPkg))
  }

  class CRUDGenerator {
    const config: Config
    const join: seq<string> -> string
    var routesFile: Option<string>

    constructor (config: Config, join: seq<string> -> string, routesFile: Option<string>)
      ensures this.config == config && this.join == join && this.routesFile == routesFile
    {
      this.config, this.join := config, join;
      this.routesFile := routesFile;
    }

    method ParseExistingRouteFuncs() returns (funcs: set<string>)
      ensures forall n :: n in funcs <==> routesFile.Some? && n in NamesIn(routesFile.value)
    {
      funcs := {};
      if routesFile.None? {
        return;
      }
      var lines := Lines(routesFile.value);
      for i := 0 to |lines|
        invariant forall n :: n in NamesIn(routesFile.value) <==> n in funcs || n in DeclaredNames(lines[i..])
      {
        assert lines[i..][1..] == lines[i + 1..];
        var line := Trim(lines[i]);
        if "func Register" <= line && Contains(line, "Routes(") {
          var funcName := line[..CharIndex(line, '(')];
          if FUNC <= funcName {
            funcName := funcName[|FUNC|..];
          }
          assert DeclaredName(lines[i]) == Some(funcName);
          funcs := funcs + {funcName};
        }
      }
    }

    method EnsureFileImports(handlerImport: string)
      requires routesFile.Some?
      modifies this
      ensures routesFile == Some(EnsureImports(old(routesFile.value), RequiredImports(handlerImport)))
    {
      var fileContent, modified := routesFile.value, false;
      var required := [GIN, GORM];
      if handlerImport != "" {
        required := required + ["\"" + handlerImport + "\""];
      }
      assert required == RequiredImports(handlerImport);
      for i := 0 to |required|
        invariant EnsureImports(fileContent, required[i..]) == EnsureImports(routesFile.value, required)
        invariant !modified ==> fileContent == routesFile.value
      {
        assert required[i..][1..] == required[i + 1..];
        if !Contains(fileContent, required[i]) {
          fileContent, modified := AddImport(fileContent, required[i]), true;
        }
      }
      if modified {
        routesFile := Some(fileContent);
      }
    }

    method AppendRouteFuncs(tables: seq<Table>, useHandlerPkg: bool)
      requires routesFile.Some?
      modifies this
      ensures routesFile == Some(old(routesFile.value) + Blocks(tables, useHandlerPkg))
    {
      ghost var before := routesFile.value;
      for i := 0 to |tables|
        invariant routesFile.Some?
        invariant routesFile.value + Blocks(tables[i..], useHandlerPkg)
               == before + Blocks(tables, useHandlerPkg)
      {
        assert tables[i..][1..] == tables[i + 1..];
        AppendAssoc(routesFile.value, Block(tables[i], useHandlerPkg), Blocks(tables[i + 1..], useHandlerPkg));
        routesFile := Some(routesFile.value + Block(tables[i], useHandlerPkg));
      }
      assert routesFile.value + "" == routesFile.value;
    }

    method GenerateRoutes(tableInfos: seq<Table>)
      modifies this
      ensures routesFile == Generated(SettingsFor(config, join), old(routesFile), tableInfos)
    {
      hide NamesIn, EnsureImports, Header, Blocks, Missing, FuncName;
      var routesPkg, useHandlerPkg, handlerImport := "handler", false, "";
      if Trim(config.serviceName) != "" {
        routesPkg, useHandlerPkg := "main", true;
        handlerImport := join([config.moduleName, "cmd", config.serviceName, "handler"]);
      }
      var settings := Settings(routesPkg, useHandlerPkg, handlerImport);
      assert settings == SettingsFor(config, join);
      hide SettingsFor, Trim;
      var fileExists := routesFile.Some?;
      var existingFuncs := {};
      if fileExists {
        existingFuncs := ParseExistingRouteFuncs();
      }
      ghost var existing := match routesFile case Some(f) => NamesIn(f) case None => [];

      var newTables := [];
      MissingFrom(tableInfos, existing, 0);
      for i := 0 to |tableInfos|
        invariant routesFile == old(routesFile)
        invariant Missing(tableInfos, existing) == newTables + Missing(tableInfos[i..], existing)
      {
        MissingFrom(tableInfos, existing, i);
        if FuncName(tableInfos[i]) !in existingFuncs {
          newTables := newTables + [tableInfos[i]];
        }
      }

      MissingFrom(tableInfos, existing, |tableInfos|);
      assert newTables == Missing(tableInfos, existing);

      if |newTables| == 0 {
        return;
      }
      if !fileExists {
        routesFile := Some(Header(settings));
      } else {
        EnsureFileImports(handlerImport);
      }
      AppendRouteFuncs(newTables, useHandlerPkg);
    }
  }

  lemma AppendAssoc(a: string, b: string, c: string)
    ensures a + (b + c) == a + b + c
  {
  }

  // ------------------------------------------------- reading back what was printed

  predicate OneLine(s: string) {
    Free(s, '\n')
  }

  lemma {:induction false} LinesOfJoin(a: string, b: string)
    ensures Lines(a + "\n" + b) == Lines(a) + Lines(b)
    decreases |a|
  {
    hide CharIndex, Lines;
    var s, i := a + "\n" + b, CharIndex(a, '\n');
    assert s == a + ("\n" + b);
    CharIndexAppend(a, "\n" + b, '\n');
    assert CharIndex("\n" + b, '\n') == 0 by { assert ("\n" + b)[0] == '\n'; }
    LinesUnfold(s);
    LinesUnfold(a);
    if i == |a| {
      assert s[..i] == a && s[i + 1..] == b;
    } else {
      assert s[..i] == a[..i] && s[i + 1..] == a[i + 1..] + "\n" + b;
      LinesOfJoin(a[i + 1..], b);
    }
  }

  lemma LinesUnfold(s: string)
    ensures var i := CharIndex(s, '\n');
            Lines(s) == if i == |s| then [s] else [s[..i]] + Lines(s[i + 1..])
  {
    hide CharIndex;
  }

  lemma OneLineLines(s: string)
    requires OneLine(s)
    ensures Lines(s) == [s]
  {
  }

  lemma {:induction false} NamesSplit(xs: seq<string>, ys: seq<string>)
    ensures DeclaredNames(xs + ys) == DeclaredNames(xs) + DeclaredNames(ys)
    decreases |xs|
  {
    hide DeclaredName;
    if xs == [] {
      assert xs + ys == ys;
    } else {
      assert (xs + ys)[1..] == xs[1..] + ys;
      NamesSplit(xs[1..], ys);
    }
  }

  lemma NamesAfterBreak(x: string, y: string)
    ensures NamesIn(x + "\n" + y) == NamesIn(x) + NamesIn(y)
  {
    hide Lines, DeclaredNames;
    LinesOfJoin(x, y);
    NamesSplit(Lines(x), Lines(y));
  }

  function TextNames(texts: seq<string>): seq<string>
    decreases |texts|
  {
    if texts == [] then [] else NamesIn(texts[0]) + TextNames(texts[1..])
  }

  /** Appending texts, each after a line break, adds the names each of them declares. */
  lemma {:induction false} NamesAfterTexts(file: string, texts: seq<string>)
    ensures NamesIn(file + Unlines(texts)) == NamesIn(file) + TextNames(texts)
    decreases |texts|
  {
    hide NamesIn;
    if texts == [] {
      assert file + Unlines(texts) == file + "\n" + "";
      NamesAfterBreak(file, "");
      NamesOfLine("");
      EmptyLineDeclaresNothing();
    } else {
      var next := file + "\n" + texts[0];
      assert file + Unlines(texts) == next + Unlines(texts[1..]);
      hide Unlines;
      NamesAfterTexts(next, texts[1..]);
      NamesAfterBreak(file, texts[0]);
    }
  }

  lemma NamesOfLine(line: string)
    requires OneLine(line)
    ensures NamesIn(line) == DeclaredNames([line])
  {
    hide DeclaredNames, Lines;
    OneLineLines(line);
  }

  /** Appending lines, each after a line break, adds the names those lines declare. */
  lemma NamesAfterUnlines(file: string, lines: seq<string>)
    requires forall i :: 0 <= i < |lines| ==> OneLine(lines[i])
    ensures NamesIn(file + Unlines(lines)) == NamesIn(file) + DeclaredNames(lines)
  {
    hide NamesIn, DeclaredNames, Unlines;
    NamesAfterTexts(file, lines);
    LinesAsTexts(lines);
  }

  lemma {:induction false} LinesAsTexts(lines: seq<string>)
    requires forall i :: 0 <= i < |lines| ==> OneLine(lines[i])
    ensures TextNames(lines) == DeclaredNames(lines)
    decreases |lines|
  {
    hide NamesIn, DeclaredName;
    if lines != [] {
      assert forall i :: 0 <= i < |lines[1..]| ==> lines[1..][i] == lines[i + 1];
      LinesAsTexts(lines[1..]);
      NamesOfLine(lines[0]);
      NamesSplit([lines[0]], lines[1..]);
      assert [lines[0]] + lines[1..] == lines;
    }
  }

  lemma EmptyLineDeclaresNothing()
    ensures DeclaredNames([""]) == []
  {
    assert Trim("") == "" && [""][1..] == [];
    NoNames([""]);
  }

  lemma {:induction false} TrimKeepsFirst(s: string, i: nat)
    requires i < |s| && !IsSpace(s[i]) && forall j :: 0 <= j < i ==> IsSpace(s[j])
    ensures Trim(s) != "" && Trim(s)[0] == s[i]
    decreases i
  {
    if i == 0 {
      TrimRightKeepsFirst(s);
    } else {
      TrimKeepsFirst(s[1..], i - 1);
    }
  }

  lemma {:induction false} TrimRightKeepsFirst(s: string)
    requires s != "" && !IsSpace(s[0])
    ensures TrimRight(s) != "" && TrimRight(s)[0] == s[0]
    decreases |s|
  {
    if IsSpace(s[|s| - 1]) { TrimRightKeepsFirst(s[..|s| - 1]); }
  }

  /** Only a line whose first visible character is an f can declare a function. */
  lemma NotAFunc(line: string, i: nat)
    requires i < |line| && !IsSpace(line[i]) && line[i] != 'f'
    requires forall j :: 0 <= j < i ==> IsSpace(line[j])
    ensures DeclaredName(line) == None
  {
    TrimKeepsFirst(line, i);
  }

  /** What is recovered from the line printed for a table: the name, cut short at the first
      parenthesis in the struct name if it has one. */
  function Recovered(t: Table): string {
    var s := t.structName;
    var i := CharIndex(s, '(');
    if i == |s| then FuncName(t) else REGISTER + s[..i]
  }

  lemma PartsFree()
    ensures Free(FUNC, '(') && Free(REGISTER, '(') && Free(ROUTES, '(') && CharIndex(FUNC_TAIL, '(') == 0
    ensures FUNC + REGISTER == "func Register"
  {
  }

  lemma FuncLineIsTight(t: Table)
    ensures Tight(FuncLine(t))
  {
    assert FuncLine(t)[0] == 'f' && FuncLine(t)[|FuncLine(t)| - 1] == '{';
  }

  lemma FuncLineParen(t: Table)
    ensures FuncLine(t)[..CharIndex(FuncLine(t), '(')] == FUNC + Recovered(t)
  {
    PartsFree();
    FirstParen(FUNC, REGISTER, t.structName, ROUTES, FUNC_TAIL);
    FreeIndex(t.structName);
    hide Free, CharIndex;
  }

  lemma FirstParen(f: string, r: string, s: string, o: string, tail: string)
    requires Free(f, '(') && Free(r, '(') && Free(o, '(') && CharIndex(tail, '(') == 0
    ensures var line := f + (r + s + o) + tail;
            line[..CharIndex(line, '(')] == f + (if Free(s, '(') then r + s + o else r + s[..CharIndex(s, '(')])
  {
    hide Free, CharIndex;
    var line, rest := f + (r + s + o) + tail, s + (o + tail);
    assert line == f + (r + rest);
    CharIndexAppend(f, r + rest, '(');
    CharIndexAppend(r, rest, '(');
    CharIndexAppend(s, o + tail, '(');
    CharIndexAppend(o, tail, '(');
    ParenCut(f, r, s, o, tail, if Free(s, '(') then |s| + |o| else CharIndex(s, '('));
  }

  lemma FreeIndex(s: string)
    ensures CharIndex(s, '(') == |s| <==> Free(s, '(')
  {
  }

  lemma ParenCut(f: string, r: string, s: string, o: string, t: string, n: nat)
    requires n <= |s| + |o|
    ensures (f + (r + s + o) + t)[..|f| + |r| + n] == f + (r + (s + o)[..n])
    ensures n <= |s| ==> (s + o)[..n] == s[..n]
    ensures n == |s| + |o| ==> r + (s + o)[..n] == r + s + o
  {
  }

  lemma FuncLineDeclares(t: Table)
    ensures DeclaredName(FuncLine(t)) == Some(Recovered(t))
  {
    hide Trim, Contains, FuncName, FuncLine, CharIndex, Tight, Recovered;
    var line := FuncLine(t);
    FuncLineIsTight(t);
    TrimTight("", line, "");
    assert "" + line + "" == line;
    FuncLineHasRoutes(t);
    FuncLineParen(t);
    assert (FUNC + Recovered(t))[|FUNC|..] == Recovered(t);
  }

  lemma FuncLineHasRoutes(t: Table)
    ensures "func Register" <= FuncLine(t) && Contains(FuncLine(t), "Routes(")
  {
    hide Contains;
    PartsFree();
    assert FuncLine(t)[..|FUNC + REGISTER|] == FUNC + REGISTER;
    var n := |FUNC| + |REGISTER| + |t.structName|;
    assert FuncLine(t)[n..n + |"Routes("|] == "Routes(";
    Occurs(FuncLine(t), "Routes(", n);
  }

  ghost predicate OneLineTable(t: Table) {
    OneLine(t.name) && OneLine(t.structName) && OneLine(t.comment)
  }

  lemma FixedLinesAreOneLine(t: Table, h: bool, i: nat)
    requires 2 <= i < 10
    ensures OneLine(BodyLine(t, h, i))
  {
    if i < 5 { UpperLinesAreOneLine(t, h, i); } else { LowerLinesAreOneLine(t, h, i); }
    hide BodyLine, OneLine;
  }

  lemma UpperLinesAreOneLine(t: Table, h: bool, i: nat)
    requires 2 <= i < 5
    ensures OneLine(BodyLine(t, h, i))
  {
  }

  lemma LowerLinesAreOneLine(t: Table, h: bool, i: nat)
    requires 5 <= i < 10
    ensures OneLine(BodyLine(t, h, i))
  {
  }

  lemma BodyLineIsOneLine(t: Table, h: bool, i: nat)
    requires i < 10 && (i == 0 ==> OneLine(t.structName)) && (i == 1 ==> OneLine(t.name))
    ensures OneLine(BodyLine(t, h, i))
  {
    if i == 0 {
      var pre := "\th := " + (if h then "handler." else "") + "New";
      FreeAppend(pre + t.structName, "Handler(db)", '\n');
      FreeAppend(pre, t.structName, '\n');
    } else if i == 1 {
      FreeAppend("\tg := r.Group(\"/" + t.name, "s\")", '\n');
      FreeAppend("\tg := r.Group(\"/", t.name, '\n');
    } else {
      hide BodyLine, OneLine;
      FixedLinesAreOneLine(t, h, i);
    }
  }

  /** How many tabs a line begins with. */
  function Indent(i: nat): nat {
    if i == 9 then 0 else if 3 <= i <= 7 then 2 else 1
  }

  predicate StartsVisibly(line: string, k: nat) {
    |line| > k && !IsSpace(line[k]) && line[k] != 'f' && forall j :: 0 <= j < k ==> IsSpace(line[j])
  }

  lemma BodyLineStart(t: Table, h: bool, i: nat)
    requires i < 10
    ensures StartsVisibly(BodyLine(t, h, i), Indent(i))
  {
    hide IsSpace;
    Spaces();
    if i < 3 { OuterLineStart(t, h, i); } else if i < 8 { InnerLineStart(t, h, i); }
  }

  lemma OuterLineStart(t: Table, h: bool, i: nat)
    requires i < 3
    ensures StartsVisibly(BodyLine(t, h, i), 1)
  {
    hide IsSpace;
    Spaces();
    var line := BodyLine(t, h, i);
    assert line[0] == '\t' && (line[1] == 'h' || line[1] == 'g' || line[1] == '{');
  }

  lemma InnerLineStart(t: Table, h: bool, i: nat)
    requires 3 <= i < 8
    ensures StartsVisibly(BodyLine(t, h, i), 2)
  {
    hide IsSpace;
    Spaces();
    var line := BodyLine(t, h, i);
    assert line[0] == '\t' && line[1] == '\t' && line[2] == 'g';
  }

  lemma Spaces()
    ensures IsSpace('\t') && !IsSpace('g') && !IsSpace('h') && !IsSpace('{') && !IsSpace('}')
  {
  }

  lemma BodyLineIsHarmless(t: Table, h: bool, i: nat)
    requires i < 10 && (i == 0 ==> OneLine(t.structName)) && (i == 1 ==> OneLine(t.name))
    ensures NamesIn(BodyLine(t, h, i)) == []
  {
    hide BodyLine, DeclaredName, OneLine, NamesIn;
    BodyLineIsOneLine(t, h, i);
    BodyLineStart(t, h, i);
    NotAFunc(BodyLine(t, h, i), Indent(i));
    NamesOfLine(BodyLine(t, h, i));
    NoNames([BodyLine(t, h, i)]);
  }

  lemma CommentIsOneLine(t: Table)
    requires OneLineTable(t)
    ensures OneLine(CommentLine(t))
  {
    var a, b, c := "// Register", "Routes 注册 ", " 路由";
    assert OneLine(a) && OneLine(b) && OneLine(c);
    FiveParts(a, t.structName, b, t.comment, c);
  }

  lemma FuncIsOneLine(t: Table)
    requires OneLine(t.structName)
    ensures OneLine(FuncLine(t))
  {
    assert OneLine(FUNC) && OneLine(REGISTER) && OneLine(ROUTES) && OneLine(FUNC_TAIL);
    FiveParts(FUNC, REGISTER, t.structName, ROUTES, FUNC_TAIL);
    assert FUNC + (REGISTER + t.structName + ROUTES) == FUNC + REGISTER + t.structName + ROUTES;
    hide OneLine;
  }

  lemma FiveParts(a: string, b: string, c: string, d: string, e: string)
    requires OneLine(a) && OneLine(b) && OneLine(c) && OneLine(d) && OneLine(e)
    ensures OneLine(a + b + c + d + e)
  {
    FreeAppend(a + b + c + d, e, '\n');
    FreeAppend(a + b + c, d, '\n');
    FreeAppend(a + b, c, '\n');
    FreeAppend(a, b, '\n');
    hide Free;
  }

  lemma {:induction false} NoNames(lines: seq<string>)
    requires forall i :: 0 <= i < |lines| ==> DeclaredName(lines[i]) == None
    ensures DeclaredNames(lines) == []
    decreases |lines|
  {
    if lines != [] { NoNames(lines[1..]); }
  }

  lemma CommentDeclaresNothing(t: Table)
    requires OneLineTable(t)
    ensures NamesIn(CommentLine(t)) == []
  {
    hide DeclaredName, NamesIn;
    CommentIsOneLine(t);
    assert CommentLine(t)[0] == '/';
    hide CommentLine;
    NotAFunc(CommentLine(t), 0);
    NamesOfLine(CommentLine(t));
    NoNames([CommentLine(t)]);
  }

  lemma FuncTextDeclares(t: Table)
    requires OneLine(t.structName)
    ensures NamesIn(FuncLine(t)) == [Recovered(t)]
  {
    hide DeclaredName, NamesIn, FuncLine, Recovered;
    FuncIsOneLine(t);
    FuncLineDeclares(t);
    NamesOfLine(FuncLine(t));
    assert [FuncLine(t)][1..] == [];
  }

  function FuncNames(ts: seq<Table>): (r: seq<string>)
    ensures |r| == |ts| && forall i :: 0 <= i < |ts| ==> r[i] == FuncName(ts[i])
  {
    seq(|ts|, i requires 0 <= i < |ts| => FuncName(ts[i]))
  }

  /** Struct names without a parenthesis are the ones that are recovered. */
  lemma RecoveredIffNoParen(t: Table)
    ensures Recovered(t) == FuncName(t) <==> Free(t.structName, '(')
  {
    var s := t.structName;
    var i := CharIndex(s, '(');
    if i < |s| { assert |Recovered(t)| < |FuncName(t)|; }
  }

  /** Neither a parenthesis nor a line break in the struct name. */
  predicate Named(t: Table) {
    Free(t.structName, '(') && OneLine(t.structName)
  }

  /** A table whose block declares its function and nothing else: the comment and the name may
      even break lines, as long as no line of theirs declares a function. */
  ghost predicate Printable(t: Table) {
    Named(t) && NamesIn(CommentLine(t)) == [] && NamesIn(BodyLine(t, false, 1)) == []
  }

  lemma OneLineIsPrintable(t: Table)
    requires OneLineTable(t) && Free(t.structName, '(')
    ensures Printable(t)
  {
    hide NamesIn;
    CommentDeclaresNothing(t);
    BodyLineIsHarmless(t, false, 1);
  }

  /** What a block declares when the struct name stands on one line. */
  lemma NamesOfBlockLines(t: Table, h: bool)
    requires OneLine(t.structName)
    ensures TextNames(BlockLines(t, h)) == NamesIn(CommentLine(t)) + [Recovered(t)] + NamesIn(BodyLine(t, false, 1))
  {
    hide NamesIn, CommentLine, FuncLine, Recovered;
    var lines := BlockLines(t, h);
    FuncTextDeclares(t);
    BodyLineIsHarmless(t, h, 0);
    assert BodyLine(t, h, 1) == BodyLine(t, false, 1);
    hide BodyLine;
    forall i: nat | 4 <= i < 12 ensures NamesIn(lines[i]) == [] { BodyLineIsHarmless(t, h, i - 2); }
    NoTextNames(lines[4..]);
    assert lines[1..][0] == lines[1] && lines[2..][0] == lines[2] && lines[3..][0] == lines[3];
    assert lines[1..][1..] == lines[2..] && lines[2..][1..] == lines[3..] && lines[3..][1..] == lines[4..];
    assert TextNames(lines[3..]) == NamesIn(lines[3]) + TextNames(lines[4..]);
    assert TextNames(lines[2..]) == NamesIn(lines[2]) + TextNames(lines[3..]);
    assert TextNames(lines[1..]) == NamesIn(lines[1]) + TextNames(lines[2..]);
  }

  lemma {:induction false} NoTextNames(texts: seq<string>)
    requires forall i :: 0 <= i < |texts| ==> NamesIn(texts[i]) == []
    ensures TextNames(texts) == []
    decreases |texts|
  {
    hide NamesIn;
    if texts != [] {
      assert forall i :: 0 <= i < |texts[1..]| ==> texts[1..][i] == texts[i + 1];
      NoTextNames(texts[1..]);
    }
  }

  /** One block appended to any file adds the name of its function and nothing else if and
      only if its table is printable. */
  lemma NamesAfterBlockIff(file: string, t: Table, h: bool)
    ensures NamesIn(file + Block(t, h)) == NamesIn(file) + TextNames(BlockLines(t, h))
    ensures TextNames(BlockLines(t, h)) == [FuncName(t)] <==> Printable(t)
  {
    hide NamesIn, BlockLines, Unlines, CommentLine, BodyLine, TextNames, FuncName, Recovered;
    NamesAfterTexts(file, BlockLines(t, h));
    if OneLine(t.structName) {
      NamesOfBlockLines(t, h);
      RecoveredIffNoParen(t);
      if TextNames(BlockLines(t, h)) == [FuncName(t)] {
        OnlyMiddle(NamesIn(CommentLine(t)), Recovered(t), NamesIn(BodyLine(t, false, 1)), FuncName(t));
      }
    } else {
      NamesAfterTexts("", BlockLines(t, h));
      NamesAreFree(Lines("" + Unlines(BlockLines(t, h))));
      LinesAreOneLine("" + Unlines(BlockLines(t, h)));
      FuncNameIsFree(t);
      assert FuncName(t) !in NamesIn("" + Unlines(BlockLines(t, h))) by { NotDeclared("" + Unlines(BlockLines(t, h)), FuncName(t)); }
      if TextNames(BlockLines(t, h)) == [FuncName(t)] { assert false; }
    }
  }

  lemma OnlyMiddle(xs: seq<string>, y: string, zs: seq<string>, name: string)
    requires xs + [y] + zs == [name]
    ensures xs == [] && zs == [] && y == name
  {
    assert |xs + [y] + zs| == |xs| + 1 + |zs|;
    assert (xs + [y] + zs)[|xs|] == y;
  }

  function BlockNames(ts: seq<Table>, h: bool): seq<string>
    decreases |ts|
  {
    if ts == [] then [] else TextNames(BlockLines(ts[0], h)) + BlockNames(ts[1..], h)
  }

  lemma {:induction false} NamesAfterAnyBlocks(file: string, ts: seq<Table>, h: bool)
    ensures NamesIn(file + Blocks(ts, h)) == NamesIn(file) + BlockNames(ts, h)
    decreases |ts|
  {
    hide Block, NamesIn, TextNames, BlockLines, Printable;
    if ts == [] {
      assert file + "" == file;
    } else {
      BlocksCons(file, ts, h);
      NamesAfterAnyBlocks(file + Block(ts[0], h), ts[1..], h);
      NamesAfterBlockIff(file, ts[0], h);
    }
  }

  lemma {:induction false} PrintableBlockNames(ts: seq<Table>, h: bool)
    requires forall t :: t in ts ==> Printable(t)
    ensures BlockNames(ts, h) == FuncNames(ts)
    decreases |ts|
  {
    hide NamesIn, TextNames, BlockLines, Printable, FuncName;
    if ts != [] {
      assert ts[0] in ts && forall t :: t in ts[1..] ==> t in ts;
      NamesAfterBlockIff("", ts[0], h);
      PrintableBlockNames(ts[1..], h);
      assert FuncNames(ts) == [FuncName(ts[0])] + FuncNames(ts[1..]);
    }
  }

  lemma NamesAfterBlocks(file: string, ts: seq<Table>, h: bool)
    requires forall t :: t in ts ==> Printable(t)
    ensures NamesIn(file + Blocks(ts, h)) == NamesIn(file) + FuncNames(ts)
  {
    hide NamesIn, Blocks, FuncNames, Printable, BlockNames;
    NamesAfterAnyBlocks(file, ts, h);
    PrintableBlockNames(ts, h);
  }

  lemma BlocksCons(file: string, ts: seq<Table>, h: bool)
    requires |ts| > 0
    ensures file + Blocks(ts, h) == (file + Block(ts[0], h)) + Blocks(ts[1..], h)
  {
    hide Block;
  }

  // ------------------------------------------------- runs of the generator

  predicate Distinct(names: seq<string>) {
    forall i, j :: 0 <= i < j < |names| ==> names[i] != names[j]
  }

  lemma {:induction false} MissingIs(ts: seq<Table>, existing: seq<string>)
    ensures forall t :: t in Missing(ts, existing) <==> t in ts && FuncName(t) !in existing
    decreases |ts|
  {
    hide FuncName;
    if ts != [] {
      MissingIs(ts[1..], existing);
      assert ts == [ts[0]] + ts[1..];
    }
  }

  lemma {:induction false} MissingDistinct(ts: seq<Table>, existing: seq<string>)
    requires Distinct(FuncNames(ts))
    ensures Distinct(FuncNames(Missing(ts, existing)))
    decreases |ts|
  {
    hide FuncName;
    if ts != [] {
      var rest, more := ts[1..], Missing(ts[1..], existing);
      forall i, j | 0 <= i < j < |rest| ensures FuncNames(rest)[i] != FuncNames(rest)[j] {
        assert FuncNames(ts)[i + 1] != FuncNames(ts)[j + 1];
      }
      MissingDistinct(rest, existing);
      MissingIs(rest, existing);
      forall j | 0 <= j < |more| ensures FuncName(more[j]) != FuncName(ts[0]) {
        assert more[j] in more;
        var k :| 0 <= k < |rest| && rest[k] == more[j];
        assert FuncNames(ts)[0] != FuncNames(ts)[k + 1];
      }
      ConsDistinct(ts[0], more);
    }
  }

  lemma ConsDistinct(t: Table, ts: seq<Table>)
    requires Distinct(FuncNames(ts)) && forall j :: 0 <= j < |ts| ==> FuncName(ts[j]) != FuncName(t)
    ensures Distinct(FuncNames([t] + ts))
  {
    hide FuncName;
    var names := FuncNames([t] + ts);
    forall i, j | 0 <= i < j < |names| ensures names[i] != names[j] {
      if i > 0 { assert FuncNames(ts)[i - 1] != FuncNames(ts)[j - 1]; }
    }
  }

  lemma AppendDistinctIff(xs: seq<string>, ys: seq<string>)
    requires forall y :: y in ys ==> y !in xs
    ensures Distinct(xs + ys) <==> Distinct(xs) && Distinct(ys)
  {
    if Distinct(xs) && Distinct(ys) {
      forall i, j | 0 <= i < j < |xs + ys| ensures (xs + ys)[i] != (xs + ys)[j] {
        if j < |xs| { assert xs[i] != xs[j]; }
        else if i >= |xs| { assert ys[i - |xs|] != ys[j - |xs|]; }
        else { assert xs[i] in xs && ys[j - |xs|] in ys; }
      }
    }
    if Distinct(xs + ys) {
      forall i, j | 0 <= i < j < |xs| ensures xs[i] != xs[j] { assert (xs + ys)[i] != (xs + ys)[j]; }
      forall i, j | 0 <= i < j < |ys| ensures ys[i] != ys[j] {
        assert (xs + ys)[|xs| + i] != (xs + ys)[|xs| + j];
      }
    }
  }

  lemma {:induction false} BlocksSplit(xs: seq<Table>, ys: seq<Table>, h: bool)
    ensures Blocks(xs + ys, h) == Blocks(xs, h) + Blocks(ys, h)
    decreases |xs|
  {
    if xs == [] {
      assert xs + ys == ys;
    } else {
      assert (xs + ys)[1..] == xs[1..] + ys;
      BlocksSplit(xs[1..], ys, h);
    }
  }

  lemma ImportsStay(first: string, more: string, required: seq<string>)
    requires AllContained(first, required)
    ensures AllContained(first + more, required) && EnsureImports(first, required) == first
  {
    forall r | r in required ensures Contains(first + more, r) {
      OccursAt(first, r);
      var i := Index(first, r);
      assert (first + more)[i..i + |r|] == first[i..i + |r|];
      Occurs(first + more, r, i);
    }
    NothingToDo(first, required);
  }

  lemma FuncNamesSplit(xs: seq<Table>, ys: seq<Table>)
    ensures FuncNames(xs + ys) == FuncNames(xs) + FuncNames(ys)
  {
  }

  /** One run prints exactly the functions that are missing, in the order asked for. */
  lemma RunPrintsTheMissing(c: Settings, file: string, ts: seq<Table>)
    requires AllContained(file, RequiredImports(c.handlerImport)) && forall t :: t in ts ==> Printable(t)
    ensures var more := Missing(ts, NamesIn(file));
            var next := file + Blocks(more, c.useHandlerPkg);
            Generated(c, Some(file), ts) == Some(next) &&
            NamesIn(next) == NamesIn(file) + FuncNames(more) &&
            AllContained(next, RequiredImports(c.handlerImport))
  {
    hide Blocks, NamesIn, FuncName, FuncNames, Missing, RequiredImports, EnsureImports, AllContained;
    var h, required := c.useHandlerPkg, RequiredImports(c.handlerImport);
    var more := Missing(ts, NamesIn(file));
    MissingIs(ts, NamesIn(file));
    NamesAfterBlocks(file, more, h);
    ImportsStay(file, Blocks(more, h), required);
    if more == [] {
      NoBlocks(h);
      assert file + Blocks(more, h) == file;
    }
  }

  /** A run leaves the names distinct if and only if they were, and no function that is
      missing is asked for twice: the tables are not checked against each other. */
  lemma DistinctIff(names: seq<string>, ts: seq<Table>)
    ensures var more := Missing(ts, names);
            Distinct(names + FuncNames(more)) <==> Distinct(names) && Distinct(FuncNames(more))
  {
    hide FuncName, Missing;
    var more := Missing(ts, names);
    MissingIs(ts, names);
    forall y | y in FuncNames(more) ensures y !in names {
      var k :| 0 <= k < |more| && FuncNames(more)[k] == y;
      assert more[k] in more;
    }
    AppendDistinctIff(names, FuncNames(more));
  }

  /** So a table listed twice has its function printed twice. */
  lemma TableListedTwice(c: Settings, file: string, t: Table)
    requires AllContained(file, RequiredImports(c.handlerImport)) && Printable(t) && FuncName(t) !in NamesIn(file)
    ensures Generated(c, Some(file), [t, t]) == Some(file + Block(t, c.useHandlerPkg) + Block(t, c.useHandlerPkg))
    ensures NamesIn(Generated(c, Some(file), [t, t]).value) == NamesIn(file) + [FuncName(t), FuncName(t)]
  {
    hide Block, NamesIn, FuncName, EnsureImports, RequiredImports, AllContained, Printable;
    assert [t, t][1..] == [t] && [t][1..] == [];
    assert Missing([], NamesIn(file)) == [] && Missing([t], NamesIn(file)) == [t];
    assert Missing([t, t], NamesIn(file)) == [t] + [t] == [t, t];
    RunPrintsTheMissing(c, file, [t, t]);
    var b := Block(t, c.useHandlerPkg);
    BlocksOfTwo(t, c.useHandlerPkg);
    assert file + (b + (b + "")) == file + b + b;
  }

  lemma NoBlocks(h: bool)
    ensures Blocks([], h) == ""
  {
  }

  function RunAll(c: Settings, file: Option<string>, runs: seq<seq<Table>>): Option<string>
    decreases |runs|
  {
    if runs == [] then file else RunAll(c, Generated(c, file, runs[0]), runs[1..])
  }

  ghost predicate AllPrintable(runs: seq<seq<Table>>) {
    forall i, t :: 0 <= i < |runs| && t in runs[i] ==> Printable(t)
  }

  /** What the runs print altogether, onto a file that declares `names`. */
  function Printed(runs: seq<seq<Table>>, names: seq<string>): seq<Table>
    decreases |runs|
  {
    if runs == [] then [] else
      var more := Missing(runs[0], names);
      more + Printed(runs[1..], names + FuncNames(more))
  }

  /** No run asks twice for a function that it finds missing. */
  ghost predicate NoRepeats(runs: seq<seq<Table>>, names: seq<string>)
    decreases |runs|
  {
    runs == [] ||
    var more := Missing(runs[0], names);
    Distinct(FuncNames(more)) && NoRepeats(runs[1..], names + FuncNames(more))
  }

  /** Everything asked for is there in the end. */
  lemma {:induction false} AllPrinted(runs: seq<seq<Table>>, names: seq<string>)
    ensures forall i, t :: 0 <= i < |runs| && t in runs[i] ==> FuncName(t) in names + FuncNames(Printed(runs, names))
    decreases |runs|
  {
    hide FuncName, FuncNames, Missing;
    if runs != [] {
      var more, rest := Missing(runs[0], names), runs[1..];
      AllPrinted(rest, names + FuncNames(more));
      PrintedCons(runs, names);
      MissingIs(runs[0], names);
      hide Printed;
      forall i, t | 0 <= i < |runs| && t in runs[i] ensures FuncName(t) in names + FuncNames(Printed(runs, names)) {
        if i > 0 {
          assert rest[i - 1] == runs[i];
        } else if FuncName(t) !in names {
          NameOf(more, t);
        }
      }
    }
  }

  lemma PrintedCons(runs: seq<seq<Table>>, names: seq<string>)
    requires runs != []
    ensures var more := Missing(runs[0], names);
            names + FuncNames(Printed(runs, names))
              == names + FuncNames(more) + FuncNames(Printed(runs[1..], names + FuncNames(more)))
  {
    hide Missing;
    var more := Missing(runs[0], names);
    FuncNamesSplit(more, Printed(runs[1..], names + FuncNames(more)));
  }

  /** Nothing that was there or was not asked for is printed. */
  lemma {:induction false} OnlyMissingPrinted(runs: seq<seq<Table>>, names: seq<string>)
    ensures forall t :: t in Printed(runs, names) ==>
              FuncName(t) !in names && exists i :: 0 <= i < |runs| && t in runs[i]
    decreases |runs|
  {
    hide FuncName, Missing;
    if runs != [] {
      var more, rest := Missing(runs[0], names), runs[1..];
      OnlyMissingPrinted(rest, names + FuncNames(more));
      MissingIs(runs[0], names);
      forall t | t in Printed(runs, names)
        ensures FuncName(t) !in names && exists i :: 0 <= i < |runs| && t in runs[i]
      {
        if t in more {
          assert t in runs[0];
        } else {
          var i :| 0 <= i < |rest| && t in rest[i];
          assert rest[i] == runs[i + 1];
        }
      }
    }
  }

  /** Nothing is there twice if and only if nothing was and no run asks twice for what it
      finds missing. */
  lemma {:induction false} NothingTwiceIff(runs: seq<seq<Table>>, names: seq<string>)
    ensures Distinct(names + FuncNames(Printed(runs, names))) <==> Distinct(names) && NoRepeats(runs, names)
    decreases |runs|
  {
    hide FuncName, FuncNames, Distinct, Missing;
    if runs == [] {
      NoFuncNames();
      assert names + [] == names;
    } else {
      var more := Missing(runs[0], names);
      NothingTwiceIff(runs[1..], names + FuncNames(more));
      PrintedCons(runs, names);
      DistinctIff(names, runs[0]);
    }
  }

  lemma NoFuncNames()
    ensures FuncNames([]) == []
  {
  }

  /** Listing no table twice in one run is enough. */
  lemma {:induction false} DistinctTablesSuffice(runs: seq<seq<Table>>, names: seq<string>)
    requires forall i :: 0 <= i < |runs| ==> Distinct(FuncNames(runs[i]))
    ensures NoRepeats(runs, names)
    decreases |runs|
  {
    if runs != [] {
      MissingDistinct(runs[0], names);
      assert forall i :: 0 <= i < |runs[1..]| ==> runs[1..][i] == runs[i + 1];
      DistinctTablesSuffice(runs[1..], names + FuncNames(Missing(runs[0], names)));
    }
  }

  lemma AllPrintableTail(runs: seq<seq<Table>>)
    requires AllPrintable(runs) && runs != []
    ensures AllPrintable(runs[1..]) && forall t :: t in runs[0] ==> Printable(t)
  {
    forall i, t | 0 <= i < |runs[1..]| && t in runs[1..][i] ensures Printable(t) {
      assert runs[1..][i] == runs[i + 1];
    }
  }

  lemma {:induction false} RunsPrint(c: Settings, file: string, runs: seq<seq<Table>>)
    requires AllContained(file, RequiredImports(c.handlerImport)) && AllPrintable(runs)
    ensures var all := Printed(runs, NamesIn(file));
            var end := file + Blocks(all, c.useHandlerPkg);
            RunAll(c, Some(file), runs) == Some(end) && NamesIn(end) == NamesIn(file) + FuncNames(all)
    decreases |runs|
  {
    hide Generated, Missing, NamesIn, Printable, Blocks, FuncNames, AllContained, RequiredImports, AllPrintable;
    if runs == [] {
      NoBlocks(c.useHandlerPkg);
      NoFuncNames();
      assert file + "" == file && NamesIn(file) + [] == NamesIn(file);
    } else {
      var more := Missing(runs[0], NamesIn(file));
      var next := file + Blocks(more, c.useHandlerPkg);
      AllPrintableTail(runs);
      RunPrintsTheMissing(c, file, runs[0]);
      RunsPrint(c, next, runs[1..]);
      var later := Printed(runs[1..], NamesIn(next));
      BlocksSplit(more, later, c.useHandlerPkg);
      PrintedCons(runs, NamesIn(file));
      assert Printed(runs, NamesIn(file)) == more + later;
      hide Printed;
      assert next + Blocks(later, c.useHandlerPkg) == file + Blocks(more + later, c.useHandlerPkg);
    }
  }

  /** Any number of runs over any tables, onto a file that has its imports: the file is kept
      and followed by one block for each function printed, whose names are all that is
      declared in addition; all are there that were asked for, and none twice if and only if
      none was and no run asks twice for what it finds missing. */
  lemma EachFunctionOnce(c: Settings, file: string, runs: seq<seq<Table>>)
    requires AllContained(file, RequiredImports(c.handlerImport)) && AllPrintable(runs)
    ensures var all := Printed(runs, NamesIn(file));
            var end := file + Blocks(all, c.useHandlerPkg);
            RunAll(c, Some(file), runs) == Some(end) && NamesIn(end) == NamesIn(file) + FuncNames(all) &&
            (forall i, t :: 0 <= i < |runs| && t in runs[i] ==> FuncName(t) in NamesIn(end)) &&
            (Distinct(NamesIn(end)) <==> Distinct(NamesIn(file)) && NoRepeats(runs, NamesIn(file)))
  {
    hide RunAll, Printed, NamesIn, Blocks, FuncNames, FuncName, Distinct, NoRepeats;
    RunsPrint(c, file, runs);
    AllPrinted(runs, NamesIn(file));
    NothingTwiceIff(runs, NamesIn(file));
  }

  lemma NameOf(ts: seq<Table>, t: Table)
    requires t in ts
    ensures FuncName(t) in FuncNames(ts)
  {
    var i :| 0 <= i < |ts| && ts[i] == t;
    assert FuncNames(ts)[i] == FuncName(t);
  }

  // ------------------------------------------------- starting from nothing

  lemma ContainsLeft(a: string, b: string, sub: string)
    requires Contains(a, sub)
    ensures Contains(a + b, sub)
  {
    OccursAt(a, sub);
    hide Contains, Index;
    var i := Index(a, sub);
    assert (a + b)[i..i + |sub|] == a[i..i + |sub|];
    Occurs(a + b, sub, i);
  }

  lemma ContainsRight(a: string, b: string, sub: string)
    requires Contains(b, sub)
    ensures Contains(a + b, sub)
  {
    OccursAt(b, sub);
    hide Contains, Index;
    var i := Index(b, sub);
    assert (a + b)[|a| + i..|a| + i + |sub|] == b[i..i + |sub|];
    Occurs(a + b, sub, |a| + i);
  }

  lemma {:induction false} UnlinesContain(lines: seq<string>, i: nat, sub: string)
    requires i < |lines| && Contains(lines[i], sub)
    ensures Contains(Unlines(lines), sub)
    decreases i
  {
    hide Contains;
    if i == 0 {
      ContainsRight("\n", lines[0], sub);
      ContainsLeft("\n" + lines[0], Unlines(lines[1..]), sub);
    } else {
      UnlinesContain(lines[1..], i - 1, sub);
      ContainsRight("\n" + lines[0], Unlines(lines[1..]), sub);
    }
  }

  lemma TabbedContains(s: string)
    ensures Contains("\t" + s, s)
  {
    hide Contains;
    assert ("\t" + s)[1..1 + |s|] == s;
    Occurs("\t" + s, s, 1);
  }

  lemma HeaderHasImports(c: Settings)
    ensures AllContained(Header(c), RequiredImports(c.handlerImport))
  {
    hide Contains, Unlines;
    var lines, handler := HeaderLines(c), "\"" + c.handlerImport + "\"";
    TabbedContains(GIN);
    TabbedContains(GORM);
    TabbedContains(handler);
    UnlinesContain(lines, 2, GIN);
    UnlinesContain(lines, 3, GORM);
    if c.handlerImport != "" {
      UnlinesContain(lines, 5, handler);
      ContainsRight(PackageLine(c), Unlines(lines), handler);
    }
    ContainsRight(PackageLine(c), Unlines(lines), GIN);
    ContainsRight(PackageLine(c), Unlines(lines), GORM);
  }

  lemma HeaderDeclaresNothing(c: Settings)
    requires OneLine(c.routesPkg) && OneLine(c.handlerImport)
    ensures NamesIn(Header(c)) == []
  {
    var lines := HeaderLines(c);
    FixedHeaderLines();
    TopLineFacts(c);
    if c.handlerImport != "" { HandlerLineFacts(c); }
    hide DeclaredName, OneLine, Lines, Unlines, PackageLine;
    forall i | 0 <= i < |lines| ensures DeclaredName(lines[i]) == None && OneLine(lines[i]) {
    }
    NamesAfterUnlines(PackageLine(c), lines);
    NoNames(lines);
    OneLineLines(PackageLine(c));
    NoNames([PackageLine(c)]);
  }

  lemma FixedHeaderLines()
    ensures forall l :: l in ["", "import (", "\t" + GIN, "\t" + GORM, ")"] ==>
              DeclaredName(l) == None && OneLine(l)
  {
    BlankLine();
    hide DeclaredName;
    ImportLine(GIN);
    ImportLine(GORM);
    NotAFunc("import (", 0);
    NotAFunc(")", 0);
    assert OneLine("import (") && OneLine(")");
    hide OneLine;
  }

  lemma BlankLine()
    ensures DeclaredName("") == None && OneLine("")
  {
    assert Trim("") == "";
  }

  lemma ImportLine(imp: string)
    requires imp == GIN || imp == GORM
    ensures DeclaredName("\t" + imp) == None && OneLine("\t" + imp)
  {
    hide DeclaredName;
    assert |imp| > 0 && imp[0] == '"' && OneLine(imp);
    NotAFunc("\t" + imp, 1);
    FreeAppend("\t", imp, '\n');
  }

  lemma TopLineFacts(c: Settings)
    requires OneLine(c.routesPkg)
    ensures DeclaredName(PackageLine(c)) == None && OneLine(PackageLine(c))
  {
    hide DeclaredName;
    NotAFunc(PackageLine(c), 0);
    FreeAppend("package ", c.routesPkg, '\n');
  }

  lemma HandlerLineFacts(c: Settings)
    requires OneLine(c.handlerImport)
    ensures var line := "\t" + ("\"" + c.handlerImport + "\"");
            DeclaredName(line) == None && OneLine(line)
  {
    hide DeclaredName;
    NotAFunc("\t" + ("\"" + c.handlerImport + "\""), 1);
    FreeAppend("\t", "\"" + c.handlerImport + "\"", '\n');
    FreeAppend("\"" + c.handlerImport, "\"", '\n');
    FreeAppend("\"", c.handlerImport, '\n');
  }

  /** No file as long as nothing is printed; then the header once and one block for each
      function printed: all that was asked for, and nothing twice if and only if no run asks
      twice for what it finds missing. */
  ghost predicate MadeFromNothing(c: Settings, end: Option<string>, runs: seq<seq<Table>>) {
    var all := Printed(runs, []);
    if all == [] then end == None
    else end == Some(Header(c) + Blocks(all, c.useHandlerPkg)) &&
         NamesIn(Header(c) + Blocks(all, c.useHandlerPkg)) == FuncNames(all) &&
         (forall i, t :: 0 <= i < |runs| && t in runs[i] ==> FuncName(t) in FuncNames(all)) &&
         (Distinct(FuncNames(all)) <==> NoRepeats(runs, []))
  }

  /** From no file at all. */
  lemma {:induction false} FromNothing(c: Settings, runs: seq<seq<Table>>)
    requires OneLine(c.routesPkg) && OneLine(c.handlerImport) && AllPrintable(runs)
    ensures MadeFromNothing(c, RunAll(c, None, runs), runs)
    decreases |runs|
  {
    hide NamesIn, Header, Blocks, EnsureImports, Printable, AllPrintable, Distinct, NoRepeats, FuncName, Missing;
    if runs != [] {
      AllPrintableTail(runs);
      if Missing(runs[0], []) == [] {
        FromNothing(c, runs[1..]);
        assert Generated(c, None, runs[0]) == None;
        hide MadeFromNothing;
        NothingToStartWith(c, RunAll(c, None, runs[1..]), runs);
      } else {
        FirstRunPrints(c, runs);
      }
    }
  }

  lemma NothingToStartWith(c: Settings, end: Option<string>, runs: seq<seq<Table>>)
    requires runs != [] && Missing(runs[0], []) == [] && MadeFromNothing(c, end, runs[1..])
    ensures MadeFromNothing(c, end, runs)
  {
    hide NamesIn, Header, Blocks, Distinct, NoRepeats, FuncName, Missing;
    var none: seq<string> := [];
    assert none + FuncNames([]) == none;
    assert Printed(runs, none) == [] + Printed(runs[1..], none) == Printed(runs[1..], none);
    NothingMissing(runs, none);
    MissingIs(runs[0], none);
    assert forall i :: 0 < i < |runs| ==> runs[i] == runs[1..][i - 1];
  }

  lemma FirstRunPrints(c: Settings, runs: seq<seq<Table>>)
    requires OneLine(c.routesPkg) && OneLine(c.handlerImport) && AllPrintable(runs)
    requires runs != [] && Missing(runs[0], []) != []
    ensures var all := Printed(runs, []);
            all != [] && RunAll(c, None, runs) == Some(Header(c) + Blocks(all, c.useHandlerPkg)) &&
            NamesIn(Header(c) + Blocks(all, c.useHandlerPkg)) == FuncNames(all) &&
            (forall i, t :: 0 <= i < |runs| && t in runs[i] ==> FuncName(t) in FuncNames(all)) &&
            (Distinct(FuncNames(all)) <==> NoRepeats(runs, []))
  {
    hide NamesIn, Header, Blocks, EnsureImports, Printable, Distinct, NoRepeats, FuncName, FuncNames, AllContained, RequiredImports, Missing;
    HeaderHasImports(c);
    HeaderDeclaresNothing(c);
    ImportsStay(Header(c), "", RequiredImports(c.handlerImport));
    assert Generated(c, None, runs[0]) == Generated(c, Some(Header(c)), runs[0]);
    EachFunctionOnce(c, Header(c), runs);
    NoNameTwice();
    var all := Printed(runs, []);
    assert all != [];
    hide Printed, RunAll, Generated;
    assert [] + FuncNames(all) == FuncNames(all);
  }

  lemma NothingMissing(runs: seq<seq<Table>>, names: seq<string>)
    requires runs != [] && Missing(runs[0], names) == []
    ensures NoRepeats(runs, names) <==> NoRepeats(runs[1..], names)
  {
    assert names + FuncNames([]) == names;
  }

  lemma NoNameTwice()
    ensures Distinct([])
  {
  }

  lemma BlocksOfTwo(t: Table, h: bool)
    ensures Blocks([t, t], h) == Block(t, h) + (Block(t, h) + "")
  {
    hide Block;
    assert [t, t][1..] == [t] && [t][1..] == [];
    assert Blocks([t], h) == Block(t, h) + Blocks([], h);
  }

  // ------------------------------------------------- the same tables again

  /** No declared name holds an opening parenthesis or a line break. */
  lemma {:induction false} NamesAreFree(lines: seq<string>)
    ensures forall n :: n in DeclaredNames(lines) ==> Free(n, '(')
    ensures (forall i :: 0 <= i < |lines| ==> OneLine(lines[i])) ==> forall n :: n in DeclaredNames(lines) ==> OneLine(n)
    decreases |lines|
  {
    if lines != [] {
      NameIsFree(lines[0]);
      hide DeclaredName;
      assert forall i :: 0 <= i < |lines[1..]| ==> lines[1..][i] == lines[i + 1];
      NamesAreFree(lines[1..]);
    }
  }

  lemma NameIsFree(line: string)
    ensures DeclaredName(line).Some? ==> Free(DeclaredName(line).value, '(')
    ensures DeclaredName(line).Some? && OneLine(line) ==> OneLine(DeclaredName(line).value)
  {
    TrimIsFree(line);
    hide Trim, Contains, CharIndex;
    var l := Trim(line);
    var head := l[..CharIndex(l, '(')];
    assert Free(head, '(') && (OneLine(l) ==> OneLine(head));
    if FUNC <= head { TailIsFree(head, |FUNC|); }
  }

  lemma TailIsFree(s: string, n: nat)
    requires n <= |s|
    ensures (Free(s, '(') ==> Free(s[n..], '(')) && (OneLine(s) ==> OneLine(s[n..]))
  {
  }

  lemma TrimIsFree(line: string)
    ensures OneLine(line) ==> OneLine(Trim(line))
  {
    TrimLeftIsFree(line);
    TrimRightIsFree(TrimLeft(line));
  }

  lemma {:induction false} TrimLeftIsFree(s: string)
    ensures OneLine(s) ==> OneLine(TrimLeft(s))
  {
    if s != "" && IsSpace(s[0]) { TrimLeftIsFree(s[1..]); }
  }

  lemma {:induction false} TrimRightIsFree(s: string)
    ensures OneLine(s) ==> OneLine(TrimRight(s))
  {
    if s != "" && IsSpace(s[|s| - 1]) { TrimRightIsFree(s[..|s| - 1]); }
  }

  lemma {:induction false} LinesAreOneLine(s: string)
    ensures forall i :: 0 <= i < |Lines(s)| ==> OneLine(Lines(s)[i])
    decreases |s|
  {
    var i := CharIndex(s, '\n');
    if i < |s| { LinesAreOneLine(s[i + 1..]); }
  }

  /** A text that holds either is not declared in any file. */
  lemma NotDeclared(file: string, name: string)
    ensures name in NamesIn(file) ==> Free(name, '(') && OneLine(name)
  {
    hide DeclaredNames;
    LinesAreOneLine(file);
    hide Lines;
    NamesAreFree(Lines(file));
  }

  lemma FuncNameIsFree(t: Table)
    ensures Free(FuncName(t), '(') && OneLine(FuncName(t)) <==> Named(t)
    ensures OneLine(FuncName(t)) ==> OneLine(t.structName)
  {
    assert OneLine(REGISTER) && OneLine(ROUTES) && Free(REGISTER, '(') && Free(ROUTES, '(');
    FreeAppend(REGISTER + t.structName, ROUTES, '(');
    FreeAppend(REGISTER, t.structName, '(');
    FreeAppend(REGISTER + t.structName, ROUTES, '\n');
    FreeAppend(REGISTER, t.structName, '\n');
  }

  lemma {:induction false} BlockDeclaresFunc(ts: seq<Table>, h: bool, t: Table)
    requires t in ts && Named(t)
    ensures FuncName(t) in BlockNames(ts, h)
    decreases |ts|
  {
    hide NamesIn, TextNames, BlockLines, FuncName, Recovered;
    if ts[0] == t {
      NamesOfBlockLines(t, h);
      RecoveredIffNoParen(t);
    } else {
      BlockDeclaresFunc(ts[1..], h, t);
    }
  }

  /** Every function asked for is found in a file just generated if and only if no struct
      name holds an opening parenthesis or a line break, whatever names and comments are. */
  lemma FoundIff(base: string, ts: seq<Table>, h: bool)
    ensures var file := base + Blocks(Missing(ts, NamesIn(base)), h);
            Missing(ts, NamesIn(file)) == [] <==> forall t :: t in ts ==> Named(t)
  {
    hide Missing, Blocks, NamesIn, BlockNames, FuncName, Named;
    var more := Missing(ts, NamesIn(base));
    var file := base + Blocks(more, h);
    MissingIs(ts, NamesIn(base));
    MissingIs(ts, NamesIn(file));
    NamesAfterAnyBlocks(base, more, h);
    forall t | t in ts ensures FuncName(t) in NamesIn(file) <==> Named(t) {
      NotDeclared(file, FuncName(t));
      FuncNameIsFree(t);
      if Named(t) && t in more { BlockDeclaresFunc(more, h, t); }
    }
    var again := Missing(ts, NamesIn(file));
    if again != [] { assert again[0] in again; }
  }

  /** Running the generator again on the same tables, listed twice or not, changes nothing if
      and only if no struct name holds an opening parenthesis or a line break; otherwise the
      function is printed again on every run. */
  lemma IdempotentIff(c: Settings, file: string, ts: seq<Table>)
    requires NamesIn(EnsureImports(file, RequiredImports(c.handlerImport))) == NamesIn(file)
    ensures var once := Generated(c, Some(file), ts);
            Generated(c, once, ts) == once <==> forall t :: t in ts ==> Named(t)
  {
    hide NamesIn, Blocks, Missing, EnsureImports, Named, RequiredImports;
    var h, required := c.useHandlerPkg, RequiredImports(c.handlerImport);
    var base := EnsureImports(file, required);
    if Missing(ts, NamesIn(file)) == [] {
      FoundIff(file, ts, h);
      NoBlocks(h);
      assert file + "" == file;
    } else {
      FoundIff(base, ts, h);
      var once := base + Blocks(Missing(ts, NamesIn(base)), h);
      var again := Missing(ts, NamesIn(once));
      if again != [] {
        EnsureOnlyGrows(once, required);
        BlocksNotEmpty(again, h);
      }
    }
  }

  lemma BlocksNotEmpty(ts: seq<Table>, h: bool)
    requires ts != []
    ensures |Blocks(ts, h)| > 0
  {
  }

  lemma {:induction false} EnsureOnlyGrows(content: string, required: seq<string>)
    ensures |content| <= |EnsureImports(content, required)|
    decreases |required|
  {
    if required != [] {
      var next := if Contains(content, required[0]) then content else AddImport(content, required[0]);
      assert |content| <= |next| by {
        if HasPlace(content) { InsertionFits(content, required[0]); } else { NoPlaceNoChange(content, required[0]); }
      }
      EnsureOnlyGrows(next, required[1..]);
    }
  }
}
