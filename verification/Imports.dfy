/**
 ensureImports and addImport of cmd/goupter/internal/gen/crud.go: the imports a route file
 needs are inserted into whatever text is there.
 */
module Imports {
  import opened TextOps

  predicate Contains(s: string, sub: string) {
    Index(s, sub) != -1
  }

  const IMPORT_OPEN := "import ("

  function AddImport(content: string, newImport: string): string {
    var importStart := Index(content, IMPORT_OPEN);
    if importStart == -1 then
      var pkgEnd := Index(content, "\n");
      if pkgEnd == -1 then content
      else Inserted(content, pkgEnd + 1, "\nimport (\n\t" + newImport + "\n)\n")
    else
      var importEnd := Index(content[importStart..], ")");
      if importEnd == -1 then content
      else Inserted(content, importStart + importEnd, "\t" + newImport + "\n")
  }

  function Inserted(s: string, at: nat, text: string): string
    requires at <= |s|
  {
    s[..at] + text + s[at..]
  }

  function EnsureImports(content: string, required: seq<string>): string
    decreases |required|
  {
    if required == [] then content
    else EnsureImports(if Contains(content, required[0]) then content else AddImport(content, required[0]),
                       required[1..])
  }

  const GIN := "\"github.com/gin-gonic/gin\""
  const GORM := "\"gorm.io/gorm\""

  function RequiredImports(handlerImport: string): seq<string> {
    if handlerImport == "" then [GIN, GORM] else [GIN, GORM, "\"" + handlerImport + "\""]
  }

  // ------------------------------------------------- occurrences

  ghost predicate At(s: string, sub: string, i: nat) {
    i + |sub| <= |s| && s[i..i + |sub|] == sub
  }

  lemma Occurs(s: string, sub: string, i: nat)
    requires At(s, sub, i)
    ensures Contains(s, sub) && 0 <= Index(s, sub) <= i
  {
    assert s[i..][..|sub|] == sub;
  }

  lemma OccursAt(s: string, sub: string)
    requires Contains(s, sub)
    ensures 0 <= Index(s, sub) && At(s, sub, Index(s, sub))
  {
    var i := Index(s, sub);
    assert sub == s[i..][..|sub|];
  }

  lemma CharAt(s: string, sub: string, i: nat, p: nat)
    requires At(s, sub, i) && i <= p < i + |sub|
    ensures p < |s| && s[p] == sub[p - i]
  {
    assert s[i..i + |sub|][p - i] == s[p];
  }

  /** An occurrence survives an insertion that does not fall inside it. */
  lemma SurvivesInsertion(s: string, sub: string, i: nat, at: nat, text: string)
    requires at <= |s| && At(s, sub, i) && (i + |sub| <= at || at <= i)
    ensures At(Inserted(s, at, text), sub, if i + |sub| <= at then i else i + |text|)
  {
    var t := Inserted(s, at, text);
    if i + |sub| <= at {
      assert t[i..i + |sub|] == s[i..i + |sub|];
    } else {
      assert t[i + |text|..i + |text| + |sub|] == s[i..i + |sub|];
    }
  }

  /** Text that does not contain the character before or after the gap cannot lie across it. */
  lemma NotAcross(s: string, sub: string, i: nat, at: nat)
    requires at <= |s| && At(s, sub, i)
    requires (at > 0 && Free(sub, s[at - 1])) || (at < |s| && Free(sub, s[at]))
    ensures i + |sub| <= at || at <= i
  {
    if i < at < i + |sub| {
      CharAt(s, sub, i, at - 1);
      CharAt(s, sub, i, at);
    }
  }

  lemma InsertedHas(s: string, at: nat, pre: string, text: string, post: string)
    requires at <= |s|
    ensures At(Inserted(s, at, pre + text + post), text, at + |pre|)
  {
  }

  // ------------------------------------------------- one import

  /** Whether addImport finds a place: an import block that is closed, or failing any
      block, the end of the package line. */
  predicate HasPlace(content: string) {
    if Contains(content, IMPORT_OPEN) then Contains(content[Index(content, IMPORT_OPEN)..], ")")
    else Contains(content, "\n")
  }

  lemma NoPlaceNoChange(content: string, newImport: string)
    requires !HasPlace(content)
    ensures AddImport(content, newImport) == content
  {
  }

  predicate Simple(imp: string) {
    Free(imp, ')') && Free(imp, '\n')
  }

  /** Where and what addImport inserts. */
  datatype Insertion = Insertion(at: nat, text: string)

  function InsertionFor(content: string, newImport: string): Insertion
    requires HasPlace(content)
  {
    var importStart := Index(content, IMPORT_OPEN);
    if importStart == -1 then Insertion(Index(content, "\n") + 1, "\nimport (\n\t" + newImport + "\n)\n")
    else Insertion(importStart + Index(content[importStart..], ")"), "\t" + newImport + "\n")
  }

  lemma InsertionFits(content: string, newImport: string)
    requires HasPlace(content)
    ensures var ins := InsertionFor(content, newImport);
            ins.at <= |content| && AddImport(content, newImport) == Inserted(content, ins.at, ins.text)
    ensures var at := InsertionFor(content, newImport).at;
            (at > 0 && content[at - 1] == '\n') || (at < |content| && content[at] == ')')
  {
    var importStart := Index(content, IMPORT_OPEN);
    if importStart == -1 {
      OccursAt(content, "\n");
      CharAt(content, "\n", Index(content, "\n"), Index(content, "\n"));
    } else {
      OccursAt(content[importStart..], ")");
      CharAt(content[importStart..], ")", Index(content[importStart..], ")"), Index(content[importStart..], ")"));
    }
  }

  lemma AddImportAdds(content: string, newImport: string)
    requires HasPlace(content)
    ensures Contains(AddImport(content, newImport), newImport)
  {
    InsertionFits(content, newImport);
    var ins := InsertionFor(content, newImport);
    if Contains(content, IMPORT_OPEN) {
      InsertedHas(content, ins.at, "\t", newImport, "\n");
      Occurs(AddImport(content, newImport), newImport, ins.at + |"\t"|);
    } else {
      InsertedHas(content, ins.at, "\nimport (\n\t", newImport, "\n)\n");
      Occurs(AddImport(content, newImport), newImport, ins.at + |"\nimport (\n\t"|);
    }
  }

  lemma AddImportKeeps(content: string, newImport: string, other: string)
    requires HasPlace(content) && Contains(content, other) && Simple(other)
    ensures Contains(AddImport(content, newImport), other)
  {
    hide AddImport, InsertionFor, Contains, Index, HasPlace, At, Inserted;
    InsertionFits(content, newImport);
    var ins := InsertionFor(content, newImport);
    OccursAt(content, other);
    var i := Index(content, other);
    NotAcross(content, other, i, ins.at);
    SurvivesInsertion(content, other, i, ins.at, ins.text);
    Occurs(AddImport(content, newImport), other, if i + |other| <= ins.at then i else i + |ins.text|);
  }

  lemma AddImportLeavesAPlace(content: string, newImport: string)
    requires HasPlace(content)
    ensures HasPlace(AddImport(content, newImport))
  {
    hide AddImport, InsertionFor, HasPlace, Contains, Index;
    InsertionFits(content, newImport);
    var ins := InsertionFor(content, newImport);
    var t := AddImport(content, newImport);
    if Contains(content, IMPORT_OPEN) {
      var importStart := Index(content, IMPORT_OPEN);
      OccursAt(content, IMPORT_OPEN);
      InsertsIntoBlock(content, newImport);
      BlockBeforeParen(content, importStart, ins.at);
      SurvivesInsertion(content, IMPORT_OPEN, importStart, ins.at, ins.text);
      Occurs(t, IMPORT_OPEN, importStart);
      assert t[ins.at + |ins.text|] == content[ins.at];
      ParenAfter(t, ins.at + |ins.text|);
    } else {
      InsertsBlock(content, newImport);
      var post := "\n\t" + newImport + "\n)\n";
      InsertedHas(content, ins.at, "\n", IMPORT_OPEN, post);
      Occurs(t, IMPORT_OPEN, ins.at + 1);
      assert t[ins.at + |ins.text| - 2] == ins.text[|ins.text| - 2] == ')';
      ParenAfter(t, ins.at + |ins.text| - 2);
    }
  }

  lemma InsertsIntoBlock(content: string, newImport: string)
    requires HasPlace(content) && Contains(content, IMPORT_OPEN)
    ensures var at := InsertionFor(content, newImport).at;
            Index(content, IMPORT_OPEN) <= at < |content| && content[at] == ')'
  {
    var rest := content[Index(content, IMPORT_OPEN)..];
    OccursAt(rest, ")");
    CharAt(rest, ")", Index(rest, ")"), Index(rest, ")"));
  }

  lemma InsertsBlock(content: string, newImport: string)
    requires HasPlace(content) && !Contains(content, IMPORT_OPEN)
    ensures var text := InsertionFor(content, newImport).text;
            text == "\n" + IMPORT_OPEN + ("\n\t" + newImport + "\n)\n") && text[|text| - 2] == ')'
  {
    hide Index;
    assert "\nimport (\n\t" + newImport + "\n)\n" == "\n" + IMPORT_OPEN + ("\n\t" + newImport + "\n)\n");
  }

  lemma BlockBeforeParen(content: string, start: nat, paren: nat)
    requires At(content, IMPORT_OPEN, start)
    requires start <= paren < |content| && content[paren] == ')'
    ensures start + |IMPORT_OPEN| <= paren
  {
    if paren < start + |IMPORT_OPEN| { CharAt(content, IMPORT_OPEN, start, paren); }
  }

  lemma ParenInTail(t: string, from: nat, paren: nat)
    requires from <= paren < |t| && t[paren] == ')'
    ensures Contains(t[from..], ")")
  {
    hide Index, Contains;
    var rest, k := t[from..], paren - from;
    assert rest[k] == ')';
    assert rest[k..k + 1] == ")";
    Occurs(rest, ")", k);
  }

  lemma ParenAfter(t: string, paren: nat)
    requires paren < |t| && t[paren] == ')'
    requires Contains(t, IMPORT_OPEN) && Index(t, IMPORT_OPEN) <= paren
    ensures HasPlace(t)
  {
    hide Index, Contains;
    OccursAt(t, IMPORT_OPEN);
    ParenInTail(t, Index(t, IMPORT_OPEN), paren);
  }

  // ------------------------------------------------- all of them

  ghost predicate AllContained(content: string, required: seq<string>) {
    forall r :: r in required ==> Contains(content, r)
  }

  /** All but the last, after which nothing is inserted any more. */
  ghost predicate EarlierSimple(required: seq<string>) {
    forall i :: 0 <= i < |required| - 1 ==> Simple(required[i])
  }

  lemma {:induction false} EnsureKeeps(content: string, required: seq<string>, other: string)
    requires Contains(content, other) && Simple(other)
    ensures Contains(EnsureImports(content, required), other)
    decreases |required|
  {
    if required != [] {
      if Contains(content, required[0]) {
        EnsureKeeps(content, required[1..], other);
      } else {
        if HasPlace(content) { AddImportKeeps(content, required[0], other); } else { NoPlaceNoChange(content, required[0]); }
        EnsureKeeps(AddImport(content, required[0]), required[1..], other);
      }
    }
  }

  lemma {:induction false} EnsureCompletes(content: string, required: seq<string>)
    requires HasPlace(content) && EarlierSimple(required)
    ensures AllContained(EnsureImports(content, required), required)
    decreases |required|
  {
    if required != [] {
      var next := if Contains(content, required[0]) then content else AddImport(content, required[0]);
      if !Contains(content, required[0]) {
        AddImportAdds(content, required[0]);
        AddImportLeavesAPlace(content, required[0]);
      }
      assert forall i :: 0 <= i < |required[1..]| ==> required[1..][i] == required[i + 1];
      EnsureCompletes(next, required[1..]);
      if |required| > 1 { EnsureKeeps(next, required[1..], required[0]); }
    }
  }

  lemma {:induction false} NothingToDo(content: string, required: seq<string>)
    requires AllContained(content, required) || !HasPlace(content)
    ensures EnsureImports(content, required) == content
    decreases |required|
  {
    if required != [] {
      assert required[0] in required && forall r :: r in required[1..] ==> r in required;
      if !Contains(content, required[0]) { NoPlaceNoChange(content, required[0]); }
      NothingToDo(content, required[1..]);
    }
  }

  lemma RequiredAreSimple(handlerImport: string)
    ensures EarlierSimple(RequiredImports(handlerImport))
  {
    assert Free(GIN, ')') && Free(GIN, '\n') && Free(GORM, ')') && Free(GORM, '\n');
  }

  /** One pass leaves every required import in the file exactly when they were there already
      or there is a place for them, whatever the handler import looks like. */
  lemma EnsureImportsComplete(content: string, handlerImport: string)
    ensures var required := RequiredImports(handlerImport);
            AllContained(EnsureImports(content, required), required)
            <==> AllContained(content, required) || HasPlace(content)
  {
    var required := RequiredImports(handlerImport);
    RequiredAreSimple(handlerImport);
    if HasPlace(content) {
      EnsureCompletes(content, required);
    } else {
      NothingToDo(content, required);
    }
  }

  /** A second pass changes nothing. */
  lemma EnsureImportsFixpoint(content: string, handlerImport: string)
    ensures var required := RequiredImports(handlerImport);
            var once := EnsureImports(content, required);
            EnsureImports(once, required) == once
  {
    var required := RequiredImports(handlerImport);
    RequiredAreSimple(handlerImport);
    if HasPlace(content) { EnsureCompletes(content, required); } else { NothingToDo(content, required); }
    NothingToDo(EnsureImports(content, required), required);
  }

  function Apply(content: string, edits: seq<Insertion>): string
    decreases |edits|
  {
    if edits == [] then content
    else if edits[0].at <= |content| then Apply(Inserted(content, edits[0].at, edits[0].text), edits[1..])
    else content
  }

  /** The result is the original text plus insertions, at most one for each import. */
  lemma {:induction false} InsertionsOnly(content: string, required: seq<string>) returns (edits: seq<Insertion>)
    ensures EnsureImports(content, required) == Apply(content, edits) && |edits| <= |required|
    ensures forall e :: e in edits ==> exists r :: r in required && Contains(e.text, r)
    decreases |required|
  {
    if required == [] {
      edits := [];
    } else if Contains(content, required[0]) || !HasPlace(content) {
      if !Contains(content, required[0]) { NoPlaceNoChange(content, required[0]); }
      edits := InsertionsOnly(content, required[1..]);
    } else {
      InsertionFits(content, required[0]);
      var ins := InsertionFor(content, required[0]);
      InsertionHasImport(content, required[0]);
      var rest := InsertionsOnly(AddImport(content, required[0]), required[1..]);
      edits := [ins] + rest;
      assert edits[1..] == rest;
      forall e | e in edits ensures exists r :: r in required && Contains(e.text, r) {
        if e == ins { assert required[0] in required && Contains(e.text, required[0]); }
      }
    }
  }

  lemma InsertionHasImport(content: string, newImport: string)
    requires HasPlace(content)
    ensures Contains(InsertionFor(content, newImport).text, newImport)
  {
    if Contains(content, IMPORT_OPEN) {
      assert Inserted("", 0, "\t" + newImport + "\n") == "\t" + newImport + "\n";
      InsertedHas("", 0, "\t", newImport, "\n");
      Occurs("\t" + newImport + "\n", newImport, 1);
    } else {
      var text := "\nimport (\n\t" + newImport + "\n)\n";
      assert Inserted("", 0, text) == text;
      InsertedHas("", 0, "\nimport (\n\t", newImport, "\n)\n");
      Occurs(text, newImport, |"\nimport (\n\t"|);
    }
  }
}
