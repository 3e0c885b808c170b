/**
 * The pure part of the `railsGoToSpec` command handler (src/extension.ts): from a spec
 * to its source, the last describe line at or before the cursor names the method to
 * show; from a source to its spec, the method under the cursor names the line to
 * show; and the first related file that exists is the one shown. The editor, the file
 * system, the symbol provider and the path resolver are parameters.
 */
module Extension {
  import opened Wrappers
  import opened Seqs
  import opened Text
  import opened Symbols
  import opened Parser
  import opened Generator

  // ---------------------------------------------------------------------------
  // From a spec to its source

  /** `m[1] == "." ? "self." + m[2] : m[2]`: the source method a describe line names. */
  function SourceName(sigil: char, id: string): string
  {
    if sigil == '.' then "self." + id else id
  }

  /** A spec identifier has no `.`: its fifth character, if any, is a word character or a final `?`/`!`. */
  lemma SpecIdentifierIsNotClassMethodName(id: string)
    requires IsSpecIdentifier(id)
    ensures !StartsWith(id, "self.")
  {
    if |id| >= 5 {
      assert id[4] != '.';
      assert id[..5][4] == id[4];
    }
  }

  /** Renaming a describe line's method to source form and back gives the sigil and identifier again. */
  lemma SpecNameOfSourceName(sigil: char, id: string)
    requires sigil == '.' || sigil == '#'
    requires IsSpecIdentifier(id)
    ensures SpecName(SourceName(sigil, id)) == [sigil] + id
  {
    if sigil == '.' {
      assert StartsWith("self." + id, "self.");
      assert ("self." + id)[5..] == id;
    } else {
      SpecIdentifierIsNotClassMethodName(id);
    }
  }

  /** Renaming a source method to spec form and back gives the method's name again. */
  lemma SourceNameOfSpecName(name: string)
    ensures var s := SpecName(name);
      |s| >= 1 && SourceName(s[0], s[1..]) == name
  {
    SpecNameIsSigilAndBareName(name);
  }

  /** `{ name, lineNo }`: the source method a describe line names, and the line. */
  datatype NamedLine = NamedLine(name: string, lineNo: nat)

  /** The `map` callback of the describe-line lookup. */
  function DescribeTarget(line: string, lineNo: nat): (r: Option<NamedLine>)
    ensures r.Some? <==> MatchDescribe(line).Some?
    ensures r.Some? ==> r.value.lineNo == lineNo
  {
    match MatchDescribe(line)
    case None => None
    case Some(m) => Some(NamedLine(SourceName(Sigil(line, m), Identifier(line, m)), lineNo))
  }

  /** The renamed method of a describe line turns back into the sigil and identifier the line spells. */
  lemma DescribeTargetRoundTrip(line: string, lineNo: nat, m: DescribeMatch)
    requires MatchDescribe(line) == Some(m)
    ensures SpecName(DescribeTarget(line, lineNo).value.name) == [Sigil(line, m)] + Identifier(line, m)
  {
    var sigil, id := Sigil(line, m), Identifier(line, m);
    assert DescribeTarget(line, lineNo).value.name == SourceName(sigil, id);
    IdentifierIsSpecIdentifier(line, m);
    SpecNameOfSourceName(sigil, id);
  }

  /** `text.split("\n").slice(0, currentLine + 1).map(...)`. */
  function DescribeTargets(lines: seq<string>, currentLine: nat): (r: seq<Option<NamedLine>>)
    ensures |r| == if currentLine < |lines| then currentLine + 1 else |lines|
    ensures forall i :: 0 <= i < |r| ==> r[i] == DescribeTarget(lines[i], i)
  {
    var n := if currentLine < |lines| then currentLine + 1 else |lines|;
    seq(n, i requires 0 <= i < n => DescribeTarget(lines[i], i))
  }

  /** `text.split("\n").slice(0, currentLine + 1).map(...).reverse().find(b => !!b)`. */
  function LastDescribeLine(text: string, currentLine: nat): Option<NamedLine>
  {
    LastPresent(DescribeTargets(Split(text, "\n"), currentLine))
  }

  /** The describe pattern matches none of the lines after `lo` up to `hi`. */
  predicate NoDescribeLineBetween(lines: seq<string>, lo: int, hi: int)
  {
    forall j :: lo < j <= hi && 0 <= j < |lines| ==> MatchDescribe(lines[j]).None?
  }

  /** Past `k`, no target is present iff no line up to the cursor's matches. */
  lemma TargetsFollowMatches(lines: seq<string>, currentLine: nat, k: int)
    ensures NoneAfter(DescribeTargets(lines, currentLine), k) <==> NoDescribeLineBetween(lines, k, currentLine)
  {
    var targets := DescribeTargets(lines, currentLine);
    if NoneAfter(targets, k) {
      forall j | k < j <= currentLine && 0 <= j < |lines|
        ensures MatchDescribe(lines[j]).None?
      {
        assert targets[j].None?;
      }
    }
    if NoDescribeLineBetween(lines, k, currentLine) {
      forall j | k < j < |targets| && 0 <= j
        ensures targets[j].None?
      {
        assert MatchDescribe(lines[j]).None?;
      }
    }
  }

  /**
   * Over the lines up to the cursor's, the reversed search picks the last one the describe
   * pattern matches; there is none iff no such line matches.
   */
  lemma LastTargetIsLastMatch(lines: seq<string>, currentLine: nat)
    ensures var r := LastPresent(DescribeTargets(lines, currentLine));
      && (r.None? <==> NoDescribeLineBetween(lines, -1, currentLine))
      && (r.Some? ==>
          && r.value.lineNo < |lines| && r.value.lineNo <= currentLine
          && r == DescribeTarget(lines[r.value.lineNo], r.value.lineNo)
          && NoDescribeLineBetween(lines, r.value.lineNo, currentLine))
  {
    var targets := DescribeTargets(lines, currentLine);
    LastPresentIsLast(targets);
    TargetsFollowMatches(lines, currentLine, -1);
    var r := LastPresent(targets);
    if r.Some? {
      var k :| 0 <= k < |targets| && targets[k] == r && NoneAfter(targets, k);
      assert r.value.lineNo == k;
      TargetsFollowMatches(lines, currentLine, k);
    }
  }

  /**
   * The describe-line lookup picks the last line of the text, at or before the cursor's
   * line, that the describe pattern matches; there is none iff no such line matches.
   */
  lemma LastDescribeLineIsLastMatchAtOrBeforeCursor(text: string, currentLine: nat)
    ensures var lines := Split(text, "\n");
      var r := LastDescribeLine(text, currentLine);
      && (r.None? <==> NoDescribeLineBetween(lines, -1, currentLine))
      && (r.Some? ==>
          && r.value.lineNo < |lines| && r.value.lineNo <= currentLine
          && r == DescribeTarget(lines[r.value.lineNo], r.value.lineNo)
          && NoDescribeLineBetween(lines, r.value.lineNo, currentLine))
  {
    LastTargetIsLastMatch(Split(text, "\n"), currentLine);
  }

  /** `findSymbolByName(symbols, name)`, then the start of the symbol's range. */
  function PositionOfNamed(symbols: seq<Symbol>, name: string): Option<Position>
  {
    match FindSymbolByName(symbols, name)
    case None => None
    case Some(symbol) => Some(GetRange(symbol).start)
  }

  /**
   * The position of a name is the start of the first symbol, in pre-order, with that name;
   * there is none iff no symbol has the name.
   */
  lemma PositionOfNamedIsFirstInPreOrder(symbols: seq<Symbol>, name: string)
    ensures var nodes := PreOrder(symbols);
      && (PositionOfNamed(symbols, name).None? <==> forall s :: s in nodes ==> s.name != name)
      && (PositionOfNamed(symbols, name).Some? ==>
          exists i :: (0 <= i < |nodes|
            && nodes[i].name == name
            && GetRange(nodes[i]).start == PositionOfNamed(symbols, name).value
            && forall j :: 0 <= j < i ==> nodes[j].name != name))
  {
    FindSymbolByNameIsFirstInPreOrder(symbols, name);
    var nodes := PreOrder(symbols);
    var found := Find(nodes, HasName(name));
    if found.Some? {
      var i :| 0 <= i < |nodes| && nodes[i] == found.value && HasName(name)(nodes[i])
               && forall j :: 0 <= j < i ==> !HasName(name)(nodes[j]);
      assert GetRange(nodes[i]).start == PositionOfNamed(symbols, name).value;
    } else {
      forall s | s in nodes
        ensures s.name != name
      {
        var j :| 0 <= j < |nodes| && nodes[j] == s;
        assert !HasName(name)(nodes[j]);
      }
    }
  }

  /**
   * From a spec: the start of the first symbol, depth-first, of the source file's symbols
   * named after the describe line the cursor is in.
   */
  function SpecToSourcePosition(specText: string, currentLine: nat, sourceSymbols: seq<Symbol>): Option<Position>
  {
    var line := LastDescribeLine(specText, currentLine);
    if line.None? then None else PositionOfNamed(sourceSymbols, line.value.name)
  }

  /**
   * The position shown from a spec is the start of the first symbol, in pre-order, named
   * after the describe line; there is none iff there is no describe line at or before
   * the cursor or no symbol has that name.
   */
  lemma SpecToSourceIsFirstNamedSymbol(specText: string, currentLine: nat, sourceSymbols: seq<Symbol>)
    ensures var line := LastDescribeLine(specText, currentLine);
      var nodes := PreOrder(sourceSymbols);
      var r := SpecToSourcePosition(specText, currentLine, sourceSymbols);
      && (r.None? <==> line.None? || forall s :: s in nodes ==> s.name != line.value.name)
      && (r.Some? ==>
          exists i :: (0 <= i < |nodes|
            && nodes[i].name == line.value.name
            && GetRange(nodes[i]).start == r.value
            && forall j :: 0 <= j < i ==> nodes[j].name != line.value.name))
  {
    var line := LastDescribeLine(specText, currentLine);
    if line.Some? {
      PositionOfNamedIsFirstInPreOrder(sourceSymbols, line.value.name);
    }
  }

  // ---------------------------------------------------------------------------
  // From a source to its spec

  /** `line => line.includes("\"" + specName + "\"")`. */
  function QuotesName(specName: string): string -> bool
  {
    (line: string) => Includes(line, "\"" + specName + "\"")
  }

  /**
   * From a source: line `index`, character 0, of the first spec line that quotes the
   * spec name of the method under the cursor.
   */
  function SourceToSpecPosition(sourceSymbols: seq<Symbol>, cursor: Position, specText: string): Option<Position>
  {
    match FindSymbolByPosition(sourceSymbols, cursor)
    case None => None
    case Some(symbol) =>
      var index := FindIndex(Split(specText, "\n"), QuotesName(SpecName(symbol.name)));
      if index >= 0 then Some(Position(index, 0)) else None
  }

  /**
   * The position shown from a source is the start of the first spec line quoting the
   * method's spec name; there is none iff no method is under the cursor or no line quotes it.
   */
  lemma SourceToSpecIsFirstQuotingLine(sourceSymbols: seq<Symbol>, cursor: Position, specText: string)
    ensures var lines := Split(specText, "\n");
      var symbol := FindSymbolByPosition(sourceSymbols, cursor);
      var r := SourceToSpecPosition(sourceSymbols, cursor, specText);
      && (r.None? <==> symbol.None? || forall i :: 0 <= i < |lines| ==> !QuotesName(SpecName(symbol.value.name))(lines[i]))
      && (r.Some? ==>
          && r.value.character == 0 && r.value.line < |lines|
          && QuotesName(SpecName(symbol.value.name))(lines[r.value.line])
          && forall i :: 0 <= i < r.value.line ==> !QuotesName(SpecName(symbol.value.name))(lines[i]))
  {
  }

  /** The describe line written for a method quotes the method's spec name. */
  lemma DescribeLineQuotesSpecName(name: string)
    ensures QuotesName(SpecName(name))(DescribeLine(name))
  {
    var quoted := "\"" + SpecName(name) + "\"";
    assert DescribeLine(name) == "  describe " + quoted + " do";
    assert OccursAt(quoted, quoted, 0);
    IncludesInConcat("  describe ", quoted, " do", quoted);
  }

  /**
   * When the spec holds the describe line written for the method under the cursor, the
   * position shown is on that line or an earlier one.
   */
  lemma GeneratedSpecIsFound(sourceSymbols: seq<Symbol>, cursor: Position, specText: string, k: nat)
    requires FindSymbolByPosition(sourceSymbols, cursor).Some?
    requires var lines := Split(specText, "\n");
      k < |lines| && lines[k] == DescribeLine(FindSymbolByPosition(sourceSymbols, cursor).value.name)
    ensures var r := SourceToSpecPosition(sourceSymbols, cursor, specText);
      r.Some? && r.value.line <= k
  {
    DescribeLineQuotesSpecName(FindSymbolByPosition(sourceSymbols, cursor).value.name);
  }

  // ---------------------------------------------------------------------------
  // The command

  /** What the handler reads from the editor: the document, its symbols, and the cursor. */
  datatype Editor = Editor(text: string, symbols: seq<Symbol>, cursor: Position)

  /**
   * What the handler reads from the workspace, one function each: whether a file exists,
   * a file's text, and the symbols the symbol provider reports for it.
   */
  datatype Workspace = Workspace(
    fileExists: string -> bool,
    textOf: string -> string,
    symbolsOf: string -> seq<Symbol>)

  /** A `showDocument` call: the file, and the position to select if any. */
  datatype Shown = Shown(file: string, position: Option<Position>)

  /** What one run of the command does: the file it shows, and the file it offers to create. */
  datatype Outcome = Outcome(shown: Option<Shown>, prompt: Option<string>)

  /** The position selected in `file` once it is opened. */
  function TargetPosition(fromSpec: bool, editor: Editor, workspace: Workspace, file: string): Option<Position>
  {
    if fromSpec then SpecToSourcePosition(editor.text, editor.cursor.line, workspace.symbolsOf(file))
    else SourceToSpecPosition(editor.symbols, editor.cursor, workspace.textOf(file))
  }

  /** The related file the command is meant to show: the first that exists, at its target position. */
  function FirstExisting(related: seq<string>, fromSpec: bool, editor: Editor, workspace: Workspace): Option<Shown>
  {
    var i := FindIndex(related, workspace.fileExists);
    if i < 0 then None else Some(Shown(related[i], TargetPosition(fromSpec, editor, workspace, related[i])))
  }

  /** `related[0]`, when there is one. */
  function FirstRelated(related: seq<string>): (r: Option<string>)
    ensures r.Some? <==> related != []
    ensures r.Some? ==> r.value == related[0]
  {
    if related == [] then None else Some(related[0])
  }

  /**
   * The loop over the related files: the first one that exists is shown, at the position
   * its lookup finds, and no later one is looked at; nothing is shown iff none exists.
   */
  method ShowFirstExisting(related: seq<string>, fromSpec: bool, editor: Editor, workspace: Workspace)
    returns (shown: Option<Shown>)
    ensures shown == FirstExisting(related, fromSpec, editor, workspace)
  {
    shown := None;
    var k := 0;
    while k < |related|
      invariant 0 <= k <= |related|
      invariant forall j :: 0 <= j < k ==> !workspace.fileExists(related[j])
      invariant shown.None?
    {
      var relatedFile := related[k];
      if workspace.fileExists(relatedFile) {
        var position := TargetPosition(fromSpec, editor, workspace, relatedFile);
        shown := Some(Shown(relatedFile, position));
        FirstExistingIsFound(related, workspace.fileExists, k);
        break;
      }
      k := k + 1;
    }
  }

  /** `findIndex` finds `k` when `k` satisfies the test and nothing before it does. */
  lemma FirstExistingIsFound(s: seq<string>, p: string -> bool, k: nat)
    requires k < |s| && p(s[k])
    requires forall j :: 0 <= j < k ==> !p(s[j])
    ensures FindIndex(s, p) == k
  {
  }

  /**
   * The command as written: the `break` leaves only the loop, so the prompt to create the
   * first related file follows whether or not a file was shown.
   */
  method RunCommandAsWritten(related: seq<string>, fromSpec: bool, editor: Editor, workspace: Workspace)
    returns (outcome: Outcome)
    ensures outcome == Outcome(FirstExisting(related, fromSpec, editor, workspace), FirstRelated(related))
  {
    var shown := ShowFirstExisting(related, fromSpec, editor, workspace);
    var prompt := None;
    if |related| > 0 {
      prompt := Some(related[0]);
    }
    outcome := Outcome(shown, prompt);
  }

  /**
   * As written, when the first related file exists the command both shows it and offers
   * to create it; accepting the offer truncates the file it just showed.
   */
  lemma ExistingFileIsOfferedForCreation(related: seq<string>, fromSpec: bool, editor: Editor, workspace: Workspace)
    requires related != [] && workspace.fileExists(related[0])
    ensures var shown := FirstExisting(related, fromSpec, editor, workspace);
      && shown.Some? && shown.value.file == related[0]
      && FirstRelated(related) == Some(related[0])
  {
    FirstExistingIsFound(related, workspace.fileExists, 0);
  }

  /** The command as its comments describe it: the prompt follows only when no related file exists. */
  method RunCommand(related: seq<string>, fromSpec: bool, editor: Editor, workspace: Workspace)
    returns (outcome: Outcome)
    ensures outcome.shown == FirstExisting(related, fromSpec, editor, workspace)
    ensures outcome.prompt == if outcome.shown.None? then FirstRelated(related) else None
  {
    var shown := ShowFirstExisting(related, fromSpec, editor, workspace);
    var prompt := None;
    if shown.None? && |related| > 0 {
      prompt := Some(related[0]);
    }
    outcome := Outcome(shown, prompt);
  }

  /**
   * The corrected command either shows a related file or offers to create one, never both;
   * it offers one exactly when there are related files and none exists, and the file it
   * offers does not exist.
   */
  lemma CommandShowsOrOffers(related: seq<string>, fromSpec: bool, editor: Editor, workspace: Workspace)
    ensures var shown := FirstExisting(related, fromSpec, editor, workspace);
      var prompt := if shown.None? then FirstRelated(related) else None;
      && (shown.Some? ==> prompt.None? && workspace.fileExists(shown.value.file) && shown.value.file in related)
      && (prompt.Some? <==> related != [] && forall f :: f in related ==> !workspace.fileExists(f))
      && (prompt.Some? ==> !workspace.fileExists(prompt.value))
  {
    var i := FindIndex(related, workspace.fileExists);
    if i < 0 {
      forall f | f in related
        ensures !workspace.fileExists(f)
      {
        var j :| 0 <= j < |related| && related[j] == f;
        assert !workspace.fileExists(related[j]);
      }
    } else {
      assert related[i] in related;
    }
  }
}
