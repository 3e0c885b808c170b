/**
 * The spec scaffolding generator (src/generator.ts): RSpec "given"-style snippets for
 * one method, and whole spec files for a plain class or an interactor. The foreign
 * `snakeCase` is a parameter.
 */
module Generator {
  import opened Wrappers
  import opened Seqs
  import opened Text
  import opened Symbols
  import opened Parser

  // ---------------------------------------------------------------------------
  // Names

  /** A method named `self.x` is the class method `x`. */
  predicate IsClassMethodName(name: string)
  {
    StartsWith(name, "self.")
  }

  /** A method's name without its `self.` prefix. */
  function BareName(name: string): (r: string)
    ensures IsClassMethodName(name) ==> name == "self." + r
    ensures !IsClassMethodName(name) ==> r == name
  {
    if IsClassMethodName(name) then Substring(name, 5) else name
  }

  /** A name the describe pattern can spell: an identifier, optionally after `self.`. */
  predicate IsMethodName(name: string)
  {
    IsSpecIdentifier(BareName(name))
  }

  /** `getSpecName`: `.x` for the class method `self.x`, `#n` for any other name `n`. */
  function SpecName(name: string): string
  {
    if StartsWith(name, "self.") then "." + Substring(name, 5) else "#" + name
  }

  /** A spec name is a sigil, `.` exactly for class methods, then the bare name. */
  lemma SpecNameIsSigilAndBareName(name: string)
    ensures var s := SpecName(name);
      && |s| >= 1
      && (s[0] == '.' <==> IsClassMethodName(name))
      && (s[0] == '.' || s[0] == '#')
      && s[1..] == BareName(name)
  {
    var s := SpecName(name);
    if IsClassMethodName(name) {
      assert s == "." + BareName(name);
    } else {
      assert s == "#" + name;
    }
  }

  /** Different methods get different spec names. */
  lemma SpecNameIsInjective(a: string, b: string)
    requires SpecName(a) == SpecName(b)
    ensures a == b
  {
    SpecNameIsSigilAndBareName(a);
    SpecNameIsSigilAndBareName(b);
  }

  /** `getSpecWhen`: the call, on `described_class` for class methods and on `subject` otherwise. */
  function SpecWhen(name: string): string
  {
    "When(:result){" + (if StartsWith(name, "self.") then "described_class." + Substring(name, 5) else "subject." + name) + "}"
  }

  /** The `When` line calls the method the spec name designates, on the receiver its sigil designates. */
  lemma SpecWhenAgreesWithSpecName(name: string)
    ensures var s := SpecName(name);
      |s| >= 1 &&
      SpecWhen(name) == "When(:result){" + (if s[0] == '.' then "described_class." else "subject.") + s[1..] + "}"
  {
    SpecNameIsSigilAndBareName(name);
  }

  // ---------------------------------------------------------------------------
  // One method

  /** `  describe "<sigil><id>" do`. */
  function PatternLine(sigil: char, id: string): string
  {
    "  describe \"" + [sigil] + id + "\" do"
  }

  /** The first line of `getSpecDefinition`. */
  function DescribeLine(name: string): string
  {
    "  describe \"" + SpecName(name) + "\" do"
  }

  /** The rest of `getSpecDefinition`, after the describe line. */
  function SpecBody(name: string): string
  {
    "    " + SpecWhen(name) + "\n    Then{expect(result).to eq :TODO}\n  end"
  }

  /** `getSpecDefinition`: a describe block with a `When` and a placeholder `Then`. */
  function SpecDefinition(name: string): string
  {
    DescribeLine(name) + "\n" + SpecBody(name)
  }

  /** `generateSpecForSymbol`: the definition between two line breaks; `context` is not read. */
  function GenerateSpecForSymbol(symbol: Symbol, context: ClassContext): string
  {
    "\n" + SpecDefinition(symbol.name) + "\n"
  }

  /** The spec symbol the spec parser reads back from the describe line written for `name`. */
  function ExpectedSpecSymbol(name: string, lineNo: nat): SpecSymbol
  {
    var kind := if IsClassMethodName(name) then ClassMethodSpec else InstanceMethodSpec;
    SpecSymbol(BareName(name), kind, Range(Position(lineNo, 2), Position(lineNo, Utf16Length(DescribeLine(name)))))
  }

  /** The describe line of a method name: a sigil and the bare name, quoted. */
  lemma DescribeLineShape(name: string)
    ensures DescribeLine(name) == PatternLine(if IsClassMethodName(name) then '.' else '#', BareName(name))
  {
    SpecNameIsSigilAndBareName(name);
    var s := SpecName(name);
    assert s == [s[0]] + s[1..];
  }

  /** The pieces of a pattern line, by position. */
  lemma PatternLineLayout(sigil: char, id: string)
    ensures var line := PatternLine(sigil, id);
      var f := 13 + |id|;
      && |line| == f + 4
      && line[..2] == "  " && line[2..10] == "describe" && line[10] == ' '
      && line[11] == '"' && line[12] == sigil
      && line[13..f] == id
      && line[f] == '"' && line[f + 1] == ' ' && line[f + 2..f + 4] == "do"
  {
    var line := PatternLine(sigil, id);
    var head := "  describe \"" + [sigil];
    var f := 13 + |id|;
    assert line == head + id + "\" do";
    assert line[..13] == head;
    assert line[f..] == "\" do";
  }

  /** A spec identifier after a sigil, in its pattern line, is one match of the describe pattern from the line's start. */
  lemma PatternLineMatch(sigil: char, id: string) returns (m: DescribeMatch)
    requires sigil == '.' || sigil == '#'
    requires IsSpecIdentifier(id)
    ensures var line := PatternLine(sigil, id);
      && IsDescribeMatch(line, m) && m.index == 0
      && Lead(line, m) == "  " && Trail(line, m) == ""
      && Sigil(line, m) == sigil && Identifier(line, m) == id
  {
    var line := PatternLine(sigil, id);
    var f := 13 + |id|;
    PatternLineLayout(sigil, id);
    m := DescribeMatch(0, 2, 11, f, f + 2, f + 4);
    assert DescribeAt(line, 0, 2) by {
      assert line[0] == line[..2][0] && line[1] == line[..2][1];
    }
    assert NameAt(line, 11, f) by {
      assert forall i :: 13 <= i < f ==> line[i] == line[13..f][i - 13];
    }
    assert DoAt(line, f, f + 2, f + 4);
  }

  /** The pattern line of a spec identifier is parsed into that identifier's spec symbol. */
  lemma PatternLineIsParsed(sigil: char, id: string, lineNo: nat)
    requires sigil == '.' || sigil == '#'
    requires IsSpecIdentifier(id)
    ensures var line := PatternLine(sigil, id);
      LineSymbol(line, lineNo) ==
        Some(SpecSymbol(id, if sigil == '.' then ClassMethodSpec else InstanceMethodSpec,
                        Range(Position(lineNo, 2), Position(lineNo, Utf16Length(line)))))
  {
    var line := PatternLine(sigil, id);
    var m := PatternLineMatch(sigil, id);
    var found := MatchDescribe(line);
    OneMatchPerIndex(line, found.value, m);
    assert Utf16Length(Lead(line, m)) == 2 by {
      assert Lead(line, m) == "  ";
      assert Utf16Length("  ") == 1 + Utf16Length(" ");
    }
    assert Utf16Length(Trail(line, m)) == 0;
    var r := LineSymbol(line, lineNo);
    assert r.value.range == Range(Position(lineNo, 2), Position(lineNo, Utf16Length(line)));
    assert r.value.name == id;
  }

  /** The describe line written for a method is parsed back into that method's spec symbol. */
  lemma DescribeLineIsParsed(name: string, lineNo: nat)
    requires IsMethodName(name)
    ensures LineSymbol(DescribeLine(name), lineNo) == Some(ExpectedSpecSymbol(name, lineNo))
  {
    DescribeLineShape(name);
    PatternLineIsParsed(if IsClassMethodName(name) then '.' else '#', BareName(name), lineNo);
  }

  /**
   * A setter such as `x=` gets the describe line `  describe "#x=" do`, which the describe
   * pattern does not match: the spec parser skips it.
   */
  lemma SetterDescribeLineIsSkipped(lineNo: nat)
    ensures LineSymbol(DescribeLine("x="), lineNo).None?
  {
    var line := DescribeLine("x=");
    assert line == "  describe \"#x=\" do";
    forall m | IsDescribeMatch(line, m)
      ensures false
    {
      assert false;
    }
  }

  /** A spec identifier contains no line break, so neither does its pattern line. */
  lemma PatternLineIsOneLine(sigil: char, id: string)
    requires sigil != '\n' && IsSpecIdentifier(id)
    ensures '\n' !in PatternLine(sigil, id)
  {
    var k := if |id| > 0 && (id[|id| - 1] == '?' || id[|id| - 1] == '!') then |id| - 1 else |id|;
    forall i | 0 <= i < |id|
      ensures id[i] != '\n'
    {
      if i < k {
        assert IsWordChar(id[i]);
      }
    }
  }

  /** Between two line breaks, a first line without line breaks is the second line of the text. */
  lemma SecondLineOfSnippet(first: string, rest: string)
    requires '\n' !in first
    ensures var lines := Split("\n" + (first + "\n" + rest) + "\n", "\n");
      |lines| > 1 && lines[1] == first
  {
    assert "\n" + (first + "\n" + rest) + "\n" == "" + "\n" + (first + "\n" + (rest + "\n"));
    SplitAtFirstChar("", '\n', first + "\n" + (rest + "\n"));
    SplitAtFirstChar(first, '\n', rest + "\n");
  }

  /**
   * The snippet generated for a method, read by the spec parser, holds that method's
   * spec symbol on the snippet's second line.
   */
  lemma GeneratedSnippetIsParsed(symbol: Symbol, context: ClassContext)
    requires IsMethodName(symbol.name)
    ensures ExpectedSpecSymbol(symbol.name, 1) in ParseSpecFile(GenerateSpecForSymbol(symbol, context))
  {
    var name := symbol.name;
    DescribeLineShape(name);
    PatternLineIsOneLine(if IsClassMethodName(name) then '.' else '#', BareName(name));
    SecondLineOfSnippet(DescribeLine(name), SpecBody(name));
    DescribeLineIsParsed(name, 1);
    var lines := Split(GenerateSpecForSymbol(symbol, context), "\n");
    assert MatchDescribe(lines[1]).Some?;
  }

  // ---------------------------------------------------------------------------
  // Whole spec files

  /** `publicMethods.map(m => getSpecDefinition(m))`. */
  function Definitions(methods: seq<Symbol>): (r: seq<string>)
    ensures |r| == |methods|
    ensures forall i :: 0 <= i < |methods| ==> r[i] == SpecDefinition(methods[i].name)
  {
    seq(|methods|, i requires 0 <= i < |methods| => SpecDefinition(methods[i].name))
  }

  /** The interactor template's filter: `m.name != "perform"`. */
  function IsNotPerform(m: Symbol): bool
  {
    m.name != "perform"
  }

  /** The lines of `generateInteractorSpec`'s template: the preamble, the snippets, `end`. */
  function InteractorLines(className: string, snippets: string): seq<string>
  {
    InteractorPreamble(className) + [snippets, "end", ""]
  }

  /** The 24 fixed lines before the snippets: the class, the helpers and the `#perform` examples. */
  function InteractorPreamble(className: string): (r: seq<string>)
    ensures |r| == 24
  {
    seq(24, k => PreambleLine(className, k))
  }

  /** Line `k` of the interactor preamble. */
  function PreambleLine(className: string, k: int): string
  {
    match k
    case 0 => "require \"spec_helper\""
    case 1 => "describe " + className + " do"
    case 2 => "  include InteractorHelpers"
    case 4 => "  Given(:listener){InteractorHelpers::ResponseSpy.new}"
    case 5 => "  subject{described_class.new(params, user)}"
    case 7 => "  Given(:user){create :user}"
    case 8 => "  Given(:params){{}}"
    case 10 => "  describe \"#perform\" do"
    case 11 => "    When{subject.add_listener(listener).perform}"
    case 13 => "    context \"with valid parameters\" do"
    case 14 => "      Then{expect(listener.interaction).to eq :" + className + "}"
    case 15 => "      And{expect(listener.state).to eq :success}"
    case 16 => "    end"
    case 18 => "    context \"with invalid parameters\" do"
    case 19 => "      Then{expect(listener.interaction).to eq :" + className + "}"
    case 20 => "      And{expect(listener.state).to eq :failure}"
    case 21 => "    end"
    case 22 => "  end"
    case _ => ""
  }

  /** The snippets of the interactor template: every public method but `perform`, one per line. */
  function InteractorSnippets(methods: seq<Symbol>): string
  {
    Join(Definitions(Filter(methods, IsNotPerform)), "\n")
  }

  /** The text of `generateInteractorSpec`, for the snake-cased class name. */
  function InteractorSpec(className: string, methods: seq<Symbol>): string
  {
    Join(InteractorLines(className, InteractorSnippets(methods)), "\n")
  }

  /** The lines of the plain template of `generateSpecForClass`; `snippets` fills the 6th. */
  function PlainLines(className: string, snippets: string): seq<string>
  {
    [ "require \"spec_helper\"",
      "",
      "describe " + className + " do",
      "  subject{described_class.new}",
      "",
      snippets,
      "end",
      "" ]
  }

  /** The snippets of the plain template: every public method, separated by a blank line. */
  function PlainSnippets(methods: seq<Symbol>): string
  {
    Join(Definitions(methods), "\n\n")
  }

  /** The text of the plain branch of `generateSpecForClass`. */
  function PlainSpec(className: string, methods: seq<Symbol>): string
  {
    Join(PlainLines(className, PlainSnippets(methods)), "\n")
  }

  /** `!context.typeName`: the type name is undefined or empty. */
  predicate HasNoTypeName(context: ClassContext)
  {
    context.typeName.None? || context.typeName.value == ""
  }

  /** `generateInteractorSpec`. */
  function GenerateInteractorSpec(context: ClassContext, snakeCase: string -> string): Option<string>
  {
    if HasNoTypeName(context) then None
    else Some(InteractorSpec(snakeCase(context.typeName.value), context.publicMethods))
  }

  /** `generateSpecForClass`: nothing without a type name, in either branch. */
  function GenerateSpecForClass(context: ClassContext, snakeCase: string -> string): (r: Option<string>)
    ensures r.None? <==> HasNoTypeName(context)
  {
    if context.superType == Some("Interaction") then GenerateInteractorSpec(context, snakeCase)
    else if HasNoTypeName(context) then None
    else Some(PlainSpec(snakeCase(context.typeName.value), context.publicMethods))
  }

  /** Joined lines that agree on the first line and differ in the first character of the second differ. */
  lemma JoinedLinesDiffer(xs: seq<string>, ys: seq<string>)
    requires |xs| >= 2 && |ys| >= 3 && xs[0] == ys[0]
    requires |xs[1]| > 0 && xs[1][0] != '\n' && (|ys[1]| == 0 || ys[1][0] != xs[1][0])
    ensures Join(xs, "\n") != Join(ys, "\n")
  {
    var n := |xs[0]| + 1;
    var x1, y1 := Join(xs[1..], "\n"), Join(ys[1..], "\n");
    assert Join(xs, "\n") == xs[0] + "\n" + x1;
    assert Join(ys, "\n") == ys[0] + "\n" + y1;
    assert x1[0] == xs[1][0] by {
      if |xs| > 2 {
        assert x1 == xs[1] + "\n" + Join(xs[2..], "\n");
      }
    }
    assert y1 == ys[1] + "\n" + Join(ys[2..], "\n");
    assert Join(xs, "\n")[n] == x1[0];
    assert Join(ys, "\n")[n] == y1[0];
  }

  /** Whatever snippets fill them, the two templates differ already on their second line. */
  lemma TemplatesDiffer(a: string, b: string, s: string, t: string)
    ensures Join(InteractorLines(a, s), "\n") != Join(PlainLines(b, t), "\n")
  {
    var xs := InteractorLines(a, s);
    var ys := PlainLines(b, t);
    assert xs[1] == InteractorPreamble(a)[1];
    assert xs[1][0] == 'd' && ys[1] == "";
    JoinedLinesDiffer(xs, ys);
  }

  /**
   * A spec file is generated iff there is a type name; it is the interactor template
   * exactly when the super type is `Interaction`, the plain template otherwise.
   */
  lemma InteractorTemplateIffInteraction(context: ClassContext, snakeCase: string -> string)
    ensures var r := GenerateSpecForClass(context, snakeCase);
      r.Some? ==>
        var className := snakeCase(context.typeName.value);
        && (r.value == InteractorSpec(className, context.publicMethods) <==> context.superType == Some("Interaction"))
        && (r.value == PlainSpec(className, context.publicMethods) <==> context.superType != Some("Interaction"))
  {
    if !HasNoTypeName(context) {
      var className := snakeCase(context.typeName.value);
      TemplatesDiffer(className, className, InteractorSnippets(context.publicMethods), PlainSnippets(context.publicMethods));
    }
  }

  /** A part of the snippets that fill one line of a text is included in the text. */
  lemma SnippetIsIncluded(lines: seq<string>, k: nat, parts: seq<string>, sep: string, j: nat)
    requires k < |lines| && j < |parts| && lines[k] == Join(parts, sep)
    ensures Includes(Join(lines, "\n"), parts[j])
  {
    JoinIncludesEachPart(parts, sep, j);
    JoinIncludesEachPart(lines, "\n", k);
    IncludesIsTransitive(Join(lines, "\n"), lines[k], parts[j]);
  }

  /** A part of the snippets after a 24-line preamble is included in the joined lines. */
  lemma SnippetAfterPreambleIsIncluded(pre: seq<string>, parts: seq<string>, j: nat)
    requires |pre| == 24 && j < |parts|
    ensures Includes(Join(pre + [Join(parts, "\n"), "end", ""], "\n"), parts[j])
  {
    var lines := pre + [Join(parts, "\n"), "end", ""];
    assert lines[24] == Join(parts, "\n");
    SnippetIsIncluded(lines, 24, parts, "\n", j);
  }

  /** The interactor template holds the definition of every public method not named `perform`. */
  lemma InteractorSpecHasMethod(className: string, methods: seq<Symbol>, i: nat)
    requires i < |methods| && IsNotPerform(methods[i])
    ensures Includes(InteractorSpec(className, methods), SpecDefinition(methods[i].name))
  {
    var kept := Filter(methods, IsNotPerform);
    var j :| 0 <= j < |kept| && kept[j] == methods[i];
    SnippetAfterPreambleIsIncluded(InteractorPreamble(className), Definitions(kept), j);
  }

  /** The plain template holds the definition of every public method. */
  lemma PlainSpecHasMethod(className: string, methods: seq<Symbol>, i: nat)
    requires i < |methods|
    ensures Includes(PlainSpec(className, methods), SpecDefinition(methods[i].name))
  {
    var lines := PlainLines(className, PlainSnippets(methods));
    assert lines[5] == Join(Definitions(methods), "\n\n");
    SnippetIsIncluded(lines, 5, Definitions(methods), "\n\n", i);
  }

  /**
   * The generated file holds the definition of every public method (the interactor
   * template: of every one not named `perform`).
   */
  lemma EveryPublicMethodIsSpecified(context: ClassContext, snakeCase: string -> string, i: nat)
    requires i < |context.publicMethods|
    requires context.superType == Some("Interaction") ==> IsNotPerform(context.publicMethods[i])
    ensures var r := GenerateSpecForClass(context, snakeCase);
      r.Some? ==> Includes(r.value, SpecDefinition(context.publicMethods[i].name))
  {
    if !HasNoTypeName(context) {
      var className := snakeCase(context.typeName.value);
      if context.superType == Some("Interaction") {
        InteractorSpecHasMethod(className, context.publicMethods, i);
      } else {
        PlainSpecHasMethod(className, context.publicMethods, i);
      }
    }
  }

  /** Two method lists name the same methods, in the same order. */
  predicate SameNames(ms: seq<Symbol>, ns: seq<Symbol>)
  {
    |ms| == |ns| && forall i :: 0 <= i < |ms| ==> ms[i].name == ns[i].name
  }

  /** Dropping the methods named `perform` keeps the names of both lists the same. */
  lemma {:induction false} FilterNotPerformKeepsNames(ms: seq<Symbol>, ns: seq<Symbol>)
    requires SameNames(ms, ns)
    ensures SameNames(Filter(ms, IsNotPerform), Filter(ns, IsNotPerform))
  {
    if ms != [] {
      var ms', ns' := ms[1..], ns[1..];
      assert SameNames(ms', ns') by {
        forall i | 0 <= i < |ms'|
          ensures ms'[i].name == ns'[i].name
        {
          assert ms'[i] == ms[i + 1] && ns'[i] == ns[i + 1];
        }
      }
      FilterNotPerformKeepsNames(ms', ns');
      var fm, fn := Filter(ms', IsNotPerform), Filter(ns', IsNotPerform);
      var hm := if IsNotPerform(ms[0]) then [ms[0]] else [];
      var hn := if IsNotPerform(ns[0]) then [ns[0]] else [];
      assert Filter(ms, IsNotPerform) == hm + fm;
      assert Filter(ns, IsNotPerform) == hn + fn;
      assert SameNames(hm, hn);
      SameNamesConcat(hm, fm, hn, fn);
    }
  }

  /** Lists with the same names, put side by side, have the same names. */
  lemma SameNamesConcat(a: seq<Symbol>, b: seq<Symbol>, c: seq<Symbol>, d: seq<Symbol>)
    requires SameNames(a, c) && SameNames(b, d)
    ensures SameNames(a + b, c + d)
  {
    forall i | 0 <= i < |a + b|
      ensures (a + b)[i].name == (c + d)[i].name
    {
      if i >= |a| {
        assert (a + b)[i] == b[i - |a|] && (c + d)[i] == d[i - |a|];
      }
    }
  }

  /**
   * Generation is deterministic and reads only the type name, the super type and the
   * names of the public methods, in order.
   */
  lemma GenerationDependsOnlyOnTypesAndMethodNames(c: ClassContext, d: ClassContext, snakeCase: string -> string)
    requires c.typeName == d.typeName && c.superType == d.superType
    requires Names(c.publicMethods) == Names(d.publicMethods)
    ensures GenerateSpecForClass(c, snakeCase) == GenerateSpecForClass(d, snakeCase)
  {
    var ms, ns := c.publicMethods, d.publicMethods;
    assert SameNames(ms, ns) by {
      assert |ms| == |Names(ms)|;
      forall i | 0 <= i < |ms|
        ensures ms[i].name == ns[i].name
      {
        assert Names(ms)[i] == Names(ns)[i];
      }
    }
    FilterNotPerformKeepsNames(ms, ns);
    var fm, fn := Filter(ms, IsNotPerform), Filter(ns, IsNotPerform);
    assert Definitions(ms) == Definitions(ns);
    assert Definitions(fm) == Definitions(fn);
  }
}
