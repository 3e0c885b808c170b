/**
 * The symbol model shared by the parser, the generator and the command handler
 * (src/utils.ts): editor positions and ranges, the two shapes of source symbol the
 * symbol provider returns, RSpec symbols, and the searches over them.
 */
module Symbols {
  import opened Wrappers
  import opened Seqs

  /** A `vscode.Position`: zero-based line and character. */
  datatype Position = Position(line: nat, character: nat)

  /** `a.isBefore(b)`: positions are ordered by line, then by character. */
  predicate IsBefore(a: Position, b: Position)
  {
    a.line < b.line || (a.line == b.line && a.character < b.character)
  }

  /** A `vscode.Range`. */
  datatype Range = Range(start: Position, end: Position)

  /** `range.contains(position)`: both ends are inclusive. */
  predicate Contains(r: Range, p: Position)
  {
    !IsBefore(p, r.start) && !IsBefore(r.end, p)
  }

  /** The `vscode.SymbolKind` values the extension distinguishes. */
  datatype SymbolKind = Module | Class | Method | Function | Other

  /**
   * `Symbol = vscode.SymbolInformation | vscode.DocumentSymbol`. A SymbolInformation
   * carries its range in `location.range` and has no children.
   */
  datatype Symbol =
    | SymbolInformation(name: string, kind: SymbolKind, range: Range)
    | DocumentSymbol(name: string, kind: SymbolKind, range: Range, children: seq<Symbol>)

  datatype SpecSymbolKind = InstanceMethodSpec | ClassMethodSpec

  /** An `RSpecSymbol`: one `describe "#name" do` block of a spec file. */
  datatype SpecSymbol = SpecSymbol(name: string, kind: SpecSymbolKind, range: Range)

  /** The `ClassContext` the class parser builds for one source file. */
  datatype ClassContext = ClassContext(
    symbols: seq<Symbol>,
    methods: seq<Symbol>,
    publicMethods: seq<Symbol>,
    superType: Option<string>,
    typeName: Option<string>,
    fullTypeName: Option<string>,
    expectedTypeName: string)

  /** `getChildren`: a SymbolInformation has none; every child is smaller than its parent. */
  function GetChildren(s: Symbol): (r: seq<Symbol>)
    ensures s.SymbolInformation? ==> r == []
    ensures forall i :: 0 <= i < |r| ==> r[i] < s
  {
    if s.DocumentSymbol? then s.children else []
  }

  /** `getRange`: `location.range` of a SymbolInformation, `range` of a DocumentSymbol. */
  function GetRange(s: Symbol): Range
  {
    s.range
  }

  /** The symbols of a forest in depth-first pre-order: a node, its subtree, then its later siblings. */
  function PreOrder(nodes: seq<Symbol>): seq<Symbol>
    decreases nodes
  {
    if nodes == [] then []
    else
      var n := nodes[0];
      [n] + (if GetChildren(n) == [] then [] else PreOrder(GetChildren(n))) + PreOrder(nodes[1..])
  }

  function HasName(name: string): Symbol -> bool
  {
    (s: Symbol) => s.name == name
  }

  /** `findSymbolByName`: depth-first, a node before its children, the first node named `name`. */
  function FindSymbolByName(nodes: seq<Symbol>, name: string): (r: Option<Symbol>)
    ensures r.Some? ==> r.value.name == name
    decreases nodes
  {
    if nodes == [] then None
    else if nodes[0].name == name then Some(nodes[0])
    else
      var inChildren := if GetChildren(nodes[0]) == [] then None else FindSymbolByName(GetChildren(nodes[0]), name);
      if inChildren.Some? then inChildren else FindSymbolByName(nodes[1..], name)
  }

  /** The tree search is a linear search of the pre-order: the first node named `name`, or none iff no node has that name. */
  lemma {:induction false} FindSymbolByNameIsFirstInPreOrder(nodes: seq<Symbol>, name: string)
    ensures FindSymbolByName(nodes, name) == Find(PreOrder(nodes), HasName(name))
    decreases nodes
  {
    if nodes != [] {
      var n := nodes[0];
      FindInPreOrderStep(nodes, HasName(name));
      if GetChildren(n) != [] {
        FindSymbolByNameIsFirstInPreOrder(GetChildren(n), name);
      }
      FindSymbolByNameIsFirstInPreOrder(nodes[1..], name);
    }
  }

  /** A pre-order search tries the first root, then its subtree, then the other roots. */
  lemma FindInPreOrderStep(nodes: seq<Symbol>, p: Symbol -> bool)
    requires nodes != []
    ensures var n := nodes[0];
      var inside := if GetChildren(n) == [] then None else Find(PreOrder(GetChildren(n)), p);
      Find(PreOrder(nodes), p) ==
        if p(n) then Some(n) else if inside.Some? then inside else Find(PreOrder(nodes[1..]), p)
  {
    var n := nodes[0];
    var pre := if GetChildren(n) == [] then [] else PreOrder(GetChildren(n));
    FindAfterHead(n, pre, PreOrder(nodes[1..]), p);
  }

  /** `findSymbolByPosition`: descend through the first node containing the position until a childless one. */
  function FindSymbolByPosition(nodes: seq<Symbol>, position: Position): (r: Option<Symbol>)
    ensures r.Some? ==> Contains(GetRange(r.value), position) && GetChildren(r.value) == []
    decreases nodes
  {
    if nodes == [] then None
    else if Contains(GetRange(nodes[0]), position) then
      if |GetChildren(nodes[0])| <= 0 then Some(nodes[0])
      else FindSymbolByPosition(GetChildren(nodes[0]), position)
    else FindSymbolByPosition(nodes[1..], position)
  }

  /** `path` descends from a root of `nodes`, each node a child of the previous, all containing `position`. */
  ghost predicate IsContainingDescent(nodes: seq<Symbol>, path: seq<Symbol>, position: Position)
  {
    && path != []
    && path[0] in nodes
    && (forall i :: 0 <= i < |path| - 1 ==> path[i + 1] in GetChildren(path[i]))
    && (forall i :: 0 <= i < |path| ==> Contains(GetRange(path[i]), position))
  }

  /** A symbol found by position is reached from a root through ancestors that all contain the position. */
  lemma {:induction false} FoundThroughContainingAncestors(nodes: seq<Symbol>, position: Position)
    requires FindSymbolByPosition(nodes, position).Some?
    ensures exists path :: IsContainingDescent(nodes, path, position) && Last(path) == FindSymbolByPosition(nodes, position).value
    decreases nodes
  {
    var n := nodes[0];
    if Contains(GetRange(n), position) {
      if |GetChildren(n)| <= 0 {
        assert IsContainingDescent(nodes, [n], position);
      } else {
        FoundThroughContainingAncestors(GetChildren(n), position);
        var path :| IsContainingDescent(GetChildren(n), path, position) && Last(path) == FindSymbolByPosition(nodes, position).value;
        var full := [n] + path;
        assert full[1..] == path;
        assert IsContainingDescent(nodes, full, position);
      }
    } else {
      FoundThroughContainingAncestors(nodes[1..], position);
      var path :| IsContainingDescent(nodes[1..], path, position) && Last(path) == FindSymbolByPosition(nodes, position).value;
      assert IsContainingDescent(nodes, path, position);
    }
  }

  function ContainsPosition(position: Position): Symbol -> bool
  {
    (s: Symbol) => Contains(GetRange(s), position)
  }

  /**
   * The search commits to the first sibling containing the position: later siblings are
   * never tried, and a containing node whose children all miss the position yields none.
   */
  lemma {:induction false} CommitsToFirstContainingSibling(nodes: seq<Symbol>, position: Position)
    ensures FindSymbolByPosition(nodes, position) ==
      var i := FindIndex(nodes, ContainsPosition(position));
      if i < 0 then None
      else if GetChildren(nodes[i]) == [] then Some(nodes[i])
      else FindSymbolByPosition(GetChildren(nodes[i]), position)
  {
    if nodes != [] && !Contains(GetRange(nodes[0]), position) {
      CommitsToFirstContainingSibling(nodes[1..], position);
      var i := FindIndex(nodes[1..], ContainsPosition(position));
      assert FindIndex(nodes, ContainsPosition(position)) == if i < 0 then -1 else i + 1;
      if i >= 0 {
        assert nodes[i + 1] == nodes[1..][i];
      }
    }
  }

  /** The search does not fall back to a containing ancestor when none of its children contains the position. */
  lemma NoFallbackToContainingParent(parent: Symbol, later: Symbol, position: Position)
    requires parent.DocumentSymbol? && parent.children != []
    requires Contains(parent.range, position) && Contains(later.range, position)
    requires forall i :: 0 <= i < |parent.children| ==> !Contains(GetRange(parent.children[i]), position)
    ensures FindSymbolByPosition([parent, later], position) == None
  {
    CommitsToFirstContainingSibling(parent.children, position);
  }

  /** `a` starts strictly after `b` in the comparator `(a, b) => getRange(b).start.compareTo(getRange(a).start)`. */
  predicate StartsAfter(a: SpecSymbol, b: SpecSymbol)
  {
    IsBefore(b.range.start, a.range.start)
  }

  /** Latest start first. */
  ghost predicate SortedByStartDescending(s: seq<SpecSymbol>)
  {
    forall i, j :: 0 <= i < j < |s| ==> !StartsAfter(s[j], s[i])
  }

  function StartsAtOrBeforeLine(line: nat): SpecSymbol -> bool
  {
    (n: SpecSymbol) => n.range.start.line <= line
  }

  /** In a list sorted by start, latest first, the first block starting on or before a line is the latest such block. */
  lemma FirstOfSortedIsLatest(s: seq<SpecSymbol>, line: nat)
    requires SortedByStartDescending(s)
    ensures var r := Find(s, StartsAtOrBeforeLine(line));
      && (r.Some? ==> r.value in s && r.value.range.start.line <= line)
      && (r.Some? ==> forall t :: t in s && t.range.start.line <= line ==> !StartsAfter(t, r.value))
      && (r.None? <==> forall t :: t in s ==> t.range.start.line > line)
  {
    var r := Find(s, StartsAtOrBeforeLine(line));
    if r.Some? {
      var i :| 0 <= i < |s| && s[i] == r.value && StartsAtOrBeforeLine(line)(s[i]) && forall j :: 0 <= j < i ==> !StartsAtOrBeforeLine(line)(s[j]);
      forall t | t in s && t.range.start.line <= line
        ensures !StartsAfter(t, r.value)
      {
        var k :| 0 <= k < |s| && s[k] == t;
        assert !(k < i);
      }
    }
  }

  /** Array.prototype.sort with the comparator above, as a stable insertion sort in place. */
  method SortByStartDescending(a: array<SpecSymbol>)
    modifies a
    ensures SortedByStartDescending(a[..])
    ensures multiset(a[..]) == old(multiset(a[..]))
  {
    var i := 0;
    while i < a.Length
      invariant 0 <= i <= a.Length
      invariant forall p, q :: 0 <= p < q < i ==> !StartsAfter(a[q], a[p])
      invariant multiset(a[..]) == old(multiset(a[..]))
    {
      var j := i;
      while j > 0 && StartsAfter(a[j], a[j - 1])
        invariant 0 <= j <= i
        invariant forall p, q :: 0 <= p < q <= i && p != j && q != j ==> !StartsAfter(a[q], a[p])
        invariant forall q :: j < q <= i ==> StartsAfter(a[j], a[q])
        invariant multiset(a[..]) == old(multiset(a[..]))
      {
        a[j - 1], a[j] := a[j], a[j - 1];
        j := j - 1;
      }
      i := i + 1;
    }
  }

  /**
   * `findSpecSymbolByPosition`: sorts the caller's array in place, latest start first, and
   * returns the first block whose start line is at or before the position's line.
   */
  method FindSpecSymbolByPosition(nodes: array<SpecSymbol>, position: Position) returns (r: Option<SpecSymbol>)
    modifies nodes
    ensures SortedByStartDescending(nodes[..])
    ensures multiset(nodes[..]) == old(multiset(nodes[..]))
    ensures r == Find(nodes[..], StartsAtOrBeforeLine(position.line))
    ensures r.Some? ==> r.value in old(nodes[..]) && r.value.range.start.line <= position.line
    ensures r.Some? ==> forall t :: t in old(nodes[..]) && t.range.start.line <= position.line ==> !StartsAfter(t, r.value)
    ensures r.None? <==> forall t :: t in old(nodes[..]) ==> t.range.start.line > position.line
  {
    SortByStartDescending(nodes);
    r := Find(nodes[..], StartsAtOrBeforeLine(position.line));
    FirstOfSortedIsLatest(nodes[..], position.line);
    assert forall t :: t in old(nodes[..]) <==> t in nodes[..] by {
      forall t ensures t in old(nodes[..]) <==> t in nodes[..] {
        assert t in old(nodes[..]) <==> t in old(multiset(nodes[..]));
        assert t in nodes[..] <==> t in multiset(nodes[..]);
      }
    }
  }

  /**
   * When no two blocks start at the same position, only one block starts on or before a
   * line with none starting later: the result of the search does not depend on how the sort
   * ordered blocks with equal starts.
   */
  lemma LatestStartIsUnique(nodes: seq<SpecSymbol>, line: nat, a: SpecSymbol, b: SpecSymbol)
    requires forall i, j :: 0 <= i < j < |nodes| ==> nodes[i].range.start != nodes[j].range.start
    requires a in nodes && a.range.start.line <= line
    requires b in nodes && b.range.start.line <= line
    requires !StartsAfter(a, b) && !StartsAfter(b, a)
    ensures a == b
  {
    var i :| 0 <= i < |nodes| && nodes[i] == a;
    var j :| 0 <= j < |nodes| && nodes[j] == b;
    assert nodes[i].range.start == nodes[j].range.start;
    assert i == j;
  }

  /** `findSpecBySymbol`: the first spec symbol with exactly the source symbol's name (no `self.` or sigil translation). */
  function FindSpecBySymbol(nodes: seq<SpecSymbol>, symbol: Symbol): (r: Option<SpecSymbol>)
    ensures r.Some? ==> exists i :: 0 <= i < |nodes| && nodes[i] == r.value && nodes[i].name == symbol.name &&
                                    forall j :: 0 <= j < i ==> nodes[j].name != symbol.name
    ensures r.None? <==> forall j :: 0 <= j < |nodes| ==> nodes[j].name != symbol.name
  {
    Find(nodes, (n: SpecSymbol) => n.name == symbol.name)
  }

  /** Names are compared raw: `self.bar` does not find `bar`, and the spec kind is not consulted. */
  lemma FindSpecBySymbolComparesRawNames(r: Range)
    ensures FindSpecBySymbol([SpecSymbol("bar", ClassMethodSpec, r)], SymbolInformation("self.bar", Method, r)) == None
    ensures FindSpecBySymbol([SpecSymbol("baz", ClassMethodSpec, r)], SymbolInformation("baz", Method, r)) == Some(SpecSymbol("baz", ClassMethodSpec, r))
  {
  }
}
