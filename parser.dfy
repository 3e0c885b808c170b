/**
 * The class parser and the spec parser (src/parser.ts). The symbol provider's forest and
 * the document's text are inputs; nothing here calls the editor.
 */
module Parser {
  import opened Wrappers
  import opened Seqs
  import opened Text
  import opened Symbols

  // ---------------------------------------------------------------------------
  // Expected type name of a file

  /** `filePathToTypeName`: the base name between the last `/` and the next `.`, without `_`. */
  function FilePathToTypeName(path: string): (r: string)
    ensures '_' !in r
  {
    var slash := LastIndexOf(path, '/');
    RemoveAll(Slice(path, slash + 1, IndexOf(path, ".", slash)), '_')
  }

  lemma DotOccurrence(s: string, k: int)
    ensures OccursAt(s, ".", k) <==> 0 <= k < |s| && s[k] == '.'
  {
    if 0 <= k < |s| {
      assert s[k..k + 1] == [s[k]];
    }
  }

  /** In `dir + base + "." + ext`, the last `/` is the one that ends `dir`. */
  lemma LastSlashEndsDir(dir: string, base: string, ext: string)
    requires dir == [] || dir[|dir| - 1] == '/'
    requires '/' !in base && '/' !in ext
    ensures LastIndexOf(dir + base + "." + ext, '/') == |dir| - 1
  {
    var path := dir + base + "." + ext;
    var dot := |dir| + |base|;
    forall k | |dir| <= k < |path|
      ensures path[k] != '/'
    {
      if k < dot {
        assert path[k] == base[k - |dir|];
      } else if k > dot {
        assert path[k] == ext[k - dot - 1];
      }
    }
    if dir != [] {
      assert path[|dir| - 1] == '/';
    }
  }

  /** Searching from the end of `dir`, the first `.` is the one after `base`. */
  lemma FirstDotEndsBase(dir: string, base: string, ext: string)
    requires dir == [] || dir[|dir| - 1] == '/'
    requires '.' !in base
    ensures IndexOf(dir + base + "." + ext, ".", |dir| - 1) == |dir| + |base|
  {
    var path := dir + base + "." + ext;
    var dot := |dir| + |base|;
    var from := Clamp(|dir| - 1, |path|);
    DotOccurrence(path, dot);
    forall k | from <= k < dot
      ensures !OccursAt(path, ".", k)
    {
      DotOccurrence(path, k);
      if k >= |dir| {
        assert path[k] == base[k - |dir|];
      } else {
        assert path[k] == dir[k];
      }
    }
  }

  /** For `dir/base.ext` (or `base.ext`), the expected type name is `base` without underscores. */
  lemma {:induction false} TypeNameOfBaseName(dir: string, base: string, ext: string)
    requires dir == [] || dir[|dir| - 1] == '/'
    requires '/' !in base && '.' !in base && '/' !in ext
    ensures FilePathToTypeName(dir + base + "." + ext) == RemoveAll(base, '_')
  {
    LastSlashEndsDir(dir, base, ext);
    FirstDotEndsBase(dir, base, ext);
    BaseSlice(dir, base, ext);
    TypeNameBetween(dir + base + "." + ext, |dir|, |dir| + |base|, base);
  }

  /** The type name is `base` without underscores when `base` lies between the last `/` and the next `.`. */
  lemma TypeNameBetween(path: string, start: int, dot: int, base: string)
    requires LastIndexOf(path, '/') == start - 1
    requires IndexOf(path, ".", start - 1) == dot
    requires Slice(path, start, dot) == base
    ensures FilePathToTypeName(path) == RemoveAll(base, '_')
  {
    assert FilePathToTypeName(path) == RemoveAll(Slice(path, start, dot), '_');
  }

  /**
   * A base name without a `.`: `indexOf` gives -1, and `slice` reads that end as one before
   * the last character, so the last character of the base name is dropped.
   */
  lemma {:induction false} TypeNameWithoutExtension(dir: string, base: string)
    requires dir == [] || dir[|dir| - 1] == '/'
    requires '/' !in base && '.' !in base && base != []
    ensures FilePathToTypeName(dir + base) == RemoveAll(base[..|base| - 1], '_')
  {
    LastSlashEndsDirOf(dir, base);
    NoDotAfterDir(dir, base);
    SliceToLast(dir, base);
    TypeNameBetween(dir + base, |dir|, -1, base[..|base| - 1]);
  }

  /** In `dir + base`, the last `/` is the one that ends `dir`. */
  lemma LastSlashEndsDirOf(dir: string, base: string)
    requires dir == [] || dir[|dir| - 1] == '/'
    requires '/' !in base
    ensures LastIndexOf(dir + base, '/') == |dir| - 1
  {
    var path := dir + base;
    forall k | |dir| <= k < |path|
      ensures path[k] != '/'
    {
      assert path[k] == base[k - |dir|];
    }
    if dir != [] {
      assert path[|dir| - 1] == '/';
    }
  }

  /** Searching `dir + base` from the end of `dir` finds no `.`. */
  lemma NoDotAfterDir(dir: string, base: string)
    requires dir == [] || dir[|dir| - 1] == '/'
    requires '.' !in base
    ensures IndexOf(dir + base, ".", |dir| - 1) == -1
  {
    var path := dir + base;
    forall k | Clamp(|dir| - 1, |path|) <= k
      ensures !OccursAt(path, ".", k)
    {
      DotOccurrence(path, k);
      if |dir| <= k < |path| {
        assert path[k] == base[k - |dir|];
      } else if k < |dir| {
        assert path[k] == '/';
      }
    }
  }

  /** `slice(start, -1)` of `dir + base`, from the end of `dir`, is `base` without its last character. */
  lemma SliceToLast(dir: string, base: string)
    requires base != []
    ensures Slice(dir + base, |dir|, -1) == base[..|base| - 1]
  {
    var path := dir + base;
    if |base| > 1 {
      assert path[|dir|..|path| - 1] == base[..|base| - 1];
    }
  }

  lemma BaseSlice(dir: string, base: string, ext: string)
    ensures Slice(dir + base + "." + ext, |dir|, |dir| + |base|) == base
  {
    var path := dir + base + "." + ext;
    assert path[|dir|..|dir| + |base|] == base;
  }

  // ---------------------------------------------------------------------------
  // Visibility markers

  datatype Access = Public | Protected | Private

  /** A line whose trimmed text is exactly `public`, `protected` or `private` is a marker. */
  function AccessOf(line: string): Option<Access>
  {
    var w := Trim(line);
    if w == "public" then Some(Public)
    else if w == "protected" then Some(Protected)
    else if w == "private" then Some(Private)
    else None
  }

  /** `accesses`: the marker, if any, on each line. */
  function Accesses(lines: seq<string>): (r: seq<Option<Access>>)
    ensures |r| == |lines|
    ensures forall i :: 0 <= i < |lines| ==> r[i] == AccessOf(lines[i])
  {
    seq(|lines|, i requires 0 <= i < |lines| => AccessOf(lines[i]))
  }

  /** `accesses.slice(0, line).reverse().find(v => !!v)`. */
  function NearestAccess(accesses: seq<Option<Access>>, line: nat): Option<Access>
  {
    LastPresent(accesses[..if line < |accesses| then line else |accesses|])
  }

  /** The nearest access is the marker on the last marker line strictly before `line`, or none if there is none. */
  lemma NearestAccessIsLastMarkerBefore(accesses: seq<Option<Access>>, line: nat)
    ensures var n := if line < |accesses| then line else |accesses|;
      var r := NearestAccess(accesses, line);
      && (r.None? <==> forall i :: 0 <= i < n ==> accesses[i].None?)
      && (r.Some? ==> exists i :: 0 <= i < n && accesses[i] == r && forall j :: i < j < n ==> accesses[j].None?)
  {
    var n := if line < |accesses| then line else |accesses|;
    var before := accesses[..n];
    LastPresentIsLast(before);
    assert forall i :: 0 <= i < n ==> before[i] == accesses[i];
    if NearestAccess(accesses, line).Some? {
      var i :| 0 <= i < n && before[i] == LastPresent(before) && NoneAfter(before, i);
      assert forall j :: i < j < n ==> accesses[j].None? by {
        forall j | i < j < n
          ensures accesses[j].None?
        {
          assert before[j].None?;
        }
      }
    }
  }

  /** The `publicMethods` filter: public unless the nearest marker before the start line says otherwise. */
  function IsPublicIn(accesses: seq<Option<Access>>): Symbol -> bool
  {
    (m: Symbol) => NearestAccess(accesses, GetRange(m).start.line).GetOr(Public) == Public
  }

  /** A method is public iff no marker line precedes its start line, or the nearest one is `public`. */
  lemma PublicIffNearestMarkerIsPublic(accesses: seq<Option<Access>>, m: Symbol)
    ensures var line := GetRange(m).start.line;
      IsPublicIn(accesses)(m) <==>
        || (forall i :: 0 <= i < |accesses| && i < line ==> accesses[i].None?)
        || (exists i :: 0 <= i < |accesses| && i < line && accesses[i] == Some(Public) &&
                        forall j :: i < j < |accesses| && j < line ==> accesses[j].None?)
  {
    var line := GetRange(m).start.line;
    var n := if line < |accesses| then line else |accesses|;
    NearestAccessIsLastMarkerBefore(accesses, line);
    var r := NearestAccess(accesses, line);
    if r.Some? {
      var i :| 0 <= i < n && accesses[i] == r && forall j :: i < j < n ==> accesses[j].None?;
      forall i' | 0 <= i' < n && accesses[i'].Some? && (forall j :: i' < j < n ==> accesses[j].None?)
        ensures i' == i
      {
        if i' != i {
          assert false;
        }
      }
    }
  }

  // ---------------------------------------------------------------------------
  // Methods

  predicate IsMethodKind(s: Symbol)
  {
    s.kind == Method || s.kind == Function
  }

  /** The methods of a forest: method and function nodes in pre-order, never looking inside them. */
  function Methods(nodes: seq<Symbol>): seq<Symbol>
    decreases nodes
  {
    if nodes == [] then []
    else
      var n := nodes[0];
      (if IsMethodKind(n) then [n] else if GetChildren(n) == [] then [] else Methods(GetChildren(n)))
      + Methods(nodes[1..])
  }

  lemma {:induction false} MethodsConcat(a: seq<Symbol>, b: seq<Symbol>)
    ensures Methods(a + b) == Methods(a) + Methods(b)
  {
    if a == [] {
      assert a + b == b;
    } else {
      var n := a[0];
      assert (a + b)[0] == n;
      assert (a + b)[1..] == a[1..] + b;
      MethodsConcat(a[1..], b);
      MethodsOfOne(n);
      AppendAssoc(Methods([n]), Methods(a[1..]), Methods(b));
    }
  }

  /** The methods of one node: the node itself, else those below it. */
  lemma MethodsOfOne(c: Symbol)
    ensures Methods([c]) == if IsMethodKind(c) then [c] else if GetChildren(c) == [] then [] else Methods(GetChildren(c))
  {
    assert [c][1..] == [];
  }

  lemma MethodsOfLongerPrefix(nodes: seq<Symbol>, i: nat)
    requires i < |nodes|
    ensures Methods(nodes[..i + 1]) == Methods(nodes[..i]) + Methods([nodes[i]])
  {
    assert nodes[..i + 1] == nodes[..i] + [nodes[i]];
    MethodsConcat(nodes[..i], [nodes[i]]);
  }

  /** The `flatten` reducer: appends the methods of `nodes` to the accumulator `p`. */
  method Flatten(nodes: seq<Symbol>, p: seq<Symbol>) returns (q: seq<Symbol>)
    ensures q == p + Methods(nodes)
    decreases nodes
  {
    q := p;
    var i := 0;
    while i < |nodes|
      invariant 0 <= i <= |nodes|
      invariant q == p + Methods(nodes[..i])
    {
      var c := nodes[i];
      MethodsOfOne(c);
      MethodsOfLongerPrefix(nodes, i);
      AppendAssoc(p, Methods(nodes[..i]), Methods([c]));
      if IsMethodKind(c) {
        q := q + [c];
      } else if GetChildren(c) != [] {
        q := Flatten(GetChildren(c), q);
      }
      i := i + 1;
    }
    assert nodes[..i] == nodes;
  }

  /** `s` is a node of the forest reached without passing through a method or function node. */
  ghost predicate ReachableAvoidingMethods(nodes: seq<Symbol>, s: Symbol)
    decreases nodes
  {
    exists i :: 0 <= i < |nodes| &&
      (nodes[i] == s || (!IsMethodKind(nodes[i]) && GetChildren(nodes[i]) != [] && ReachableAvoidingMethods(GetChildren(nodes[i]), s)))
  }

  /** `methods` holds exactly the method and function nodes reachable without passing through another one. */
  lemma {:induction false} MethodsAreReachableMethods(nodes: seq<Symbol>, s: Symbol)
    ensures s in Methods(nodes) <==> IsMethodKind(s) && ReachableAvoidingMethods(nodes, s)
    decreases nodes
  {
    if nodes != [] {
      var n := nodes[0];
      var head := if IsMethodKind(n) then [n] else if GetChildren(n) == [] then [] else Methods(GetChildren(n));
      assert Methods(nodes) == head + Methods(nodes[1..]);
      MethodsAreReachableMethods(nodes[1..], s);
      if !IsMethodKind(n) && GetChildren(n) != [] {
        MethodsAreReachableMethods(GetChildren(n), s);
      }
      if IsMethodKind(s) && ReachableAvoidingMethods(nodes, s) {
        var i :| 0 <= i < |nodes| &&
          (nodes[i] == s || (!IsMethodKind(nodes[i]) && GetChildren(nodes[i]) != [] && ReachableAvoidingMethods(GetChildren(nodes[i]), s)));
        if i > 0 {
          assert nodes[i] == nodes[1..][i - 1];
          assert ReachableAvoidingMethods(nodes[1..], s);
        }
      }
      if s in Methods(nodes[1..]) {
        var i :| 0 <= i < |nodes[1..]| &&
          (nodes[1..][i] == s || (!IsMethodKind(nodes[1..][i]) && GetChildren(nodes[1..][i]) != [] && ReachableAvoidingMethods(GetChildren(nodes[1..][i]), s)));
        assert nodes[i + 1] == nodes[1..][i];
      }
    }
  }

  /** `methods` keeps the order of a depth-first pre-order walk. */
  lemma {:induction false} MethodsInPreOrder(nodes: seq<Symbol>)
    ensures IsSubsequence(Methods(nodes), PreOrder(nodes))
    decreases nodes
  {
    if nodes != [] {
      var n := nodes[0];
      var below := if GetChildren(n) == [] then [] else PreOrder(GetChildren(n));
      var head := if IsMethodKind(n) then [n] else if GetChildren(n) == [] then [] else Methods(GetChildren(n));
      MethodsInPreOrder(nodes[1..]);
      if IsMethodKind(n) {
        assert ([n] + below)[1..] == below;
        assert IsSubsequence(head, [n] + below);
      } else if GetChildren(n) == [] {
        assert IsSubsequence(head, [n] + below);
      } else {
        MethodsInPreOrder(GetChildren(n));
        SubsequenceExtendLeft(head, below, [n]);
      }
      SubsequenceConcat(head, [n] + below, Methods(nodes[1..]), PreOrder(nodes[1..]));
      assert PreOrder(nodes) == ([n] + below) + PreOrder(nodes[1..]);
    }
  }

  // ---------------------------------------------------------------------------
  // The declared type

  /** A Class node whose last `::` segment, lowercased, is the expected type name. */
  predicate IsExpectedType(s: Symbol, expected: string)
  {
    s.kind == Class && ToLowerAscii(Last(Split(s.name, "::"))) == expected
  }

  function ExpectedType(expected: string): Symbol -> bool
  {
    (s: Symbol) => IsExpectedType(s, expected)
  }

  /** The path, root first, from a root of the forest down to the first expected type in pre-order. */
  function TypePath(nodes: seq<Symbol>, expected: string): seq<Symbol>
    decreases nodes
  {
    if nodes == [] then []
    else if IsExpectedType(nodes[0], expected) then [nodes[0]]
    else
      var below := if GetChildren(nodes[0]) == [] then [] else TypePath(GetChildren(nodes[0]), expected);
      if below != [] then [nodes[0]] + below else TypePath(nodes[1..], expected)
  }

  lemma {:induction false} TypePathConcat(a: seq<Symbol>, b: seq<Symbol>, expected: string)
    ensures TypePath(a + b, expected) == if TypePath(a, expected) != [] then TypePath(a, expected) else TypePath(b, expected)
  {
    if a == [] {
      assert a + b == b;
    } else {
      assert (a + b)[0] == a[0];
      assert (a + b)[1..] == a[1..] + b;
      TypePathConcat(a[1..], b, expected);
    }
  }

  /** The type path of a single node: the node itself, or the node above its children's path. */
  lemma TypePathOfOne(c: Symbol, expected: string)
    ensures TypePath([c], expected) ==
      if IsExpectedType(c, expected) then [c]
      else if TypePath(GetChildren(c), expected) != [] then [c] + TypePath(GetChildren(c), expected)
      else []
  {
    assert [c][1..] == [];
  }

  /**
   * The `findTypePath` reducer: once the accumulator is non-empty it is returned unchanged;
   * otherwise it receives the path to the first expected type, leaf first.
   */
  method FindTypePath(nodes: seq<Symbol>, expected: string, p: seq<Symbol>) returns (q: seq<Symbol>)
    ensures q == if p == [] then Reverse(TypePath(nodes, expected)) else p
    decreases nodes
  {
    q := p;
    var i := 0;
    while i < |nodes|
      invariant 0 <= i <= |nodes|
      invariant q == if p == [] then Reverse(TypePath(nodes[..i], expected)) else p
    {
      var c := nodes[i];
      assert nodes[..i + 1] == nodes[..i] + [c];
      TypePathConcat(nodes[..i], [c], expected);
      TypePathOfOne(c, expected);
      if |q| == 0 {
        if IsExpectedType(c, expected) {
          q := q + [c];
        } else {
          if GetChildren(c) != [] {
            q := FindTypePath(GetChildren(c), expected, q);
          }
          if |q| > 0 {
            ghost var below := TypePath(GetChildren(c), expected);
            assert Reverse([c] + below) == Reverse(below) + [c] by {
              assert ([c] + below)[1..] == below;
            }
            q := q + [c];
          }
        }
      }
      i := i + 1;
    }
    assert nodes[..i] == nodes;
  }

  /**
   * `path` starts at one of `roots`, steps from parent to child, and ends at the only
   * expected type on it.
   */
  predicate IsDescentTo(path: seq<Symbol>, roots: seq<Symbol>, expected: string)
  {
    && path != []
    && path[0] in roots
    && IsExpectedType(Last(path), expected)
    && forall i :: 0 <= i < |path| - 1 ==> path[i + 1] in GetChildren(path[i]) && !IsExpectedType(path[i], expected)
  }

  /** A descent from the children of `n`, led by `n`, is a descent from any forest holding `n`. */
  lemma DescentThroughParent(n: Symbol, below: seq<Symbol>, roots: seq<Symbol>, expected: string)
    requires n in roots && !IsExpectedType(n, expected)
    requires IsDescentTo(below, GetChildren(n), expected)
    ensures IsDescentTo([n] + below, roots, expected)
  {
    var path := [n] + below;
    assert forall i :: 1 <= i < |path| ==> path[i] == below[i - 1];
    assert Last(path) == Last(below);
  }

  /** A non-empty type path is a descent from a root of the forest to an expected type. */
  lemma {:induction false} TypePathIsADescent(nodes: seq<Symbol>, expected: string)
    ensures TypePath(nodes, expected) != [] ==> IsDescentTo(TypePath(nodes, expected), nodes, expected)
    decreases nodes
  {
    if nodes != [] {
      var n := nodes[0];
      if IsExpectedType(n, expected) {
        assert TypePath(nodes, expected) == [n];
      } else {
        var below := if GetChildren(n) == [] then [] else TypePath(GetChildren(n), expected);
        if below != [] {
          TypePathIsADescent(GetChildren(n), expected);
          DescentThroughParent(n, below, nodes, expected);
        } else {
          TypePathIsADescent(nodes[1..], expected);
          var path := TypePath(nodes[1..], expected);
          if path != [] {
            assert path[0] in nodes;
          }
        }
      }
    }
  }

  /** The type path ends at the first expected type in pre-order, and is empty iff there is none. */
  lemma {:induction false} TypePathEndsAtFirstExpectedType(nodes: seq<Symbol>, expected: string)
    ensures var path := TypePath(nodes, expected);
      var first := Find(PreOrder(nodes), ExpectedType(expected));
      && (path == [] <==> first.None?)
      && (path != [] ==> first == Some(Last(path)))
    decreases nodes
  {
    if nodes != [] {
      var n := nodes[0];
      FindInPreOrderStep(nodes, ExpectedType(expected));
      if !IsExpectedType(n, expected) {
        var below := if GetChildren(n) == [] then [] else TypePath(GetChildren(n), expected);
        if GetChildren(n) != [] {
          TypePathEndsAtFirstExpectedType(GetChildren(n), expected);
        }
        if below != [] {
          assert Last([n] + below) == Last(below);
        } else {
          TypePathEndsAtFirstExpectedType(nodes[1..], expected);
        }
      }
    }
  }

  function Names(path: seq<Symbol>): (r: seq<string>)
    ensures |r| == |path| && forall i :: 0 <= i < |path| ==> r[i] == path[i].name
  {
    seq(|path|, i requires 0 <= i < |path| => path[i].name)
  }

  // ---------------------------------------------------------------------------
  // parseClassFile

  /**
   * The `superType` chain on the trimmed declaration line: the trimmed text after the first
   * `<`; failing that `module` or `class` after the keyword that opens the line; else none.
   */
  function DeclaredSuperType(decl: string): (r: Option<string>)
    ensures r.Some? ==> r.value == "module" || r.value == "class" || '<' in decl
  {
    CharIndexOf(decl, '<');
    if Includes(decl, "<") then Some(Trim(Substring(decl, IndexOf(decl, "<", 0) + 1)))
    else if StartsWith(decl, "module ") then Some("module")
    else if StartsWith(decl, "class ") then Some("class")
    else None
  }

  /** Each branch of the chain, stated on the declaration line's characters. */
  lemma DeclaredSuperTypeCases(decl: string)
    ensures '<' in decl ==>
      exists k :: 0 <= k < |decl| && decl[k] == '<' && '<' !in decl[..k] && DeclaredSuperType(decl) == Some(Trim(decl[k + 1..]))
    ensures '<' !in decl && StartsWith(decl, "module ") ==> DeclaredSuperType(decl) == Some("module")
    ensures '<' !in decl && !StartsWith(decl, "module ") && StartsWith(decl, "class ") ==> DeclaredSuperType(decl) == Some("class")
    ensures '<' !in decl && !StartsWith(decl, "module ") && !StartsWith(decl, "class ") ==> DeclaredSuperType(decl).None?
  {
    CharIndexOf(decl, '<');
    if '<' in decl {
      var k := IndexOf(decl, "<", 0);
      assert Substring(decl, k + 1) == decl[k + 1..];
      assert DeclaredSuperType(decl) == Some(Trim(decl[k + 1..]));
    }
  }

  /** `lines[typeDefinitionLine].trim()` throws when the declaration line is not in the document. */
  datatype ClassFileError = DeclarationLineMissing(line: nat)

  /**
   * `parseClassFile`, given the document's lines (`getText().split("\n")`), the symbol
   * provider's forest and the file path.
   */
  method ParseClassFile(lines: seq<string>, symbols: seq<Symbol>, path: string) returns (r: Result<ClassContext, ClassFileError>)
    ensures var typePath := TypePath(symbols, FilePathToTypeName(path));
      && (r.Failure? <==> typePath != [] && GetRange(Last(typePath)).start.line >= |lines|)
      && (r.Success? ==>
          && r.value.symbols == symbols
          && r.value.methods == Methods(symbols)
          && r.value.publicMethods == Filter(Methods(symbols), IsPublicIn(Accesses(lines)))
          && r.value.expectedTypeName == FilePathToTypeName(path))
      && (r.Success? && typePath == [] ==>
          r.value.typeName.None? && r.value.fullTypeName.None? && r.value.superType.None?)
      && (r.Success? && typePath != [] ==>
          && r.value.typeName == Some(Last(typePath).name)
          && r.value.fullTypeName == Some(Join(Names(typePath), "::"))
          && r.value.superType == DeclaredSuperType(Trim(lines[GetRange(Last(typePath)).start.line])))
  {
    var accesses := Accesses(lines);
    var methods := Flatten(symbols, []);
    assert methods == Methods(symbols);
    var publicMethods := Filter(methods, IsPublicIn(accesses));
    var expectedTypeName := FilePathToTypeName(path);
    var leafFirst := FindTypePath(symbols, expectedTypeName, []);
    var typePath := Reverse(leafFirst);
    ReverseReverse(TypePath(symbols, expectedTypeName));
    assert typePath == TypePath(symbols, expectedTypeName);

    var superType: Option<string> := None;
    var typeName: Option<string> := None;
    var fullTypeName: Option<string> := None;
    if |typePath| > 0 {
      typeName := Some(typePath[|typePath| - 1].name);
      fullTypeName := Some(Join(Names(typePath), "::"));
      var typeDefinitionLine := GetRange(typePath[|typePath| - 1]).start.line;
      if typeDefinitionLine >= |lines| {
        return Failure(DeclarationLineMissing(typeDefinitionLine));
      }
      var typeDefinition := Trim(lines[typeDefinitionLine]);
      superType := DeclaredSuperType(typeDefinition);
    }
    return Success(ClassContext(symbols, methods, publicMethods, superType, typeName, fullTypeName, expectedTypeName));
  }

  // ---------------------------------------------------------------------------
  // parseSpecFile: the pattern  (\s*)describe\s+"([#.])(\w+[\?\!]?)"\s+do(\s*)

  /** Every character of `s` from `i` up to `j` is white space. */
  predicate SpacesBetween(s: string, i: nat, j: nat)
  {
    forall k :: i <= k < j && k < |s| ==> IsSpace(s[k])
  }

  /** The length of the run of white space in `s` that starts at `k`. */
  function SpaceRun(s: string, k: nat): (n: nat)
    requires k <= |s|
    ensures k + n <= |s|
    decreases |s| - k
  {
    if k < |s| && IsSpace(s[k]) then 1 + SpaceRun(s, k + 1) else 0
  }

  /** `SpaceRun` measures a run of white space that stops at a non-space or at the end. */
  lemma {:induction false} SpaceRunIsMaximal(s: string, k: nat)
    requires k <= |s|
    ensures var n := SpaceRun(s, k);
      SpacesBetween(s, k, k + n) && (k + n == |s| || !IsSpace(s[k + n]))
    decreases |s| - k
  {
    if k < |s| && IsSpace(s[k]) {
      SpaceRunIsMaximal(s, k + 1);
    }
  }

  /** The length of the run of `\w` characters in `s` that starts at `k`. */
  function WordRun(s: string, k: nat): (n: nat)
    requires k <= |s|
    ensures k + n <= |s|
    decreases |s| - k
  {
    if k < |s| && IsWordChar(s[k]) then 1 + WordRun(s, k + 1) else 0
  }

  /** `WordRun` measures a run of `\w` characters that stops at another character or at the end. */
  lemma {:induction false} WordRunIsMaximal(s: string, k: nat)
    requires k <= |s|
    ensures var n := WordRun(s, k);
      (forall i :: k <= i < k + n ==> IsWordChar(s[i])) && (k + n == |s| || !IsWordChar(s[k + n]))
    decreases |s| - k
  {
    if k < |s| && IsWordChar(s[k]) {
      WordRunIsMaximal(s, k + 1);
    }
  }

  /**
   * One match of the describe pattern, as the positions of its parts in the line: `(\s*)` from
   * `index`, `describe` at `describeAt`, the opening `"` at `openQuote` and the sigil after it,
   * the identifier up to the closing `"` at `closeQuote`, `do` at `doAt`, and `(\s*)` up to `end`.
   */
  datatype DescribeMatch = DescribeMatch(index: nat, describeAt: nat, openQuote: nat, closeQuote: nat, doAt: nat, end: nat)

  /** `\w+[\?\!]?` */
  predicate IsSpecIdentifier(name: string)
  {
    var k := if |name| > 0 && (name[|name| - 1] == '?' || name[|name| - 1] == '!') then |name| - 1 else |name|;
    k >= 1 && forall i :: 0 <= i < k ==> IsWordChar(name[i])
  }

  /** `(\s*)describe` from `p`, with `describe` at `a`. */
  predicate DescribeAt(line: string, p: nat, a: nat)
  {
    OccursAt(line, "describe", a) && p <= a && SpacesBetween(line, p, a)
  }

  /** `\s+"([#.])` from `a + 8`, with the opening quote at `c`. */
  predicate SigilAt(line: string, a: nat, c: nat)
  {
    a + 8 < c && c + 1 < |line| && SpacesBetween(line, a + 8, c) && line[c] == '"' && (line[c + 1] == '#' || line[c + 1] == '.')
  }

  /** `(\w+[\?\!]?)"` from `c + 2`, with the closing quote at `f`. */
  predicate NameAt(line: string, c: nat, f: nat)
  {
    && c + 2 < f < |line| && line[f] == '"'
    && var k := if line[f - 1] == '?' || line[f - 1] == '!' then f - 1 else f;
      c + 2 < k && forall i :: c + 2 <= i < k ==> IsWordChar(line[i])
  }

  /** `\s+do(\s*)` from `f + 1`, with `do` at `h` and the greedy trailing run ending at `u`. */
  predicate DoAt(line: string, f: nat, h: nat, u: nat)
  {
    && f + 1 < h && OccursAt(line, "do", h) && SpacesBetween(line, f + 1, h)
    && h + 2 <= u <= |line| && SpacesBetween(line, h + 2, u) && (u == |line| || !IsSpace(line[u]))
  }

  /**
   * `line` holds the match `m`: its parts lie one after the other from `m.index` on, and the
   * greedy trailing `\s*` stops only at a non-space or at the end of the line.
   */
  predicate IsDescribeMatch(line: string, m: DescribeMatch)
  {
    && DescribeAt(line, m.index, m.describeAt)
    && SigilAt(line, m.describeAt, m.openQuote)
    && NameAt(line, m.openQuote, m.closeQuote)
    && DoAt(line, m.closeQuote, m.doAt, m.end)
  }

  /** `m[1]`, the white space before `describe`. */
  function Lead(line: string, m: DescribeMatch): string
    requires IsDescribeMatch(line, m)
  {
    line[m.index..m.describeAt]
  }

  /** `m[2]`, the sigil. */
  function Sigil(line: string, m: DescribeMatch): (r: char)
    requires IsDescribeMatch(line, m)
    ensures r == '#' || r == '.'
  {
    line[m.openQuote + 1]
  }

  /** `m[3]`, the identifier. */
  function Identifier(line: string, m: DescribeMatch): string
    requires IsDescribeMatch(line, m)
  {
    line[m.openQuote + 2..m.closeQuote]
  }

  /** `m[4]`, the white space after `do`: one UTF-16 code unit per character. */
  function Trail(line: string, m: DescribeMatch): (r: string)
    requires IsDescribeMatch(line, m)
    ensures Utf16Length(r) == |r| <= |line|
  {
    var r := line[m.doAt + 2..m.end];
    assert AllSpace(r) by {
      assert forall i :: 0 <= i < |r| ==> r[i] == line[m.doAt + 2 + i];
    }
    SpaceIsOneUnitEach(r);
    r
  }

  /**
   * The regular-expression engine's attempt at index `p`. Every quantifier in the pattern is
   * forced by the character after it, except the last `\s*`, which is greedy.
   */
  function MatchAt(line: string, p: nat): Option<DescribeMatch>
    requires p <= |line|
  {
    var a := p + SpaceRun(line, p);
    if OccursAt(line, "describe", a) then MatchFromGap1(line, p, a) else None
  }

  /** `\s+"([#.])` after the `describe` at `a`. */
  function MatchFromGap1(line: string, p: nat, a: nat): Option<DescribeMatch>
    requires a + 8 <= |line|
  {
    var c := a + 8 + SpaceRun(line, a + 8);
    if c == a + 8 || c + 1 >= |line| || line[c] != '"' || !(line[c + 1] == '#' || line[c + 1] == '.') then None
    else MatchFromName(line, p, a, c)
  }

  /** `(\w+[\?\!]?)"` after the sigil at `c + 1`. */
  function MatchFromName(line: string, p: nat, a: nat, c: nat): Option<DescribeMatch>
    requires c + 1 < |line|
  {
    var e := c + 2 + WordRun(line, c + 2);
    if e == c + 2 then None else MatchFromMark(line, p, a, c, e)
  }

  /** `[\?\!]?"` after the last `\w` character, at `e`. */
  function MatchFromMark(line: string, p: nat, a: nat, c: nat, e: nat): Option<DescribeMatch>
    requires e <= |line|
  {
    var f := if e < |line| && (line[e] == '?' || line[e] == '!') then e + 1 else e;
    if f < |line| && line[f] == '"' then MatchFromDo(line, p, a, c, f) else None
  }

  /** `\s+do(\s*)` after the closing quote at `f`. */
  function MatchFromDo(line: string, p: nat, a: nat, c: nat, f: nat): Option<DescribeMatch>
    requires f < |line|
  {
    var h := f + 1 + SpaceRun(line, f + 1);
    if h == f + 1 || !OccursAt(line, "do", h) then None
    else Some(DescribeMatch(p, a, c, f, h, h + 2 + SpaceRun(line, h + 2)))
  }

  /** The identifier a match captures has the shape `\w+[\?\!]?`. */
  lemma IdentifierIsSpecIdentifier(line: string, m: DescribeMatch)
    requires IsDescribeMatch(line, m)
    ensures IsSpecIdentifier(Identifier(line, m))
  {
    var d, f := m.openQuote + 2, m.closeQuote;
    var name := Identifier(line, m);
    assert name[|name| - 1] == line[f - 1];
    assert forall i :: 0 <= i < |name| ==> name[i] == line[d + i];
  }

  /** What the attempt at `p` returns is a match at `p`. */
  lemma MatchAtIsDescribeMatch(line: string, p: nat)
    requires p <= |line|
    ensures var r := MatchAt(line, p);
      r.Some? ==> r.value.index == p && IsDescribeMatch(line, r.value)
  {
    var a := p + SpaceRun(line, p);
    SpaceRunIsMaximal(line, p);
    if OccursAt(line, "describe", a) {
      assert DescribeAt(line, p, a);
      assert MatchAt(line, p) == MatchFromGap1(line, p, a);
      SoundFromGap1(line, p, a);
    }
  }

  lemma SoundFromGap1(line: string, p: nat, a: nat)
    requires a + 8 <= |line|
    ensures var r := MatchFromGap1(line, p, a);
      r.Some? ==>
        && r.value.index == p && r.value.describeAt == a && SigilAt(line, a, r.value.openQuote)
        && NameAt(line, r.value.openQuote, r.value.closeQuote) && DoAt(line, r.value.closeQuote, r.value.doAt, r.value.end)
  {
    var c := a + 8 + SpaceRun(line, a + 8);
    SpaceRunIsMaximal(line, a + 8);
    if !(c == a + 8 || c + 1 >= |line| || line[c] != '"' || !(line[c + 1] == '#' || line[c + 1] == '.')) {
      assert SigilAt(line, a, c);
      assert MatchFromGap1(line, p, a) == MatchFromName(line, p, a, c);
      SoundFromName(line, p, a, c);
    }
  }

  lemma SoundFromName(line: string, p: nat, a: nat, c: nat)
    requires c + 1 < |line|
    ensures var r := MatchFromName(line, p, a, c);
      r.Some? ==>
        && r.value.index == p && r.value.describeAt == a && r.value.openQuote == c
        && NameAt(line, c, r.value.closeQuote) && DoAt(line, r.value.closeQuote, r.value.doAt, r.value.end)
  {
    var e := c + 2 + WordRun(line, c + 2);
    if e != c + 2 {
      WordRunIsMaximal(line, c + 2);
      assert MatchFromName(line, p, a, c) == MatchFromMark(line, p, a, c, e);
      SoundFromMark(line, p, a, c, e);
    }
  }

  lemma SoundFromMark(line: string, p: nat, a: nat, c: nat, e: nat)
    requires c + 2 < e <= |line|
    requires forall i :: c + 2 <= i < e ==> IsWordChar(line[i])
    ensures var r := MatchFromMark(line, p, a, c, e);
      r.Some? ==>
        && r.value.index == p && r.value.describeAt == a && r.value.openQuote == c
        && NameAt(line, c, r.value.closeQuote) && DoAt(line, r.value.closeQuote, r.value.doAt, r.value.end)
  {
    var f := if e < |line| && (line[e] == '?' || line[e] == '!') then e + 1 else e;
    if f < |line| && line[f] == '"' {
      assert NameAt(line, c, f) by {
        if f == e {
          assert !(line[f - 1] == '?' || line[f - 1] == '!') by {
            assert IsWordChar(line[e - 1]);
          }
        }
      }
      assert MatchFromMark(line, p, a, c, e) == MatchFromDo(line, p, a, c, f);
      SoundFromDo(line, p, a, c, f);
    }
  }

  lemma SoundFromDo(line: string, p: nat, a: nat, c: nat, f: nat)
    requires f < |line|
    ensures var r := MatchFromDo(line, p, a, c, f);
      r.Some? ==>
        && r.value.index == p && r.value.describeAt == a && r.value.openQuote == c && r.value.closeQuote == f
        && DoAt(line, f, r.value.doAt, r.value.end)
  {
    var h := f + 1 + SpaceRun(line, f + 1);
    if h != f + 1 && OccursAt(line, "do", h) {
      var u := h + 2 + SpaceRun(line, h + 2);
      SpaceRunIsMaximal(line, f + 1);
      SpaceRunIsMaximal(line, h + 2);
      assert DoAt(line, f, h, u);
      assert MatchFromDo(line, p, a, c, f) == Some(DescribeMatch(p, a, c, f, h, u));
    }
  }

  /** A maximal run of white space has the length `SpaceRun` finds. */
  lemma SpaceRunIs(s: string, k: nat, n: nat)
    requires k + n <= |s| && SpacesBetween(s, k, k + n) && (k + n == |s| || !IsSpace(s[k + n]))
    ensures SpaceRun(s, k) == n
  {
    SpaceRunIsMaximal(s, k);
  }

  /** A maximal run of `\w` characters has the length `WordRun` finds. */
  lemma WordRunIs(s: string, k: nat, n: nat)
    requires k + n <= |s| && (forall i :: k <= i < k + n ==> IsWordChar(s[i])) && (k + n == |s| || !IsWordChar(s[k + n]))
    ensures WordRun(s, k) == n
  {
    WordRunIsMaximal(s, k);
  }

  /** Every match is what the attempt at its index returns. */
  lemma DescribeMatchIsFound(line: string, m: DescribeMatch)
    requires IsDescribeMatch(line, m)
    ensures m.index <= |line| && MatchAt(line, m.index) == Some(m)
  {
    FoundFromDo(line, m);
    FoundFromMark(line, m);
    var c, f := m.openQuote, m.closeQuote;
    var k := if line[f - 1] == '?' || line[f - 1] == '!' then f - 1 else f;
    NameWordRun(line, c, f);
    FoundFromName(line, m.index, m.describeAt, c, k);
    FoundFromGap1(line, m);
    FoundFromStart(line, m);
  }

  lemma FoundFromStart(line: string, m: DescribeMatch)
    requires DescribeAt(line, m.index, m.describeAt)
    requires MatchFromGap1(line, m.index, m.describeAt) == Some(m)
    ensures m.index <= |line| && MatchAt(line, m.index) == Some(m)
  {
    var a := m.describeAt;
    assert line[a] == line[a..a + 8][0];
    SpaceRunIs(line, m.index, a - m.index);
  }

  lemma FoundFromGap1(line: string, m: DescribeMatch)
    requires SigilAt(line, m.describeAt, m.openQuote)
    requires MatchFromName(line, m.index, m.describeAt, m.openQuote) == Some(m)
    ensures MatchFromGap1(line, m.index, m.describeAt) == Some(m)
  {
    var a, c := m.describeAt, m.openQuote;
    SpaceRunIs(line, a + 8, c - (a + 8));
  }

  lemma FoundFromName(line: string, p: nat, a: nat, c: nat, k: nat)
    requires c + 1 < |line| && c + 2 < k && c + 2 + WordRun(line, c + 2) == k
    ensures MatchFromName(line, p, a, c) == MatchFromMark(line, p, a, c, k)
  {
  }

  /** The `\w` run of a name ends where the name's `[\?\!]?"` begins. */
  lemma NameWordRun(line: string, c: nat, f: nat)
    requires NameAt(line, c, f)
    ensures var k := if line[f - 1] == '?' || line[f - 1] == '!' then f - 1 else f;
      c + 2 + WordRun(line, c + 2) == k
  {
    var k := if line[f - 1] == '?' || line[f - 1] == '!' then f - 1 else f;
    assert line[k] == '?' || line[k] == '!' || line[k] == '"';
    WordRunIs(line, c + 2, k - (c + 2));
  }

  lemma FoundFromMark(line: string, m: DescribeMatch)
    requires m.openQuote + 1 < |line| && NameAt(line, m.openQuote, m.closeQuote)
    ensures var c, f := m.openQuote, m.closeQuote;
      var k := if line[f - 1] == '?' || line[f - 1] == '!' then f - 1 else f;
      MatchFromMark(line, m.index, m.describeAt, c, k) == MatchFromDo(line, m.index, m.describeAt, c, f)
  {
  }

  lemma FoundFromDo(line: string, m: DescribeMatch)
    requires m.closeQuote < |line| && DoAt(line, m.closeQuote, m.doAt, m.end)
    ensures MatchFromDo(line, m.index, m.describeAt, m.openQuote, m.closeQuote) == Some(m)
  {
    var f, h, u := m.closeQuote, m.doAt, m.end;
    assert line[h] == line[h..h + 2][0];
    SpaceRunIs(line, f + 1, h - (f + 1));
    assert f + 1 + SpaceRun(line, f + 1) == h;
    SpaceRunIs(line, h + 2, u - (h + 2));
  }

  /** At most one match starts at any index. */
  lemma OneMatchPerIndex(line: string, m1: DescribeMatch, m2: DescribeMatch)
    requires IsDescribeMatch(line, m1) && IsDescribeMatch(line, m2) && m1.index == m2.index
    ensures m1 == m2
  {
    DescribeMatchIsFound(line, m1);
    DescribeMatchIsFound(line, m2);
  }

  /** When the attempt at `p` fails, no match starts at `p`. */
  lemma NoMatchWhereAttemptFails(line: string, p: nat)
    requires p <= |line| && MatchAt(line, p).None?
    ensures forall m :: IsDescribeMatch(line, m) ==> m.index != p
  {
    forall m | IsDescribeMatch(line, m)
      ensures m.index != p
    {
      DescribeMatchIsFound(line, m);
    }
  }

  /** The engine tries `p`, `p + 1`, ... in turn and returns the first attempt that succeeds. */
  function SearchFrom(line: string, p: nat): (r: Option<DescribeMatch>)
    requires p <= |line|
    ensures r.Some? ==> p <= r.value.index && IsDescribeMatch(line, r.value)
    ensures forall m :: IsDescribeMatch(line, m) && p <= m.index ==> r.Some? && r.value.index <= m.index
    decreases |line| - p
  {
    MatchAtIsDescribeMatch(line, p);
    var r := MatchAt(line, p);
    if r.Some? then r
    else
      NoMatchWhereAttemptFails(line, p);
      if p == |line| then None else SearchFrom(line, p + 1)
  }

  /**
   * `line.match(pattern)`: the match that starts leftmost, if there is any. With
   * `OneMatchPerIndex`, it is the only match at its index.
   */
  function MatchDescribe(line: string): (r: Option<DescribeMatch>)
    ensures r.Some? ==> IsDescribeMatch(line, r.value)
    ensures r.Some? ==> forall m :: IsDescribeMatch(line, m) ==> r.value.index <= m.index
    ensures r.None? <==> forall m :: !IsDescribeMatch(line, m)
  {
    SearchFrom(line, 0)
  }

  /**
   * The `map` callback: the symbol for line `lineNo`, when the pattern matches it. Its columns
   * count UTF-16 code units, as `length` does in JavaScript.
   */
  function LineSymbol(line: string, lineNo: nat): (r: Option<SpecSymbol>)
    ensures r.Some? <==> MatchDescribe(line).Some?
    ensures r.Some? ==> r.value.range.start.line == lineNo == r.value.range.end.line
    ensures r.Some? ==>
      var m := MatchDescribe(line).value;
      && r.value.name == Identifier(line, m) && IsSpecIdentifier(r.value.name)
      && (r.value.kind == ClassMethodSpec <==> Sigil(line, m) == '.')
      && r.value.range == Range(Position(lineNo, Utf16Length(Lead(line, m))), Position(lineNo, Utf16Length(line) - Utf16Length(Trail(line, m))))
  {
    var found := MatchDescribe(line);
    if found.None? then None
    else
      var m := found.value;
      IdentifierIsSpecIdentifier(line, m);
      var kind := if Sigil(line, m) == '.' then ClassMethodSpec else InstanceMethodSpec;
      Some(SpecSymbol(Identifier(line, m), kind, Range(Position(lineNo, Utf16Length(Lead(line, m))), Position(lineNo, Utf16Length(line) - Utf16Length(Trail(line, m))))))
  }

  /** `filter(s => !!s)`: the present symbols, in order. */
  function Present(opts: seq<Option<SpecSymbol>>): seq<SpecSymbol>
  {
    if opts == [] then []
    else
      var n := |opts| - 1;
      if opts[n].None? then Present(opts[..n]) else Present(opts[..n]) + [opts[n].value]
  }

  /** Every kept symbol is present in the input, and every present one is kept. */
  lemma {:induction false} PresentKeepsExactlyThePresent(opts: seq<Option<SpecSymbol>>)
    ensures forall s :: s in Present(opts) <==> Some(s) in opts
  {
    if opts != [] {
      var n := |opts| - 1;
      PresentKeepsExactlyThePresent(opts[..n]);
      assert opts == opts[..n] + [opts[n]];
    }
  }

  /** The symbols start on strictly increasing lines, all below `bound`. */
  predicate InLineOrderBelow(r: seq<SpecSymbol>, bound: nat)
  {
    && (forall k :: 0 <= k < |r| ==> r[k].range.start.line < bound)
    && (forall k, j :: 0 <= k < j < |r| ==> r[k].range.start.line < r[j].range.start.line)
  }

  /**
   * When each present symbol starts on its own index's line, the kept symbols start
   * on strictly increasing lines below `|opts|`.
   */
  lemma {:induction false} PresentInLineOrder(opts: seq<Option<SpecSymbol>>)
    requires forall i :: 0 <= i < |opts| && opts[i].Some? ==> opts[i].value.range.start.line == i
    ensures InLineOrderBelow(Present(opts), |opts|)
  {
    if opts != [] {
      var n := |opts| - 1;
      assert forall i :: 0 <= i < n ==> opts[..n][i] == opts[i];
      PresentInLineOrder(opts[..n]);
      var before := Present(opts[..n]);
      assert InLineOrderBelow(before, n);
      if opts[n].Some? {
        var r := before + [opts[n].value];
        assert Present(opts) == r;
        assert forall k :: 0 <= k < |before| ==> r[k] == before[k];
        assert r[|before|].range.start.line == n;
      } else {
        assert Present(opts) == before;
      }
    }
  }

  /** `text.split("\n").map(...)`: the symbol each line produces, or none. */
  function LineSymbols(lines: seq<string>): (r: seq<Option<SpecSymbol>>)
    ensures |r| == |lines|
    ensures forall i :: 0 <= i < |lines| ==> r[i] == LineSymbol(lines[i], i)
  {
    seq(|lines|, i requires 0 <= i < |lines| => LineSymbol(lines[i], i))
  }

  /** `s` is the symbol that the line it starts on produces. */
  predicate IsSymbolOfLine(lines: seq<string>, s: SpecSymbol)
  {
    var i := s.range.start.line;
    i < |lines| && LineSymbol(lines[i], i) == Some(s)
  }

  lemma ParsedSymbolsComeFromTheirLines(lines: seq<string>)
    ensures forall s :: s in Present(LineSymbols(lines)) ==> IsSymbolOfLine(lines, s)
  {
    var opts := LineSymbols(lines);
    PresentKeepsExactlyThePresent(opts);
    forall s | s in Present(opts)
      ensures IsSymbolOfLine(lines, s)
    {
      var i :| 0 <= i < |opts| && opts[i] == Some(s);
    }
  }

  lemma ParsedSymbolsInLineOrder(lines: seq<string>)
    ensures InLineOrderBelow(Present(LineSymbols(lines)), |lines|)
  {
    var opts := LineSymbols(lines);
    forall i | 0 <= i < |opts| && opts[i].Some?
      ensures opts[i].value.range.start.line == i
    {
      assert opts[i] == LineSymbol(lines[i], i);
    }
    PresentInLineOrder(opts);
  }

  lemma MatchingLinesAreParsed(lines: seq<string>)
    ensures forall i :: 0 <= i < |lines| && MatchDescribe(lines[i]).Some? ==>
      LineSymbol(lines[i], i).value in Present(LineSymbols(lines))
  {
    var opts := LineSymbols(lines);
    PresentKeepsExactlyThePresent(opts);
    forall i | 0 <= i < |lines| && MatchDescribe(lines[i]).Some?
      ensures LineSymbol(lines[i], i).value in Present(opts)
    {
      assert opts[i] == Some(LineSymbol(lines[i], i).value);
    }
  }

  /**
   * `parseSpecFile`: one symbol per line the pattern matches, each the one its own line
   * produces, in line order.
   */
  function ParseSpecFile(text: string): (r: seq<SpecSymbol>)
    ensures var lines := Split(text, "\n");
      && (forall s :: s in r ==> IsSymbolOfLine(lines, s))
      && InLineOrderBelow(r, |lines|)
      && (forall i :: 0 <= i < |lines| && MatchDescribe(lines[i]).Some? ==> LineSymbol(lines[i], i).value in r)
  {
    var lines := Split(text, "\n");
    ParsedSymbolsComeFromTheirLines(lines);
    ParsedSymbolsInLineOrder(lines);
    MatchingLinesAreParsed(lines);
    Present(LineSymbols(lines))
  }
}
