# rails-go-to-spec, modelled in Dafny

This project models the core of the rails-go-to-spec VS Code extension. The extension
pairs the methods of a Ruby class with the RSpec `describe "#name" do` blocks of its spec
file. It jumps between the two and writes spec scaffolding for a class. The model covers
four parts of the extension:

- **Symbol searches** (`src/utils.ts`, module `Symbols`):
  - the symbol forest the editor's symbol provider reports;
  - the search by name and the search by position;
  - the search for the spec block nearest before the cursor, which sorts the caller's array in place;
  - the lookup of a spec block by its method's name.
- **Class and spec parsers** (`src/parser.ts`, module `Parser`):
  - the type name derived from the file path;
  - the `public`/`protected`/`private` marker lines;
  - the flattened method list and its public part;
  - the path down to the class that matches the file name, and its super type;
  - the line scanner for the describe pattern `(\s*)describe\s+"([#.])(\w+[\?\!]?)"\s+do(\s*)`, with a matcher written out by hand.
- **Spec generator** (`src/generator.ts`, module `Generator`):
  - the `#name`/`.name` spec names;
  - the snippet for one method;
  - the interactor template and the plain template for a whole class.
- **Command handler** (`src/extension.ts`, module `Extension`), its pure pieces:
  - from a spec, the last describe line at or before the cursor and the source symbol it names;
  - from a source, the first spec line that quotes the spec name of the method under the cursor;
  - the loop that shows the first related file that exists, and the prompt after it.

Supporting modules:

- `Wrappers` holds `Option` and `Result`.
- `Seqs` holds `find`, `findIndex`, `filter` and `reverse`, and the `reverse().find(v => !!v)` idiom both the class parser and the command use.
- `Text` holds the JavaScript string built-ins the code calls: `trim`, `indexOf`, `lastIndexOf`, `slice`, `substring`, `split`, `join`, `includes`, `replace(/_/g, "")` and `toLowerCase`, with the `\s` and `\w` classes of JavaScript regular expressions. Its indices count code points, while JavaScript counts UTF-16 code units; `Text.Utf16Length` gives JavaScript's `length` for the one column that leaves the model.

The state the source updates in place stays imperative in the model:

- `Symbols.SortByStartDescending` sorts an `array` in place, like `Array.prototype.sort`.
- The `flatten` and `findTypePath` reducers of `parseClassFile` become the methods `Parser.Flatten` and `Parser.FindTypePath`. Each is proved against a specification function (`Methods`, `TypePath`), and the properties are proved about that function.
- The candidate loop of the command becomes the `while` loop of `Extension.ShowFirstExisting`, which exits with `break`.

Host services are parameters of the model:

- the symbol provider, a file's text and whether a file exists (`Extension.Workspace`);
- the active editor (`Extension.Editor`);
- the related files and whether the current file is a spec;
- the foreign `snakeCase`.

## Model

| member | source | states |
|---|---|---|
| Symbols.GetRange | src/utils.ts:40-48 | the range of a `SymbolInformation` is its location's range, and that of a `DocumentSymbol` its own; its contract is carried by the lemmas that use it, such as Symbols.FindSymbolByPosition |
| Symbols.PreOrder | src/utils.ts:50-61 | the depth-first pre-order walk the searches follow (reference definition); its contract is carried by Symbols.FindSymbolByNameIsFirstInPreOrder and Parser.MethodsInPreOrder |
| Symbols.GetChildren | src/utils.ts:36-38 | a `SymbolInformation` has no children; every child is structurally smaller than its parent |
| Symbols.FindSymbolByName | src/utils.ts:50-61 | a symbol found by name carries exactly that name |
| Symbols.FindSymbolByNameIsFirstInPreOrder | src/utils.ts:50-61 | the recursive search equals a linear search of the depth-first pre-order (node before children before later siblings): the first symbol with the name, and none iff no symbol in the forest has it |
| Symbols.FindSymbolByPosition | src/utils.ts:64-75 | a symbol found by position contains the position and has no children |
| Symbols.FoundThroughContainingAncestors | src/utils.ts:64-75 | a found symbol is the end of a path from a root, each node a child of the previous one, every node containing the position |
| Symbols.CommitsToFirstContainingSibling | src/utils.ts:65-71 | the search takes the first sibling containing the position and never tries a later one: that sibling itself if childless, else the search of its children, and none when no sibling contains the position |
| Symbols.NoFallbackToContainingParent | src/utils.ts:66-71 | when the first containing node's children all miss the position, the result is undefined, although that node and a later sibling contain it |
| Symbols.SortByStartDescending | src/utils.ts:79 | the in-place sort with comparator `getRange(b).start.compareTo(getRange(a).start)` leaves the array ordered latest start first and is a permutation of the old contents |
| Symbols.FirstOfSortedIsLatest | src/utils.ts:79 | in a list sorted latest start first, `find(n => start.line <= line)` gives a block starting on or before the line with no such block starting after it, and none iff every block starts after the line |
| Symbols.FindSpecSymbolByPosition | src/utils.ts:77-87 | the caller's array is reordered latest start first with the same elements. The result is a block of the old array starting on or before the position's line, and no other such block starts later. The result is none iff every block starts on a later line. Only lines are compared |
| Symbols.LatestStartIsUnique | src/utils.ts:79-86 | when no two blocks start at the same position, two blocks that both satisfy the search's ensures are the same block, so the result does not depend on how the sort orders equal starts |
| Symbols.FindSpecBySymbol | src/utils.ts:89-91 | the result is the first spec symbol whose name equals the source symbol's name exactly, and none iff no name is equal |
| Symbols.FindSpecBySymbolComparesRawNames | src/utils.ts:89-91 | `self.bar` does not find the spec block `bar`, and the spec kind is not consulted |
| Seqs.FindIndex | src/extension.ts:150-152 | `findIndex` gives the first index satisfying the test, or -1 iff none does |
| Seqs.Find | src/utils.ts:90 | `find` gives the first element satisfying the test, or none iff none does |
| Seqs.FilterIsSubsequence | src/parser.ts:31-35 | a filter such as `publicMethods` is an order-preserving subsequence of its input |
| Seqs.LastPresent | src/extension.ts:86-87 | `s.reverse().find(v => !!v)`, shared with src/parser.ts:33; its contract is carried by Seqs.LastPresentIsLast |
| Seqs.LastPresentIsLast | src/extension.ts:86-87 | `reverse().find(v => !!v)` gives the last defined element, and none iff none is defined |
| Seqs.ReverseReverse | src/parser.ts:49 | reversing twice gives the sequence back, so the leaf-first accumulator reverses into the root-first path |
| Text.TrimStart | src/parser.ts:15 | `trimStart` strips exactly a leading run of white space |
| Text.TrimEnd | src/parser.ts:15 | `trimEnd` strips exactly a trailing run of white space |
| Text.IndexOf | src/parser.ts:5 | `indexOf` from a clamped start gives the first occurrence at or after it, or -1 iff there is none |
| Text.CharIndexOf | src/parser.ts:59-60 | for a one-character needle, `indexOf` is non-negative iff the character occurs, and it is the first occurrence |
| Text.LastIndexOf | src/parser.ts:5 | `lastIndexOf` gives the last index of the character, or -1 |
| Text.RemoveAll | src/parser.ts:5 | `replace(/_/g, "")` leaves no `_`, and keeps only characters of the input; on one character it gives the empty string for `_` and the character otherwise |
| Text.RemoveAllConcat | src/parser.ts:5 | removing distributes over concatenation; with the one-character case, the result is the input with each `_` cut out and every other character kept, in order and with its multiplicity |
| Text.Split | src/parser.ts:12 | `split` gives at least one part, and no part contains the separator. There is exactly one part iff the separator does not occur, and otherwise the first part ends at its first occurrence |
| Text.Substring | src/generator.ts:7 | `substring(b)` is what follows the first `b` characters: with those characters before it, it gives the text back. A negative `b` keeps the whole text, and one at or past the end gives nothing |
| Text.JoinSplit | src/parser.ts:12 | joining the parts of a split with the separator gives the text back |
| Text.JoinIncludesEachPart | src/generator.ts:57 | each part of a `join` occurs in the joined text |
| Text.IncludesIsTransitive | src/generator.ts:57 | what a part includes, the text that includes the part includes too |
| Text.Utf16Length | src/parser.ts:84 | JavaScript's `length`: at least the number of code points, and equal to it iff every character lies in the Basic Multilingual Plane |
| Text.ToLowerAscii | src/parser.ts:44 | `toLowerCase` maps each ASCII capital to its small letter and keeps every other character |
| Parser.FilePathToTypeName | src/parser.ts:4-6 | the expected type name never contains `_` |
| Parser.TypeNameOfBaseName | src/parser.ts:4-6 | for `dir/base.ext` (or `base.ext`), the expected type name is `base` with every `_` removed |
| Parser.TypeNameWithoutExtension | src/parser.ts:5 | for `dir/base` with no `.` in `base`, `indexOf` gives -1 and `slice(start, -1)` stops one before the end: the expected type name is `base` without its last character, with every `_` removed |
| Parser.Accesses | src/parser.ts:14-20 | one entry per line: the marker if the trimmed line is `public`, `protected` or `private`, else none; its contract is carried by Parser.NearestAccessIsLastMarkerBefore |
| Parser.NearestAccess | src/parser.ts:33 | the marker nearest before a line, through Seqs.LastPresent; its contract is carried by Parser.NearestAccessIsLastMarkerBefore |
| Parser.NearestAccessIsLastMarkerBefore | src/parser.ts:33 | `accesses.slice(0, line).reverse().find(v => !!v)` is the marker on the last marker line strictly before `line`, and none iff no earlier line is a marker |
| Parser.IsPublicIn | src/parser.ts:31-35 | the `publicMethods` filter test; its contract is carried by Parser.PublicIffNearestMarkerIsPublic |
| Parser.PublicIffNearestMarkerIsPublic | src/parser.ts:31-35 | a method is public iff no marker line precedes its start line or the nearest one is `public` |
| Parser.Methods | src/parser.ts:22-29 | the specification of the `flatten` reducer; its contract is carried by Parser.Flatten, Parser.MethodsConcat, Parser.MethodsAreReachableMethods and Parser.MethodsInPreOrder |
| Parser.Flatten | src/parser.ts:22-29 | the `flatten` reducer appends exactly the methods of the forest to its accumulator |
| Parser.MethodsConcat | src/parser.ts:22-29 | the methods of two forests side by side are the methods of the first, then those of the second |
| Parser.MethodsAreReachableMethods | src/parser.ts:22-29 | a symbol is among the methods iff it is a Method or Function node reached without passing through another one |
| Parser.MethodsInPreOrder | src/parser.ts:22-29 | the methods keep the order of the depth-first pre-order walk |
| Parser.IsExpectedType | src/parser.ts:44 | a Class whose last `::` segment, lowercased, is the expected name; its contract is carried by Parser.TypePathIsADescent |
| Parser.TypePath | src/parser.ts:38-49 | the specification of the `findTypePath` reducer, root first; its contract is carried by Parser.FindTypePath, Parser.TypePathConcat, Parser.TypePathIsADescent and Parser.TypePathEndsAtFirstExpectedType |
| Parser.TypePathConcat | src/parser.ts:38-49 | the type path of two forests side by side is the first forest's if it has one, else the second's |
| Parser.FindTypePath | src/parser.ts:38-48 | the `findTypePath` reducer leaves a non-empty accumulator alone, and otherwise fills it with the type path, leaf first |
| Parser.TypePathIsADescent | src/parser.ts:44-45 | a non-empty type path starts at a root and goes from parent to child down to a Class whose last `::` segment, lowercased, is the expected name. No node before the last one matches |
| Parser.TypePathEndsAtFirstExpectedType | src/parser.ts:38-49 | the type path ends at the first matching class in pre-order, and is empty iff no class matches |
| Parser.DeclaredSuperType | src/parser.ts:59-65 | a super type is `module`, `class`, or comes from a declaration line holding `<` |
| Parser.DeclaredSuperTypeCases | src/parser.ts:59-65 | each branch of the chain: the trimmed text after the first `<`; failing that, `module` or `class` after the line's leading keyword; otherwise none |
| Parser.ParseClassFile | src/parser.ts:8-72 | the context holds the symbols, the methods, their public part and the expected type name. With no matching class, type name, full type name and super type are all undefined. With one: the class's name, the path's names joined by `::`, and the super type of the trimmed declaration line. A declaration line outside the document is the error the source throws |
| Parser.SpaceRunIsMaximal | src/parser.ts:80 | a `\s*` run is all white space and stops at a non-space or the end |
| Parser.WordRunIsMaximal | src/parser.ts:80 | a `\w*` run is all word characters and stops at another character or the end |
| Parser.Sigil | src/parser.ts:83 | the captured sigil is `#` or `.` |
| Parser.IdentifierIsSpecIdentifier | src/parser.ts:80 | the captured identifier has the shape `\w+[\?\!]?` |
| Parser.MatchAtIsDescribeMatch | src/parser.ts:80 | what the attempt at an index returns is a match of the pattern there (soundness of the matcher) |
| Parser.DescribeMatchIsFound | src/parser.ts:80 | every match of the pattern is what the attempt at its index returns (completeness of the matcher) |
| Parser.OneMatchPerIndex | src/parser.ts:80 | greedy quantifiers leave at most one match per start index |
| Parser.NoMatchWhereAttemptFails | src/parser.ts:80 | when the attempt at an index fails, no match starts there |
| Parser.SearchFrom | src/parser.ts:80 | the scan from an index returns a match, and none starts between that index and the match's |
| Parser.MatchDescribe | src/parser.ts:80 | `line.match(pattern)` is the leftmost match, and none iff the line has no match |
| Parser.Trail | src/parser.ts:84 | the trailing capture `m[4]` is white space only, so its UTF-16 length is its number of characters |
| Parser.LineSymbol | src/parser.ts:79-87 | a line gives a symbol iff it matches. The name is the identifier without sigil, and the kind is class method iff the sigil is `.`. The range lies on that one line, from the leading-space length to the line length minus the trailing-space capture, all counted in UTF-16 code units as `length` is |
| Parser.LineSymbols | src/parser.ts:78-88 | the `map` over the lines; its contract is carried by Parser.ParsedSymbolsComeFromTheirLines and Parser.MatchingLinesAreParsed |
| Parser.Present | src/parser.ts:89 | `filter(s => !!s)`; its contract is carried by Parser.PresentKeepsExactlyThePresent and Parser.PresentInLineOrder |
| Parser.PresentKeepsExactlyThePresent | src/parser.ts:89 | `filter(s => !!s)` keeps exactly the defined symbols |
| Parser.PresentInLineOrder | src/parser.ts:78-89 | the kept symbols start on strictly increasing lines |
| Parser.ParsedSymbolsComeFromTheirLines | src/parser.ts:78-89 | every parsed symbol is the one the line it starts on produces |
| Parser.ParsedSymbolsInLineOrder | src/parser.ts:78-89 | the parsed symbols are in line order, all within the document |
| Parser.MatchingLinesAreParsed | src/parser.ts:78-89 | every matching line's symbol is parsed |
| Parser.ParseSpecFile | src/parser.ts:74-91 | exactly one symbol per matching line, each the one its line produces, in line order |
| Generator.SpecName | src/generator.ts:6-8 | `.x` for `self.x`, `#name` otherwise; its contract is carried by Generator.SpecNameIsSigilAndBareName and Generator.SpecNameIsInjective |
| Generator.SpecWhen | src/generator.ts:10-12 | the `When` line of a snippet; its contract is carried by Generator.SpecWhenAgreesWithSpecName |
| Generator.SpecDefinition | src/generator.ts:14-18 | the snippet for one method; its contract is carried by Generator.DescribeLineShape and Generator.DescribeLineIsParsed |
| Generator.GenerateSpecForSymbol | src/generator.ts:21-23 | the snippet between line breaks; its contract is carried by Generator.GeneratedSnippetIsParsed |
| Generator.GenerateInteractorSpec | src/generator.ts:25-60 | the interactor template, or none without a type name; its contract is carried by Generator.GenerateSpecForClass, Generator.InteractorTemplateIffInteraction and Generator.InteractorSpecHasMethod |
| Generator.InteractorSpec | src/generator.ts:33-59 | the text of the interactor template for a class name and its public methods; its contract is carried by Generator.InteractorSpecHasMethod and Generator.TemplatesDiffer |
| Generator.PlainSpec | src/generator.ts:75-82 | the text of the plain template; its contract is carried by Generator.PlainSpecHasMethod and Generator.TemplatesDiffer |
| Generator.BareName | src/generator.ts:7 | `self.x` loses its prefix and any other name is kept |
| Generator.SpecNameIsSigilAndBareName | src/generator.ts:6-8 | a spec name is `.` plus the bare name for `self.x` and `#` plus the name otherwise |
| Generator.SpecNameIsInjective | src/generator.ts:6-8 | different method names get different spec names |
| Generator.SpecWhenAgreesWithSpecName | src/generator.ts:10-12 | the `When` line calls the bare name on `described_class` for a `.` spec name and on `subject` for a `#` one |
| Generator.DescribeLineShape | src/generator.ts:14-18 | the snippet's first line quotes the sigil and the bare name in `describe "…" do` |
| Generator.PatternLineMatch | src/generator.ts:17 | that line, for a spec identifier, matches the describe pattern from its start with the same sigil and identifier |
| Generator.PatternLineIsParsed | src/generator.ts:17 | the spec parser reads that line back into the identifier, its kind, and the range from column 2 to the line's end |
| Generator.DescribeLineIsParsed | src/generator.ts:14-18 | the describe line written for a method is parsed back into that method's spec symbol |
| Generator.SetterDescribeLineIsSkipped | src/generator.ts:14-18 | the describe line written for the setter `x=` is not matched by the spec parser's pattern, so it yields no spec symbol |
| Generator.PatternLineIsOneLine | src/generator.ts:17 | the describe line has no line break |
| Generator.SecondLineOfSnippet | src/generator.ts:22 | in `"\n" + snippet + "\n"`, the snippet's first line is line 1 of the text |
| Generator.GeneratedSnippetIsParsed | src/generator.ts:21-23 | parsing the snippet generated for a method yields that method's spec symbol on line 1, whatever the context |
| Generator.GenerateSpecForClass | src/generator.ts:62-84 | no spec is generated exactly when the type name is undefined or empty, in both branches |
| Generator.TemplatesDiffer | src/generator.ts:33-77 | whatever the snippets, the two templates differ already on their second line |
| Generator.InteractorTemplateIffInteraction | src/generator.ts:62-64 | a generated file is the interactor template iff the super type is `Interaction`, and the plain template otherwise |
| Generator.InteractorSpecHasMethod | src/generator.ts:57 | the interactor file holds the snippet of every public method not named `perform` |
| Generator.PlainSpecHasMethod | src/generator.ts:80 | the plain file holds the snippet of every public method |
| Generator.EveryPublicMethodIsSpecified | src/generator.ts:57-80 | a generated file holds the snippet of every public method, except `perform` in an interactor |
| Generator.FilterNotPerformKeepsNames | src/generator.ts:57 | dropping `perform` from two lists with the same names leaves lists with the same names |
| Generator.GenerationDependsOnlyOnTypesAndMethodNames | src/generator.ts:62-84 | generation is deterministic and reads only the type name, the super type and the public methods' names in order |
| Extension.SourceName | src/extension.ts:81 | `self.` plus the identifier for sigil `.`, the identifier otherwise; its contract is carried by Extension.SpecNameOfSourceName |
| Extension.SpecIdentifierIsNotClassMethodName | src/extension.ts:79-81 | an identifier of the describe pattern never starts with `self.` |
| Extension.SpecNameOfSourceName | src/extension.ts:81 | applying the spec-name mapping to the rebuilt source name gives back the sigil and identifier of the describe line |
| Extension.SourceNameOfSpecName | src/extension.ts:149 | rebuilding a source name from a method's spec name gives back the method's name |
| Extension.DescribeTarget | src/extension.ts:78-85 | a line gives a target iff the describe pattern matches it, tagged with its line number |
| Extension.DescribeTargetRoundTrip | src/extension.ts:79-82 | the spec name of a target's method is the sigil and identifier the line spells |
| Extension.DescribeTargets | src/extension.ts:75-85 | the lines up to the cursor mapped to their targets; its contract is carried by Extension.TargetsFollowMatches |
| Extension.TargetsFollowMatches | src/extension.ts:77-85 | past an index, no target is defined iff no line up to the cursor matches |
| Extension.LastTargetIsLastMatch | src/extension.ts:74-87 | the lookup over the lines picks the last matching line at or before the cursor line, and none iff there is none |
| Extension.LastDescribeLine | src/extension.ts:75-87 | the last describe line at or before the cursor; its contract is carried by Extension.LastDescribeLineIsLastMatchAtOrBeforeCursor |
| Extension.LastDescribeLineIsLastMatchAtOrBeforeCursor | src/extension.ts:74-87 | the same, for the document's text split at line breaks |
| Extension.PositionOfNamed | src/extension.ts:109-114 | the start of the symbol found by name; its contract is carried by Extension.PositionOfNamedIsFirstInPreOrder |
| Extension.PositionOfNamedIsFirstInPreOrder | src/extension.ts:93-114 | the position is the start of the first symbol in pre-order with the name, and none iff no symbol has it |
| Extension.SpecToSourcePosition | src/extension.ts:74-115 | the lookup from a spec; its contract is carried by Extension.SpecToSourceIsFirstNamedSymbol |
| Extension.SpecToSourceIsFirstNamedSymbol | src/extension.ts:89-114 | from a spec, the position shown is the start of the first symbol named after the last describe line. There is none iff no describe line precedes the cursor or no symbol has the name |
| Extension.QuotesName | src/extension.ts:152 | the `findIndex` test: the line includes the spec name in double quotes; its contract is carried by Extension.SourceToSpecIsFirstQuotingLine and Extension.DescribeLineQuotesSpecName |
| Extension.SourceToSpecPosition | src/extension.ts:147-157 | the lookup from a source; its contract is carried by Extension.SourceToSpecIsFirstQuotingLine |
| Extension.SourceToSpecIsFirstQuotingLine | src/extension.ts:147-156 | from a source, the position shown is column 0 of the first line quoting the spec name of the method under the cursor. There is none iff no method is under the cursor or no line quotes its name |
| Extension.DescribeLineQuotesSpecName | src/extension.ts:149-152 | the describe line written for a method quotes that method's spec name |
| Extension.GeneratedSpecIsFound | src/extension.ts:149-156 | when the spec holds the generated describe line of the method under the cursor, a line at or before it is shown |
| Extension.FirstRelated | src/extension.ts:165-166 | `related[0]` is defined iff there are related files |
| Extension.TargetPosition | src/extension.ts:71-158 | the position for a related file, by the lookup for its direction; its contract is carried by Extension.ShowFirstExisting |
| Extension.FirstExisting | src/extension.ts:65-67 | the first related file that exists, with its position; its contract is carried by Extension.FirstExistingIsFound and Extension.ShowFirstExisting |
| Extension.FirstExistingIsFound | src/extension.ts:65-67 | the first candidate that exists, with none before it, is the one `findIndex` finds |
| Extension.ShowFirstExisting | src/extension.ts:65-162 | the loop shows the first related file that exists, at the position its lookup finds, and nothing iff none exists |
| Extension.RunCommandAsWritten | src/extension.ts:65-168 | the command shows the first existing related file and, in any case, offers to create `related[0]` |
| Extension.ExistingFileIsOfferedForCreation | src/extension.ts:165-168 | as written, when `related[0]` exists it is both shown and offered for creation |
| Extension.RunCommand | src/extension.ts:59-168 | the command as its comment describes it: show the first existing related file; offer to create the first one only when none was shown |
| Extension.CommandShowsOrOffers | src/extension.ts:59-61 | the corrected command either shows an existing related file or offers one, never both. It offers one iff there are related files and none exists, and the offered file does not exist |

## Left out

- Host calls are inputs, not effects. They are `executeDocumentSymbolProvider`, `openTextDocument`, `showTextDocument`, `showQuickPick`, `registerCommand` and the subscriptions. The Ruby symbol provider's output is an arbitrary forest.
- The file system is not modelled: `existsSync` becomes the predicate `Workspace.fileExists`, and `mkdirp.sync` and `openSync`/`closeSync` are left out. The prompt is modelled only as the file it offers; the quick pick and the answer are left out.
- The resolver module (`isSpec`, `getRelated`) is not part of this model: `fromSpec` and `related` are arbitrary inputs.
- `snakeCase` from `change-case-all` is a foreign library: it is a function parameter.
- `console.log`/`console.error` output is left out.
- `async`/`await` ordering is not modelled; each handler step is taken in program order.
- The inline copies of `findSymbolByName`, `getRange`, `getChildren` and `findSymbolByPosition` at src/extension.ts:93-145 are modelled by the `Symbols` functions. Their behaviour is the same: the inline `findSymbolByName` recurses only under an `if (children)` guard, and a symbol without children gives nothing in the recursion of the `src/utils.ts` version either; `===` and `==` agree on strings.
- Symbols.GetRange: the fallback range at src/utils.ts:46-47 is for a missing symbol. The model has no missing symbol, so it is left out.
- Symbols.SortByStartDescending: stability is not stated, and `Array.prototype.sort`'s order of blocks with equal starts decides which of them the search returns. The parsed spec symbols never share a start, since each line yields at most one (Parser.ParsedSymbolsInLineOrder), and with distinct starts Symbols.LatestStartIsUnique shows that the ensures of Symbols.FindSpecSymbolByPosition determine the result.
- Text.ToLowerAscii: lowercases ASCII letters only. Unicode case mapping beyond ASCII is not modelled. The class-name comparison at src/parser.ts:44 uses this version.
- Text.IndexOf, Text.LastIndexOf, Text.Slice, Text.Substring: index code points, not UTF-16 code units. Both agree on text inside the Basic Multilingual Plane, and every bound the code computes comes from `/`, `.`, `<` or a describe match, so the substrings taken are the same. The exception is a character outside that plane just before the end a negative `slice` bound counts from, where JavaScript would cut a code unit. The one length that leaves the model, the end column of Parser.LineSymbol, is counted with Text.Utf16Length.
- Generator.DescribeLineIsParsed: requires a method name of the shape `\w+[\?\!]?`, with or without `self.`. For a setter or operator such as `x=`, the generator writes `describe "#x=" do`, which the pattern does not match (Generator.SetterDescribeLineIsSkipped): the spec parser skips that block, and the lookup from the spec takes the previous describe line.
- Generator.InteractorSpecHasMethod: states that each snippet is included, not the order of the snippets. The order is that of `Definitions`, which the template joins directly.
- Generator.PlainSpecHasMethod: states inclusion, not order, for the same reason.
- Parser.ParseClassFile: reading the declaration line past the end of the document is the error `DeclarationLineMissing`, where the source throws a `TypeError`.
- Block nesting is not modelled. A spec symbol's range covers only the line of its `describe`, as at src/parser.ts:84.
- The general regular-expression engine is not modelled. The one describe pattern is matched by a hand-written leftmost, greedy matcher. The lookup at src/extension.ts:79 uses the same pattern without the capture groups around the white space, so it matches the same lines.
- `findSpecBySymbol` compares the source symbol's raw name with the spec symbol's name, as the code does. It does not derive the spec name first.

## Findings

| source | as written | input that shows it | evidently intended | confidence | as-written member | corrected member |
|---|---|---|---|---|---|---|
| src/extension.ts:165-168 | after the loop, the command offers to create `related[0]` whether or not a related file was found and shown. The `break` leaves only the loop. Accepting the offer truncates the file with `openSync(related, "w")` | `related = [f]` with `f` existing: `f` is shown, then offered for creation | offer to create the first related file only when none exists, as the comment at src/extension.ts:59-61 says | high, not executed | Extension.RunCommandAsWritten, Extension.ExistingFileIsOfferedForCreation | Extension.RunCommand, Extension.CommandShowsOrOffers |

