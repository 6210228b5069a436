# TheDevDraw tool logic, modelled and verified in Dafny

TheDevDraw is a collection of browser developer tools. This project models
the logic behind six of them, with the React rendering stripped away: the
C#-to-TypeScript converter, the favicon ICO packer, the SQL table generator, the
JSON-to-C# converter, the password generator and the colour palette generator.
Each modelled piece has one Dafny module:

| module | file | what it models |
|---|---|---|
| `Strings` | `strings.dfy` | The JavaScript string operations the tools rely on: `trim` with the full JavaScript whitespace set, `split`, `join`, `indexOf`, `startsWith`/`endsWith`, ASCII case mapping, and number-to-decimal text. |
| `CsharpTypes` | `csharp_types.dfy` | The parser's output: classes or records with their auto-properties, and enums with their member names. |
| `CsharpTypeMapper` | `csharp_type_mapper.dfy` | `mapCSharpTypeToTs` and `toCamelCase`. The mapper recurses on a shorter token each time. It strips a nullable `?`, removes the first `[]`, rewrites the collection and `Dictionary<string, …>` patterns, and otherwise looks the token up in the primitive table. |
| `CsharpParser` | `csharp_parser.dfy` | `parseCSharpModels` and `parseCSharpEnums`. Each regular expression is a left-to-right scanner that accepts what the pattern accepts. The `while (regex.exec(...))` loops are methods proved equal to the scanners' results. |
| `CsharpToTsGenerator` | `csharp_to_ts_generator.dfy` | `generateTsInterfaces`: three error outcomes (a `Result` datatype), then the `export enum` and `export interface` blocks. |
| `FaviconIco` | `favicon_ico.dfy` | The byte layout of `createFaviconIco`, built in `array<byte>` buffers. It has a 6-byte ICONDIR header, then one 16-byte little-endian directory entry per PNG with running offsets, then the PNG bytes verbatim. |
| `SqlTableGenerator` | `sql_table_generator.dfy` | The column editor, the validity check, `formatDefaultValue` and the T-SQL `IF NOT EXISTS … CREATE TABLE` script. The editor state is a class whose `columns` and `sql` fields the methods replace. |
| `JsonToCSharp` | `json_to_csharp.dfy` | JSON values as a datatype with ordered object members. Also property-name cleaning and PascalCasing, type and default inference, and the recursive `generateCSharp` together with its loop. |
| `RandomDraws` | `random_draws.dfy` | `Math.random()` values supplied from outside. A draw `u` below 2^53 stands for `u / 2^53`, and `Math.floor(Math.random() * n)` becomes an index below `n`. |
| `PasswordGenerator` | `password_generator.dfy` | The password hook: the hook's state as a class, the character set, the generation loop, and the six-point strength score. |
| `Palette` | `palette.dfy` | The palette generator: hex colour text, five `{hex, locked}` entries in an array, regeneration, lock toggling, validated hex edits and the CSS export text. |

Each operation that changes state in the source is a method. Its `ensures`
ties the new state to a specification function of the old state. The
properties the tools promise are lemmas about those functions. These include:
- round trips: hex digits back to the number, quote escaping, reading an image back out of the ICO file, splitting an export back into lines;
- if-and-only-if conditions for each error outcome and for form validity;
- order: source order of parsed classes, key order of properties, pre-order of generated classes;
- what an edit leaves unchanged.

Where the tools' own documentation and the code differ, the model follows the
code:
- A C# property is captured only when its accessor block is followed by a `;`, either directly or after `= initializer`. A plain `{ get; set; }` with no later `;` is skipped (`csharpParser.ts` line 8).
- Enum pieces are filtered for emptiness before the `= value` tail is removed. So a piece consisting only of `= 5` becomes an empty value (`csharpParser.ts` lines 48-49).
- The collection pattern of the type mapper is not anchored. It is also tried before the dictionary pattern. So `Dictionary<string, List<int>>` maps to `int>[]`, as the code does.

## Model

| member | source | states |
|---|---|---|
| `CsharpTypeMapper.ToCamelCase` | packages/tdd-tools/src/utils/csharpTypeMapper.ts:16-18 | same length; the first character is lower-cased (an upper-case letter becomes lower case) and the rest is kept verbatim |
| `CsharpTypeMapper.MapType` | packages/tdd-tools/src/utils/csharpTypeMapper.ts:20-45 | `mapCSharpTypeToTs`: trims the token and maps the trimmed form; it has no contract of its own, and its rules are stated by `MapTypeIgnoresSurroundingWhitespace`, `NullableMarkerIgnored`, `ArraySuffix`, `CollectionOf`, `DictionaryOf`, `PlainName` and `MapTypeSingleLine` |
| `CsharpTypeMapper.MapTrimmed` | packages/tdd-tools/src/utils/csharpTypeMapper.ts:23-29 | the `?` and `[]` branches on a trimmed token, tried in that order, before the generic patterns; stated by `NullableMarkerIgnored`, `MapTrimmedArray` and `ArraySuffix` |
| `CsharpTypeMapper.MapGeneric` | packages/tdd-tools/src/utils/csharpTypeMapper.ts:31-44 | the collection pattern first, then the dictionary pattern, then the table lookup; stated by `CollectionOf`, `DictionaryOf` and `PlainName` |
| `CsharpTypeMapper.Lookup` | packages/tdd-tools/src/utils/csharpTypeMapper.ts:1-14 | `primitiveMap[type] ?? type`: the table entry for a key of the table, the token itself otherwise; stated by `PrimitivesMapByTable` and `PlainName` |
| `CsharpTypeMapper.MapTypeIgnoresSurroundingWhitespace` | packages/tdd-tools/src/utils/csharpTypeMapper.ts:20-21 | a token maps exactly as its trimmed form does |
| `CsharpTypeMapper.NullableMarkerIgnored` | packages/tdd-tools/src/utils/csharpTypeMapper.ts:23-25 | appending `?` never changes the mapping: `map(t + "?") == map(t)` |
| `CsharpTypeMapper.ExampleNullable` | packages/tdd-tools/src/utils/csharpTypeMapper.ts:23-25 | `int?` maps to `number` |
| `CsharpTypeMapper.MapTrimmedArray` | packages/tdd-tools/src/utils/csharpTypeMapper.ts:27-29 | a trimmed token ending in `[]` maps to the mapping of the token with its FIRST `[]` removed, plus `[]`; the removed form is strictly shorter |
| `CsharpTypeMapper.ArraySuffix` | packages/tdd-tools/src/utils/csharpTypeMapper.ts:27-29 | for a token without `[]` and without leading whitespace, `map(t + "[]") == map(t) + "[]"` |
| `CsharpTypeMapper.RemoveTrailingBrackets` | packages/tdd-tools/src/utils/csharpTypeMapper.ts:28 | removing the first `[]` of `t + "[]"` gives back `t` when `t` has none |
| `CsharpTypeMapper.ContainerAt` | packages/tdd-tools/src/utils/csharpTypeMapper.ts:31-33 | says which of `List<`, `IEnumerable<`, `ICollection<`, `HashSet<` starts at a position, or that none does |
| `CsharpTypeMapper.LastGt` | packages/tdd-tools/src/utils/csharpTypeMapper.ts:32 | finds the last `>` of a range, and says when there is none |
| `CsharpTypeMapper.GreedyToGt` | packages/tdd-tools/src/utils/csharpTypeMapper.ts:32 | the greedy `.+>`: the last `>` on the current line after the opening `<`, with no line terminator in between, or none |
| `CsharpTypeMapper.CollectionFrom` | packages/tdd-tools/src/utils/csharpTypeMapper.ts:31-33 | the unanchored scan: the function tries each start position from left to right and takes the first match, as `String.prototype.match` does; its contract states that the capture is shorter than the rest of the token |
| `CsharpTypeMapper.CollectionMatch` | packages/tdd-tools/src/utils/csharpTypeMapper.ts:31-35 | the unanchored collection match of a token; its capture is strictly shorter than the token, so the recursion terminates |
| `CsharpTypeMapper.DictValueFrom` | packages/tdd-tools/src/utils/csharpTypeMapper.ts:39 | the `\s*(.+)>` tail of the dictionary pattern: a value start and a closing `>` inside the token |
| `CsharpTypeMapper.DictionaryFrom` | packages/tdd-tools/src/utils/csharpTypeMapper.ts:39 | the unanchored scan for `Dictionary<string,`: the function takes the first match from the left; its contract states that the capture is shorter than the rest of the token |
| `CsharpTypeMapper.DictionaryMatch` | packages/tdd-tools/src/utils/csharpTypeMapper.ts:39-42 | the unanchored dictionary match of a token; its capture is strictly shorter than the token |
| `CsharpTypeMapper.CollectionCapture` | packages/tdd-tools/src/utils/csharpTypeMapper.ts:31-33 | the capture of `C<x>` is all of `x` for a one-line `x` (greedy up to the last `>`) |
| `CsharpTypeMapper.ContainerAtStart` | packages/tdd-tools/src/utils/csharpTypeMapper.ts:32 | a token that starts with a collection name and `<` matches that name at position 0 |
| `CsharpTypeMapper.CollectionOf` | packages/tdd-tools/src/utils/csharpTypeMapper.ts:31-37 | `C<x>` maps to `map(x) + "[]"` for every collection name `C`, so `List<List<int>>` maps to `number[][]` |
| `CsharpTypeMapper.DictionaryOf` | packages/tdd-tools/src/utils/csharpTypeMapper.ts:39-42 | `Dictionary<string,` + any whitespace + `X` + `>` maps to `Record<string, ` + map(X) + `>`, for any one-line `X` with no `<` that does not start with whitespace (so `Dictionary<string, int>` gives `Record<string, number>`) |
| `CsharpTypeMapper.PlainName` | packages/tdd-tools/src/utils/csharpTypeMapper.ts:44 | a word token (letters, digits, `_`) is mapped by the table lookup alone |
| `CsharpTypeMapper.PrimitivesMapByTable` | packages/tdd-tools/src/utils/csharpTypeMapper.ts:1-14 | every key of the primitive table maps to its table entry |
| `CsharpTypeMapper.PrimitiveValue` | packages/tdd-tools/src/utils/csharpTypeMapper.ts:1-14 | every table entry is `string`, `boolean` or `number` |
| `CsharpTypeMapper.ExampleInt` | packages/tdd-tools/src/utils/csharpTypeMapper.ts:5 | `int` maps to `number` |
| `CsharpTypeMapper.MapTypeSingleLine` | packages/tdd-tools/src/utils/csharpTypeMapper.ts:20-45 | a one-line token maps to a one-line type (used to render one property per line) |
| `CsharpParser.ClassKeywordLength` | packages/tdd-tools/src/utils/csharpParser.ts:5 | 5 or 6 exactly when `class` or `record` occurs at the position, 0 otherwise |
| `CsharpParser.ClassAt` | packages/tdd-tools/src/utils/csharpParser.ts:4-5 | a class match at k lies inside the text and starts at k |
| `CsharpParser.ClassNameShape` | packages/tdd-tools/src/utils/csharpParser.ts:5 | a class name is a non-empty run of word characters |
| `CsharpParser.ClassOpenBrace` | packages/tdd-tools/src/utils/csharpParser.ts:5 | the body opens at the first `{` after the keyword |
| `CsharpParser.ClassBodyEnd` | packages/tdd-tools/src/utils/csharpParser.ts:5 | the body ends at the first newline that is immediately followed by `}` |
| `CsharpParser.KeywordHasNoBrace` | packages/tdd-tools/src/utils/csharpParser.ts:5 | the keyword itself holds no `{` |
| `CsharpParser.NextClass` | packages/tdd-tools/src/utils/csharpParser.ts:13 | the leftmost class match at or after a position: none starts earlier, and `None` means none at all |
| `CsharpParser.NextClassFinds` | packages/tdd-tools/src/utils/csharpParser.ts:13 | if a match starts at k, the search from any earlier position finds one at or before k |
| `CsharpParser.ClassMatches` | packages/tdd-tools/src/utils/csharpParser.ts:12-14 | the successive `exec` results of the class pattern from a position, each search resuming at the end of the previous match; stated by `ClassMatchesAreMatches`, `ClassMatchesAfter`, `ClassMatchesOrdered` and `ClassMatchesComplete` |
| `CsharpParser.ClassMatchesAreMatches` | packages/tdd-tools/src/utils/csharpParser.ts:12-30 | every returned match is a real match at its own position |
| `CsharpParser.ClassMatchesAfter` | packages/tdd-tools/src/utils/csharpParser.ts:12-30 | every returned match starts at or after the scan start and is non-empty |
| `CsharpParser.ClassMatchesOrdered` | packages/tdd-tools/src/utils/csharpParser.ts:12-30 | the matches come in left-to-right order and do not overlap |
| `CsharpParser.ClassMatchesComplete` | packages/tdd-tools/src/utils/csharpParser.ts:12-30 | every position where a match starts is covered by some returned match |
| `CsharpParser.Models` | packages/tdd-tools/src/utils/csharpParser.ts:29 | one class per match |
| `CsharpParser.ParseModels` | packages/tdd-tools/src/utils/csharpParser.ts:3-33 | `parseCSharpModels` as a value: one class per match, in order, with the properties parsed from its body; the loop `ParseCSharpModels` is proved to return it and `ParsedModelsWellFormed` states its shape |
| `CsharpParser.ParseCSharpModels` | packages/tdd-tools/src/utils/csharpParser.ts:3-33 | the scanning loop returns exactly the specified class list; it never fails |
| `CsharpParser.TailEnd` | packages/tdd-tools/src/utils/csharpParser.ts:8 | the `\s*(?:=\s*[^;]+)?;` tail after the accessor block ends in `;` |
| `CsharpParser.CloseEnd` | packages/tdd-tools/src/utils/csharpParser.ts:8 | the lazy `[\s\S]*?\}` followed by a valid tail ends in `;` |
| `CsharpParser.DeclarationAt` | packages/tdd-tools/src/utils/csharpParser.ts:8 | type run, whitespace, name, optional whitespace and `{`, in that order |
| `CsharpParser.DeclarationRuns` | packages/tdd-tools/src/utils/csharpParser.ts:8 | the type token uses only `[\w<>\[\]?]` and the name only word characters |
| `CsharpParser.AccessorsEnd` | packages/tdd-tools/src/utils/csharpParser.ts:8 | the accessor block holds `get;` and later `set;` and the match ends in `;` |
| `CsharpParser.DeclarationMatch` | packages/tdd-tools/src/utils/csharpParser.ts:8 | the part of the property pattern after its prefix, matched at p: it starts at p and ends inside the body; its captures are stated by `DeclarationShape` |
| `CsharpParser.DeclarationShape` | packages/tdd-tools/src/utils/csharpParser.ts:8 | the declaration part captures a non-empty `[\w<>\[\]?]` type token and a non-empty word name |
| `CsharpParser.AttributeEnd` | packages/tdd-tools/src/utils/csharpParser.ts:8 | `\[[^\]]+\]`: an attribute starts with `[`, holds at least one character and ends at the first `]` after it |
| `CsharpParser.VirtualKeywordLength` | packages/tdd-tools/src/utils/csharpParser.ts:8 | 7 or 8 exactly when `virtual` or `override` occurs at the position, 0 when neither does |
| `CsharpParser.TryDownFrom` | packages/tdd-tools/src/utils/csharpParser.ts:8 | the ends of a greedy run, tried longest first: whatever it returns lies in the run and satisfies the rest of the pattern |
| `CsharpParser.TrySpaces` | packages/tdd-tools/src/utils/csharpParser.ts:8 | `\s*(?:virtual\s+\|override\s+)?` followed by the rest of the pattern: any position it returns lies at or after the start and the rest matches there |
| `CsharpParser.TryPrefix` | packages/tdd-tools/src/utils/csharpParser.ts:8 | the whole prefix `(?:\[[^\]]+\]\s*)*(?:public\|private\|protected\|internal)?\s*(?:virtual\s+\|override\s+)?` as a backtracking matcher: any position it returns lies at or after the start and the rest matches there |
| `CsharpParser.PrefixedDeclaration` | packages/tdd-tools/src/utils/csharpParser.ts:8 | the whole property pattern at q: the declaration part at the first end of the prefix, in the matcher's order, where it matches; the match starts at q and ends inside the body |
| `CsharpParser.PropertyAt` | packages/tdd-tools/src/utils/csharpParser.ts:7-8 | a property match at q starts at q and its declaration part lies inside the body; stated by `PropertyAtDeclaration` |
| `CsharpParser.PropertyAtDeclaration` | packages/tdd-tools/src/utils/csharpParser.ts:8 | there is a match at q exactly when the prefix reaches a position where the declaration part matches, and the match captures that declaration |
| `CsharpParser.GreedyDeclFirst` | packages/tdd-tools/src/utils/csharpParser.ts:8 | the greedy reading of the prefix (every attribute, the modifier, all whitespace, `virtual`/`override`) is the first end the matcher tries: if the rest matches there, the matcher returns it |
| `CsharpParser.GreedyPrefixCaptured` | packages/tdd-tools/src/utils/csharpParser.ts:8 | when the declaration part matches after the greedily read prefix, the match at q captures that declaration, whatever text the attributes hold |
| `CsharpParser.NoMatchBeforeBracket` | packages/tdd-tools/src/utils/csharpParser.ts:8 | no match starts in whitespace before a `[` where the declaration part does not match |
| `CsharpParser.NoPropertyBeforeBracket` | packages/tdd-tools/src/utils/csharpParser.ts:8 | no match starts in the leading whitespace of a body before such a `[` |
| `CsharpParser.NextPropertySkips` | packages/tdd-tools/src/utils/csharpParser.ts:19 | `exec` from a position finds the match at q when no match starts between the position and q |
| `CsharpParser.AttributedPropertyFirst` | packages/tdd-tools/src/utils/csharpParser.ts:8-19 | a body starting with an attributed property, such as `[Required(ErrorMessage = "The field {0} is required")] public string B { get; set; };`, yields that property first, with its own type and name |
| `CsharpParser.PropertyMatchShape` | packages/tdd-tools/src/utils/csharpParser.ts:8 | after any attributes, modifier and `virtual`/`override`, a captured type token is non-empty and uses only `[\w<>\[\]?]` (no spaces or commas); the name is a word |
| `CsharpParser.PropertyNeedsAccessors` | packages/tdd-tools/src/utils/csharpParser.ts:8 | a captured property has a `{` followed by `get;` and then `set;` before its end |
| `CsharpParser.NextProperty` | packages/tdd-tools/src/utils/csharpParser.ts:19 | the leftmost property match at or after a position, or none at all |
| `CsharpParser.ParseProperties` | packages/tdd-tools/src/utils/csharpParser.ts:16-27 | the inner loop returns exactly the specified property list: the successive matches of the whole property pattern, attributes and modifiers included |
| `CsharpParser.PropertiesWellFormed` | packages/tdd-tools/src/utils/csharpParser.ts:19-27 | every property has a word name, a well-formed type token, and `nullable` exactly when the token ends with `?` |
| `CsharpParser.ModelsWellFormed` | packages/tdd-tools/src/utils/csharpParser.ts:12-30 | every class from a scan position has a word name and well-formed properties |
| `CsharpParser.ParsedModelsWellFormed` | packages/tdd-tools/src/utils/csharpParser.ts:3-33 | every parsed class is well formed |
| `CsharpParser.EnumAt` | packages/tdd-tools/src/utils/csharpParser.ts:36-37 | an enum match at k lies inside the text and starts at k |
| `CsharpParser.EnumNameShape` | packages/tdd-tools/src/utils/csharpParser.ts:37 | an enum name is a non-empty run of word characters |
| `CsharpParser.EnumBodyBounds` | packages/tdd-tools/src/utils/csharpParser.ts:37 | the body sits between its `{` and the first `}` after it, and holds no `}` |
| `CsharpParser.EnumSpanBounds` | packages/tdd-tools/src/utils/csharpParser.ts:37 | the braces of an enum match are in order and the body holds no `}` |
| `CsharpParser.NextEnum` | packages/tdd-tools/src/utils/csharpParser.ts:42 | the leftmost enum match at or after a position, or none at all |
| `CsharpParser.EnumsFrom` | packages/tdd-tools/src/utils/csharpParser.ts:42-52 | the successive enum matches from a position, each search resuming after the previous `}`; the loop `ParseCSharpEnums` is proved to return it |
| `CsharpParser.ParseCSharpEnums` | packages/tdd-tools/src/utils/csharpParser.ts:35-55 | the scanning loop returns exactly the specified enum list |
| `CsharpParser.EnumValues` | packages/tdd-tools/src/utils/csharpParser.ts:45-49 | split on `,`, trim, drop the empty pieces, strip `=…` and trim again, in the source's order; stated by `EnumValuesShape` and `EnumValuesOfEntries` |
| `CsharpParser.TrimEach` | packages/tdd-tools/src/utils/csharpParser.ts:47 | each piece is trimmed, in order |
| `CsharpParser.NonEmpty` | packages/tdd-tools/src/utils/csharpParser.ts:48 | the kept pieces are non-empty pieces of the input |
| `CsharpParser.NonEmptyAppend` | packages/tdd-tools/src/utils/csharpParser.ts:48 | the filter distributes over concatenation: `NonEmpty(a + b) == NonEmpty(a) + NonEmpty(b)` |
| `CsharpParser.NonEmptySingle` | packages/tdd-tools/src/utils/csharpParser.ts:48 | a single piece is kept exactly when it is non-empty |
| `CsharpParser.NonEmptyKeepsAll` | packages/tdd-tools/src/utils/csharpParser.ts:48 | nothing is dropped when every piece is non-empty |
| `CsharpParser.StripAssignment` | packages/tdd-tools/src/utils/csharpParser.ts:49 | `replace(/=.*/, "")`: a piece without `=` is unchanged; otherwise the first `=` and what follows it up to the end of its line are removed |
| `CsharpParser.StripAssignmentOf` | packages/tdd-tools/src/utils/csharpParser.ts:49 | a piece `u = v` with no `=` in u and no line terminator in v strips to u |
| `CsharpParser.StripAssignmentSubset` | packages/tdd-tools/src/utils/csharpParser.ts:49 | stripping the assignment only removes characters |
| `CsharpParser.StripEach` | packages/tdd-tools/src/utils/csharpParser.ts:49 | each piece loses its `=` tail and is trimmed again, in order |
| `CsharpParser.EnumValuesShape` | packages/tdd-tools/src/utils/csharpParser.ts:45-49 | no enum value contains `,` and every value is already trimmed |
| `CsharpParser.EntryTrim` | packages/tdd-tools/src/utils/csharpParser.ts:47 | an enum entry with whitespace around it trims to its name and optional assignment, which is non-empty |
| `CsharpParser.EntryCoreStrip` | packages/tdd-tools/src/utils/csharpParser.ts:49 | an entry's name and optional `= value`, stripped and trimmed again, is its name |
| `CsharpParser.NameAssignmentStrip` | packages/tdd-tools/src/utils/csharpParser.ts:49 | a name followed by an optional `= value` (no line terminator in the value) strips and trims to the name |
| `CsharpParser.EntryValue` | packages/tdd-tools/src/utils/csharpParser.ts:46-49 | a well-formed entry holds no `,`, is not dropped by the filter, and cleans to its name |
| `CsharpParser.SplitEntries` | packages/tdd-tools/src/utils/csharpParser.ts:46 | splitting the entries joined by `,` (with an optional trailing comma and whitespace) gives the entry texts (plus the tail) |
| `CsharpParser.CleanEntries` | packages/tdd-tools/src/utils/csharpParser.ts:47-49 | trim, drop empties and strip turn the entry texts (with an optional whitespace tail) into the entry names |
| `CsharpParser.EnumValuesOfEntries` | packages/tdd-tools/src/utils/csharpParser.ts:45-49 | a body of entries `name` or `name = value`, each with whitespace around it, joined by `,` with an optional trailing comma, yields exactly the entry names in order |
| `CsharpToTsGenerator.ErrorMessage` | packages/tdd-tools/src/utils/csharpToTsGenerator.ts:9-29 | the three error texts; the third starts with `Found <count> class(es) with no properties: `, continues with the names joined by `, ` and ends with `. Make sure they contain auto-properties.` |
| `CsharpToTsGenerator.EmptyClassNames` | packages/tdd-tools/src/utils/csharpToTsGenerator.ts:20-27 | lists a name exactly for the classes without properties (every listed name belongs to such a class and every such class's name is listed), and is empty exactly when every class has properties |
| `CsharpToTsGenerator.EmptyClassNamesAppend` | packages/tdd-tools/src/utils/csharpToTsGenerator.ts:20-26 | the names keep parse order: the names for `a + b` are those for `a` followed by those for `b` |
| `CsharpToTsGenerator.EmptyClassNamesCount` | packages/tdd-tools/src/utils/csharpToTsGenerator.ts:20-24 | one name per class without properties, so the count in the message is the number of such classes |
| `CsharpToTsGenerator.EnumLines` | packages/tdd-tools/src/utils/csharpToTsGenerator.ts:33 | one `  V = "V",` line per value, in order |
| `CsharpToTsGenerator.PropertyLines` | packages/tdd-tools/src/utils/csharpToTsGenerator.ts:38-44 | one rendered line per property, in order |
| `CsharpToTsGenerator.Blocks` | packages/tdd-tools/src/utils/csharpToTsGenerator.ts:31-51 | all enum blocks, then all interface blocks, each group in parse order |
| `CsharpToTsGenerator.GenerateTsInterfaces` | packages/tdd-tools/src/utils/csharpToTsGenerator.ts:8-52 | empty-input, no-classes and classes-without-properties errors each exactly when their condition holds; otherwise the blocks joined by a blank line |
| `CsharpToTsGenerator.ErrorMessagesDistinct` | packages/tdd-tools/src/utils/csharpToTsGenerator.ts:10-28 | the three outcomes have different texts |
| `CsharpToTsGenerator.SucceedsIff` | packages/tdd-tools/src/utils/csharpToTsGenerator.ts:9-29 | success exactly when the input is not blank, some class is found and every class has a property |
| `CsharpToTsGenerator.EnumsAloneFail` | packages/tdd-tools/src/utils/csharpToTsGenerator.ts:13-18 | enums without classes still fail with the no-classes error |
| `CsharpToTsGenerator.SuccessMeansProperties` | packages/tdd-tools/src/utils/csharpToTsGenerator.ts:20-29 | on success every parsed class has properties and is well formed |
| `CsharpToTsGenerator.BlockLines` | packages/tdd-tools/src/utils/csharpToTsGenerator.ts:32-34 | for a single-line header and a non-empty list of single-line lines, a block splits into its header, its lines and `}` |
| `CsharpToTsGenerator.EnumBlockHeader` | packages/tdd-tools/src/utils/csharpToTsGenerator.ts:32 | an enum block starts with `export enum N {` and a line break |
| `CsharpToTsGenerator.EnumBlockLines` | packages/tdd-tools/src/utils/csharpToTsGenerator.ts:31-35 | for an enum with at least one value, a word-character name and no value containing a line break, the enum block splits into its header, one line per value in order, then `}` |
| `CsharpToTsGenerator.CamelCaseSingleLine` | packages/tdd-tools/src/utils/csharpToTsGenerator.ts:41 | a camel-cased word name stays on one line |
| `CsharpToTsGenerator.PropertyLineSingle` | packages/tdd-tools/src/utils/csharpToTsGenerator.ts:38-44 | a rendered property is one line |
| `CsharpToTsGenerator.InterfaceBlockLines` | packages/tdd-tools/src/utils/csharpToTsGenerator.ts:46-48 | for a well-formed class (as the parser produces) with at least one property, the interface block splits into its header, one line per property in order, then `}` |
| `CsharpToTsGenerator.OptionalMarker` | packages/tdd-tools/src/utils/csharpToTsGenerator.ts:40-43 | the property line starts with two spaces and the camel-cased name, followed by `?` exactly when the property is nullable |
| `CsharpToTsGenerator.OutputBlocks` | packages/tdd-tools/src/utils/csharpToTsGenerator.ts:37-51 | on success the output is the blocks joined by a blank line, and interface block j lists class j's properties in order |
| `FaviconIco.EncodeLE` | packages/tdd-tools/src/utils/faviconIcoUtil.ts:18-20 | a little-endian encoding of the given width |
| `FaviconIco.DecodeEncode` | packages/tdd-tools/src/utils/faviconIcoUtil.ts:18-20 | decoding an encoding gives the value modulo 256^width (the setters' wrap-around) |
| `FaviconIco.U16` | packages/tdd-tools/src/utils/faviconIcoUtil.ts:18-20 | a `setUint16(…, true)` value is two bytes |
| `FaviconIco.U32` | packages/tdd-tools/src/utils/faviconIcoUtil.ts:39-40 | a `setUint32(…, true)` value is four bytes |
| `FaviconIco.U16Value` | packages/tdd-tools/src/utils/faviconIcoUtil.ts:18-20 | reading back two written bytes gives the value modulo 2^16 |
| `FaviconIco.U32Value` | packages/tdd-tools/src/utils/faviconIcoUtil.ts:39-40 | reading back four written bytes gives the value modulo 2^32 |
| `FaviconIco.SetUint16` | packages/tdd-tools/src/utils/faviconIcoUtil.ts:18-20 | writes the two bytes at the position and nothing else |
| `FaviconIco.SetUint32` | packages/tdd-tools/src/utils/faviconIcoUtil.ts:39-40 | writes the four bytes at the position and nothing else |
| `FaviconIco.SetBytes` | packages/tdd-tools/src/utils/faviconIcoUtil.ts:56-67 | `result.set`: copies the bytes at the position and nothing else |
| `FaviconIco.MakeHeader` | packages/tdd-tools/src/utils/faviconIcoUtil.ts:15-20 | the 6-byte header: reserved 0, type 1, image count |
| `FaviconIco.MakeEntry` | packages/tdd-tools/src/utils/faviconIcoUtil.ts:29-40 | the 16-byte directory entry of one image at one offset |
| `FaviconIco.Entries` | packages/tdd-tools/src/utils/faviconIcoUtil.ts:25-46 | one entry per image |
| `FaviconIco.MakeEntries` | packages/tdd-tools/src/utils/faviconIcoUtil.ts:22-46 | the loop builds every entry with running offsets and keeps the images in order |
| `FaviconIco.SetAll` | packages/tdd-tools/src/utils/faviconIcoUtil.ts:59-67 | the copy loops write the pieces one after another and end at the summed length |
| `FaviconIco.CreateFaviconIco` | packages/tdd-tools/src/utils/faviconIcoUtil.ts:9-67 | the output buffer is exactly header, entries, images |
| `FaviconIco.EntriesLength` | packages/tdd-tools/src/utils/faviconIcoUtil.ts:50 | the entries take 16 bytes per image |
| `FaviconIco.ConcatLength` | packages/tdd-tools/src/utils/faviconIcoUtil.ts:51 | the images take the sum of their lengths |
| `FaviconIco.IcoLength` | packages/tdd-tools/src/utils/faviconIcoUtil.ts:48-53 | the file is `6 + 16n + sum of image lengths` bytes long |
| `FaviconIco.IcoHeader` | packages/tdd-tools/src/utils/faviconIcoUtil.ts:15-20 | the file reads back reserved 0, type 1 and the image count modulo 2^16 |
| `FaviconIco.EntryDimensions` | packages/tdd-tools/src/utils/faviconIcoUtil.ts:26-38 | bytes 0 and 1 are PNG bytes 16 and 20 (0 past the end), bytes 2-3 are 0, planes 1 and bit count 32 |
| `FaviconIco.EntryFields` | packages/tdd-tools/src/utils/faviconIcoUtil.ts:39-40 | the entry's size and offset fields hold the image length and its offset |
| `FaviconIco.EntryAt` | packages/tdd-tools/src/utils/faviconIcoUtil.ts:56-62 | entry k sits at `6 + 16k` |
| `FaviconIco.EntryFieldsInFile` | packages/tdd-tools/src/utils/faviconIcoUtil.ts:39-42 | entry k's size and offset read back as the image length and the running offset, modulo 2^32 |
| `FaviconIco.ImageAt` | packages/tdd-tools/src/utils/faviconIcoUtil.ts:64-67 | image k's bytes sit verbatim at its running offset |
| `FaviconIco.ReadBackImage` | packages/tdd-tools/src/utils/faviconIcoUtil.ts:39-67 | reading entry k's offset and size from the file gives back exactly image k |
| `SqlTableGenerator.SetChangesOnlyItsKey` | packages/tdd-tools/src/components/SqlTableGenerator/SqlTableGenerator.tsx:89-93 | setting one field of a column changes that field and no other |
| `SqlTableGenerator.ColumnsEqualByFields` | packages/tdd-tools/src/components/SqlTableGenerator/SqlTableGenerator.tsx:24-31 | a column is determined by its six fields |
| `SqlTableGenerator.RemoveAt` | packages/tdd-tools/src/components/SqlTableGenerator/SqlTableGenerator.tsx:80-82 | an index in range removes one column; any other index changes nothing |
| `SqlTableGenerator.RemoveAtKeepsOthers` | packages/tdd-tools/src/components/SqlTableGenerator/SqlTableGenerator.tsx:80-82 | the other columns keep their order, and the removed column is the only one missing |
| `SqlTableGenerator.NormalizedNames` | packages/tdd-tools/src/components/SqlTableGenerator/SqlTableGenerator.tsx:186 | each column name trimmed and lower-cased, in order |
| `SqlTableGenerator.ElemSetMembers` | packages/tdd-tools/src/components/SqlTableGenerator/SqlTableGenerator.tsx:186 | the set of the names holds exactly the names |
| `SqlTableGenerator.ElemSetSize` | packages/tdd-tools/src/components/SqlTableGenerator/SqlTableGenerator.tsx:186-187 | the set's size equals the column count exactly when the names are pairwise distinct |
| `SqlTableGenerator.IsValid` | packages/tdd-tools/src/components/SqlTableGenerator/SqlTableGenerator.tsx:177-187 | the form's validity check; stated both ways by `IsValidIff` |
| `SqlTableGenerator.IsValidIff` | packages/tdd-tools/src/components/SqlTableGenerator/SqlTableGenerator.tsx:177-187 | valid exactly when the table name is not blank, there is a column, every column is complete and the normalised names are pairwise distinct |
| `SqlTableGenerator.AddColumnInvalidates` | packages/tdd-tools/src/components/SqlTableGenerator/SqlTableGenerator.tsx:66-78 | right after adding a column the form is invalid, since the new name is blank |
| `SqlTableGenerator.ValidHasTableName` | packages/tdd-tools/src/components/SqlTableGenerator/SqlTableGenerator.tsx:177-178 | a valid form has a non-empty table name, so generating is never a no-op then |
| `SqlTableGenerator.StringTypeIff` | packages/tdd-tools/src/components/SqlTableGenerator/SqlTableGenerator.tsx:109-111 | a type is a string type exactly when its upper-cased text contains `CHAR` or `TEXT` |
| `SqlTableGenerator.EscapeQuotes` | packages/tdd-tools/src/components/SqlTableGenerator/SqlTableGenerator.tsx:112 | escaping never shortens the text |
| `SqlTableGenerator.EscapeRoundTrip` | packages/tdd-tools/src/components/SqlTableGenerator/SqlTableGenerator.tsx:112 | every `'` is doubled: the result is well escaped and unescapes back to the input |
| `SqlTableGenerator.FormatDefaultValue` | packages/tdd-tools/src/components/SqlTableGenerator/SqlTableGenerator.tsx:96-99 | the result is empty exactly when the value is blank |
| `SqlTableGenerator.FormatDefaultQuoting` | packages/tdd-tools/src/components/SqlTableGenerator/SqlTableGenerator.tsx:96-116 | the trimmed value is changed exactly when it is non-blank, not NULL/`()`/`'`-led, and the type is a string type; then it is quoted and unescapes back |
| `SqlTableGenerator.ColumnParts` | packages/tdd-tools/src/components/SqlTableGenerator/SqlTableGenerator.tsx:130-140 | name and type, then NULL or NOT NULL, then, exactly when a default is set, `CONSTRAINT DF_<table>_<column> DEFAULT ` followed by the formatted default |
| `SqlTableGenerator.ColumnDef` | packages/tdd-tools/src/components/SqlTableGenerator/SqlTableGenerator.tsx:130-142 | the parts joined by a space; their content is stated by `ColumnParts` |
| `SqlTableGenerator.ColumnDefs` | packages/tdd-tools/src/components/SqlTableGenerator/SqlTableGenerator.tsx:127-144 | the identity column first, then one definition per column in order |
| `SqlTableGenerator.ForeignKeys` | packages/tdd-tools/src/components/SqlTableGenerator/SqlTableGenerator.tsx:146-151 | at most one constraint per column |
| `SqlTableGenerator.ForeignKeysAppend` | packages/tdd-tools/src/components/SqlTableGenerator/SqlTableGenerator.tsx:146-151 | the constraints follow the rows' order: those for `a + b` are those for `a` followed by those for `b` |
| `SqlTableGenerator.ForeignKeyDef` | packages/tdd-tools/src/components/SqlTableGenerator/SqlTableGenerator.tsx:150 | the text of one foreign-key constraint; stated by `ForeignKeyReferencesDbo` |
| `SqlTableGenerator.ForeignKeysSound` | packages/tdd-tools/src/components/SqlTableGenerator/SqlTableGenerator.tsx:146-151 | every constraint belongs to a column that has both an FK table and an FK column |
| `SqlTableGenerator.ForeignKeysComplete` | packages/tdd-tools/src/components/SqlTableGenerator/SqlTableGenerator.tsx:146-151 | every such column gets its constraint |
| `SqlTableGenerator.ForeignKeyReferencesDbo` | packages/tdd-tools/src/components/SqlTableGenerator/SqlTableGenerator.tsx:150 | a constraint always references `[dbo]` |
| `SqlTableGenerator.DefinitionsList` | packages/tdd-tools/src/components/SqlTableGenerator/SqlTableGenerator.tsx:164-167 | columns, primary key and foreign keys form one list joined by `,\n        ` |
| `SqlTableGenerator.CreateTableSql` | packages/tdd-tools/src/components/SqlTableGenerator/SqlTableGenerator.tsx:153-170 | the trimmed `CREATE TABLE` template for a form; stated by `TrimScript` and `CreateTableSqlIsBody` |
| `SqlTableGenerator.TrimSurroundingNewlines` | packages/tdd-tools/src/components/SqlTableGenerator/SqlTableGenerator.tsx:170 | trimming removes only the surrounding line breaks of the template |
| `SqlTableGenerator.TrimScript` | packages/tdd-tools/src/components/SqlTableGenerator/SqlTableGenerator.tsx:153-170 | the trimmed template is the script body |
| `SqlTableGenerator.CreateTableSqlIsBody` | packages/tdd-tools/src/components/SqlTableGenerator/SqlTableGenerator.tsx:153-170 | the script starts with the existence check and ends with `);\nEND` |
| `SqlTableGenerator.NextSql` | packages/tdd-tools/src/components/SqlTableGenerator/SqlTableGenerator.tsx:118-172 | an empty table name keeps the current script; otherwise the new script is generated |
| `SqlTableGenerator.TableGenerator.constructor` | packages/tdd-tools/src/components/SqlTableGenerator/SqlTableGenerator.tsx:48-60 | empty table name, schema `dbo`, one new column, no script |
| `SqlTableGenerator.TableGenerator.SetTableName` | packages/tdd-tools/src/components/SqlTableGenerator/SqlTableGenerator.tsx:62-64 | sets the name; the script is cleared when the name changes |
| `SqlTableGenerator.TableGenerator.SetSchema` | packages/tdd-tools/src/components/SqlTableGenerator/SqlTableGenerator.tsx:62-64 | sets the schema; the script is cleared when the schema changes |
| `SqlTableGenerator.TableGenerator.AddColumn` | packages/tdd-tools/src/components/SqlTableGenerator/SqlTableGenerator.tsx:66-78 | appends the default column, keeps the others, clears the script |
| `SqlTableGenerator.TableGenerator.RemoveColumn` | packages/tdd-tools/src/components/SqlTableGenerator/SqlTableGenerator.tsx:80-82 | removes the column at the index (none when out of range), clears the script |
| `SqlTableGenerator.TableGenerator.UpdateColumn` | packages/tdd-tools/src/components/SqlTableGenerator/SqlTableGenerator.tsx:84-94 | changes one field of one column, clears the script |
| `SqlTableGenerator.TableGenerator.GenerateSql` | packages/tdd-tools/src/components/SqlTableGenerator/SqlTableGenerator.tsx:118-173 | no-op for an empty table name; otherwise the script for the current form; the form is unchanged |
| `JsonToCSharp.ValueAt` | packages/tdd-tools/src/components/JsonToCSharpTool/JsonToCSharpTool.tsx:68-70 | the value under a key is structurally smaller than the object (or a one-character string), so the recursion terminates |
| `JsonToCSharp.PascalCase` | packages/tdd-tools/src/components/JsonToCSharpTool/JsonToCSharpTool.tsx:41-42 | never longer than its input |
| `JsonToCSharp.CapitalizeAfterUnderscores` | packages/tdd-tools/src/components/JsonToCSharpTool/JsonToCSharpTool.tsx:42 | never longer than its input |
| `JsonToCSharp.SanitizePropertyName` | packages/tdd-tools/src/components/JsonToCSharpTool/JsonToCSharpTool.tsx:36-39 | without PascalCasing the name is the cleaned key; with or without, only word characters remain |
| `JsonToCSharp.CleanedIff` | packages/tdd-tools/src/components/JsonToCSharpTool/JsonToCSharpTool.tsx:37 | cleaning keeps the length, leaves only word characters, and changes the key exactly when it has a non-word character |
| `JsonToCSharp.AfterUnderscoresPreservesWords` | packages/tdd-tools/src/components/JsonToCSharpTool/JsonToCSharpTool.tsx:42 | capitalising after underscores keeps a name made of word characters |
| `JsonToCSharp.PascalCasePreservesWords` | packages/tdd-tools/src/components/JsonToCSharpTool/JsonToCSharpTool.tsx:41-42 | PascalCasing keeps a name made of word characters |
| `JsonToCSharp.Capitalize` | packages/tdd-tools/src/components/JsonToCSharpTool/JsonToCSharpTool.tsx:42 | upper-cases the first character of a segment and keeps the rest |
| `JsonToCSharp.PascalCaseSegments` | packages/tdd-tools/src/components/JsonToCSharpTool/JsonToCSharpTool.tsx:41-42 | `a_b_c` (segments without underscores) becomes the segments capitalised and concatenated |
| `JsonToCSharp.PascalCaseLeadingUnderscore` | packages/tdd-tools/src/components/JsonToCSharpTool/JsonToCSharpTool.tsx:42 | a leading `_x` only loses its underscore: `x` stays lower case |
| `JsonToCSharp.ToCSharpType` | packages/tdd-tools/src/components/JsonToCSharpTool/JsonToCSharpTool.tsx:44-62 | `toCSharpType`; stated by `BaseType`, `ToCSharpTypeShape` and `ArrayTypeIff` |
| `JsonToCSharp.BaseType` | packages/tdd-tools/src/components/JsonToCSharpTool/JsonToCSharpTool.tsx:44-62 | the element type is one of object, string, int, double, bool |
| `JsonToCSharp.ToCSharpTypeShape` | packages/tdd-tools/src/components/JsonToCSharpTool/JsonToCSharpTool.tsx:44-62 | the type is the innermost first-element type plus one `[]` per array level |
| `JsonToCSharp.ArrayTypeIff` | packages/tdd-tools/src/components/JsonToCSharpTool/JsonToCSharpTool.tsx:46-48 | the type ends with `[]` exactly when the value is an array |
| `JsonToCSharp.DefaultValue` | packages/tdd-tools/src/components/JsonToCSharpTool/JsonToCSharpTool.tsx:91-99 | the initialiser chosen from the type name; `DefaultFor` states it for each kind of JSON value |
| `JsonToCSharp.DefaultFor` | packages/tdd-tools/src/components/JsonToCSharpTool/JsonToCSharpTool.tsx:91-99 | default `""` for strings, `false` for booleans, `[]` for arrays and `0` for everything else, null and objects included |
| `JsonToCSharp.KindOf` | packages/tdd-tools/src/components/JsonToCSharpTool/JsonToCSharpTool.tsx:72-83 | which of the three branches a value takes: a non-null, non-array object; an array whose first element has `typeof` "object"; anything else; stated through `NestedObjectProperty`, `ObjectArrayProperty` and `DefaultFor` |
| `JsonToCSharp.PropertyLines` | packages/tdd-tools/src/components/JsonToCSharpTool/JsonToCSharpTool.tsx:68-103 | one property line per key |
| `JsonToCSharp.PropertyLineAt` | packages/tdd-tools/src/components/JsonToCSharpTool/JsonToCSharpTool.tsx:68-103 | line i renders key i and its value, in key order |
| `JsonToCSharp.NestedClasses` | packages/tdd-tools/src/components/JsonToCSharpTool/JsonToCSharpTool.tsx:68-104 | the nested class texts of the first n keys, in key order; the loop `CollectKeys` is proved to return it and `NestedPreOrder` states its pre-order |
| `JsonToCSharp.ClassesOfKey` | packages/tdd-tools/src/components/JsonToCSharpTool/JsonToCSharpTool.tsx:72-89 | at most one nested class per key |
| `JsonToCSharp.NestedObjectProperty` | packages/tdd-tools/src/components/JsonToCSharpTool/JsonToCSharpTool.tsx:72-78 | an object value gives a class named after the property and a line ending in `= new Name();` |
| `JsonToCSharp.ObjectArrayProperty` | packages/tdd-tools/src/components/JsonToCSharpTool/JsonToCSharpTool.tsx:79-89 | an array whose first element is an object, array or null gives class `NameItem` from that element only, and a line ending in `= [];` |
| `JsonToCSharp.VisitKey` | packages/tdd-tools/src/components/JsonToCSharpTool/JsonToCSharpTool.tsx:69-103 | one loop step: the property line and the nested class of key i |
| `JsonToCSharp.CollectKeys` | packages/tdd-tools/src/components/JsonToCSharpTool/JsonToCSharpTool.tsx:68-104 | the `for…in` loop collects every property line and nested class in key order |
| `JsonToCSharp.GenerateCSharp` | packages/tdd-tools/src/components/JsonToCSharpTool/JsonToCSharpTool.tsx:64-108 | the recursive generator returns the specified class text |
| `JsonToCSharp.GenerateStartsWithRoot` | packages/tdd-tools/src/components/JsonToCSharpTool/JsonToCSharpTool.tsx:106-107 | the output starts with the root class and all its property lines |
| `JsonToCSharp.GeneratePreOrder` | packages/tdd-tools/src/components/JsonToCSharpTool/JsonToCSharpTool.tsx:64-108 | the output is every class in pre-order (root, then each nested class followed by its own nested classes), joined by a blank line |
| `JsonToCSharp.NestedPreOrder` | packages/tdd-tools/src/components/JsonToCSharpTool/JsonToCSharpTool.tsx:68-104 | the nested-class text of the first n keys flattens to their pre-order class lists |
| `JsonToCSharp.KeyPreOrder` | packages/tdd-tools/src/components/JsonToCSharpTool/JsonToCSharpTool.tsx:72-89 | a key contributes no class, or one text that is its own pre-order list joined |
| `RandomDraws.Pick` | packages/tdd-tools/src/hooks/use-password-generator.tsx:31-33 | `Math.floor(Math.random() * n)` is an index below n |
| `PasswordGenerator.Charset` | packages/tdd-tools/src/hooks/use-password-generator.tsx:13-22 | the enabled classes' characters in the fixed order; stated by `CharsetMembers` and `CharsetEmptyIff` |
| `PasswordGenerator.CharsetMembers` | packages/tdd-tools/src/hooks/use-password-generator.tsx:13-22 | a character is available exactly when its class is enabled |
| `PasswordGenerator.CharsetEmptyIff` | packages/tdd-tools/src/hooks/use-password-generator.tsx:18-24 | the set is empty exactly when every class is disabled |
| `PasswordGenerator.Password` | packages/tdd-tools/src/hooks/use-password-generator.tsx:29-35 | the password from n draws has n characters |
| `PasswordGenerator.PasswordFromCharset` | packages/tdd-tools/src/hooks/use-password-generator.tsx:30-34 | every character of a password is in the character set |
| `PasswordGenerator.Score` | packages/tdd-tools/src/hooks/use-password-generator.tsx:41-48 | six one-point criteria, so the score is at most 6 |
| `PasswordGenerator.Classify` | packages/tdd-tools/src/hooks/use-password-generator.tsx:50-57 | `Weak` up to 2, `Moderate` up to 4, `Strong` above; stated by `StrongNeedsEight` and `PasswordGenerator.PasswordGenerator.AssessStrength` |
| `PasswordGenerator.StrongNeedsEight` | packages/tdd-tools/src/hooks/use-password-generator.tsx:43-56 | a `Strong` password has at least 8 characters |
| `PasswordGenerator.FullMarks` | packages/tdd-tools/src/hooks/use-password-generator.tsx:42-48 | score 6 exactly when the length is at least 12 and all four classes appear |
| `PasswordGenerator.GeneratedSymbolsScore` | packages/tdd-tools/src/hooks/use-password-generator.tsx:48 | every symbol the generator can use counts as a symbol for the score |
| `PasswordGenerator.PasswordGenerator.constructor` | packages/tdd-tools/src/hooks/use-password-generator.tsx:4-10 | length 15, all classes enabled, empty password and strength |
| `PasswordGenerator.PasswordGenerator.Characters` | packages/tdd-tools/src/hooks/use-password-generator.tsx:18-22 | the classes appended in the fixed order give the character set |
| `PasswordGenerator.PasswordGenerator.Generate` | packages/tdd-tools/src/hooks/use-password-generator.tsx:29-35 | the loop builds the password of `max(length, 0)` characters from the draws |
| `PasswordGenerator.PasswordGenerator.CountScore` | packages/tdd-tools/src/hooks/use-password-generator.tsx:42-48 | the incremented counter equals the score |
| `PasswordGenerator.PasswordGenerator.AssessStrength` | packages/tdd-tools/src/hooks/use-password-generator.tsx:41-57 | the strength becomes the classification of the score; nothing else changes |
| `PasswordGenerator.PasswordGenerator.GeneratePassword` | packages/tdd-tools/src/hooks/use-password-generator.tsx:12-39 | an empty set clears the password and keeps the strength; otherwise the password is built from the set and its strength assessed; the settings are unchanged |
| `Palette.ToHex` | packages/tdd-tools/src/components/PaletteGeneratorTool/PaletteGeneratorTool.tsx:22 | `toString(16)` gives non-empty lower-case hex digits whose first digit is `0` exactly when the number is 0 (no leading zeros) |
| `Palette.DigitRoundTrip` | packages/tdd-tools/src/components/PaletteGeneratorTool/PaletteGeneratorTool.tsx:22 | each hex digit reads back as its value |
| `Palette.HexRoundTrip` | packages/tdd-tools/src/components/PaletteGeneratorTool/PaletteGeneratorTool.tsx:22 | the digits read back as the number |
| `Palette.ToHexLength` | packages/tdd-tools/src/components/PaletteGeneratorTool/PaletteGeneratorTool.tsx:21-23 | a number below 16^k has at most k digits |
| `Palette.PadStart6` | packages/tdd-tools/src/components/PaletteGeneratorTool/PaletteGeneratorTool.tsx:23 | `padStart(6, "0")` gives at least six hex digits, exactly six for shorter input |
| `Palette.LeadingZeros` | packages/tdd-tools/src/components/PaletteGeneratorTool/PaletteGeneratorTool.tsx:23 | leading zeros do not change the value read back |
| `Palette.HexColor` | packages/tdd-tools/src/components/PaletteGeneratorTool/PaletteGeneratorTool.tsx:20-23 | `#` and the digits padded to six; stated by `HexColorShape` |
| `Palette.HexColorShape` | packages/tdd-tools/src/components/PaletteGeneratorTool/PaletteGeneratorTool.tsx:20-23 | a colour is `#` and exactly six lower-case hex digits that read back as the number |
| `Palette.WhiteUnreachable` | packages/tdd-tools/src/components/PaletteGeneratorTool/PaletteGeneratorTool.tsx:20-23 | with the source's scale no draw yields `#ffffff` |
| `Palette.EveryColorReachable` | packages/tdd-tools/src/components/PaletteGeneratorTool/PaletteGeneratorTool.tsx:20-23 | with the corrected scale every colour is produced by some draw |
| `Palette.GeneratedColorAccepted` | packages/tdd-tools/src/components/PaletteGeneratorTool/PaletteGeneratorTool.tsx:49-50 | every generated colour passes the hex-edit check and is stored unchanged |
| `Palette.InitialPalette` | packages/tdd-tools/src/components/PaletteGeneratorTool/PaletteGeneratorTool.tsx:31-33 | five unlocked entries, one per draw; stated by `InitialPaletteShape` |
| `Palette.InitialPaletteShape` | packages/tdd-tools/src/components/PaletteGeneratorTool/PaletteGeneratorTool.tsx:31-33 | five entries, all unlocked, all well-formed colours |
| `Palette.Regenerated` | packages/tdd-tools/src/components/PaletteGeneratorTool/PaletteGeneratorTool.tsx:36-40 | each unlocked entry gets the colour of its draw, locked ones are kept; stated by `RegeneratedKeepsLocked` |
| `Palette.RegeneratedKeepsLocked` | packages/tdd-tools/src/components/PaletteGeneratorTool/PaletteGeneratorTool.tsx:36-40 | length and locks kept, locked entries identical, unlocked ones get a well-formed colour |
| `Palette.Toggled` | packages/tdd-tools/src/components/PaletteGeneratorTool/PaletteGeneratorTool.tsx:42-46 | the lock of one entry flipped; stated by `ToggledFlipsOnly` |
| `Palette.ToggledFlipsOnly` | packages/tdd-tools/src/components/PaletteGeneratorTool/PaletteGeneratorTool.tsx:42-46 | only entry i's lock flips, an index outside the palette changes nothing, and toggling twice restores the palette |
| `Palette.HexUpdated` | packages/tdd-tools/src/components/PaletteGeneratorTool/PaletteGeneratorTool.tsx:48-54 | the filter, the `#` prefixing and the one-entry update; stated by `HexUpdatedEffect` |
| `Palette.HexUpdatedEffect` | packages/tdd-tools/src/components/PaletteGeneratorTool/PaletteGeneratorTool.tsx:48-54 | a rejected value changes nothing; an accepted one replaces only entry i's hex, with `#` added when missing and at most 7 characters |
| `Palette.WithHashAccepted` | packages/tdd-tools/src/components/PaletteGeneratorTool/PaletteGeneratorTool.tsx:49-53 | an accepted edit is still accepted once the missing `#` is added |
| `Palette.AcceptedHasNoLineBreak` | packages/tdd-tools/src/components/PaletteGeneratorTool/PaletteGeneratorTool.tsx:49-50 | a value the edit check accepts holds no line break |
| `Palette.AllAcceptedNoLineBreak` | packages/tdd-tools/src/components/PaletteGeneratorTool/PaletteGeneratorTool.tsx:49-50 | when every entry's hex is accepted, no hex holds a line break |
| `Palette.EditsKeepAccepted` | packages/tdd-tools/src/components/PaletteGeneratorTool/PaletteGeneratorTool.tsx:36-54 | regeneration, toggling and hex edits keep every entry's hex accepted by the edit check |
| `Palette.CssLines` | packages/tdd-tools/src/components/PaletteGeneratorTool/PaletteGeneratorTool.tsx:66-67 | one declaration per entry |
| `Palette.CssVariables` | packages/tdd-tools/src/components/PaletteGeneratorTool/PaletteGeneratorTool.tsx:65-68 | the declarations joined by line breaks; stated by `CssVariablesLines` |
| `Palette.CssVariablesLines` | packages/tdd-tools/src/components/PaletteGeneratorTool/PaletteGeneratorTool.tsx:65-68 | the export splits back into `--color-{i+1}: {hex};` lines, one per entry, in order |
| `Palette.PaletteGenerator.constructor` | packages/tdd-tools/src/components/PaletteGeneratorTool/PaletteGeneratorTool.tsx:31-33 | the array holds the initial palette, and the invariant holds: five entries whose hex texts pass the edit check |
| `Palette.PaletteGenerator.Regenerate` | packages/tdd-tools/src/components/PaletteGeneratorTool/PaletteGeneratorTool.tsx:36-40 | the array becomes the regenerated palette; the invariant is kept |
| `Palette.PaletteGenerator.ToggleLock` | packages/tdd-tools/src/components/PaletteGeneratorTool/PaletteGeneratorTool.tsx:42-46 | the array becomes the toggled palette; the invariant is kept |
| `Palette.PaletteGenerator.UpdateHex` | packages/tdd-tools/src/components/PaletteGeneratorTool/PaletteGeneratorTool.tsx:48-54 | the array becomes the edited palette; the invariant is kept |
| `Palette.PaletteGenerator.ExportCss` | packages/tdd-tools/src/components/PaletteGeneratorTool/PaletteGeneratorTool.tsx:65-68 | the exported text splits back into one declaration per entry, in order, for every palette satisfying the invariant (and for any non-empty palette whose hex texts hold no line break) |

## Left out

- Rendering, routing, theming and the React state plumbing are not modelled. A state setter is a direct assignment to a field.
- I/O is not modelled:
  - the `fetch` of PNG data URLs (`faviconIcoUtil.ts` lines 2-7): the PNG bytes are inputs;
  - the `Blob` and object-URL downloads (`faviconIcoUtil.ts` line 69, `PaletteGeneratorTool.tsx` lines 69-75);
  - clipboard writes, timers and snackbar state.
- `useEffect` reactions:
  - The SQL tool's reset of the script is modelled: every editing method clears `sql`.
  - The password hook's regeneration when a setting changes is not. `GeneratePassword` is the operation, and the setters are plain field writes that are not modelled.
  - The JSON tool's output reset is not. `generate`'s `JSON.parse` and its error message are not modelled either: the generator starts from a parsed `Json` value.
- JSON numbers carry only whether they are integers. That flag is the only part of a number that affects the output.
- JSON object members keep the order a `for…in` loop would visit them in. The engine's reordering of integer-like keys and the handling of duplicate keys are not modelled.
- `Math.random()` is a supplied draw `u < 2^53` standing for `u / 2^53`. The product with the range and the floor are taken exactly, not in floating point.
- `PasswordGenerator.PasswordGenerator.GeneratePassword`: `length` is an integer. A fractional length, which the JavaScript loop would round up, is not modelled.
- `Palette.PaletteGenerator.constructor`: draws its colours through the corrected `Palette.RandomHex`, which scales the draw by 2^24, not through the tool's `Math.random() * 0xffffff` (`Palette.RandomHexAsWritten`). For a given draw the two can differ by one colour step (the draw 2^52 gives `#800000` here and `#7fffff` in the tool), and the tool never produces `#ffffff` (see "## Findings").
- `Palette.InitialPalette`: uses the corrected scale for the same reason.
- `Palette.Regenerated`: uses the corrected scale for the same reason.
- `Palette.PaletteGenerator.Regenerate`: uses the corrected scale for the same reason. It also takes one draw per position, including locked positions. A locked position ignores its draw, whereas the source calls `randomHex` only for unlocked entries. This changes which draw an entry uses, not which colours can appear.
- `SqlTableGenerator.TableGenerator.UpdateColumn`: requires an existing row index. The editor only calls it for existing rows. An index past the end would make the JavaScript array sparse, with a partial column at that index; the `Column` datatype has no such value.
- `FaviconIco.ReadBackImage`: requires the file to be smaller than 2^32 bytes. The size and offset fields are uint32 and wrap beyond that. The wrap itself is modelled (`FaviconIco.EntryFieldsInFile`).
- The favicon's `=== 256` branches compare a byte with 256, so they can never fire and are not modelled. A PNG shorter than 21 bytes reads width or height 0, as the out-of-range `Uint8Array` read converts to 0.
- `CsharpTypeMapper.Lookup`: returns the token for every name outside the table. The source reads `primitiveMap[type] ?? type` from a plain object literal, so a name that the object inherits from `Object.prototype` gives the inherited value instead. `toString` or `constructor` gives a function, which the template renders as its source text (`function toString() { [native code] }`). `__proto__` gives an object, rendered as `[object Object]`. The rendering of native functions is engine-defined, so these names are not modelled.
- `JsonToCSharp.SanitizePropertyName`: a Dafny `char` is a Unicode scalar value, whereas a JavaScript string is a sequence of UTF-16 code units. A key holding a character outside the Basic Multilingual Plane, such as `"😀"`, is cleaned to one `_` here, while `replace(/[^a-zA-Z0-9_]/g, "_")` replaces each of its two code units and gives `"__"`. Keys within the Basic Multilingual Plane are cleaned exactly.
- `JsonToCSharp.ValueAt`: for the same reason, a `for…in` loop over a string root enumerates UTF-16 code units, while the model enumerates characters. The two agree on strings within the Basic Multilingual Plane.
- Case mapping is ASCII only. The JavaScript `toUpperCase`/`toLowerCase` also map non-ASCII letters. The `\w`, `\d`, `[A-Z]` and `[a-z]` classes are ASCII in JavaScript too, so they are modelled exactly.

## Findings

| source | as written | input that shows it | evidently intended | confidence | as-written member | corrected member |
|---|---|---|---|---|---|---|
| packages/tdd-tools/src/components/PaletteGeneratorTool/PaletteGeneratorTool.tsx:21 | `randomHex` scales `Math.random()` by `0xffffff`, so the largest colour number it can produce is `0xfffffe` | any draw: `#ffffff` is never produced | scale by `0x1000000`, so that all 2^24 colours can appear | high; not executed | `Palette.RandomHexAsWritten` with `Palette.WhiteUnreachable` | `Palette.RandomHex` with `Palette.EveryColorReachable` (the palette uses this one) |
