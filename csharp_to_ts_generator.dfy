/** `generateTsInterfaces`: three guards on the input and on the parse result, then
    one `export enum` block per parsed enum followed by one `export interface` block
    per parsed class, joined by a blank line. The source builds the blocks with
    template literals; the line breaks inside them are `\n`. */
module CsharpToTsGenerator {
  import opened Strings
  import opened CsharpTypes
  import opened CsharpTypeMapper
  import opened CsharpParser

  /** The three ways the generator refuses its input. */
  datatype GenError =
    | EmptyInput
    | NoClassesFound
    | ClassesWithoutProperties(names: seq<string>)

  datatype Result<T> = Ok(value: T) | Err(error: GenError)

  /** The text of the `Error` the generator throws. */
  function ErrorMessage(e: GenError): (m: string)
    ensures e.EmptyInput? ==> m == "Please paste your C# models."
    ensures e.NoClassesFound? ==> m == "No C# classes or records were found."
    ensures e.ClassesWithoutProperties? ==>
      StartsWith(m, "Found " + NatToString(|e.names|) + " class(es) with no properties: ")
      && EndsWith(m, ". Make sure they contain auto-properties.")
    ensures e.ClassesWithoutProperties? ==>
      var head := "Found " + NatToString(|e.names|) + " class(es) with no properties: ";
      |head| + 41 <= |m| && m[|head|..|m| - 41] == Join(e.names, ", ")
  {
    match e
    case EmptyInput => "Please paste your C# models."
    case NoClassesFound => "No C# classes or records were found."
    case ClassesWithoutProperties(names) =>
      var head := "Found " + NatToString(|names|) + " class(es) with no properties: ";
      var tail := ". Make sure they contain auto-properties.";
      var m := head + Join(names, ", ") + tail;
      assert m[..|head|] == head;
      assert m[|m| - |tail|..] == tail;
      assert |tail| == 41 && m[|head|..|m| - |tail|] == Join(names, ", ");
      m
  }

  /** The names of the classes without properties, in parse order. */
  function EmptyClassNames(cs: seq<CsClass>): (names: seq<string>)
    ensures |names| <= |cs|
    ensures forall n | n in names :: exists c | c in cs :: c.name == n && c.properties == []
    ensures forall i | 0 <= i < |cs| && cs[i].properties == [] :: cs[i].name in names
    ensures names == [] <==> forall c | c in cs :: c.properties != []
  {
    if cs == [] then []
    else if cs[0].properties == [] then
      assert forall i | 1 <= i < |cs| :: cs[i] == cs[1..][i - 1];
      [cs[0].name] + EmptyClassNames(cs[1..])
    else
      assert forall c | c in cs[1..] :: c in cs;
      assert forall c | c in cs :: c == cs[0] || c in cs[1..];
      assert forall i | 1 <= i < |cs| :: cs[i] == cs[1..][i - 1];
      EmptyClassNames(cs[1..])
  }

  /** The positions of the classes without properties. */
  function EmptyPositions(cs: seq<CsClass>): set<nat> {
    set i: nat | i < |cs| && cs[i].properties == []
  }

  /** The list is built in parse order: the names for a concatenation are the
      names for the first part followed by those for the second. */
  lemma {:induction false} EmptyClassNamesAppend(a: seq<CsClass>, b: seq<CsClass>)
    ensures EmptyClassNames(a + b) == EmptyClassNames(a) + EmptyClassNames(b)
  {
    if a == [] {
      assert a + b == b;
    } else {
      assert (a + b)[0] == a[0] && (a + b)[1..] == a[1..] + b;
      EmptyClassNamesAppend(a[1..], b);
    }
  }

  /** One name per class without properties: the count in the message is the
      number of such classes. */
  lemma {:induction false} EmptyClassNamesCount(cs: seq<CsClass>)
    ensures |EmptyClassNames(cs)| == |EmptyPositions(cs)|
  {
    if cs != [] {
      var n := |cs| - 1;
      var last := if cs[n].properties == [] then [cs[n].name] else [];
      assert EmptyClassNames(cs) == EmptyClassNames(cs[..n]) + last by {
        assert cs == cs[..n] + [cs[n]];
        EmptyClassNamesAppend(cs[..n], [cs[n]]);
      }
      EmptyClassNamesCount(cs[..n]);
      EmptyPositionsSnoc(cs);
    }
  }

  lemma EmptyPositionsSnoc(cs: seq<CsClass>)
    requires cs != []
    ensures var n := |cs| - 1;
      |EmptyPositions(cs)| == |EmptyPositions(cs[..n])| + if cs[n].properties == [] then 1 else 0
  {
    var n := |cs| - 1;
    var before := EmptyPositions(cs[..n]);
    var extra: set<nat> := if cs[n].properties == [] then {n} else {};
    forall i: nat ensures i in EmptyPositions(cs) <==> i in before + extra {
      if i < n { assert cs[..n][i] == cs[i]; }
    }
    assert EmptyPositions(cs) == before + extra;
    assert n !in before;
  }

  // ---------------------------------------------------------------------------
  // Rendering

  /** A block: its first line, its inner lines joined by newlines, and `}`. */
  function Block(header: string, lines: seq<string>): string {
    header + "\n" + Join(lines, "\n") + "\n}"
  }

  /** `  V = "V",` */
  function EnumLine(v: string): string {
    "  " + v + " = \"" + v + "\","
  }

  function EnumLines(vs: seq<string>): (ls: seq<string>)
    ensures |ls| == |vs| && forall i | 0 <= i < |vs| :: ls[i] == EnumLine(vs[i])
  {
    seq(|vs|, i requires 0 <= i < |vs| => EnumLine(vs[i]))
  }

  function EnumHeader(e: CsEnum): string {
    "export enum " + e.name + " {"
  }

  function EnumBlock(e: CsEnum): string {
    Block(EnumHeader(e), EnumLines(e.values))
  }

  /** `  name?: type;` with the name camel-cased, `?` exactly for a nullable
      property, and the mapped type. */
  function PropertyLine(p: CsProperty): string {
    "  " + ToCamelCase(p.name) + (if p.nullable then "?" else "") + ": " + MapType(p.typeToken) + ";"
  }

  function PropertyLines(ps: seq<CsProperty>): (ls: seq<string>)
    ensures |ls| == |ps| && forall i | 0 <= i < |ps| :: ls[i] == PropertyLine(ps[i])
  {
    seq(|ps|, i requires 0 <= i < |ps| => PropertyLine(ps[i]))
  }

  function InterfaceHeader(c: CsClass): string {
    "export interface " + c.name + " {"
  }

  function InterfaceBlock(c: CsClass): string {
    Block(InterfaceHeader(c), PropertyLines(c.properties))
  }

  /** The blocks of the output: every enum, then every class, each in parse order. */
  function Blocks(es: seq<CsEnum>, cs: seq<CsClass>): (bs: seq<string>)
    ensures |bs| == |es| + |cs|
    ensures forall i | 0 <= i < |es| :: bs[i] == EnumBlock(es[i])
    ensures forall j | 0 <= j < |cs| :: bs[|es| + j] == InterfaceBlock(cs[j])
  {
    seq(|es|, i requires 0 <= i < |es| => EnumBlock(es[i]))
    + seq(|cs|, j requires 0 <= j < |cs| => InterfaceBlock(cs[j]))
  }

  /** `generateTsInterfaces`. */
  function GenerateTsInterfaces(code: string): (r: Result<string>)
    ensures r == Err(EmptyInput) <==> Trim(code) == []
    ensures r == Err(NoClassesFound) <==> Trim(code) != [] && ParseModels(code) == []
    ensures r.Err? && r.error.ClassesWithoutProperties? <==>
      Trim(code) != [] && ParseModels(code) != []
      && exists c | c in ParseModels(code) :: c.properties == []
    ensures r.Err? && r.error.ClassesWithoutProperties? ==>
      r.error.names == EmptyClassNames(ParseModels(code)) && r.error.names != []
    ensures r.Ok? ==>
      r.value == Join(Blocks(ParseEnums(code), ParseModels(code)), "\n\n")
  {
    if Trim(code) == [] then Err(EmptyInput)
    else
      var classes := ParseModels(code);
      var enums := ParseEnums(code);
      if classes == [] then Err(NoClassesFound)
      else
        var invalid := EmptyClassNames(classes);
        if invalid != [] then Err(ClassesWithoutProperties(invalid))
        else Ok(Join(Blocks(enums, classes), "\n\n"))
  }

  // ---------------------------------------------------------------------------
  // Properties of the generator

  /** The three error messages are different from each other. */
  lemma ErrorMessagesDistinct(e1: GenError, e2: GenError)
    requires ErrorMessage(e1) == ErrorMessage(e2)
    ensures e1.EmptyInput? <==> e2.EmptyInput?
    ensures e1.NoClassesFound? <==> e2.NoClassesFound?
  {
    var m := ErrorMessage(e1);
    assert m[0] == 'P' <==> e1.EmptyInput?;
    assert m[0] == 'P' <==> e2.EmptyInput?;
    assert m[0] == 'N' <==> e1.NoClassesFound?;
    assert m[0] == 'N' <==> e2.NoClassesFound?;
  }

  /** Success exactly when the input is not blank, at least one class is found
      and every class has a property. */
  lemma SucceedsIff(code: string)
    ensures GenerateTsInterfaces(code).Ok? <==>
      Trim(code) != [] && ParseModels(code) != []
      && forall c | c in ParseModels(code) :: c.properties != []
  {}

  /** Enums alone are not enough: input without a class fails even when it has
      enums. */
  lemma EnumsAloneFail(code: string)
    requires Trim(code) != [] && ParseModels(code) == []
    ensures GenerateTsInterfaces(code) == Err(NoClassesFound)
  {}

  /** A block whose lines have no line break splits back into its header, its lines
      and the closing `}`. */
  lemma BlockLines(header: string, lines: seq<string>)
    requires lines != [] && SingleLine(header) && NoneContain(lines, '\n')
    ensures Split(Block(header, lines), '\n') == [header] + lines + ["}"]
  {
    var all := [header] + lines + ["}"];
    assert ([header] + lines)[1..] == lines;
    assert Join([header] + lines, "\n") == header + "\n" + Join(lines, "\n");
    JoinAppend([header] + lines, "}", "\n");
    assert Block(header, lines) == Join(all, ['\n']);
    forall k | 0 <= k < |all| ensures '\n' !in all[k] {
      if 0 < k < |all| - 1 {
        assert all[k] == lines[k - 1];
      }
    }
    SplitJoin(all, '\n');
  }

  /** Word characters and type characters include no line break. */
  lemma RunHasNoNewline(s: string, cc: CharClass)
    requires cc == Word || cc == TypeChars
    requires AllChars(s, cc)
    ensures SingleLine(s)
  {
    forall i | 0 <= i < |s| ensures s[i] != '\n' {
      assert InClass(s[i], cc);
    }
  }

  /** Each enum renders as its header line, one `  V = "V",` line per value in
      order, and `}` (for values that do not span lines). */
  lemma EnumBlockLines(e: CsEnum)
    requires e.values != [] && AllChars(e.name, Word) && NoneContain(e.values, '\n')
    ensures Split(EnumBlock(e), '\n') == [EnumHeader(e)] + EnumLines(e.values) + ["}"]
  {
    RunHasNoNewline(e.name, Word);
    var ls := EnumLines(e.values);
    forall i | 0 <= i < |ls| ensures '\n' !in ls[i] {
      assert ls[i] == "  " + e.values[i] + " = \"" + e.values[i] + "\",";
    }
    BlockLines(EnumHeader(e), ls);
  }

  /** Camel-casing a name of word characters keeps it on one line. */
  lemma CamelCaseSingleLine(w: string)
    requires AllChars(w, Word)
    ensures SingleLine(ToCamelCase(w))
  {
    RunHasNoNewline(w, Word);
    var n := ToCamelCase(w);
    forall i | 0 <= i < |n| ensures n[i] != '\n' {
      if i == 0 {
        assert InClass(w[0], Word);
      } else {
        assert n[i] == n[1..][i - 1] == w[1..][i - 1] == w[i];
      }
    }
  }

  /** The line of a parsed property is a single line. */
  lemma PropertyLineSingle(p: CsProperty)
    requires WellFormedProperty(p)
    ensures SingleLine(PropertyLine(p))
  {
    CamelCaseSingleLine(p.name);
    RunHasNoNewline(p.typeToken, TypeChars);
    MapTypeSingleLine(p.typeToken);
    var n := ToCamelCase(p.name);
    var opt := if p.nullable then "?" else "";
    AppendSingleLine("  ", n);
    AppendSingleLine("  " + n, opt);
    AppendSingleLine("  " + n + opt, ": ");
    AppendSingleLine("  " + n + opt + ": ", MapType(p.typeToken));
    AppendSingleLine("  " + n + opt + ": " + MapType(p.typeToken), ";");
  }

  /** Each parsed class with properties renders as its header line, one line per
      property in order, and `}`. */
  lemma InterfaceBlockLines(c: CsClass)
    requires c.properties != [] && WellFormedClass(c)
    ensures Split(InterfaceBlock(c), '\n') == [InterfaceHeader(c)] + PropertyLines(c.properties) + ["}"]
  {
    RunHasNoNewline(c.name, Word);
    var ls := PropertyLines(c.properties);
    forall i | 0 <= i < |ls| ensures '\n' !in ls[i] {
      assert c.properties[i] in c.properties;
      PropertyLineSingle(c.properties[i]);
    }
    BlockLines(InterfaceHeader(c), ls);
  }

  /** The optional marker: right after the camel-cased name comes `?` exactly when
      the property is nullable (otherwise the `:`). */
  lemma OptionalMarker(p: CsProperty)
    ensures var l := PropertyLine(p);
      |l| > |p.name| + 2
      && l[..2] == "  "
      && l[2..|p.name| + 2] == ToCamelCase(p.name)
      && (l[|p.name| + 2] == '?' <==> p.nullable)
  {
    var n := ToCamelCase(p.name);
    var l := PropertyLine(p);
    assert l == "  " + n + (if p.nullable then "?" else "") + ": " + MapType(p.typeToken) + ";";
    assert l[..2] == "  ";
    assert l[2..|n| + 2] == n;
  }

  /** On success every parsed class has a property. */
  lemma SuccessMeansProperties(code: string)
    requires GenerateTsInterfaces(code).Ok?
    ensures forall c | c in ParseModels(code) :: c.properties != [] && WellFormedClass(c)
  {
    ParsedModelsWellFormed(code);
  }

  /** On success the output is the enum blocks, then the interface blocks, joined by
      a blank line; each interface block lists its class's properties line by line. */
  lemma OutputBlocks(code: string, j: nat)
    requires GenerateTsInterfaces(code).Ok?
    requires j < |ParseModels(code)|
    ensures var es := ParseEnums(code);
      var cs := ParseModels(code);
      var bs := Blocks(es, cs);
      GenerateTsInterfaces(code).value == Join(bs, "\n\n")
      && Split(bs[|es| + j], '\n') == [InterfaceHeader(cs[j])] + PropertyLines(cs[j].properties) + ["}"]
  {
    var cs := ParseModels(code);
    SuccessMeansProperties(code);
    assert cs[j] in cs;
    InterfaceBlockLines(cs[j]);
  }

  /** Each enum block starts with its header line. */
  lemma EnumBlockHeader(e: CsEnum)
    ensures StartsWith(EnumBlock(e), EnumHeader(e) + "\n")
  {
    var h := EnumHeader(e) + "\n";
    assert EnumBlock(e) == h + Join(EnumLines(e.values), "\n") + "\n}";
    assert EnumBlock(e)[..|h|] == h;
  }
}
