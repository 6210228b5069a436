// JSON value -> C# class declarations: property-name sanitising and PascalCasing,
// type and default inference, and the recursive class generator.

module JsonToCSharp {
  import opened Strings

  // ---------------------------------------------------------------------------
  // JSON values

  /** A parsed JSON value. Only whether a number is an integer affects the output,
      so a number carries just that flag. Object members are kept in the order
      in which a `for…in` loop enumerates them. */
  datatype Json =
    | JNull
    | JBool(b: bool)
    | JNumber(isInteger: bool)
    | JString(s: string)
    | JArray(items: seq<Json>)
    | JObject(members: seq<Member>)

  datatype Member = Member(key: string, value: Json)

  /** How many keys `for (const key in json)` visits: an object's own members,
      an array's or a string's indices, nothing for the other values. */
  function KeyCount(j: Json): nat {
    match j
    case JObject(ms) => |ms|
    case JArray(items) => |items|
    case JString(s) => |s|
    case _ => 0
  }

  /** The i-th enumerated key. */
  function KeyAt(j: Json, i: nat): string
    requires i < KeyCount(j)
  {
    if j.JObject? then j.members[i].key else NatToString(i)
  }

  /** `json[key]` for the i-th enumerated key; indexing a string gives a
      one-character string. */
  function ValueAt(j: Json, i: nat): (v: Json)
    requires i < KeyCount(j)
    ensures v.JString? || v < j
  {
    match j
    case JObject(ms) => ms[i].value
    case JArray(items) => items[i]
    case JString(s) => JString([s[i]])
  }

  // ---------------------------------------------------------------------------
  // property names

  /** Every character outside `[A-Za-z0-9_]` becomes `_`. */
  function Cleaned(key: string): (r: string) {
    seq(|key|, i requires 0 <= i < |key| => if IsWordChar(key[i]) then key[i] else '_')
  }

  /** The global replace of `(^\w|_\w)`: at the start a word character is
      matched by the first alternative, so a leading `_` is removed on its own
      and the character after it is not capitalised. */
  function PascalCase(s: string): (r: string)
    ensures |r| <= |s|
  {
    if s == [] then ""
    else if s[0] == '_' then CapitalizeAfterUnderscores(s[1..])
    else [ToUpperChar(s[0])] + CapitalizeAfterUnderscores(s[1..])
  }

  /** The matches of `_\w` after the start: `_x` becomes `x` upper-cased, and
      the scan resumes after the two characters. */
  function CapitalizeAfterUnderscores(s: string): (r: string)
    ensures |r| <= |s|
  {
    if |s| >= 2 && s[0] == '_' && IsWordChar(s[1]) then
      [ToUpperChar(s[1])] + CapitalizeAfterUnderscores(s[2..])
    else if s == [] then ""
    else [s[0]] + CapitalizeAfterUnderscores(s[1..])
  }

  function SanitizePropertyName(key: string, usePascalCase: bool): (r: string)
    ensures !usePascalCase ==> r == Cleaned(key)
    ensures AllWord(r)
  {
    var cleaned := Cleaned(key);
    if usePascalCase then
      PascalCasePreservesWords(cleaned);
      PascalCase(cleaned)
    else cleaned
  }

  predicate AllWord(s: string) {
    forall i | 0 <= i < |s| :: IsWordChar(s[i])
  }

  /** Cleaning changes the length of nothing and leaves a key alone exactly when
      it already consists of word characters. */
  lemma CleanedIff(key: string)
    ensures |Cleaned(key)| == |key|
    ensures AllWord(Cleaned(key))
    ensures Cleaned(key) == key <==> AllWord(key)
  {
    if Cleaned(key) == key {
      forall i | 0 <= i < |key| ensures IsWordChar(key[i]) {
        assert Cleaned(key)[i] == key[i];
      }
    }
  }

  lemma {:induction false} AfterUnderscoresPreservesWords(s: string)
    requires AllWord(s)
    ensures AllWord(CapitalizeAfterUnderscores(s))
  {
    if |s| >= 2 && s[0] == '_' && IsWordChar(s[1]) {
      AfterUnderscoresPreservesWords(s[2..]);
    } else if s != [] {
      AfterUnderscoresPreservesWords(s[1..]);
    }
  }

  /** PascalCasing a name made of word characters keeps it one. */
  lemma PascalCasePreservesWords(s: string)
    requires AllWord(s)
    ensures AllWord(PascalCase(s))
  {
    if s != [] {
      AfterUnderscoresPreservesWords(s[1..]);
    }
  }

  /** A segment of a snake-case name: word characters other than `_`. */
  predicate IsSegment(w: string) {
    w != [] && forall i | 0 <= i < |w| :: IsWordChar(w[i]) && w[i] != '_'
  }

  function Capitalize(w: string): (r: string)
    requires w != []
    ensures |r| == |w| && r[0] == ToUpperChar(w[0]) && r[1..] == w[1..]
  {
    [ToUpperChar(w[0])] + w[1..]
  }

  function CapitalizeAll(ws: seq<string>): string
    requires forall i | 0 <= i < |ws| :: IsSegment(ws[i])
  {
    if ws == [] then "" else assert IsSegment(ws[0]); Capitalize(ws[0]) + CapitalizeAll(ws[1..])
  }

  lemma {:induction false} AfterUnderscoresSegmentTail(x: string, t: string)
    requires forall i | 0 <= i < |x| :: x[i] != '_'
    ensures CapitalizeAfterUnderscores(x + t) == x + CapitalizeAfterUnderscores(t)
  {
    if x != [] {
      assert (x + t)[1..] == x[1..] + t;
      AfterUnderscoresSegmentTail(x[1..], t);
    } else {
      assert x + t == t;
    }
  }

  lemma JoinStartsWithFirst(xs: seq<string>, sep: string)
    requires xs != []
    ensures StartsWith(Join(xs, sep), xs[0])
  {
  }

  /** `snake_case` segments joined by single underscores come out as the
      segments capitalised and run together: `user_id` becomes `UserId`. */
  lemma {:induction false} PascalCaseSegments(ws: seq<string>)
    requires ws != []
    requires forall i | 0 <= i < |ws| :: IsSegment(ws[i])
    ensures PascalCase(Join(ws, "_")) == CapitalizeAll(ws)
  {
    var w := ws[0];
    if |ws| == 1 {
      AfterUnderscoresSegmentTail(w[1..], "");
      assert w[1..] + "" == w[1..];
    } else {
      var rest := Join(ws[1..], "_");
      var s := w + "_" + rest;
      assert Join(ws, "_") == s;
      assert s[1..] == w[1..] + ("_" + rest);
      AfterUnderscoresSegmentTail(w[1..], "_" + rest);
      JoinStartsWithFirst(ws[1..], "_");
      assert rest[0] == ws[1][0];
      assert ("_" + rest)[2..] == rest[1..];
      assert CapitalizeAfterUnderscores("_" + rest) == PascalCase(rest);
      PascalCaseSegments(ws[1..]);
    }
  }

  /** A name that starts with `_` loses it, and the next character keeps its
      case: `_id` becomes `id`. */
  lemma PascalCaseLeadingUnderscore(c: char, t: string)
    requires IsAsciiLower(c)
    ensures PascalCase(['_', c] + t) == [c] + CapitalizeAfterUnderscores(t)
  {
    assert (['_', c] + t)[1..] == [c] + t;
    assert ([c] + t)[1..] == t;
  }

  // ---------------------------------------------------------------------------
  // types and defaults

  function ToCSharpType(j: Json): string {
    match j
    case JNull => "object"
    case JArray(items) => (if |items| > 0 then ToCSharpType(items[0]) else "object") + "[]"
    case JString(_) => "string"
    case JNumber(isInteger) => if isInteger then "int" else "double"
    case JBool(_) => "bool"
    case JObject(_) => "object"
  }

  /** How many arrays are nested through first elements. */
  function ArrayDepth(j: Json): nat {
    if j.JArray? && |j.items| > 0 then 1 + ArrayDepth(j.items[0])
    else if j.JArray? then 1
    else 0
  }

  function Brackets(n: nat): string {
    if n == 0 then "" else Brackets(n - 1) + "[]"
  }

  predicate IsScalarType(t: string) {
    t == "object" || t == "string" || t == "int" || t == "double" || t == "bool"
  }

  /** The type of the innermost first element, `object` for an empty array. */
  function BaseType(j: Json): (t: string)
    ensures IsScalarType(t)
  {
    match j
    case JArray(items) => if |items| > 0 then BaseType(items[0]) else "object"
    case JNull => "object"
    case JString(_) => "string"
    case JNumber(isInteger) => if isInteger then "int" else "double"
    case JBool(_) => "bool"
    case JObject(_) => "object"
  }

  /** Every inferred type is a scalar name followed by one `[]` per array
      level. */
  lemma {:induction false} ToCSharpTypeShape(j: Json)
    ensures ToCSharpType(j) == BaseType(j) + Brackets(ArrayDepth(j))
  {
    if j.JArray? && |j.items| > 0 {
      ToCSharpTypeShape(j.items[0]);
      assert ToCSharpType(j) == ToCSharpType(j.items[0]) + "[]";
      assert Brackets(ArrayDepth(j)) == Brackets(ArrayDepth(j.items[0])) + "[]";
      assert BaseType(j) + Brackets(ArrayDepth(j.items[0])) + "[]"
        == BaseType(j) + (Brackets(ArrayDepth(j.items[0])) + "[]");
    }
  }

  /** The type names an array exactly when it ends in `[]`. */
  lemma ArrayTypeIff(j: Json)
    ensures EndsWith(ToCSharpType(j), "[]") <==> j.JArray?
  {
    var t := ToCSharpType(j);
    if j.JArray? {
      assert t[|t| - 2..] == "[]";
    }
  }

  function DefaultValue(typeName: string): string {
    if typeName == "string" then "\"\""
    else if typeName == "bool" then "false"
    else if EndsWith(typeName, "[]") then "[]"
    else "0"
  }

  /** The initialiser of a plain property, by the kind of its JSON value:
      `""` for a string, `false` for a boolean, `[]` for an array and `0` for
      everything else, `null` included. */
  lemma DefaultFor(v: Json)
    ensures DefaultValue(ToCSharpType(v))
      == if v.JString? then "\"\"" else if v.JBool? then "false" else if v.JArray? then "[]" else "0"
  {
    ArrayTypeIff(v);
    if v.JArray? {
      var t := ToCSharpType(v);
      assert t[|t| - 2..] == "[]";
      assert t != "string" && t != "bool";
    }
  }

  // ---------------------------------------------------------------------------
  // class generation

  datatype PropertyKind = NestedObject | ObjectArray | Plain

  /** A non-array object value gets its own class; an array whose first element
      has `typeof` "object" (an object, an array or null) gets an item class. */
  function KindOf(v: Json): PropertyKind {
    if v.JObject? then NestedObject
    else if v.JArray? && |v.items| > 0 && (v.items[0].JObject? || v.items[0].JArray? || v.items[0].JNull?) then
      ObjectArray
    else Plain
  }

  function PropertyLine(key: string, v: Json, usePascalCase: bool): string {
    var name := SanitizePropertyName(key, usePascalCase);
    match KindOf(v)
    case NestedObject =>
      "    public " + name + " " + name + " { get; set; } = new " + name + "();"
    case ObjectArray =>
      "    public " + name + "Item[] " + name + " { get; set; } = [];"
    case Plain =>
      var typeName := ToCSharpType(v);
      "    public " + typeName + " " + name + " { get; set; } = " + DefaultValue(typeName) + ";"
  }

  /** The property lines of the first n enumerated keys, in key order. */
  function PropertyLines(j: Json, n: nat, usePascalCase: bool): (lines: seq<string>)
    requires n <= KeyCount(j)
    ensures |lines| == n
  {
    if n == 0 then [] else PropertyLines(j, n - 1, usePascalCase) + [PropertyLine(KeyAt(j, n - 1), ValueAt(j, n - 1), usePascalCase)]
  }

  /** One property line per key: line i is key i's. */
  lemma {:induction false} PropertyLineAt(j: Json, n: nat, i: nat, usePascalCase: bool)
    requires i < n <= KeyCount(j)
    ensures PropertyLines(j, n, usePascalCase)[i] == PropertyLine(KeyAt(j, i), ValueAt(j, i), usePascalCase)
  {
    if i < n - 1 {
      PropertyLineAt(j, n - 1, i, usePascalCase);
      SnocIndex(PropertyLines(j, n - 1, usePascalCase),
                PropertyLine(KeyAt(j, n - 1), ValueAt(j, n - 1), usePascalCase), i);
    }
  }

  lemma SnocIndex<T>(xs: seq<T>, y: T, i: nat)
    requires i < |xs|
    ensures (xs + [y])[i] == xs[i]
  {
  }

  function ClassDeclaration(className: string, props: seq<string>): string {
    "public class " + className + "\n{\n" + Join(props, "\n") + "\n}"
  }

  /** The generated text: this value's class, then what each nested value
      generates, joined by blank lines. */
  function Generate(j: Json, className: string, usePascalCase: bool): string
    decreases j, 1
  {
    Join([ClassDeclaration(className, PropertyLines(j, KeyCount(j), usePascalCase))]
         + NestedClasses(j, KeyCount(j), usePascalCase), "\n\n")
  }

  /** The generated texts of the nested classes of the first n keys. */
  function NestedClasses(j: Json, n: nat, usePascalCase: bool): seq<string>
    requires n <= KeyCount(j)
    decreases j, 0, n
  {
    if n == 0 then [] else NestedClasses(j, n - 1, usePascalCase) + ClassesOfKey(j, n - 1, usePascalCase)
  }

  /** What key i contributes: the generated text of its nested class, if any. */
  function ClassesOfKey(j: Json, i: nat, usePascalCase: bool): (r: seq<string>)
    requires i < KeyCount(j)
    ensures |r| <= 1
    decreases j, 0, 0
  {
    var v := ValueAt(j, i);
    var name := SanitizePropertyName(KeyAt(j, i), usePascalCase);
    match KindOf(v)
    case NestedObject => [Generate(v, name, usePascalCase)]
    case ObjectArray => [Generate(v.items[0], name + "Item", usePascalCase)]
    case Plain => []
  }

  /** `generateCSharp`: the property lines and the nested classes' text
      collected key by key, then the value's own class put first. */
  method GenerateCSharp(json: Json, className: string, usePascalCase: bool) returns (code: string)
    ensures code == Generate(json, className, usePascalCase)
    decreases json, 2
  {
    var props, classes := CollectKeys(json, usePascalCase);
    classes := [ClassDeclaration(className, props)] + classes;
    code := Join(classes, "\n\n");
  }

  /** The `for…in` loop: one property line per key, and the text of every
      nested class, in key order. */
  method CollectKeys(json: Json, usePascalCase: bool) returns (props: seq<string>, classes: seq<string>)
    ensures props == PropertyLines(json, KeyCount(json), usePascalCase)
    ensures classes == NestedClasses(json, KeyCount(json), usePascalCase)
    decreases json, 1
  {
    classes := [];
    props := [];
    var i := 0;
    while i < KeyCount(json)
      invariant i <= KeyCount(json)
      invariant props == PropertyLines(json, i, usePascalCase)
      invariant classes == NestedClasses(json, i, usePascalCase)
    {
      var line, here := VisitKey(json, i, usePascalCase);
      classes := classes + here;
      props := props + [line];
      i := i + 1;
    }
  }

  /** The loop body for key i: its property line, and the text of the class
      its value needs. A nested object generates a class named after the
      property; an array of objects generates one named after the property
      plus `Item`, from its first element. */
  method VisitKey(json: Json, i: nat, usePascalCase: bool) returns (line: string, here: seq<string>)
    requires i < KeyCount(json)
    ensures line == PropertyLine(KeyAt(json, i), ValueAt(json, i), usePascalCase)
    ensures here == ClassesOfKey(json, i, usePascalCase)
    decreases json, 0
  {
    var val := ValueAt(json, i);
    var propName := SanitizePropertyName(KeyAt(json, i), usePascalCase);
    var kind := KindOf(val);
    if kind == NestedObject {
      var nested := GenerateCSharp(val, propName, usePascalCase);
      here := [nested];
      line := "    public " + propName + " " + propName + " { get; set; } = new " + propName + "();";
    } else if kind == ObjectArray {
      var nested := GenerateCSharp(val.items[0], propName + "Item", usePascalCase);
      here := [nested];
      line := "    public " + propName + "Item[] " + propName + " { get; set; } = [];";
    } else {
      here := [];
      var typeName := ToCSharpType(val);
      line := "    public " + typeName + " " + propName + " { get; set; } = " + DefaultValue(typeName) + ";";
    }
  }

  // ---------------------------------------------------------------------------
  // the classes in pre-order

  /** Every class declaration the value produces: its own, then those of each
      nested value in key order, each followed by its own nested ones. */
  function ClassList(j: Json, className: string, usePascalCase: bool): (r: seq<string>)
    ensures r != []
    decreases j, 1
  {
    [ClassDeclaration(className, PropertyLines(j, KeyCount(j), usePascalCase))]
    + NestedClassLists(j, KeyCount(j), usePascalCase)
  }

  function NestedClassLists(j: Json, n: nat, usePascalCase: bool): seq<string>
    requires n <= KeyCount(j)
    decreases j, 0, n
  {
    if n == 0 then [] else NestedClassLists(j, n - 1, usePascalCase) + ClassListsOfKey(j, n - 1, usePascalCase)
  }

  function ClassListsOfKey(j: Json, i: nat, usePascalCase: bool): seq<string>
    requires i < KeyCount(j)
    decreases j, 0, 0
  {
    var v := ValueAt(j, i);
    var name := SanitizePropertyName(KeyAt(j, i), usePascalCase);
    match KindOf(v)
    case NestedObject => ClassList(v, name, usePascalCase)
    case ObjectArray => ClassList(v.items[0], name + "Item", usePascalCase)
    case Plain => []
  }

  /** Appending a joined piece is appending its pieces. */
  lemma {:induction false} JoinFlatten(p: seq<string>, x: seq<string>, sep: string)
    requires p != [] && x != []
    ensures Join(p + [Join(x, sep)], sep) == Join(p + x, sep)
  {
    JoinAppend(p, Join(x, sep), sep);
    JoinConcat(p, x, sep);
  }

  /** The output is the class declarations in pre-order, separated by blank
      lines. */
  lemma {:induction false} GeneratePreOrder(j: Json, className: string, usePascalCase: bool)
    ensures Generate(j, className, usePascalCase) == Join(ClassList(j, className, usePascalCase), "\n\n")
    decreases j, 1, 0
  {
    var root := [ClassDeclaration(className, PropertyLines(j, KeyCount(j), usePascalCase))];
    NestedPreOrder(j, KeyCount(j), usePascalCase, root);
  }

  lemma {:induction false} NestedPreOrder(j: Json, n: nat, usePascalCase: bool, p: seq<string>)
    requires n <= KeyCount(j) && p != []
    ensures Join(p + NestedClasses(j, n, usePascalCase), "\n\n") == Join(p + NestedClassLists(j, n, usePascalCase), "\n\n")
    decreases j, 0, n + 1
  {
    var heres := seq(n, i requires 0 <= i < n => ClassesOfKey(j, i, usePascalCase));
    var listss := seq(n, i requires 0 <= i < n => ClassListsOfKey(j, i, usePascalCase));
    forall i | 0 <= i < n ensures Piece(heres[i], listss[i]) {
      KeyPreOrder(j, i, usePascalCase);
    }
    NestedClassesFlat(j, n, usePascalCase);
    NestedClassListsFlat(j, n, usePascalCase);
    FlattenPreOrder(p, heres, listss);
  }

  /** What one key contributes: nothing, or one text that is its class list joined. */
  predicate Piece(here: seq<string>, lists: seq<string>) {
    (here == [] && lists == []) || (here == [Join(lists, "\n\n")] && lists != [])
  }

  function Flatten(xss: seq<seq<string>>): seq<string> {
    if xss == [] then [] else Flatten(xss[..|xss| - 1]) + xss[|xss| - 1]
  }

  lemma {:induction false} NestedClassesFlat(j: Json, n: nat, usePascalCase: bool)
    requires n <= KeyCount(j)
    ensures NestedClasses(j, n, usePascalCase)
      == Flatten(seq(n, i requires 0 <= i < n => ClassesOfKey(j, i, usePascalCase)))
  {
    if n > 0 {
      var xs := seq(n, i requires 0 <= i < n => ClassesOfKey(j, i, usePascalCase));
      assert xs[..n - 1] == seq(n - 1, i requires 0 <= i < n - 1 => ClassesOfKey(j, i, usePascalCase));
      NestedClassesFlat(j, n - 1, usePascalCase);
    }
  }

  lemma {:induction false} NestedClassListsFlat(j: Json, n: nat, usePascalCase: bool)
    requires n <= KeyCount(j)
    ensures NestedClassLists(j, n, usePascalCase)
      == Flatten(seq(n, i requires 0 <= i < n => ClassListsOfKey(j, i, usePascalCase)))
  {
    if n > 0 {
      var xs := seq(n, i requires 0 <= i < n => ClassListsOfKey(j, i, usePascalCase));
      assert xs[..n - 1] == seq(n - 1, i requires 0 <= i < n - 1 => ClassListsOfKey(j, i, usePascalCase));
      NestedClassListsFlat(j, n - 1, usePascalCase);
    }
  }

  /** Replacing each piece by its class list keeps the joined text. */
  lemma {:induction false} FlattenPreOrder(p: seq<string>, heres: seq<seq<string>>, listss: seq<seq<string>>)
    requires p != [] && |heres| == |listss|
    requires forall i | 0 <= i < |heres| :: Piece(heres[i], listss[i])
    ensures Join(p + Flatten(heres), "\n\n") == Join(p + Flatten(listss), "\n\n")
  {
    if heres != [] {
      var n := |heres| - 1;
      FlattenPreOrder(p, heres[..n], listss[..n]);
      JoinStep(p, Flatten(heres[..n]), Flatten(listss[..n]), heres[n], listss[n], "\n\n");
    }
  }

  lemma {:induction false} JoinStep(p: seq<string>, front: seq<string>, frontLists: seq<string>,
                 here: seq<string>, lists: seq<string>, sep: string)
    requires p != []
    requires Join(p + front, sep) == Join(p + frontLists, sep)
    requires (here == [] && lists == []) || (here == [Join(lists, sep)] && lists != [])
    ensures Join(p + (front + here), sep) == Join(p + (frontLists + lists), sep)
  {
    if here == [] {
      assert front + here == front;
      assert frontLists + lists == frontLists;
    } else {
      JoinStepPiece(p + front, p + frontLists, lists, sep);
      assert p + (front + here) == (p + front) + [Join(lists, sep)];
      assert p + (frontLists + lists) == (p + frontLists) + lists;
    }
  }

  lemma {:induction false} JoinStepPiece(a: seq<string>, b: seq<string>, lists: seq<string>, sep: string)
    requires a != [] && b != [] && lists != []
    requires Join(a, sep) == Join(b, sep)
    ensures Join(a + [Join(lists, sep)], sep) == Join(b + lists, sep)
  {
    JoinAppend(a, Join(lists, sep), sep);
    JoinConcat(b, lists, sep);
  }

  /** What one key contributes is its nested class list, joined. */
  lemma {:induction false} KeyPreOrder(j: Json, i: nat, usePascalCase: bool)
    requires i < KeyCount(j)
    ensures var here := ClassesOfKey(j, i, usePascalCase);
      var lists := ClassListsOfKey(j, i, usePascalCase);
      (here == [] && lists == []) || (here == [Join(lists, "\n\n")] && lists != [])
    decreases j, 0, 0
  {
    var v := ValueAt(j, i);
    var name := SanitizePropertyName(KeyAt(j, i), usePascalCase);
    match KindOf(v)
    case NestedObject => GeneratePreOrder(v, name, usePascalCase);
    case ObjectArray => GeneratePreOrder(v.items[0], name + "Item", usePascalCase);
    case Plain =>
  }

  /** The value's own class comes first in the output. */
  lemma GenerateStartsWithRoot(j: Json, className: string, usePascalCase: bool)
    ensures StartsWith(Generate(j, className, usePascalCase),
                       "public class " + className + "\n{\n" + Join(PropertyLines(j, KeyCount(j), usePascalCase), "\n") + "\n}")
  {
    JoinStartsWithFirst([ClassDeclaration(className, PropertyLines(j, KeyCount(j), usePascalCase))]
                        + NestedClasses(j, KeyCount(j), usePascalCase), "\n\n");
  }

  /** A nested object value is declared as `new X()` of a class named after the
      property, and that class is what the key contributes. */
  lemma NestedObjectProperty(j: Json, i: nat, usePascalCase: bool)
    requires i < KeyCount(j) && ValueAt(j, i).JObject?
    ensures var name := SanitizePropertyName(KeyAt(j, i), usePascalCase);
      EndsWith(PropertyLine(KeyAt(j, i), ValueAt(j, i), usePascalCase), "= new " + name + "();")
      && ClassesOfKey(j, i, usePascalCase) == [Generate(ValueAt(j, i), name, usePascalCase)]
  {
    var name := SanitizePropertyName(KeyAt(j, i), usePascalCase);
    var line := PropertyLine(KeyAt(j, i), ValueAt(j, i), usePascalCase);
    var suffix := "= new " + name + "();";
    assert line == "    public " + name + " " + name + " { get; set; } " + suffix;
    assert line[|line| - |suffix|..] == suffix;
  }

  /** An array whose first element is an object, an array or null is declared
      as `XItem[]` initialised to `[]`, and its item class is generated from
      the first element alone. */
  lemma ObjectArrayProperty(j: Json, i: nat, usePascalCase: bool)
    requires i < KeyCount(j) && KindOf(ValueAt(j, i)) == ObjectArray
    ensures var name := SanitizePropertyName(KeyAt(j, i), usePascalCase);
      EndsWith(PropertyLine(KeyAt(j, i), ValueAt(j, i), usePascalCase), "= [];")
      && ClassesOfKey(j, i, usePascalCase) == [Generate(ValueAt(j, i).items[0], name + "Item", usePascalCase)]
  {
    var name := SanitizePropertyName(KeyAt(j, i), usePascalCase);
    var line := PropertyLine(KeyAt(j, i), ValueAt(j, i), usePascalCase);
    assert line == "    public " + name + "Item[] " + name + " { get; set; } " + "= [];";
    assert line[|line| - 5..] == "= [];";
  }
}
