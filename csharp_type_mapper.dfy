/** The C# → TypeScript type-token mapper and the member-name camel-caser.
    Every recursive call of `MapType` is on a strictly shorter token, which is the
    `decreases` clause Dafny checks. */
module CsharpTypeMapper {
  import opened Strings

  /** The fixed, case-sensitive table of C# primitive names. */
  const PrimitiveMap: map<string, string> := map[
    "string" := "string",
    "bool" := "boolean",
    "boolean" := "boolean",
    "int" := "number",
    "long" := "number",
    "float" := "number",
    "double" := "number",
    "decimal" := "number",
    "short" := "number",
    "byte" := "number",
    "Guid" := "string",
    "DateTime" := "string"
  ]

  /** Lower-cases the first character only; the rest is kept verbatim. */
  function ToCamelCase(s: string): (r: string)
    ensures |r| == |s|
    ensures |s| > 0 ==> r[0] == ToLowerChar(s[0]) && r[1..] == s[1..]
    ensures |s| > 0 && IsAsciiUpper(s[0]) ==> IsAsciiLower(r[0])
  {
    if s == [] then [] else [ToLowerChar(s[0])] + s[1..]
  }

  // ---------------------------------------------------------------------------
  // The two regular expressions of the mapper, as scanners.

  /** The container names of `/(?:List|IEnumerable|ICollection|HashSet)<(.+)>/`. */
  const Containers: seq<string> := ["List", "IEnumerable", "ICollection", "HashSet"]

  /** Which container name, followed by `<`, starts at `i` (an index into
      `Containers`). At most one can, since they differ in their first two letters. */
  function ContainerAt(s: string, i: nat): (r: Option<nat>)
    ensures r.Some? ==> r.value < |Containers| && OccursAt(s, Containers[r.value] + "<", i)
    ensures r.None? ==> forall k | 0 <= k < |Containers| :: !OccursAt(s, Containers[k] + "<", i)
  {
    if OccursAt(s, "List<", i) then Some(0)
    else if OccursAt(s, "IEnumerable<", i) then Some(1)
    else if OccursAt(s, "ICollection<", i) then Some(2)
    else if OccursAt(s, "HashSet<", i) then Some(3)
    else None
  }

  /** The last `>` at an index in `[lo, hi)`. */
  function LastGt(s: string, lo: nat, hi: nat): (r: Option<nat>)
    requires lo <= hi <= |s|
    decreases hi - lo
    ensures r.Some? ==> lo <= r.value < hi && s[r.value] == '>'
    ensures r.Some? ==> forall m | r.value < m < hi :: s[m] != '>'
    ensures r.None? ==> forall m | lo <= m < hi :: s[m] != '>'
  {
    if lo == hi then None
    else if s[hi - 1] == '>' then Some(hi - 1)
    else LastGt(s, lo, hi - 1)
  }

  /** `(.+)>` tried at `j`: greedy `.+` backs off to the last `>` on the same line,
      leaving at least one character to capture. The result is where that `>` is. */
  function GreedyToGt(s: string, j: nat): (r: Option<nat>)
    requires j <= |s|
    ensures r.Some? ==> j < r.value < |s| && s[r.value] == '>'
    ensures r.Some? ==> forall m | j <= m < r.value :: !IsLineTerminator(s[m])
    ensures r.Some? ==> r.value < LineEnd(s, j) && forall m | r.value < m < LineEnd(s, j) :: s[m] != '>'
    ensures r.None? ==> forall m | j < m < LineEnd(s, j) :: s[m] != '>'
  {
    var e := LineEnd(s, j);
    if j + 1 > e then None else LastGt(s, j + 1, e)
  }

  /** Where the capture starts after the container name and `<` found at `i`. */
  function OpenEnd(s: string, i: nat): (j: nat)
    requires ContainerAt(s, i).Some?
    ensures j == i + |Containers[ContainerAt(s, i).value]| + 1 <= |s|
  {
    i + |Containers[ContainerAt(s, i).value]| + 1
  }

  /** The leftmost match of the collection pattern at or after `i`: the capture. */
  function CollectionFrom(s: string, i: nat): (r: Option<string>)
    requires i <= |s|
    decreases |s| - i
    ensures r.Some? ==> |r.value| < |s| - i
  {
    if i == |s| then None
    else if ContainerAt(s, i).Some? && GreedyToGt(s, OpenEnd(s, i)).Some? then
      Some(s[OpenEnd(s, i)..GreedyToGt(s, OpenEnd(s, i)).value])
    else CollectionFrom(s, i + 1)
  }

  /** `type.match(/(?:List|IEnumerable|ICollection|HashSet)<(.+)>/)`, the capture. */
  function CollectionMatch(s: string): (r: Option<string>)
    ensures r.Some? ==> |r.value| < |s|
  {
    CollectionFrom(s, 0)
  }

  const DictOpen: string := "Dictionary<string,"

  /** `\s*(.+)>` after the comma: the greedy `\s*` ends at `w` and backs off one
      character at a time (down to `p`) until the capture can be matched. */
  function DictValueFrom(s: string, p: nat, j: nat): (r: Option<(nat, nat)>)
    requires p <= j <= |s|
    decreases j - p
    ensures r.Some? ==> p <= r.value.0 < r.value.1 < |s| && s[r.value.1] == '>'
  {
    var k := GreedyToGt(s, j);
    if k.Some? then Some((j, k.value))
    else if j == p then None
    else DictValueFrom(s, p, j - 1)
  }

  /** The leftmost match of `/Dictionary<string,\s*(.+)>/` at or after `i`: the capture. */
  function DictionaryFrom(s: string, i: nat): (r: Option<string>)
    requires i <= |s|
    decreases |s| - i
    ensures r.Some? ==> |r.value| < |s| - i
  {
    if i == |s| then None
    else if OccursAt(s, DictOpen, i) then
      var p := i + |DictOpen|;
      var jk := DictValueFrom(s, p, RunEnd(s, p, Whitespace));
      if jk.Some? then Some(s[jk.value.0..jk.value.1])
      else DictionaryFrom(s, i + 1)
    else DictionaryFrom(s, i + 1)
  }

  function DictionaryMatch(s: string): (r: Option<string>)
    ensures r.Some? ==> |r.value| < |s|
  {
    DictionaryFrom(s, 0)
  }

  // ---------------------------------------------------------------------------
  // The mapper

  /** `mapCSharpTypeToTs`: the token is trimmed first. */
  function MapType(t: string): (r: string)
    decreases |t|, 2
  {
    var s := Trim(t);
    assert |s| <= |t|;
    MapTrimmed(s)
  }

  /** A trailing `?` is stripped; an array maps to the mapping of the token with its
      first `[]` removed, plus `[]`. */
  function MapTrimmed(s: string): (r: string)
    decreases |s|, 1
  {
    if EndsWith(s, "?") then MapType(s[..|s| - 1])
    else if EndsWith(s, "[]") then
      assert OccursAt(s, "[]", |s| - 2);
      IndexOfFirst(s, "[]", 0, |s| - 2);
      MapType(ReplaceFirst(s, "[]", "")) + "[]"
    else MapGeneric(s)
  }

  /** A collection maps to its element's mapping plus `[]`; a string-keyed dictionary
      to a `Record` over its value's mapping; anything else is looked up in the
      table, or kept as it is. */
  function MapGeneric(s: string): (r: string)
    decreases |s|, 0
  {
    var c := CollectionMatch(s);
    if c.Some? then MapType(c.value) + "[]"
    else
      var d := DictionaryMatch(s);
      if d.Some? then "Record<string, " + MapType(d.value) + ">"
      else Lookup(s)
  }

  /** `primitiveMap[type] ?? type`. */
  function Lookup(s: string): string
  {
    if s in PrimitiveMap then PrimitiveMap[s] else s
  }

  // ---------------------------------------------------------------------------
  // Properties of the mapper

  /** Surrounding whitespace never matters. */
  lemma MapTypeIgnoresSurroundingWhitespace(t: string)
    ensures MapType(t) == MapType(Trim(t))
  {
    TrimIdempotent(t);
  }

  /** A trailing `?` is stripped and not encoded: `T?` maps like `T`. */
  lemma NullableMarkerIgnored(t: string)
    ensures MapType(t + "?") == MapType(t)
  {
    var a := TrimStart(t);
    TrimAppendMarker(t);
    assert MapType(t + "?") == MapTrimmed(a + "?");
    assert (a + "?")[..|a|] == a;
    assert MapTrimmed(a + "?") == MapType(a);
    TrimStartIdempotent(t);
  }

  lemma TrimAppendMarker(t: string)
    ensures Trim(t + "?") == TrimStart(t) + "?"
  {
    if TrimStart(t) == [] {
      TrimStartAllWhitespace(t, "?");
    } else {
      TrimStartOfAppend(t, "?");
    }
    TrimEndNoop(TrimStart(t) + "?");
  }

  lemma TrimStartIdempotent(t: string)
    ensures Trim(TrimStart(t)) == Trim(t)
  {
    TrimStartNoop(TrimStart(t));
  }

  lemma OccursAtIndex(s: string, p: string, i: int, m: nat)
    requires m < |p|
    ensures OccursAt(s, p, i) ==> s[i + m] == p[m]
  {
    if OccursAt(s, p, i) {
      assert s[i..i + |p|][m] == s[i + m];
    }
  }

  lemma EndsWithLast(s: string, p: string)
    requires p != []
    ensures EndsWith(s, p) ==> s[|s| - 1] == p[|p| - 1]
  {
    if EndsWith(s, p) {
      assert s[|s| - |p|..][|p| - 1] == s[|s| - 1];
    }
  }

  /** No `[]` occurs in `s`. */
  /** The token has no `<`, so neither container pattern can match in it. */
  predicate NoOpenAngle(t: string) {
    forall m | 0 <= m < |t| :: t[m] != '<'
  }

  predicate NoBrackets(s: string) {
    forall i | 0 <= i < |s| :: !OccursAt(s, "[]", i)
  }

  // One step of the mapper at a time: each of these unfolds a single layer.

  lemma MapTypeOfTrimmed(s: string)
    requires Trim(s) == s
    ensures MapType(s) == MapTrimmed(s)
  {}

  lemma MapTrimmedNullable(s: string)
    requires EndsWith(s, "?")
    ensures MapTrimmed(s) == MapType(s[..|s| - 1])
  {}

  lemma MapTrimmedArray(s: string)
    requires EndsWith(s, "[]")
    ensures |ReplaceFirst(s, "[]", "")| < |s|
    ensures MapTrimmed(s) == MapType(ReplaceFirst(s, "[]", "")) + "[]"
  {
    EndsWithLast(s, "?");
    EndsWithLast(s, "[]");
    assert OccursAt(s, "[]", |s| - 2);
    IndexOfFirst(s, "[]", 0, |s| - 2);
  }

  lemma MapTrimmedOther(s: string)
    requires !EndsWith(s, "?") && !EndsWith(s, "[]")
    ensures MapTrimmed(s) == MapGeneric(s)
  {}

  lemma MapGenericDictionary(s: string)
    requires CollectionMatch(s).None? && DictionaryMatch(s).Some?
    ensures MapGeneric(s) == "Record<string, " + MapType(DictionaryMatch(s).value) + ">"
  {}

  lemma MapTrimmedGeneric(s: string)
    requires s != [] && s[|s| - 1] != '?' && s[|s| - 1] != ']'
    ensures MapTrimmed(s) == MapGeneric(s)
  {
    NoMarkerSuffix(s);
    MapTrimmedOther(s);
  }

  lemma NoMarkerSuffix(s: string)
    requires s != [] && s[|s| - 1] != '?' && s[|s| - 1] != ']'
    ensures !EndsWith(s, "?") && !EndsWith(s, "[]")
  {
    EndsWithLast(s, "?");
    EndsWithLast(s, "[]");
  }

  lemma MapGenericCollection(s: string)
    requires CollectionMatch(s).Some?
    ensures MapGeneric(s) == MapType(CollectionMatch(s).value) + "[]"
  {}

  lemma MapGenericOfCapture(s: string, x: string)
    requires CollectionMatch(s) == Some(x)
    ensures MapGeneric(s) == MapType(x) + "[]"
  {
    MapGenericCollection(s);
  }

  lemma MapGenericPlain(s: string)
    requires CollectionMatch(s).None? && DictionaryMatch(s).None?
    ensures MapGeneric(s) == Lookup(s)
  {}

  lemma MapTypeGeneric(s: string)
    requires s != [] && !IsWhitespace(s[0]) && !IsWhitespace(s[|s| - 1])
    requires s[|s| - 1] != '?' && s[|s| - 1] != ']'
    ensures MapType(s) == MapGeneric(s)
  {
    TrimNoop(s);
    MapTypeOfTrimmed(s);
    MapTrimmedGeneric(s);
  }

  /** An array suffix maps to the element mapping plus `[]`: `int[]` → `number[]`. */
  lemma ArraySuffix(t: string)
    requires t != [] && !IsWhitespace(t[0])
    requires NoBrackets(t)
    ensures MapType(t + "[]") == MapType(t) + "[]"
  {
    ArrayTokenIsTrimmed(t);
    ArrayTokenStep(t);
  }

  lemma ArrayTokenIsTrimmed(t: string)
    requires t != [] && !IsWhitespace(t[0])
    ensures MapType(t + "[]") == MapTrimmed(t + "[]")
  {
    var s := t + "[]";
    assert s[0] == t[0] && s[|s| - 1] == ']';
    TrimNoop(s);
    MapTypeOfTrimmed(s);
  }

  lemma ArrayTokenStep(t: string)
    requires NoBrackets(t)
    ensures MapTrimmed(t + "[]") == MapType(t) + "[]"
  {
    var s := t + "[]";
    assert s[|s| - 1] == ']' && EndsWith(s, "[]");
    MapTrimmedArray(s);
    RemoveTrailingBrackets(t);
  }

  lemma RemoveTrailingBrackets(t: string)
    requires NoBrackets(t)
    ensures ReplaceFirst(t + "[]", "[]", "") == t
  {
    var s := t + "[]";
    assert OccursAt(s, "[]", |t|);
    forall i | 0 <= i < |t| ensures !OccursAt(s, "[]", i) {
      if i + 2 <= |t| {
        assert s[i..i + 2] == t[i..i + 2];
        assert !OccursAt(t, "[]", i);
      } else {
        assert s[i + 1] == '[';
      }
    }
    IndexOfAt(s, "[]", 0, |t|);
    assert s[..|t|] + "" + s[|t| + 2..] == t;
  }

  /** Inside a token that holds no line terminator, a trailing `>` closes the
      greedy capture. */
  lemma GreedyToLastChar(s: string, j: nat)
    requires j + 1 < |s| && s[|s| - 1] == '>'
    requires forall m | j <= m < |s| :: !IsLineTerminator(s[m])
    ensures GreedyToGt(s, j) == Some(|s| - 1)
  {
    assert LineEnd(s, j) == |s|;
  }

  /** `List<X>`, `IEnumerable<X>`, `ICollection<X>` and `HashSet<X>` map to the
      mapping of `X` plus `[]`; so `List<List<int>>` → `number[][]`. */
  lemma CollectionOf(k: nat, x: string)
    requires k < |Containers|
    requires x != [] && AllChars(x, NotLineTerminator)
    ensures MapType(Containers[k] + "<" + x + ">") == MapType(x) + "[]"
  {
    var s := Containers[k] + "<" + x + ">";
    CollectionTokenIsGeneric(k, x);
    CollectionCapture(k, x);
    MapGenericOfCapture(s, x);
  }

  lemma CollectionTokenIsGeneric(k: nat, x: string)
    requires k < |Containers|
    ensures MapType(Containers[k] + "<" + x + ">") == MapGeneric(Containers[k] + "<" + x + ">")
  {
    var s := Containers[k] + "<" + x + ">";
    assert s[0] == Containers[k][0];
    MapTypeGeneric(s);
  }

  lemma CollectionCapture(k: nat, x: string)
    requires k < |Containers|
    requires x != [] && AllChars(x, NotLineTerminator)
    ensures CollectionMatch(Containers[k] + "<" + x + ">") == Some(x)
  {
    var name := Containers[k];
    var s := name + "<" + x + ">";
    ContainerAtStart(k, x + ">");
    assert s == name + "<" + (x + ">");
    forall m | |name| + 1 <= m < |s| ensures !IsLineTerminator(s[m]) {
      if m < |s| - 1 { assert s[m] == x[m - |name| - 1]; }
    }
    GreedyToLastChar(s, |name| + 1);
    assert s[|name| + 1..|s| - 1] == x;
  }

  /** The container names differ in their first two characters, so the one that
      starts a token is the only one `ContainerAt` can report. */
  lemma ContainerAtStart(k: nat, rest: string)
    requires k < |Containers|
    ensures ContainerAt(Containers[k] + "<" + rest, 0) == Some(k)
  {
    var name := Containers[k];
    var s := name + "<" + rest;
    assert s[..|name| + 1] == name + "<";
    assert s[0] == name[0] && s[1] == name[1];
    OccursAtIndex(s, "List<", 0, 0);
    OccursAtIndex(s, "IEnumerable<", 0, 1);
    OccursAtIndex(s, "ICollection<", 0, 1);
  }

  /** `Dictionary<string, X>` maps to `Record<string, ` + the mapping of `X` + `>`,
      whatever whitespace follows the comma: so `Dictionary<string, int>` →
      `Record<string, number>`. `X` is one line of text with no `<` that does not
      start with whitespace (with a `<` in `X` the collection pattern is tried first). */
  lemma DictionaryOf(w: string, x: string)
    requires AllChars(w, Whitespace)
    requires x != [] && !IsWhitespace(x[0]) && NoOpenAngle(x) && AllChars(x, NotLineTerminator)
    ensures MapType(DictOpen + w + x + ">") == "Record<string, " + MapType(x) + ">"
  {
    var s := DictOpen + w + x + ">";
    DictTokenShape(w, x);
    MapTypeGeneric(s);
    DictTokenNoCollection(s, 0);
    DictTokenCapture(w, x);
    MapGenericDictionary(s);
  }

  lemma DictTokenShape(w: string, x: string)
    requires AllChars(w, Whitespace)
    requires x != [] && NoOpenAngle(x)
    ensures var s := DictOpen + w + x + ">";
      s[0] == 'D' && s[|s| - 1] == '>' && StartsWith(s, "Dictionary<")
      && forall m | 0 <= m < |s| && m != 10 :: s[m] != '<'
  {
    var s := DictOpen + w + x + ">";
    assert s[..18] == DictOpen;
    assert s[..11] == DictOpen[..11] == "Dictionary<";
    forall m | 0 <= m < |s| && m != 10 ensures s[m] != '<' {
      if m < 18 {
        assert s[m] == DictOpen[m];
      } else if m < 18 + |w| {
        assert s[m] == w[m - 18] && InClass(w[m - 18], Whitespace);
      } else if m < |s| - 1 {
        assert s[m] == x[m - 18 - |w|];
      }
    }
  }

  /** In a token whose only `<` is the one of a leading `Dictionary<`, no
      container pattern matches. */
  lemma {:induction false} DictTokenNoCollection(s: string, i: nat)
    requires i <= |s| && StartsWith(s, "Dictionary<")
    requires forall m | 0 <= m < |s| && m != 10 :: s[m] != '<'
    ensures CollectionFrom(s, i) == None
    decreases |s| - i
  {
    if i < |s| {
      assert s[3] == s[..11][3] == 't' && s[6] == s[..11][6] == 'n';
      forall k | 0 <= k < |Containers| ensures !OccursAt(s, Containers[k] + "<", i) {
        var p := Containers[k] + "<";
        OccursAtIndex(s, p, i, |p| - 1);
        OccursAtIndex(s, p, i, 0);
      }
      DictTokenNoCollection(s, i + 1);
    }
  }

  /** The dictionary pattern matches at the start and captures exactly `X`. */
  lemma DictTokenCapture(w: string, x: string)
    requires AllChars(w, Whitespace)
    requires x != [] && !IsWhitespace(x[0]) && AllChars(x, NotLineTerminator)
    ensures DictionaryMatch(DictOpen + w + x + ">") == Some(x)
  {
    var s := DictOpen + w + x + ">";
    var j := 18 + |w|;
    assert s[..18] == DictOpen && OccursAt(s, DictOpen, 0);
    forall m | 18 <= m < j ensures InClass(s[m], Whitespace) {
      assert s[m] == w[m - 18] && InClass(w[m - 18], Whitespace);
    }
    assert s[j] == x[0];
    RunEndUnique(s, 18, Whitespace, j);
    forall m | j <= m < |s| ensures !IsLineTerminator(s[m]) {
      if m < |s| - 1 {
        assert s[m] == x[m - j] && InClass(x[m - j], NotLineTerminator);
      }
    }
    GreedyToLastChar(s, j);
    assert s[j..|s| - 1] == x;
  }

  /** A token made of word characters is looked up in the table and otherwise
      returned unchanged. */
  lemma PlainName(t: string)
    requires t != [] && AllChars(t, Word)
    ensures MapType(t) == Lookup(t)
  {
    WordTokenShape(t);
    MapTypeGeneric(t);
    PlainGeneric(t);
  }

  lemma WordTokenShape(t: string)
    requires t != [] && AllChars(t, Word)
    ensures !IsWhitespace(t[0]) && !IsWhitespace(t[|t| - 1])
    ensures t[|t| - 1] != '?' && t[|t| - 1] != ']'
    ensures NoOpenAngle(t)
  {}

  lemma PlainGeneric(t: string)
    requires NoOpenAngle(t)
    ensures MapGeneric(t) == Lookup(t)
  {
    NoOpenAngleNoCollection(t, 0);
    NoOpenAngleNoDictionary(t, 0);
    MapGenericPlain(t);
  }

  lemma {:induction false} NoOpenAngleNoCollection(t: string, i: nat)
    requires i <= |t|
    requires NoOpenAngle(t)
    ensures CollectionFrom(t, i) == None
    decreases |t| - i
  {
    if i < |t| {
      forall k | 0 <= k < |Containers| ensures !OccursAt(t, Containers[k] + "<", i) {
        var p := Containers[k] + "<";
        OccursAtIndex(t, p, i, |p| - 1);
      }
      NoOpenAngleNoCollection(t, i + 1);
    }
  }

  lemma {:induction false} NoOpenAngleNoDictionary(t: string, i: nat)
    requires i <= |t|
    requires NoOpenAngle(t)
    ensures DictionaryFrom(t, i) == None
    decreases |t| - i
  {
    if i < |t| {
      OccursAtIndex(t, DictOpen, i, 10);
      NoOpenAngleNoDictionary(t, i + 1);
    }
  }

  /** Every primitive name maps to its table entry. */
  lemma PrimitivesMapByTable(t: string)
    requires t in PrimitiveMap
    ensures MapType(t) == PrimitiveMap[t]
  {
    PrimitiveKey(t);
    PlainName(t);
    assert Lookup(t) == PrimitiveMap[t];
  }

  lemma PrimitiveKey(t: string)
    requires t in PrimitiveMap
    ensures t != [] && AllChars(t, Word)
  {}

  lemma PrimitiveValue(t: string)
    requires t in PrimitiveMap
    ensures PrimitiveMap[t] == "string" || PrimitiveMap[t] == "boolean" || PrimitiveMap[t] == "number"
  {}

  /** Worked example: `int` → `number`. */
  lemma ExampleInt(t: string)
    requires t == "int"
    ensures MapType(t) == "number"
  {
    PrimitivesMapByTable(t);
  }

  /** Worked example: a nullable primitive, `int?` → `number`. */
  lemma ExampleNullable(t: string)
    requires t == "int"
    ensures MapType(t + "?") == "number"
  {
    ExampleInt(t);
    NullableMarkerIgnored(t);
  }

  /** A token with no line break maps to a type with no line break, so each
      rendered member stays on one line. */
  lemma {:induction false} MapTypeSingleLine(t: string)
    requires SingleLine(t)
    ensures SingleLine(MapType(t))
    decreases |t|, 3
  {
    TrimSingleLine(t);
    MapTrimmedSingleLine(Trim(t));
  }

  lemma {:induction false} MapTrimmedSingleLine(s: string)
    requires SingleLine(s)
    ensures SingleLine(MapTrimmed(s))
    decreases |s|, 2
  {
    if EndsWith(s, "?") {
      MapTrimmedNullable(s);
      SliceSingleLine(s, 0, |s| - 1);
      MapTypeSingleLine(s[..|s| - 1]);
    } else if EndsWith(s, "[]") {
      MapTrimmedArray(s);
      ReplaceSingleLine(s);
      MapTypeSingleLine(ReplaceFirst(s, "[]", ""));
    } else {
      MapTrimmedOther(s);
      MapGenericSingleLine(s);
    }
  }

  lemma {:induction false} MapGenericSingleLine(s: string)
    requires SingleLine(s)
    ensures SingleLine(MapGeneric(s))
    decreases |s|, 1
  {
    if CollectionMatch(s).Some? {
      CollectionSingleLine(s);
    } else if DictionaryMatch(s).Some? {
      DictionarySingleLine(s);
    } else {
      MapGenericPlain(s);
      if s in PrimitiveMap { PrimitiveValue(s); }
    }
  }

  lemma {:induction false} CollectionSingleLine(s: string)
    requires SingleLine(s) && CollectionMatch(s).Some?
    ensures SingleLine(MapGeneric(s))
    decreases |s|, 0
  {
    var x := CollectionMatch(s).value;
    MapGenericCollection(s);
    CollectionCaptureIsSlice(s, 0);
    MapTypeSingleLine(x);
    AppendSingleLine(MapType(x), "[]");
  }

  lemma {:induction false} DictionarySingleLine(s: string)
    requires SingleLine(s) && CollectionMatch(s).None? && DictionaryMatch(s).Some?
    ensures SingleLine(MapGeneric(s))
    decreases |s|, 0
  {
    var x := DictionaryMatch(s).value;
    MapGenericDictionary(s);
    DictionaryCaptureIsSlice(s, 0);
    MapTypeSingleLine(x);
    AppendSingleLine("Record<string, ", MapType(x));
    AppendSingleLine("Record<string, " + MapType(x), ">");
  }

  lemma TrimSingleLine(t: string)
    requires SingleLine(t)
    ensures SingleLine(Trim(t))
  {
    var s := Trim(t);
    assert s == t[|t| - |TrimStart(t)|..][..|s|];
    forall m | 0 <= m < |s| ensures s[m] != '\n' { assert s[m] in t; }
  }

  lemma ReplaceSingleLine(s: string)
    requires SingleLine(s) && EndsWith(s, "[]")
    ensures SingleLine(ReplaceFirst(s, "[]", ""))
  {
    assert OccursAt(s, "[]", |s| - 2);
    IndexOfFirst(s, "[]", 0, |s| - 2);
    var i := IndexOf(s, "[]", 0).value;
    assert ReplaceFirst(s, "[]", "") == s[..i] + s[i + 2..];
    SliceSingleLine(s, 0, i);
    SliceSingleLine(s, i + 2, |s|);
  }

  lemma SliceSingleLine(s: string, a: nat, b: nat)
    requires a <= b <= |s| && SingleLine(s)
    ensures SingleLine(s[a..b])
  {
    forall m | a <= m < b ensures s[m] != '\n' { assert s[m] in s; }
  }

  lemma {:induction false} CollectionCaptureIsSlice(s: string, i: nat)
    requires i <= |s| && SingleLine(s)
    requires CollectionFrom(s, i).Some?
    ensures SingleLine(CollectionFrom(s, i).value)
    decreases |s| - i
  {
    if ContainerAt(s, i).Some? && GreedyToGt(s, OpenEnd(s, i)).Some? {
      SliceSingleLine(s, OpenEnd(s, i), GreedyToGt(s, OpenEnd(s, i)).value);
    } else {
      CollectionCaptureIsSlice(s, i + 1);
    }
  }

  lemma {:induction false} DictionaryCaptureIsSlice(s: string, i: nat)
    requires i <= |s| && SingleLine(s)
    requires DictionaryFrom(s, i).Some?
    ensures SingleLine(DictionaryFrom(s, i).value)
    decreases |s| - i
  {
    if OccursAt(s, DictOpen, i) {
      var p := i + |DictOpen|;
      var jk := DictValueFrom(s, p, RunEnd(s, p, Whitespace));
      if jk.Some? {
        SliceSingleLine(s, jk.value.0, jk.value.1);
      } else {
        DictionaryCaptureIsSlice(s, i + 1);
      }
    } else {
      DictionaryCaptureIsSlice(s, i + 1);
    }
  }
}
