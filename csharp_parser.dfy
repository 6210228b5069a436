/** `parseCSharpModels` and `parseCSharpEnums`: the three global regular expressions
    of the parser, written as left-to-right scanners, and the `while (exec(...))`
    loops that collect their matches.

    Each pattern is modelled by a function `XAt(s, k)` that tries it at one position
    and a function `NextX(s, from)` that finds the leftmost position at or after
    `from` where it matches, which is what `exec` does from `lastIndex`. The optional
    access-modifier prefixes of the class and enum patterns never contain the
    keywords `class`, `record` or `enum`, so a match is located by its keyword. The
    property pattern's prefix (attributes, a modifier, `virtual` or `override`) can
    end at several positions, so it is modelled as a backtracking matcher that
    tries those ends in the order a JavaScript regular expression does. */
module CsharpParser {
  import opened Strings
  import opened CsharpTypes

  // ---------------------------------------------------------------------------
  // The class/record pattern
  //   (?:public|private|protected|internal)?\s*(?:sealed|abstract|partial)?\s*
  //   (?:class|record)\s+(\w+)[^{]*\{([\s\S]*?)\n\}

  /** A match of the class pattern: the captured name and body, where its keyword
      starts and where the match ends. */
  datatype ClassMatch = ClassMatch(name: string, body: string, at: nat, end: nat)

  /** The length of the keyword `class` or `record` starting at `k`, or 0. */
  function ClassKeywordLength(s: string, k: nat): (n: nat)
    ensures n == 0 || n == 5 || n == 6
    ensures n > 0 ==> k + n <= |s|
    ensures n == 0 <==> !OccursAt(s, "class", k) && !OccursAt(s, "record", k)
  {
    if OccursAt(s, "class", k) then 5 else if OccursAt(s, "record", k) then 6 else 0
  }

  /** Where the parts of a match lie: the name runs over `[b, c)`, the `{` is at
      `o` and the closing `\n}` at `e`. */
  datatype Span = Span(b: nat, c: nat, o: nat, e: nat)

  /** The class pattern with its keyword at `k`: whitespace, the name (a maximal
      run of word characters), anything up to the first `{`, and the body up to the
      first newline that is immediately followed by `}`. */
  function ClassSpanAt(s: string, k: nat): Option<Span>
  {
    var n := ClassKeywordLength(s, k);
    if n == 0 then None
    else
      var b := RunEnd(s, k + n, Whitespace);
      var c := RunEnd(s, b, Word);
      if b == k + n || c == b then None
      else
        var o := Find(s, '{', c);
        if o.None? then None
        else
          var e := IndexOf(s, "\n}", o.value + 1);
          if e.None? then None
          else Some(Span(b, c, o.value, e.value))
  }

  /** The parts of a class match lie where the pattern puts them. */
  lemma ClassSpanFacts(s: string, k: nat, sp: Span)
    requires ClassSpanAt(s, k) == Some(sp)
    ensures ClassKeywordLength(s, k) > 0
    ensures var n := ClassKeywordLength(s, k);
      k + n < sp.b == RunEnd(s, k + n, Whitespace)
      && sp.b < sp.c == RunEnd(s, sp.b, Word)
      && Find(s, '{', sp.c) == Some(sp.o)
      && IndexOf(s, "\n}", sp.o + 1) == Some(sp.e)
  {
  }

  /** The match the class pattern makes with its keyword at `k`. */
  function ClassAt(s: string, k: nat): (r: Option<ClassMatch>)
    ensures r.Some? ==> r.value.at == k < r.value.end <= |s|
  {
    var sp := ClassSpanAt(s, k);
    if sp.None? then None
    else
      var m := sp.value;
      Some(ClassMatch(s[m.b..m.c], s[m.o + 1..m.e], k, m.e + 2))
  }

  /** The captured class name is a non-empty run of word characters. */
  lemma ClassNameShape(s: string, k: nat)
    requires ClassAt(s, k).Some?
    ensures var name := ClassAt(s, k).value.name; name != [] && AllChars(name, Word)
  {
    var sp := ClassSpanAt(s, k).value;
    ClassSpanFacts(s, k, sp);
    CharsInSlice(s, sp.b, sp.c, Word);
  }

  /** `classRegex.exec(input)` from `lastIndex = from`: the leftmost match. */
  function NextClass(s: string, from: nat): (r: Option<ClassMatch>)
    decreases |s| - from
    ensures r.Some? ==> from <= r.value.at && ClassAt(s, r.value.at) == r
    ensures r.Some? ==> forall k | from <= k < r.value.at :: ClassAt(s, k).None?
    ensures r.None? ==> forall k | from <= k < |s| :: ClassAt(s, k).None?
  {
    if from >= |s| then None
    else if ClassAt(s, from).Some? then ClassAt(s, from)
    else NextClass(s, from + 1)
  }

  /** Every match of the class pattern from `from` on, in the order `exec` finds them. */
  function ClassMatches(s: string, from: nat): (ms: seq<ClassMatch>)
    decreases |s| - from
  {
    var m := NextClass(s, from);
    if m.None? then [] else [m.value] + ClassMatches(s, m.value.end)
  }

  // ---------------------------------------------------------------------------
  // The property pattern
  //   (?:\[[^\]]+\]\s*)*(?:public|private|protected|internal)?\s*(?:virtual\s+|override\s+)?
  //   ([\w<>\[\]?]+)\s+(\w+)\s*\{[\s\S]*?get;[\s\S]*?set;[\s\S]*?\}\s*(?:=\s*[^;]+)?;

  /** A match of the property pattern: the captured type token and name, where the
      match starts, where the type token starts and where the match ends. */
  datatype PropertyMatch = PropertyMatch(typeToken: string, name: string, at: nat, decl: nat, end: nat)

  /** `\s*(?:=\s*[^;]+)?;` tried at `i`: either `;` after optional whitespace, or `=`
      followed by at least one character before the next `;`. The result is where
      the match ends. */
  function TailEnd(s: string, i: nat): (r: Option<nat>)
    requires i <= |s|
    ensures r.Some? ==> i < r.value <= |s| && s[r.value - 1] == ';'
  {
    var w := RunEnd(s, i, Whitespace);
    if w < |s| && s[w] == ';' then Some(w + 1)
    else if w < |s| && s[w] == '=' then
      var q := Find(s, ';', w + 1);
      if q.Some? && q.value >= w + 2 then Some(q.value + 1) else None
    else None
  }

  /** `[\s\S]*?\}` and the tail from `from`: the lazy scan stops at the first `}`
      after which the tail matches. */
  function CloseEnd(s: string, from: nat): (r: Option<nat>)
    decreases |s| - from
    ensures r.Some? ==> from < r.value <= |s| && s[r.value - 1] == ';'
  {
    var c := Find(s, '}', from);
    if c.None? then None
    else
      var e := TailEnd(s, c.value + 1);
      if e.Some? then e else CloseEnd(s, c.value + 1)
  }

  /** A well-formed captured property: a non-empty name of word characters, a
      non-empty type token of type characters, nullable exactly when the token ends
      with `?`. */
  predicate WellFormedProperty(p: CsProperty) {
    p.name != [] && AllChars(p.name, Word)
    && p.typeToken != [] && AllChars(p.typeToken, TypeChars)
    && p.nullable == EndsWith(p.typeToken, "?")
  }

  /** `([\w<>\[\]?]+)\s+(\w+)\s*\{` with the type token at `p`: the token and the
      name are maximal runs. The result is where the token ends, where the name
      starts and ends, and where the `{` is. */
  function DeclarationAt(s: string, p: nat): (r: Option<(nat, nat, nat, nat)>)
    ensures r.Some? ==> p < r.value.0 < r.value.1 < r.value.2 <= r.value.3 < |s|
    ensures r.Some? ==> s[r.value.3] == '{'
  {
    if p > |s| then None
    else
      var t := RunEnd(s, p, TypeChars);
      var w := RunEnd(s, t, Whitespace);
      var n := RunEnd(s, w, Word);
      var o := RunEnd(s, n, Whitespace);
      if t == p || w == t || n == w || o == |s| || s[o] != '{' then None
      else Some((t, w, n, o))
  }

  /** The type token and the name are runs of their character classes. */
  lemma DeclarationRuns(s: string, p: nat, d: (nat, nat, nat, nat))
    requires DeclarationAt(s, p) == Some(d)
    ensures p < d.0 < d.1 < d.2 <= |s|
    ensures CharsIn(s, p, d.0, TypeChars) && CharsIn(s, d.1, d.2, Word)
  {
  }

  /** `[\s\S]*?get;[\s\S]*?set;[\s\S]*?\}` and the tail after the `{` at `o`: the
      first `get;`, the first `set;` after it, and the first `}` after that whose
      tail matches. The result is where the match ends. */
  function AccessorsEnd(s: string, o: nat): (r: Option<nat>)
    ensures r.Some? ==> o < r.value <= |s| && s[r.value - 1] == ';'
    ensures r.Some? ==> HasAccessors(s, o, r.value)
  {
    var g := IndexOf(s, "get;", o + 1);
    if g.None? then None
    else
      var st := IndexOf(s, "set;", g.value + 4);
      if st.None? then None
      else
        var e := CloseEnd(s, st.value + 4);
        assert e.Some? ==> o < g.value && g.value + 4 <= st.value && st.value + 4 < e.value;
        e
  }

  /** The part of the property pattern after its prefix,
      `([\w<>\[\]?]+)\s+(\w+)\s*\{[\s\S]*?get;[\s\S]*?set;[\s\S]*?\}\s*(?:=\s*[^;]+)?;`,
      with the type token at `p`. A shorter type token, name or whitespace run would
      leave a character of its own class where the next part needs another, so only
      the maximal runs can match. */
  function DeclarationMatch(s: string, p: nat): (r: Option<PropertyMatch>)
    ensures r.Some? ==> r.value.at == r.value.decl == p < r.value.end <= |s|
  {
    var d := DeclarationAt(s, p);
    if d.None? then None
    else
      var e := AccessorsEnd(s, d.value.3);
      if e.None? then None
      else Some(PropertyMatch(s[p..d.value.0], s[d.value.1..d.value.2], p, p, e.value))
  }

  /** The captured type token is a non-empty run of `[\w<>\[\]?]` characters and
      the captured name a non-empty run of word characters. */
  lemma DeclarationShape(s: string, p: nat, m: PropertyMatch)
    requires DeclarationMatch(s, p) == Some(m)
    ensures m.typeToken != [] && AllChars(m.typeToken, TypeChars)
    ensures m.name != [] && AllChars(m.name, Word)
  {
    var d := DeclarationAt(s, p).value;
    var e := AccessorsEnd(s, d.3).value;
    assert m == PropertyMatch(s[p..d.0], s[d.1..d.2], p, p, e);
    DeclarationRuns(s, p, d);
    CharsInSlice(s, p, d.0, TypeChars);
    CharsInSlice(s, d.1, d.2, Word);
  }

  // The prefix (?:\[[^\]]+\]\s*)*(?:public|private|protected|internal)?\s*(?:virtual\s+|override\s+)?
  // can end at several positions. As in a backtracking matcher, each part below
  // takes the rest of the pattern as a continuation `rest` (does the rest match
  // from this position?) and returns the first position, in the order the matcher
  // tries them, where the part can end and the rest matches.

  /** `\[[^\]]+\]` at `i`: a `[`, at least one other character, and the first `]`
      after it. The result is where the attribute ends. */
  function AttributeEnd(s: string, i: nat): (r: Option<nat>)
    ensures r.Some? ==> i + 3 <= r.value <= |s| && s[i] == '[' && s[r.value - 1] == ']'
    ensures r.Some? ==> Absent(s, ']', i + 1, r.value - 1)
  {
    if i < |s| && s[i] == '[' then
      var j := Find(s, ']', i + 1);
      if j.Some? && j.value >= i + 2 then Some(j.value + 1) else None
    else None
  }

  /** `(?:public|private|protected|internal)` at `i`: where the modifier ends. No
      two of the words can start at the same position. */
  function ModifierEnd(s: string, i: nat): (r: Option<nat>)
    ensures r.Some? ==> i + 6 <= r.value <= |s|
  {
    if OccursAt(s, "public", i) then Some(i + 6)
    else if OccursAt(s, "private", i) then Some(i + 7)
    else if OccursAt(s, "protected", i) then Some(i + 9)
    else if OccursAt(s, "internal", i) then Some(i + 8)
    else None
  }

  /** The ends `e, e - 1, ..., lo` of a greedy run, longest first, each followed by
      the rest. */
  function TryDownFrom(rest: nat -> bool, lo: nat, e: nat): (r: Option<nat>)
    requires lo <= e
    decreases e - lo
    ensures r.Some? ==> lo <= r.value <= e && rest(r.value)
  {
    if rest(e) then Some(e) else if e == lo then None else TryDownFrom(rest, lo, e - 1)
  }

  /** The length of the keyword `virtual` or `override` starting at `w`, or 0. */
  function VirtualKeywordLength(s: string, w: nat): (n: nat)
    ensures n == 0 || n == 7 || n == 8
    ensures n > 0 ==> w + n <= |s|
    ensures n == 0 <==> !OccursAt(s, "virtual", w) && !OccursAt(s, "override", w)
  {
    if OccursAt(s, "virtual", w) then 7 else if OccursAt(s, "override", w) then 8 else 0
  }

  /** `\s*(?:virtual\s+|override\s+)?` from `i`, followed by the rest. The ends
      of `\s*` are tried longest first. At its longest end `w`, the keyword found
      there (the two cannot both start at one position) with its whitespace, tried
      longest first, comes before no keyword; at the shorter ends the next
      character is whitespace, where neither keyword can start, so only the rest
      is tried there. */
  function TrySpaces(s: string, rest: nat -> bool, i: nat): (r: Option<nat>)
    requires i <= |s|
    ensures r.Some? ==> i <= r.value <= |s| && rest(r.value)
  {
    var w := RunEnd(s, i, Whitespace);
    var n := VirtualKeywordLength(s, w);
    var k := if n > 0 && RunEnd(s, w + n, Whitespace) > w + n
      then TryDownFrom(rest, w + n + 1, RunEnd(s, w + n, Whitespace)) else None;
    if k.Some? then k else TryDownFrom(rest, i, w)
  }

  /** The whole prefix from `i`, followed by the rest. The attribute star is
      greedy, so another attribute, with the whitespace after it tried longest
      first, comes first; then the optional modifier and the whitespace after it;
      then no modifier. */
  function TryPrefix(s: string, rest: nat -> bool, i: nat): (r: Option<nat>)
    requires i <= |s|
    decreases |s| - i, 0
    ensures r.Some? ==> i <= r.value <= |s| && rest(r.value)
  {
    var a := AttributeEnd(s, i);
    var t := if a.Some? then TryAttributeSpaces(s, rest, a.value, RunEnd(s, a.value, Whitespace)) else None;
    if t.Some? then t
    else
      var m := ModifierEnd(s, i);
      var u := if m.Some? then TrySpaces(s, rest, m.value) else None;
      if u.Some? then u else TrySpaces(s, rest, i)
  }

  /** `\s*` after an attribute ending at `lo`: its ends from `e` down to `lo`,
      longest first, each followed by the rest of the attribute star. */
  function TryAttributeSpaces(s: string, rest: nat -> bool, lo: nat, e: nat): (r: Option<nat>)
    requires 0 < lo <= e <= |s|
    decreases |s| + 1 - lo, e - lo
    ensures r.Some? ==> lo <= r.value <= |s| && rest(r.value)
  {
    var t := TryPrefix(s, rest, e);
    if t.Some? then t else if e == lo then None else TryAttributeSpaces(s, rest, lo, e - 1)
  }

  /** `f(i), f(i + 1), ..., f(n - 1)`. */
  function Tabulate<T>(f: nat -> T, i: nat, n: nat): (t: seq<T>)
    requires i <= n
    decreases n - i
    ensures |t| == n - i
  {
    if i == n then [] else [f(i)] + Tabulate(f, i + 1, n)
  }

  lemma {:induction false} TabulateAt<T>(f: nat -> T, i: nat, k: nat, n: nat)
    requires i <= k < n
    ensures Tabulate(f, i, n)[k - i] == f(k)
    decreases k - i
  {
    if k > i {
      TabulateAt(f, i + 1, k, n);
    }
  }

  /** Where the declaration part matches, for every position `0, ..., |s|` of `s`. */
  function DeclarationTable(s: string): (t: seq<bool>)
    ensures |t| == |s| + 1
  {
    Tabulate((p: nat) => DeclarationMatch(s, p).Some?, 0, |s| + 1)
  }

  lemma DeclarationTableAt(s: string, k: nat)
    requires k <= |s|
    ensures DeclarationTable(s)[k] == DeclarationMatch(s, k).Some?
  {
    TabulateAt((p: nat) => DeclarationMatch(s, p).Some?, 0, k, |s| + 1);
  }

  /** The part of the pattern after the prefix, as a continuation: does the
      declaration part match at `p`? */
  function DeclarationRest(s: string): nat -> bool {
    var t := DeclarationTable(s);
    (p: nat) => p < |t| && t[p]
  }

  /** The property pattern with its match starting at `q`: the declaration part at
      the first position the prefix can reach, in the matcher's order, where it
      matches. */
  function PrefixedDeclaration(s: string, q: nat): (r: Option<PropertyMatch>)
    ensures r.Some? ==> r.value.at == q <= r.value.decl < r.value.end <= |s|
  {
    if q > |s| then None
    else
      var p := TryPrefix(s, DeclarationRest(s), q);
      if p.None? then None
      else
        DeclarationTableAt(s, p.value);
        Some(DeclarationMatch(s, p.value).value.(at := q))
  }

  /** `f(k)`, reached through `d` recursive steps; a proof sees `f(k)` only
      once it takes those steps (`DeferredValue`). The depth must not be a
      literal, or the verifier would evaluate the steps at once. */
  function Deferred<T>(f: nat -> T, k: nat, d: nat): T
    decreases d
  {
    if d == 0 then f(k) else Deferred(f, k, d - 1)
  }

  lemma {:induction false} DeferredValue<T>(f: nat -> T, k: nat, d: nat)
    ensures Deferred(f, k, d) == f(k)
  {
    if d > 0 {
      DeferredValue(f, k, d - 1);
    }
  }

  /** The property pattern's match starting at `q`, deferred so that reasoning
      about the scan does not unfold the matcher at every position. */
  function PropertyAt(s: string, q: nat): (r: Option<PropertyMatch>)
    ensures r.Some? ==> r.value.at == q <= r.value.decl < r.value.end <= |s|
  {
    DeferredValue((q: nat) => PrefixedDeclaration(s, q), q, |s| + 3);
    Deferred((q: nat) => PrefixedDeclaration(s, q), q, |s| + 3)
  }

  /** A match starting at `q` is the declaration part's match at the position the
      prefix reaches, and there is one exactly when the prefix reaches a position
      where the declaration part matches. */
  lemma PropertyAtDeclaration(s: string, q: nat)
    requires q <= |s|
    ensures PropertyAt(s, q).Some? <==> TryPrefix(s, DeclarationRest(s), q).Some?
    ensures PropertyAt(s, q).Some? ==>
      var m := PropertyAt(s, q).value;
      m.decl == TryPrefix(s, DeclarationRest(s), q).value
      && DeclarationMatch(s, m.decl) == Some(m.(at := m.decl))
  {
    DeferredValue((q: nat) => PrefixedDeclaration(s, q), q, |s| + 3);
    var p := TryPrefix(s, DeclarationRest(s), q);
    if p.Some? {
      DeclarationTableAt(s, p.value);
      var d := DeclarationMatch(s, p.value).value;
      assert PropertyAt(s, q) == Some(d.(at := q));
      assert d.(at := q).(at := p.value) == d;
    }
  }

  /** `(?:virtual\s+|override\s+)?` read greedily from `w`. */
  function KeywordSkipped(s: string, w: nat): (p: nat)
    requires w <= |s|
    ensures w <= p <= |s|
  {
    var n := VirtualKeywordLength(s, w);
    if n > 0 && RunEnd(s, w + n, Whitespace) > w + n then RunEnd(s, w + n, Whitespace) else w
  }

  /** Where the type token starts when the prefix is read greedily: each attribute
      with all the whitespace after it, then the modifier if there is one, all the
      whitespace, and `virtual` or `override` with all the whitespace after it. */
  function GreedyDecl(s: string, i: nat): (p: nat)
    requires i <= |s|
    decreases |s| - i
    ensures i <= p <= |s|
  {
    var a := AttributeEnd(s, i);
    if a.Some? then GreedyDecl(s, RunEnd(s, a.value, Whitespace))
    else
      var m := ModifierEnd(s, i);
      KeywordSkipped(s, RunEnd(s, if m.Some? then m.value else i, Whitespace))
  }

  /** A string that occurs at `i` starts with its first character there. */
  lemma OccursAtHead(s: string, w: string, i: nat)
    requires |w| > 0 && OccursAt(s, w, i)
    ensures i < |s| && s[i] == w[0]
  {
    assert s[i..i + |w|][0] == s[i];
  }

  lemma SpacesGreedy(s: string, rest: nat -> bool, j: nat)
    requires j <= |s| && rest(KeywordSkipped(s, RunEnd(s, j, Whitespace)))
    ensures TrySpaces(s, rest, j) == Some(KeywordSkipped(s, RunEnd(s, j, Whitespace)))
  {
  }

  /** The greedy reading is the first position the matcher tries, so when the rest
      matches there, it is what the matcher finds. */
  lemma {:induction false} GreedyDeclFirst(s: string, rest: nat -> bool, i: nat)
    requires i <= |s| && rest(GreedyDecl(s, i))
    ensures TryPrefix(s, rest, i) == Some(GreedyDecl(s, i))
    decreases |s| - i
  {
    var a := AttributeEnd(s, i);
    if a.Some? {
      var w := RunEnd(s, a.value, Whitespace);
      GreedyDeclFirst(s, rest, w);
      assert TryAttributeSpaces(s, rest, a.value, w) == TryPrefix(s, rest, w);
    } else {
      var m := ModifierEnd(s, i);
      SpacesGreedy(s, rest, if m.Some? then m.value else i);
    }
  }

  /** When the declaration part matches where the greedy reading of the prefix ends,
      the match starting at `q` captures that declaration: attributes (whatever text
      they hold), the modifier and `virtual`/`override` are passed over. */
  lemma GreedyPrefixCaptured(s: string, q: nat)
    requires q <= |s| && DeclarationMatch(s, GreedyDecl(s, q)).Some?
    ensures PropertyAt(s, q) == Some(DeclarationMatch(s, GreedyDecl(s, q)).value.(at := q))
  {
    DeclarationTableAt(s, GreedyDecl(s, q));
    GreedyDeclFirst(s, DeclarationRest(s), q);
    PropertyAtDeclaration(s, q);
  }

  /** The declaration part cannot start on whitespace. */
  lemma NoDeclarationOnWhitespace(s: string, p: nat)
    requires p < |s| && IsWhitespace(s[p])
    ensures DeclarationMatch(s, p).None?
  {
    assert RunEnd(s, p, TypeChars) == p;
  }

  /** When the rest matches at none of `lo, ..., e`, trying them finds nothing. */
  lemma {:induction false} NoneDownFrom(rest: nat -> bool, lo: nat, e: nat)
    requires lo <= e && forall k | lo <= k <= e :: !rest(k)
    ensures TryDownFrom(rest, lo, e).None?
    decreases e - lo
  {
    if e > lo {
      NoneDownFrom(rest, lo, e - 1);
    }
  }

  /** Neither `virtual` nor `override` starts at a `[`. */
  lemma NoKeywordAtBracket(s: string, w: nat)
    requires w < |s| && s[w] == '['
    ensures VirtualKeywordLength(s, w) == 0
  {
    if OccursAt(s, "virtual", w) { OccursAtHead(s, "virtual", w); }
    if OccursAt(s, "override", w) { OccursAtHead(s, "override", w); }
  }

  /** No modifier starts on whitespace. */
  lemma NoModifierOnWhitespace(s: string, q: nat)
    requires q < |s| && IsWhitespace(s[q])
    ensures ModifierEnd(s, q).None?
  {
    if OccursAt(s, "public", q) { OccursAtHead(s, "public", q); }
    if OccursAt(s, "private", q) { OccursAtHead(s, "private", q); }
    if OccursAt(s, "protected", q) { OccursAtHead(s, "protected", q); }
    if OccursAt(s, "internal", q) { OccursAtHead(s, "internal", q); }
  }

  /** The declaration part matches neither in the whitespace before `w` nor at `w`
      when it does not match there. */
  lemma NoRestBefore(s: string, q: nat, w: nat)
    requires q <= w <= |s| && CharsIn(s, q, w, Whitespace) && DeclarationMatch(s, w).None?
    ensures forall k | q <= k <= w :: !DeclarationRest(s)(k)
  {
    forall k | q <= k <= w ensures !DeclarationRest(s)(k) {
      NoRestAt(s, k, w);
    }
  }

  lemma NoRestAt(s: string, k: nat, w: nat)
    requires k <= w <= |s| && (k < w ==> IsWhitespace(s[k])) && DeclarationMatch(s, w).None?
    ensures !DeclarationRest(s)(k)
  {
    DeclarationTableAt(s, k);
    if k < w { NoDeclarationOnWhitespace(s, k); }
  }

  /** No match starts in the whitespace before a `[` at which the declaration part
      does not match: from there the prefix can reach only that whitespace and the
      `[`, because an attribute or a modifier cannot start on whitespace. */
  lemma NoMatchBeforeBracket(s: string, q: nat)
    requires q < |s| && IsWhitespace(s[q])
    requires var w := RunEnd(s, q, Whitespace); w < |s| && s[w] == '[' && DeclarationMatch(s, w).None?
    ensures PropertyAt(s, q).None?
  {
    var w := RunEnd(s, q, Whitespace);
    PropertyAtDeclaration(s, q);
    NoModifierOnWhitespace(s, q);
    NoRestBefore(s, q, w);
    NoKeywordAtBracket(s, w);
    NoneDownFrom(DeclarationRest(s), q, w);
  }

  /** A property written after attributes at the start of a body, such as
      `[Required(ErrorMessage = "The field {0} is required")] public string B { get; set; }`:
      the first match starts at the `[` and captures the declaration the greedy
      prefix reaches, whatever the attribute text holds. */
  lemma AttributedPropertyFirst(s: string, q: nat)
    requires q < |s| && s[q] == '[' && CharsIn(s, 0, q, Whitespace)
    requires DeclarationMatch(s, q).None?
    requires DeclarationMatch(s, GreedyDecl(s, q)).Some?
    ensures NextProperty(s, 0) == Some(DeclarationMatch(s, GreedyDecl(s, q)).value.(at := q))
  {
    GreedyPrefixCaptured(s, q);
    NoPropertyBeforeBracket(s, q);
    NextPropertySkips(s, 0, q);
  }

  /** No match starts in leading whitespace before a `[` where the declaration part
      does not match. */
  lemma NoPropertyBeforeBracket(s: string, q: nat)
    requires q < |s| && s[q] == '[' && CharsIn(s, 0, q, Whitespace)
    requires DeclarationMatch(s, q).None?
    ensures forall k | 0 <= k < q :: PropertyAt(s, k).None?
  {
    forall k | 0 <= k < q ensures PropertyAt(s, k).None? {
      RunEndUnique(s, k, Whitespace, q);
      NoMatchBeforeBracket(s, k);
    }
  }

  /** When no match starts in `[from, q)` and one starts at `q`, `exec` from `from`
      finds the one at `q`. */
  lemma NextPropertySkips(s: string, from: nat, q: nat)
    requires from <= q < |s| && PropertyAt(s, q).Some?
    requires forall k | from <= k < q :: PropertyAt(s, k).None?
    ensures NextProperty(s, from) == PropertyAt(s, q)
  {
    var r := NextProperty(s, from);
    assert r.None? ==> PropertyAt(s, q).None?;
    match r
    case Some(m) =>
      assert m.at < q ==> PropertyAt(s, m.at).None?;
      assert q < m.at ==> PropertyAt(s, q).None?;
    case None =>
  }

  /** The captured type token is a non-empty run of `[\w<>\[\]?]` characters and
      the captured name a non-empty run of word characters. */
  lemma PropertyMatchShape(s: string, q: nat, m: PropertyMatch)
    requires PropertyAt(s, q) == Some(m)
    ensures m.typeToken != [] && AllChars(m.typeToken, TypeChars)
    ensures m.name != [] && AllChars(m.name, Word)
  {
    PropertyAtDeclaration(s, q);
    DeclarationShape(s, m.decl, m.(at := m.decl));
  }

  /** `propertyRegex.exec(body)` from `lastIndex = from`: the leftmost match. */
  function NextProperty(s: string, from: nat): (r: Option<PropertyMatch>)
    decreases |s| - from
    ensures r.Some? ==> from <= r.value.at <= r.value.decl < r.value.end <= |s|
    ensures r.Some? ==> PropertyAt(s, r.value.at) == r
    ensures r.Some? ==> forall k | from <= k < r.value.at :: PropertyAt(s, k).None?
    ensures r.None? ==> forall k | from <= k < |s| :: PropertyAt(s, k).None?
  {
    if from >= |s| then None
    else if PropertyAt(s, from).Some? then PropertyAt(s, from)
    else NextProperty(s, from + 1)
  }

  /** The property a match contributes. */
  function ToProperty(m: PropertyMatch): CsProperty {
    CsProperty(m.name, m.typeToken, EndsWith(m.typeToken, "?"))
  }

  /** The properties found in `body` from `from` on, in source order. */
  function PropertiesFrom(body: string, from: nat): (ps: seq<CsProperty>)
    decreases |body| - from
  {
    var m := NextProperty(body, from);
    if m.None? then [] else [ToProperty(m.value)] + PropertiesFrom(body, m.value.end)
  }

  lemma PropertiesFromStep(body: string, from: nat)
    requires NextProperty(body, from).Some?
    ensures var m := NextProperty(body, from).value;
      PropertiesFrom(body, from) == [ToProperty(m)] + PropertiesFrom(body, m.end)
  {
  }

  // ---------------------------------------------------------------------------
  // parseCSharpModels

  /** The class a match contributes: its name and the properties of its body. */
  function ToClass(m: ClassMatch): CsClass {
    CsClass(m.name, PropertiesFrom(m.body, 0))
  }

  /** The classes of a sequence of matches. */
  function Models(ms: seq<ClassMatch>): (cs: seq<CsClass>)
    ensures |cs| == |ms|
  {
    if ms == [] then [] else [ToClass(ms[0])] + Models(ms[1..])
  }

  /** What `parseCSharpModels` returns. */
  function ParseModels(s: string): seq<CsClass> {
    Models(ClassMatches(s, 0))
  }

  /** `parseCSharpModels`: the outer loop runs the class pattern over the input, the
      inner loop the property pattern over each captured body. The inner loop ends
      only when `exec` fails, which resets `lastIndex`, so each body is scanned from
      its start. */
  method ParseCSharpModels(input: string) returns (classes: seq<CsClass>)
    ensures classes == ParseModels(input)
  {
    classes := [];
    var lastIndex := 0;
    var classMatch := NextClass(input, lastIndex);
    while classMatch.Some?
      invariant lastIndex <= |input|
      invariant classMatch == NextClass(input, lastIndex)
      invariant classes + Models(ClassMatches(input, lastIndex)) == ParseModels(input)
      decreases |input| - lastIndex
    {
      var m := classMatch.value;
      var properties := ParseProperties(m.body);
      ModelsStep(input, lastIndex, m, classes);
      classes := classes + [CsClass(m.name, properties)];
      lastIndex := m.end;
      classMatch := NextClass(input, lastIndex);
    }
  }

  lemma ModelsCons(m: ClassMatch, rest: seq<ClassMatch>)
    ensures Models([m] + rest) == [ToClass(m)] + Models(rest)
  {
    assert ([m] + rest)[1..] == rest;
  }

  lemma ClassMatchesCons(s: string, from: nat, m: ClassMatch)
    requires NextClass(s, from) == Some(m)
    ensures ClassMatches(s, from) == [m] + ClassMatches(s, m.end)
  {
  }

  /** One turn of the outer loop: the first match contributes its class, and the
      rest are found from where it ends. */
  lemma ModelsStep(s: string, from: nat, m: ClassMatch, done: seq<CsClass>)
    requires NextClass(s, from) == Some(m)
    requires done + Models(ClassMatches(s, from)) == ParseModels(s)
    ensures (done + [ToClass(m)]) + Models(ClassMatches(s, m.end)) == ParseModels(s)
  {
    ClassMatchesCons(s, from, m);
    ModelsCons(m, ClassMatches(s, m.end));
  }

  /** The inner loop of `parseCSharpModels` over one class body. */
  method ParseProperties(body: string) returns (properties: seq<CsProperty>)
    ensures properties == PropertiesFrom(body, 0)
  {
    properties := [];
    var lastIndex := 0;
    var propMatch := NextProperty(body, lastIndex);
    while propMatch.Some?
      invariant lastIndex <= |body|
      invariant propMatch == NextProperty(body, lastIndex)
      invariant properties + PropertiesFrom(body, lastIndex) == PropertiesFrom(body, 0)
      decreases |body| - lastIndex
    {
      var m := propMatch.value;
      PropertiesFromStep(body, lastIndex);
      assert properties + PropertiesFrom(body, lastIndex)
        == (properties + [ToProperty(m)]) + PropertiesFrom(body, m.end);
      properties := properties + [CsProperty(m.name, m.typeToken, EndsWith(m.typeToken, "?"))];
      lastIndex := m.end;
      propMatch := NextProperty(body, lastIndex);
    }
  }

  // ---------------------------------------------------------------------------
  // The enum pattern
  //   (?:public|internal|private|protected)?\s*enum\s+(\w+)\s*\{([\s\S]*?)\}

  /** A match of the enum pattern. */
  datatype EnumMatch = EnumMatch(name: string, body: string, at: nat, end: nat)

  /** The enum pattern with its keyword at `k`: whitespace, the name, optional
      whitespace, `{` and the body up to the first `}`. Here the `{` is at `o` and
      the `}` at `e`. */
  function EnumSpanAt(s: string, k: nat): Option<Span>
  {
    if !OccursAt(s, "enum", k) then None
    else
      var b := RunEnd(s, k + 4, Whitespace);
      var c := RunEnd(s, b, Word);
      var d := RunEnd(s, c, Whitespace);
      if b == k + 4 || c == b || d == |s| || s[d] != '{' then None
      else
        var e := Find(s, '}', d + 1);
        if e.None? then None else Some(Span(b, c, d, e.value))
  }

  /** The parts of an enum match lie where the pattern puts them. */
  lemma EnumSpanFacts(s: string, k: nat, sp: Span)
    requires EnumSpanAt(s, k) == Some(sp)
    ensures OccursAt(s, "enum", k)
    ensures k + 4 < sp.b == RunEnd(s, k + 4, Whitespace)
      && sp.b < sp.c == RunEnd(s, sp.b, Word)
      && sp.o == RunEnd(s, sp.c, Whitespace) < |s| && s[sp.o] == '{'
      && Find(s, '}', sp.o + 1) == Some(sp.e)
  {
  }

  /** The match the enum pattern makes with its keyword at `k`. */
  function EnumAt(s: string, k: nat): (r: Option<EnumMatch>)
    ensures r.Some? ==> r.value.at == k < r.value.end <= |s|
  {
    var sp := EnumSpanAt(s, k);
    if sp.None? then None
    else
      var m := sp.value;
      Some(EnumMatch(s[m.b..m.c], s[m.o + 1..m.e], k, m.e + 1))
  }

  /** The captured enum name is a non-empty run of word characters. */
  lemma EnumNameShape(s: string, k: nat)
    requires EnumAt(s, k).Some?
    ensures var name := EnumAt(s, k).value.name; name != [] && AllChars(name, Word)
  {
    var sp := EnumSpanAt(s, k).value;
    EnumSpanFacts(s, k, sp);
    CharsInSlice(s, sp.b, sp.c, Word);
  }

  /** `enumRegex.exec(input)` from `lastIndex = from`: the leftmost match. */
  function NextEnum(s: string, from: nat): (r: Option<EnumMatch>)
    decreases |s| - from
    ensures r.Some? ==> from <= r.value.at && EnumAt(s, r.value.at) == r
    ensures r.Some? ==> forall k | from <= k < r.value.at :: EnumAt(s, k).None?
    ensures r.None? ==> forall k | from <= k < |s| :: EnumAt(s, k).None?
  {
    if from >= |s| then None
    else if EnumAt(s, from).Some? then EnumAt(s, from)
    else NextEnum(s, from + 1)
  }

  /** Replacing the pattern `=.*` by nothing: the first `=` and the rest of its line are removed. */
  function StripAssignment(v: string): (r: string)
    ensures '=' !in v ==> r == v
    ensures forall f | 0 <= f < |v| && v[f] == '=' && Absent(v, '=', 0, f) ::
      r == v[..f] + v[LineEnd(v, f + 1)..]
  {
    var f := Find(v, '=', 0);
    if f.None? then v else v[..f.value] + v[LineEnd(v, f.value + 1)..]
  }

  /** The pieces that are non-empty, in order (`filter(Boolean)`). */
  function NonEmpty(xs: seq<string>): (r: seq<string>)
    ensures forall k | 0 <= k < |r| :: r[k] != [] && r[k] in xs
  {
    if xs == [] then []
    else if xs[0] == [] then NonEmpty(xs[1..])
    else [xs[0]] + NonEmpty(xs[1..])
  }

  /** Each piece trimmed (`map((v) => v.trim())`). */
  function TrimEach(xs: seq<string>): (r: seq<string>)
    ensures |r| == |xs| && forall i | 0 <= i < |xs| :: r[i] == Trim(xs[i])
  {
    seq(|xs|, i requires 0 <= i < |xs| => Trim(xs[i]))
  }

  /** Each piece with its assignment stripped and trimmed again. */
  function StripEach(xs: seq<string>): (r: seq<string>)
    ensures |r| == |xs| && forall i | 0 <= i < |xs| :: r[i] == Trim(StripAssignment(xs[i]))
  {
    seq(|xs|, i requires 0 <= i < |xs| => Trim(StripAssignment(xs[i])))
  }

  /** The enum values of a body: split on `,`, trim each piece, drop the empty ones,
      then strip any `= value` and trim again. */
  function EnumValues(body: string): (vs: seq<string>)
  {
    StripEach(NonEmpty(TrimEach(Split(body, ','))))
  }

  /** The enums found from `from` on, in source order. */
  function EnumsFrom(s: string, from: nat): (es: seq<CsEnum>)
    decreases |s| - from
  {
    var m := NextEnum(s, from);
    if m.None? then [] else [CsEnum(m.value.name, EnumValues(m.value.body))] + EnumsFrom(s, m.value.end)
  }

  /** What `parseCSharpEnums` returns. */
  function ParseEnums(s: string): seq<CsEnum> {
    EnumsFrom(s, 0)
  }

  /** `parseCSharpEnums`: the loop runs the enum pattern over the input. */
  method ParseCSharpEnums(input: string) returns (enums: seq<CsEnum>)
    ensures enums == ParseEnums(input)
  {
    enums := [];
    var lastIndex := 0;
    var enumMatch := NextEnum(input, lastIndex);
    while enumMatch.Some?
      invariant lastIndex <= |input|
      invariant enumMatch == NextEnum(input, lastIndex)
      invariant enums + EnumsFrom(input, lastIndex) == EnumsFrom(input, 0)
      decreases |input| - lastIndex
    {
      var m := enumMatch.value;
      var values := EnumValues(m.body);
      EnumsStep(input, lastIndex, m, enums);
      enums := enums + [CsEnum(m.name, values)];
      lastIndex := m.end;
      enumMatch := NextEnum(input, lastIndex);
    }
  }

  /** One turn of the loop: the first match contributes its enum, and the rest
      are found from where it ends. */
  lemma EnumsStep(s: string, from: nat, m: EnumMatch, done: seq<CsEnum>)
    requires NextEnum(s, from) == Some(m)
    requires done + EnumsFrom(s, from) == EnumsFrom(s, 0)
    ensures (done + [CsEnum(m.name, EnumValues(m.body))]) + EnumsFrom(s, m.end) == EnumsFrom(s, 0)
  {
    assert EnumsFrom(s, from) == [CsEnum(m.name, EnumValues(m.body))] + EnumsFrom(s, m.end);
  }

  // ---------------------------------------------------------------------------
  // Properties of the parser

  /** Every captured property is well formed. */
  lemma {:induction false} PropertiesWellFormed(body: string, from: nat)
    ensures forall p | p in PropertiesFrom(body, from) :: WellFormedProperty(p)
    decreases |body| - from
  {
    var next := NextProperty(body, from);
    if next.Some? {
      var m := next.value;
      PropertyMatchShape(body, m.at, m);
      PropertiesWellFormed(body, m.end);
      assert PropertiesFrom(body, from) == [ToProperty(m)] + PropertiesFrom(body, m.end);
    }
  }

  /** Every match of the class pattern is one that `ClassAt` reports at its position,
      at or after `from`. */
  lemma {:induction false} ClassMatchesAreMatches(s: string, from: nat)
    ensures forall m | m in ClassMatches(s, from) :: from <= m.at && ClassAt(s, m.at) == Some(m)
    decreases |s| - from
  {
    var next := NextClass(s, from);
    if next.Some? {
      var m := next.value;
      ClassMatchesAreMatches(s, m.end);
      assert ClassMatches(s, from) == [m] + ClassMatches(s, m.end);
    }
  }

  /** A parsed class: a non-empty name of word characters, and well-formed
      properties. */
  predicate WellFormedClass(c: CsClass) {
    c.name != [] && AllChars(c.name, Word)
    && forall p | p in c.properties :: WellFormedProperty(p)
  }

  lemma {:induction false} ModelsWellFormed(s: string, from: nat)
    ensures forall c | c in Models(ClassMatches(s, from)) :: WellFormedClass(c)
    decreases |s| - from
  {
    var next := NextClass(s, from);
    if next.Some? {
      var m := next.value;
      var ms := ClassMatches(s, from);
      assert ms == [m] + ClassMatches(s, m.end);
      assert ms[1..] == ClassMatches(s, m.end);
      ClassNameShape(s, m.at);
      PropertiesWellFormed(m.body, 0);
      ModelsWellFormed(s, m.end);
    }
  }

  /** Every parsed class has a non-empty name of word characters, and every parsed
      property a non-empty name, a type token of `[\w<>\[\]?]` characters (so no
      spaces or commas), and is nullable exactly when its token ends with `?`. */
  lemma ParsedModelsWellFormed(s: string)
    ensures forall c | c in ParseModels(s) :: WellFormedClass(c)
  {
    ModelsWellFormed(s, 0);
  }

  lemma {:induction false} ClassMatchesAfter(s: string, from: nat)
    ensures forall m | m in ClassMatches(s, from) :: from <= m.at < m.end
    decreases |s| - from
  {
    var next := NextClass(s, from);
    if next.Some? {
      var m := next.value;
      ClassMatchesAfter(s, m.end);
      assert ClassMatches(s, from) == [m] + ClassMatches(s, m.end);
    }
  }

  /** Each match ends at or before the next one starts. */
  predicate InOrder(ms: seq<ClassMatch>) {
    forall i | 0 <= i < |ms| - 1 :: ms[i].end <= ms[i + 1].at
  }

  /** The matches are found left to right and do not overlap. */
  lemma {:induction false} ClassMatchesOrdered(s: string, from: nat)
    ensures InOrder(ClassMatches(s, from))
    decreases |s| - from
  {
    var ms := ClassMatches(s, from);
    if NextClass(s, from).Some? {
      var m := NextClass(s, from).value;
      var rest := ClassMatches(s, m.end);
      assert ms == [m] + rest;
      ClassMatchesOrdered(s, m.end);
      ClassMatchesAfter(s, m.end);
      if |rest| > 0 {
        assert rest[0] in rest;
      }
      InOrderCons(m, rest);
    }
  }

  lemma InOrderCons(m: ClassMatch, rest: seq<ClassMatch>)
    requires InOrder(rest) && (|rest| > 0 ==> m.end <= rest[0].at)
    ensures InOrder([m] + rest)
  {
    var ms := [m] + rest;
    assert forall i | 1 <= i < |ms| :: ms[i] == rest[i - 1];
  }

  /** Some match of `ms` starts at or before `k` and ends after it. */
  predicate Covers(ms: seq<ClassMatch>, k: nat) {
    exists i | 0 <= i < |ms| :: ms[i].at <= k < ms[i].end
  }

  lemma CoversCons(m: ClassMatch, rest: seq<ClassMatch>, k: nat)
    requires (m.at <= k < m.end) || Covers(rest, k)
    ensures Covers([m] + rest, k)
  {
    if m.at <= k < m.end {
      assert ([m] + rest)[0] == m;
    } else {
      var i :| 0 <= i < |rest| && rest[i].at <= k < rest[i].end;
      assert ([m] + rest)[i + 1] == rest[i];
    }
  }

  /** Where the class pattern matches at `k`, `exec` from any earlier `lastIndex`
      finds a match that starts at or before `k`. */
  lemma NextClassFinds(s: string, from: nat, k: nat)
    requires from <= k && ClassAt(s, k).Some?
    ensures NextClass(s, from).Some? && NextClass(s, from).value.at <= k
  {
  }

  /** No match is skipped: every position at or after `from` where the class pattern
      matches is the start of one of the matches or lies inside one. */
  lemma {:induction false} ClassMatchesComplete(s: string, from: nat, k: nat)
    requires from <= k && ClassAt(s, k).Some?
    ensures Covers(ClassMatches(s, from), k)
    decreases |s| - from
  {
    NextClassFinds(s, from, k);
    var m := NextClass(s, from).value;
    var rest := ClassMatches(s, m.end);
    assert ClassMatches(s, from) == [m] + rest;
    if m.end <= k {
      ClassMatchesComplete(s, m.end, k);
    }
    CoversCons(m, rest, k);
  }

  /** The match at `k` is cut out of the input along its span: the name, and the
      body strictly between the `{` and the closing `\n}`. */
  lemma ClassAtSpan(s: string, k: nat, sp: Span)
    requires ClassSpanAt(s, k) == Some(sp)
    ensures ClassAt(s, k) == Some(ClassMatch(s[sp.b..sp.c], s[sp.o + 1..sp.e], k, sp.e + 2))
  {
  }

  /** The body ends at the first newline after the `{` that is immediately
      followed by `}`. */
  lemma ClassBodyEnd(s: string, k: nat, sp: Span)
    requires ClassSpanAt(s, k) == Some(sp)
    ensures sp.o < sp.e && OccursAt(s, "\n}", sp.e) && NoneOccurIn(s, "\n}", sp.o + 1, sp.e)
  {
    ClassSpanFacts(s, k, sp);
    IndexOfFound(s, "\n}", sp.o + 1, sp.e);
  }

  /** The keyword, the whitespace after it and the name hold no `{`, so the `{`
      found after the name is the first after the keyword. */
  lemma ClassOpenBrace(s: string, k: nat, sp: Span)
    requires ClassSpanAt(s, k) == Some(sp)
    ensures k < sp.o < |s| && s[sp.o] == '{' && '{' !in s[k..sp.o]
  {
    ClassSpanFacts(s, k, sp);
    var n := ClassKeywordLength(s, k);
    KeywordHasNoBrace(s, k);
    RunAbsent(s, k + n, sp.b, Whitespace, '{');
    AbsentJoin(s, '{', k, k + n, sp.b);
    RunAbsent(s, sp.b, sp.c, Word, '{');
    AbsentJoin(s, '{', k, sp.b, sp.c);
    AbsentJoin(s, '{', k, sp.c, sp.o);
    AbsentSlice(s, '{', k, sp.o);
  }

  lemma KeywordHasNoBrace(s: string, k: nat)
    requires ClassKeywordLength(s, k) > 0
    ensures Absent(s, '{', k, k + ClassKeywordLength(s, k))
  {
    var n := ClassKeywordLength(s, k);
    var w := if n == 5 then "class" else "record";
    assert s[k..k + n] == w;
    forall i | k <= i < k + n ensures s[i] != '{' {
      assert s[i] == w[i - k];
    }
  }

  /** Between `lo` and `hi` there is a `get;` and, after it, a `set;`. */
  predicate HasAccessors(s: string, lo: nat, hi: nat) {
    exists g, st | lo < g && g + 4 <= st && st + 4 < hi ::
      OccursAt(s, "get;", g) && OccursAt(s, "set;", st)
  }

  /** A property is captured only where its brace block holds `get;` and, after it,
      `set;`. */
  lemma PropertyNeedsAccessors(s: string, q: nat, m: PropertyMatch)
    requires PropertyAt(s, q) == Some(m)
    ensures exists o | q <= m.decl < o < m.end :: s[o] == '{' && HasAccessors(s, o, m.end)
  {
    PropertyAtDeclaration(s, q);
    var d := DeclarationAt(s, m.decl).value;
    assert m.decl < d.3 < m.end && s[d.3] == '{' && HasAccessors(s, d.3, m.end);
  }

  /** An enum body ends at the first `}` after its `{`. */
  lemma EnumBodyBounds(s: string, k: nat)
    requires EnumAt(s, k).Some?
    ensures var m := EnumAt(s, k).value;
      |m.body| + 2 <= m.end
      && s[m.end - 2 - |m.body|] == '{' && s[m.end - 1] == '}' && '}' !in m.body
      && m.body == s[m.end - 1 - |m.body|..m.end - 1]
  {
    var sp := EnumSpanAt(s, k).value;
    EnumAtSpan(s, k, sp);
    EnumSpanBounds(s, k, sp);
  }

  lemma EnumAtSpan(s: string, k: nat, sp: Span)
    requires EnumSpanAt(s, k) == Some(sp)
    ensures var m := EnumAt(s, k).value;
      m.body == s[sp.o + 1..sp.e] && m.end == sp.e + 1 && m.end - 2 - |m.body| == sp.o
  {
  }

  lemma EnumSpanBounds(s: string, k: nat, sp: Span)
    requires EnumSpanAt(s, k) == Some(sp)
    ensures sp.o < sp.e < |s| && s[sp.o] == '{' && s[sp.e] == '}' && '}' !in s[sp.o + 1..sp.e]
  {
    EnumSpanFacts(s, k, sp);
    AbsentSlice(s, '}', sp.o + 1, sp.e);
  }

  // Enum values

  /** The characters of a trimmed string come from the string. */
  lemma TrimSubset(s: string)
    ensures forall c | c in Trim(s) :: c in s
  {
    var a := TrimStart(s);
    forall c | c in Trim(s) ensures c in s {
      var i :| 0 <= i < |Trim(s)| && Trim(s)[i] == c;
      assert Trim(s)[i] == a[i];
      assert a[i] == s[|s| - |a| + i];
    }
  }

  lemma StripAssignmentSubset(v: string)
    ensures forall c | c in StripAssignment(v) :: c in v
  {
    var f := Find(v, '=', 0);
    if f.Some? {
      var i := f.value;
      var e := LineEnd(v, i + 1);
      assert StripAssignment(v) == v[..i] + v[e..];
      assert forall c | c in v[..i] :: c in v;
      assert forall c | c in v[e..] :: c in v;
    }
  }

  /** Every enum value is trimmed and contains no comma. */
  lemma EnumValuesShape(body: string)
    ensures forall v | v in EnumValues(body) :: ',' !in v && Trim(v) == v
  {
    var pieces := Split(body, ',');
    TrimEachNoComma(pieces);
    NonEmptyNoComma(TrimEach(pieces));
    StripEachShape(NonEmpty(TrimEach(pieces)));
  }

  lemma TrimEachNoComma(xs: seq<string>)
    requires NoneContain(xs, ',')
    ensures NoneContain(TrimEach(xs), ',')
  {
    forall k | 0 <= k < |xs| ensures ',' !in TrimEach(xs)[k] {
      TrimSubset(xs[k]);
    }
  }

  lemma NonEmptyNoComma(xs: seq<string>)
    requires NoneContain(xs, ',')
    ensures NoneContain(NonEmpty(xs), ',')
  {
    var r := NonEmpty(xs);
    forall k | 0 <= k < |r| ensures ',' !in r[k] {
      var j :| 0 <= j < |xs| && xs[j] == r[k];
    }
  }

  lemma StripEachShape(xs: seq<string>)
    requires NoneContain(xs, ',')
    ensures forall v | v in StripEach(xs) :: ',' !in v && Trim(v) == v
  {
    var r := StripEach(xs);
    forall k | 0 <= k < |r| ensures ',' !in r[k] && Trim(r[k]) == r[k] {
      StripAssignmentSubset(xs[k]);
      TrimSubset(StripAssignment(xs[k]));
      TrimIdempotent(StripAssignment(xs[k]));
    }
  }

  /** `NonEmpty` filters each part of a concatenation on its own. */
  lemma {:induction false} NonEmptyAppend(xs: seq<string>, ys: seq<string>)
    ensures NonEmpty(xs + ys) == NonEmpty(xs) + NonEmpty(ys)
  {
    if xs == [] {
      assert xs + ys == ys;
    } else {
      var h := if xs[0] == [] then [] else [xs[0]];
      calc {
        NonEmpty(xs + ys);
      == { assert xs + ys == [xs[0]] + (xs[1..] + ys); NonEmptyCons(xs[0], xs[1..] + ys); }
        h + NonEmpty(xs[1..] + ys);
      == { NonEmptyAppend(xs[1..], ys); }
        h + (NonEmpty(xs[1..]) + NonEmpty(ys));
      ==
        (h + NonEmpty(xs[1..])) + NonEmpty(ys);
      == { assert xs == [xs[0]] + xs[1..]; NonEmptyCons(xs[0], xs[1..]); }
        NonEmpty(xs) + NonEmpty(ys);
      }
    }
  }

  /** The filter keeps a first piece exactly when it is not empty. */
  lemma NonEmptyCons(x: string, xs: seq<string>)
    ensures NonEmpty([x] + xs) == (if x == [] then [] else [x]) + NonEmpty(xs)
  {
    var zs := [x] + xs;
    assert zs[0] == x && zs[1..] == xs;
  }

  /** A single piece is kept exactly when it is not empty. */
  lemma NonEmptySingle(x: string)
    ensures NonEmpty([x]) == if x == [] then [] else [x]
  {
    NonEmptyCons(x, []);
    assert [x] + [] == [x];
  }

  /** Nothing is dropped from pieces that are all non-empty. */
  lemma {:induction false} NonEmptyKeepsAll(xs: seq<string>)
    requires forall k | 0 <= k < |xs| :: xs[k] != []
    ensures NonEmpty(xs) == xs
  {
    if xs != [] {
      assert xs == [xs[0]] + xs[1..];
      NonEmptyAppend([xs[0]], xs[1..]);
      NonEmptySingle(xs[0]);
      NonEmptyKeepsAll(xs[1..]);
    }
  }

  /** One entry of an enum body as it can be written: whitespace, the name,
      optionally an assignment, and whitespace. */
  datatype EnumEntry = EnumEntry(lead: string, name: string, assignment: Option<Assignment>, after: string)

  /** `= value` after the whitespace `space`. */
  datatype Assignment = Assignment(space: string, value: string)

  /** The whitespace holds no comma; the name is a non-empty run of word
      characters; a value holds no comma and no line terminator, and does not end
      in whitespace (trailing whitespace belongs to `after`). */
  predicate WellFormedEntry(e: EnumEntry) {
    AllChars(e.lead, Whitespace) && AllChars(e.after, Whitespace)
    && e.name != [] && AllChars(e.name, Word)
    && (e.assignment.Some? ==>
          var a := e.assignment.value;
          AllChars(a.space, Whitespace) && ',' !in a.value && AllChars(a.value, NotLineTerminator)
          && (a.value == [] || !IsWhitespace(a.value[|a.value| - 1])))
  }

  /** The text of an optional assignment. */
  function AssignmentText(assignment: Option<Assignment>): string {
    if assignment.Some? then assignment.value.space + "=" + assignment.value.value else ""
  }

  /** An entry without the whitespace around it. */
  function EntryCore(e: EnumEntry): string {
    e.name + AssignmentText(e.assignment)
  }

  /** The text of an entry. */
  function EntryText(e: EnumEntry): string {
    e.lead + EntryCore(e) + e.after
  }

  /** Whitespace before a string that does not start with whitespace is what
      `trim` removes at the start. */
  lemma TrimStartLeading(w: string, v: string)
    requires AllChars(w, Whitespace) && (v == [] || !IsWhitespace(v[0]))
    ensures TrimStart(w + v) == v
  {
    var s := w + v;
    var r := TrimStart(s);
    if v != [] {
      assert s[|w|] == v[0];
    }
    assert forall i | 0 <= i < |w| :: s[i] == w[i];
    assert |r| == |v|;
    assert r == s[|w|..] == v;
  }

  /** Whitespace after a string that does not end with whitespace is what `trim`
      removes at the end. */
  lemma TrimEndTrailing(u: string, w: string)
    requires AllChars(w, Whitespace) && (u == [] || !IsWhitespace(u[|u| - 1]))
    ensures TrimEnd(u + w) == u
  {
    var s := u + w;
    var r := TrimEnd(s);
    if u != [] {
      assert s[|u| - 1] == u[|u| - 1];
    }
    assert forall i | |u| <= i < |s| :: s[i] == w[i - |u|];
    assert |r| == |u|;
    assert r == s[..|u|] == u;
  }

  /** Trimming an entry leaves its core. */
  lemma EntryTrim(e: EnumEntry)
    requires WellFormedEntry(e)
    ensures Trim(EntryText(e)) == EntryCore(e) != []
  {
    var core := EntryCore(e);
    assert EntryText(e) == e.lead + (core + e.after);
    assert core[0] == e.name[0];
    TrimStartLeading(e.lead, core + e.after);
    if e.assignment.Some? {
      var v := e.assignment.value.value;
      if v != [] {
        assert core[|core| - 1] == v[|v| - 1];
      } else {
        assert core[|core| - 1] == '=';
      }
    } else {
      assert core[|core| - 1] == e.name[|e.name| - 1];
    }
    TrimEndTrailing(core, e.after);
  }

  /** With no `=` before it and no line terminator after it, the first `=` and
      everything after it are what the strip removes. */
  lemma StripAssignmentOf(u: string, v: string)
    requires '=' !in u && AllChars(v, NotLineTerminator)
    ensures StripAssignment(u + "=" + v) == u
  {
    var s := u + "=" + v;
    var f := |u|;
    assert s[f] == '=';
    assert Absent(s, '=', 0, f) by {
      forall i | 0 <= i < f ensures s[i] != '=' {
        assert s[i] == u[i];
      }
    }
    assert forall m | f + 1 <= m < |s| :: s[m] == v[m - f - 1];
    assert LineEnd(s, f + 1) == |s|;
    assert s[..f] == u;
  }

  lemma NameSpaceNoEquals(name: string, space: string)
    requires AllChars(name, Word) && AllChars(space, Whitespace)
    ensures '=' !in name + space
  {
    var u := name + space;
    forall i | 0 <= i < |u| ensures u[i] != '=' {
      if i < |name| { assert u[i] == name[i]; } else { assert u[i] == space[i - |name|]; }
    }
  }

  /** A name followed by whitespace trims to the name. */
  lemma TrimNameSpace(name: string, space: string)
    requires name != [] && AllChars(name, Word) && AllChars(space, Whitespace)
    ensures Trim(name + space) == name
  {
    assert (name + space)[0] == name[0];
    TrimStartLeading("", name + space);
    assert "" + (name + space) == name + space;
    TrimEndTrailing(name, space);
  }

  /** `name space = value` strips and trims to the name. */
  lemma AssignmentStrip(name: string, space: string, value: string)
    requires name != [] && AllChars(name, Word) && AllChars(space, Whitespace)
    requires AllChars(value, NotLineTerminator)
    ensures Trim(StripAssignment(name + (space + "=" + value))) == name
  {
    assert name + (space + "=" + value) == name + space + "=" + value;
    NameSpaceNoEquals(name, space);
    StripAssignmentOf(name + space, value);
    TrimNameSpace(name, space);
  }

  /** A name followed by an optional assignment strips and trims to the name. */
  lemma NameAssignmentStrip(name: string, assignment: Option<Assignment>)
    requires name != [] && AllChars(name, Word)
    requires assignment.Some? ==>
      AllChars(assignment.value.space, Whitespace) && AllChars(assignment.value.value, NotLineTerminator)
    ensures Trim(StripAssignment(name + AssignmentText(assignment))) == name
  {
    match assignment
    case Some(a) =>
      AssignmentStrip(name, a.space, a.value);
    case None =>
      assert name + AssignmentText(assignment) == name;
      NameStrip(name);
  }

  /** Stripping the assignment from an entry's core and trimming leaves its name. */
  lemma EntryCoreStrip(e: EnumEntry)
    requires WellFormedEntry(e)
    ensures Trim(StripAssignment(EntryCore(e))) == e.name
  {
    NameAssignmentStrip(e.name, e.assignment);
  }

  /** A name has no `=` to strip and no whitespace to trim. */
  lemma NameStrip(name: string)
    requires name != [] && AllChars(name, Word)
    ensures Trim(StripAssignment(name)) == name
  {
    NameSpaceNoEquals(name, "");
    assert name + "" == name;
    assert !IsWhitespace(name[0]) && !IsWhitespace(name[|name| - 1]);
    TrimNoop(name);
  }

  /** An entry holds no comma. */
  lemma EntryNoComma(e: EnumEntry)
    requires WellFormedEntry(e)
    ensures ',' !in EntryText(e)
  {
    var core := EntryCore(e);
    var t := EntryText(e);
    assert ',' !in core by {
      if e.assignment.Some? {
        var a := e.assignment.value;
        var f := |e.name| + |a.space|;
        forall i | 0 <= i < |core| ensures core[i] != ',' {
          if i < |e.name| {
            assert core[i] == e.name[i];
          } else if i < f {
            assert core[i] == a.space[i - |e.name|];
          } else if i > f {
            assert core[i] == a.value[i - f - 1];
          }
        }
      } else {
        assert core == e.name;
      }
    }
    forall i | 0 <= i < |t| ensures t[i] != ',' {
      if i < |e.lead| {
        assert t[i] == e.lead[i];
      } else if i < |e.lead| + |core| {
        assert t[i] == core[i - |e.lead|];
      } else {
        assert t[i] == e.after[i - |e.lead| - |core|];
      }
    }
  }

  /** An entry is one piece of the split, and cleaning that piece leaves its name. */
  lemma EntryValue(e: EnumEntry)
    requires WellFormedEntry(e)
    ensures ',' !in EntryText(e)
    ensures Trim(EntryText(e)) != [] && Trim(StripAssignment(Trim(EntryText(e)))) == e.name
  {
    EntryNoComma(e);
    EntryTrim(e);
    EntryCoreStrip(e);
  }

  /** The texts of entries, in order. */
  function EntryTexts(es: seq<EnumEntry>): (ts: seq<string>)
    ensures |ts| == |es| && forall i | 0 <= i < |es| :: ts[i] == EntryText(es[i])
  {
    seq(|es|, i requires 0 <= i < |es| => EntryText(es[i]))
  }

  /** The names of entries, in order. */
  function EntryNames(es: seq<EnumEntry>): (ns: seq<string>)
    ensures |ns| == |es| && forall i | 0 <= i < |es| :: ns[i] == es[i].name
  {
    seq(|es|, i requires 0 <= i < |es| => es[i].name)
  }

  /** The pieces an entry list splits into: the entries' texts, and the whitespace
      after a trailing comma. */
  function EntryPieces(es: seq<EnumEntry>, tail: Option<string>): seq<string> {
    if tail.Some? then EntryTexts(es) + [tail.value] else EntryTexts(es)
  }

  /** The text of an entry list. */
  function EntryListText(es: seq<EnumEntry>, tail: Option<string>): string {
    Join(EntryTexts(es), ",") + (if tail.Some? then "," + tail.value else "")
  }

  /** Round trip of the value list: entries separated by commas, each a name with
      whitespace around it and possibly `= value`, and optionally a trailing comma
      followed by whitespace, yield exactly the names, in order. This covers
      `{ Red, Green, Blue }` as well as `Active = 1,` written one entry per line. */
  lemma EnumValuesOfEntries(es: seq<EnumEntry>, tail: Option<string>)
    requires es != [] && forall i | 0 <= i < |es| :: WellFormedEntry(es[i])
    requires tail.Some? ==> AllChars(tail.value, Whitespace)
    ensures EnumValues(EntryListText(es, tail)) == EntryNames(es)
  {
    SplitEntries(es, tail);
    CleanEntries(es, tail);
  }

  /** Splitting an entry list on `,` gives its pieces. */
  lemma SplitEntries(es: seq<EnumEntry>, tail: Option<string>)
    requires es != [] && forall i | 0 <= i < |es| :: WellFormedEntry(es[i])
    requires tail.Some? ==> AllChars(tail.value, Whitespace)
    ensures Split(EntryListText(es, tail), ',') == EntryPieces(es, tail)
  {
    var texts := EntryTexts(es);
    var pieces := EntryPieces(es, tail);
    assert NoneContain(pieces, ',') by {
      forall k | 0 <= k < |pieces| ensures ',' !in pieces[k] {
        if k < |texts| {
          EntryValue(es[k]);
          assert pieces[k] == texts[k];
        }
      }
    }
    if tail.Some? {
      JoinAppend(texts, tail.value, ",");
    }
    assert EntryListText(es, tail) == Join(pieces, [',']);
    SplitJoin(pieces, ',');
  }

  /** Trimming the pieces, dropping the empty ones and stripping the assignments
      leaves the names. */
  lemma CleanEntries(es: seq<EnumEntry>, tail: Option<string>)
    requires forall i | 0 <= i < |es| :: WellFormedEntry(es[i])
    requires tail.Some? ==> AllChars(tail.value, Whitespace)
    ensures StripEach(NonEmpty(TrimEach(EntryPieces(es, tail)))) == EntryNames(es)
  {
    var texts := EntryTexts(es);
    var trimmed := TrimEach(texts);
    forall i | 0 <= i < |es| ensures trimmed[i] != [] && Trim(StripAssignment(trimmed[i])) == es[i].name {
      EntryValue(es[i]);
    }
    NonEmptyKeepsAll(trimmed);
    if tail.Some? {
      TrimEmptyIff(tail.value);
      TrimEachAppend(texts, tail.value);
      NonEmptyAppend(trimmed, [""]);
      NonEmptySingle("");
    }
  }

  lemma TrimEachAppend(xs: seq<string>, x: string)
    ensures TrimEach(xs + [x]) == TrimEach(xs) + [Trim(x)]
  {
    var l := TrimEach(xs + [x]);
    var r := TrimEach(xs) + [Trim(x)];
    forall i | 0 <= i < |l| ensures l[i] == r[i] {
      if i < |xs| {
        assert (xs + [x])[i] == xs[i];
      }
    }
  }
}
