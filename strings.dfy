/** Text primitives shared by the models: the JavaScript character classes used by
    the regular expressions (`\s`, `\w`, `.`), `String.prototype.trim`, searching,
    `split`, `join` and decimal/hexadecimal rendering of numbers. */
module Strings {

  datatype Option<+T> = None | Some(value: T)

  /** `\s` in a JavaScript regular expression, which is also the set `trim` removes. */
  predicate IsWhitespace(c: char) {
    c == ' ' || c == '\t' || c == '\n' || c == '\r' || c == '\U{000B}' || c == '\U{000C}'
    || c == '\U{00A0}' || c == '\U{1680}' || ('\U{2000}' <= c <= '\U{200A}')
    || c == '\U{2028}' || c == '\U{2029}' || c == '\U{202F}' || c == '\U{205F}'
    || c == '\U{3000}' || c == '\U{FEFF}'
  }

  /** The characters a JavaScript `.` does not match (without the `s` flag). */
  predicate IsLineTerminator(c: char) {
    c == '\n' || c == '\r' || c == '\U{2028}' || c == '\U{2029}'
  }

  predicate IsAsciiUpper(c: char) { 'A' <= c <= 'Z' }
  predicate IsAsciiLower(c: char) { 'a' <= c <= 'z' }
  predicate IsDigit(c: char) { '0' <= c <= '9' }

  /** `\w` in a JavaScript regular expression: `[A-Za-z0-9_]`. */
  predicate IsWordChar(c: char) {
    IsAsciiUpper(c) || IsAsciiLower(c) || IsDigit(c) || c == '_'
  }

  function ToLowerChar(c: char): (r: char)
    ensures IsAsciiUpper(c) ==> IsAsciiLower(r)
    ensures !IsAsciiUpper(c) ==> r == c
  {
    if IsAsciiUpper(c) then (c as int + 32) as char else c
  }

  function ToUpperChar(c: char): (r: char)
    ensures IsAsciiLower(c) ==> IsAsciiUpper(r)
    ensures !IsAsciiLower(c) ==> r == c
  {
    if IsAsciiLower(c) then (c as int - 32) as char else c
  }

  function ToUpper(s: string): (r: string)
    ensures |r| == |s|
    ensures forall i | 0 <= i < |s| :: r[i] == ToUpperChar(s[i])
  {
    if s == [] then [] else [ToUpperChar(s[0])] + ToUpper(s[1..])
  }

  function ToLower(s: string): (r: string)
    ensures |r| == |s|
    ensures forall i | 0 <= i < |s| :: r[i] == ToLowerChar(s[i])
  {
    if s == [] then [] else [ToLowerChar(s[0])] + ToLower(s[1..])
  }

  /** `[\w<>\[\]?]`: the characters of a C# type token as the parser reads it. */
  predicate IsTypeChar(c: char) {
    IsWordChar(c) || c == '<' || c == '>' || c == '[' || c == ']' || c == '?'
  }

  /** The character classes the scanners run over. */
  datatype CharClass = Whitespace | Word | TypeChars | NotLineTerminator

  predicate InClass(c: char, cc: CharClass) {
    match cc
    case Whitespace => IsWhitespace(c)
    case Word => IsWordChar(c)
    case TypeChars => IsTypeChar(c)
    case NotLineTerminator => !IsLineTerminator(c)
  }

  /** No newline character: the text renders on one line. */
  predicate SingleLine(s: string) {
    '\n' !in s
  }

  lemma AppendSingleLine(a: string, b: string)
    requires SingleLine(a) && SingleLine(b)
    ensures SingleLine(a + b)
  {
  }

  predicate AllChars(s: string, cc: CharClass) {
    forall i | 0 <= i < |s| :: InClass(s[i], cc)
  }

  /** Every character of `s` between `lo` and `hi` is in class `cc`. */
  predicate CharsIn(s: string, lo: nat, hi: nat, cc: CharClass)
    requires lo <= hi <= |s|
  {
    forall i | lo <= i < hi :: InClass(s[i], cc)
  }

  lemma CharsInSlice(s: string, lo: nat, hi: nat, cc: CharClass)
    requires lo <= hi <= |s| && CharsIn(s, lo, hi, cc)
    ensures AllChars(s[lo..hi], cc)
  {
    assert forall j | 0 <= j < hi - lo :: s[lo..hi][j] == s[lo + j];
  }

  // ---------------------------------------------------------------------------
  // runs of one character class

  /** The end of the longest run of characters of class `cc` that starts at `from`. */
  function RunEnd(s: string, from: nat, cc: CharClass): (r: nat)
    requires from <= |s|
    decreases |s| - from
    ensures from <= r <= |s|
    ensures CharsIn(s, from, r, cc)
    ensures r == |s| || !InClass(s[r], cc)
  {
    if from < |s| && InClass(s[from], cc) then RunEnd(s, from + 1, cc) else from
  }

  /** The start of the longest run of characters of class `cc` that ends at `to`. */
  function RunStart(s: string, to: nat, cc: CharClass): (r: nat)
    requires to <= |s|
    ensures r <= to
    ensures CharsIn(s, r, to, cc)
    ensures r == 0 || !InClass(s[r - 1], cc)
  {
    if to > 0 && InClass(s[to - 1], cc) then RunStart(s, to - 1, cc) else to
  }

  /** A character outside the class does not occur in a run of it. */
  lemma RunExcludes(s: string, from: nat, cc: CharClass, ch: char)
    requires from <= |s| && !InClass(ch, cc)
    ensures ch !in s[from..RunEnd(s, from, cc)]
  {
    var r := RunEnd(s, from, cc);
    assert forall j | 0 <= j < r - from :: s[from..r][j] == s[from + j];
  }

  /** A run is determined by where it starts: any end that is preceded by class
      characters only and not followed by one is the end `RunEnd` finds. */
  lemma RunEndUnique(s: string, from: nat, cc: CharClass, r: nat)
    requires from <= r <= |s|
    requires CharsIn(s, from, r, cc)
    requires r == |s| || !InClass(s[r], cc)
    ensures RunEnd(s, from, cc) == r
  {
  }

  // ---------------------------------------------------------------------------
  // trim

  function TrimStart(s: string): (r: string)
    ensures |r| <= |s|
    ensures r == s[|s| - |r|..]
    ensures r == [] || !IsWhitespace(r[0])
    ensures forall i | 0 <= i < |s| - |r| :: IsWhitespace(s[i])
  {
    s[RunEnd(s, 0, Whitespace)..]
  }

  function TrimEnd(s: string): (r: string)
    ensures |r| <= |s|
    ensures r == s[..|r|]
    ensures r == [] || !IsWhitespace(r[|r| - 1])
    ensures forall i | |r| <= i < |s| :: IsWhitespace(s[i])
  {
    s[..RunStart(s, |s|, Whitespace)]
  }

  /** `String.prototype.trim`. */
  function Trim(s: string): (r: string)
    ensures |r| <= |s|
    ensures r == [] || (!IsWhitespace(r[0]) && !IsWhitespace(r[|r| - 1]))
  {
    TrimEnd(TrimStart(s))
  }

  lemma TrimEmpty()
    ensures Trim("") == ""
  {
    TrimNoop("");
  }

  lemma TrimStartNoop(s: string)
    requires s == [] || !IsWhitespace(s[0])
    ensures TrimStart(s) == s
  {
    RunEndUnique(s, 0, Whitespace, 0);
  }

  lemma TrimEndNoop(s: string)
    requires s == [] || !IsWhitespace(s[|s| - 1])
    ensures TrimEnd(s) == s
  {
  }

  /** A string without whitespace at either end is its own trim. */
  lemma TrimNoop(s: string)
    requires s == [] || (!IsWhitespace(s[0]) && !IsWhitespace(s[|s| - 1]))
    ensures Trim(s) == s
  {
    TrimStartNoop(s);
    TrimEndNoop(s);
  }

  lemma TrimIdempotent(s: string)
    ensures Trim(Trim(s)) == Trim(s)
  {
    TrimNoop(Trim(s));
  }

  /** Trimming is blind to the whitespace it removes: only the trimmed core decides. */
  lemma TrimStartOfAppend(s: string, t: string)
    requires TrimStart(s) != []
    ensures TrimStart(s + t) == TrimStart(s) + t
  {
    var r := RunEnd(s, 0, Whitespace);
    assert (s + t)[r] == s[r];
    RunEndUnique(s + t, 0, Whitespace, r);
    assert (s + t)[r..] == s[r..] + t;
  }

  /** Leading whitespace followed by a string that does not start with whitespace
      trims to that string. */
  lemma TrimStartAllWhitespace(t: string, u: string)
    requires TrimStart(t) == []
    requires u == [] || !IsWhitespace(u[0])
    ensures TrimStart(t + u) == u
  {
    var r := |t|;
    assert forall i | 0 <= i < r :: (t + u)[i] == t[i];
    RunEndUnique(t + u, 0, Whitespace, r);
    assert (t + u)[r..] == u;
  }

  /** The trim of a string is all-whitespace exactly when the string is. */
  lemma TrimEmptyIff(s: string)
    ensures Trim(s) == [] <==> AllChars(s, Whitespace)
  {
    if Trim(s) == [] {
      assert TrimStart(s) == [];
    } else {
      assert !IsWhitespace(Trim(s)[0]);
      assert Trim(s)[0] in s;
    }
  }

  // ---------------------------------------------------------------------------
  // searching

  predicate StartsWith(s: string, p: string) {
    |p| <= |s| && s[..|p|] == p
  }

  predicate EndsWith(s: string, p: string) {
    |p| <= |s| && s[|s| - |p|..] == p
  }

  /** `p` occurs in `s` at index `i`. */
  predicate OccursAt(s: string, p: string, i: int) {
    0 <= i && i + |p| <= |s| && s[i..i + |p|] == p
  }

  /** An occurrence is a slice equal to the pattern. */
  lemma OccursAtSlice(s: string, p: string, i: int)
    ensures OccursAt(s, p, i) <==> 0 <= i && i + |p| <= |s| && s[i..i + |p|] == p
  {
    if 0 <= i && i + |p| <= |s| {
      var t := s[i..i + |p|];
      assert forall j | 0 <= j < |t| :: t[j] == s[i + j];
    }
  }

  /** `s.indexOf(p, from)`: the first occurrence of `p` at or after `from`. */
  function IndexOf(s: string, p: string, from: nat): (r: Option<nat>)
    requires |p| > 0
    decreases |s| - from
    ensures r.Some? ==> from <= r.value && OccursAt(s, p, r.value)
  {
    if from + |p| > |s| then None
    else if OccursAt(s, p, from) then Some(from)
    else IndexOf(s, p, from + 1)
  }

  /** `IndexOf` finds the first occurrence: an occurrence at `i` means it finds one
      at or before `i`. */
  lemma {:induction false} IndexOfFirst(s: string, p: string, from: nat, i: nat)
    requires |p| > 0 && from <= i
    ensures OccursAt(s, p, i) ==> IndexOf(s, p, from).Some? && IndexOf(s, p, from).value <= i
    decreases |s| - from
  {
    if from + |p| <= |s| && !OccursAt(s, p, from) && from < i {
      IndexOfFirst(s, p, from + 1, i);
    }
  }

  /** `p` occurs nowhere in `[lo, hi)`. */
  predicate NoneOccurIn(s: string, p: string, lo: int, hi: int) {
    forall i | lo <= i < hi :: !OccursAt(s, p, i)
  }

  /** `IndexOfFirst` for every position at once: nothing occurs between `from` and
      the occurrence found, and nothing from `from` on when none is found. */
  lemma IndexOfNoneBefore(s: string, p: string, from: nat)
    requires |p| > 0
    ensures IndexOf(s, p, from).Some? ==> NoneOccurIn(s, p, from, IndexOf(s, p, from).value)
    ensures IndexOf(s, p, from).None? ==> NoneOccurIn(s, p, from, |s|)
  {
    forall i: nat | from <= i ensures OccursAt(s, p, i) ==> IndexOf(s, p, from).Some? && IndexOf(s, p, from).value <= i {
      IndexOfFirst(s, p, from, i);
    }
  }

  /** What `IndexOf` finds is an occurrence, and the first one from `from` on. */
  lemma IndexOfFound(s: string, p: string, from: nat, e: nat)
    requires |p| > 0 && IndexOf(s, p, from) == Some(e)
    ensures from <= e && OccursAt(s, p, e) && NoneOccurIn(s, p, from, e)
  {
    IndexOfNoneBefore(s, p, from);
  }

  /** The first occurrence at or after `from` is what `IndexOf` finds. */
  lemma IndexOfAt(s: string, p: string, from: nat, i: nat)
    requires |p| > 0 && from <= i && OccursAt(s, p, i)
    requires NoneOccurIn(s, p, from, i)
    ensures IndexOf(s, p, from) == Some(i)
  {
    IndexOfFirst(s, p, from, i);
  }

  /** No `c` in `s` between `lo` and `hi`. */
  predicate Absent(s: string, c: char, lo: int, hi: int) {
    forall i | lo <= i < hi && 0 <= i < |s| :: s[i] != c
  }

  /** `s.indexOf(c, from)` for a one-character string `c`: the first `c` at or
      after `from`. */
  function Find(s: string, c: char, from: nat): (r: Option<nat>)
    decreases |s| - from
    ensures r.Some? ==> from <= r.value < |s| && s[r.value] == c && Absent(s, c, from, r.value)
    ensures r.None? ==> Absent(s, c, from, |s|)
  {
    if from >= |s| then None
    else if s[from] == c then Some(from)
    else Find(s, c, from + 1)
  }

  /** `Find` is `IndexOf` with the one-character pattern `[c]`. */
  lemma {:induction false} FindIsIndexOf(s: string, c: char, from: nat)
    ensures Find(s, c, from) == IndexOf(s, [c], from)
    decreases |s| - from
  {
    OccursAtChar(s, c, from);
    if from < |s| && s[from] != c {
      FindIsIndexOf(s, c, from + 1);
    }
  }

  /** A run of a class holds no character outside the class. */
  lemma RunAbsent(s: string, lo: nat, hi: nat, cc: CharClass, c: char)
    requires lo <= hi <= |s| && CharsIn(s, lo, hi, cc) && !InClass(c, cc)
    ensures Absent(s, c, lo, hi)
  {
  }

  lemma AbsentJoin(s: string, c: char, lo: int, mid: int, hi: int)
    requires Absent(s, c, lo, mid) && Absent(s, c, mid, hi)
    ensures Absent(s, c, lo, hi)
  {
  }

  /** A character that is absent from a range is not in its slice. */
  lemma AbsentSlice(s: string, c: char, lo: nat, hi: nat)
    requires lo <= hi <= |s| && Absent(s, c, lo, hi)
    ensures c !in s[lo..hi]
  {
    var t := s[lo..hi];
    assert forall j | 0 <= j < |t| :: t[j] == s[lo + j];
  }

  /** `.*` in a regular expression stops here: where the first line terminator at or after `j` is (or the end). */
  function LineEnd(s: string, j: nat): (e: nat)
    requires j <= |s|
    ensures j <= e <= |s|
    ensures forall m | j <= m < e :: !IsLineTerminator(s[m])
    ensures e == |s| || IsLineTerminator(s[e])
  {
    RunEnd(s, j, NotLineTerminator)
  }

  /** `s.replace(p, q)` with a string pattern: only the first occurrence is replaced. */
  function ReplaceFirst(s: string, p: string, q: string): (r: string)
    requires |p| > 0
  {
    var f := IndexOf(s, p, 0);
    if f.None? then s else s[..f.value] + q + s[f.value + |p|..]
  }

  // ---------------------------------------------------------------------------
  // join and split

  /** `xs.join(sep)`. */
  function Join(xs: seq<string>, sep: string): (r: string)
  {
    if |xs| == 0 then ""
    else if |xs| == 1 then xs[0]
    else xs[0] + sep + Join(xs[1..], sep)
  }

  /** Joining one more piece appends the separator and the piece. */
  lemma {:induction false} JoinAppend(xs: seq<string>, y: string, sep: string)
    requires xs != []
    ensures Join(xs + [y], sep) == Join(xs, sep) + sep + y
  {
    if |xs| > 1 {
      assert (xs + [y])[1..] == xs[1..] + [y];
      JoinAppend(xs[1..], y, sep);
    }
  }

  /** Joining two non-empty lists is joining each and separating the results. */
  lemma {:induction false} JoinConcat(xs: seq<string>, ys: seq<string>, sep: string)
    requires xs != [] && ys != []
    ensures Join(xs + ys, sep) == Join(xs, sep) + sep + Join(ys, sep)
  {
    if |xs| == 1 {
      assert (xs + ys)[1..] == ys;
    } else {
      assert (xs + ys)[1..] == xs[1..] + ys;
      JoinConcat(xs[1..], ys, sep);
    }
  }

  /** `s.split(c)` for a one-character separator: the pieces between separators,
      including empty ones; `"".split(c)` is `[""]`. */
  function Split(s: string, c: char): (r: seq<string>)
    decreases |s|
    ensures |r| > 0 && NoneContain(r, c)
  {
    var f := Find(s, c, 0);
    if f.None? then
      AbsentSlice(s, c, 0, |s|);
      assert s[0..|s|] == s;
      [s]
    else
      var i := f.value;
      AbsentSlice(s, c, 0, i);
      [s[..i]] + Split(s[i + 1..], c)
  }

  /** No piece contains the character `c`. */
  predicate NoneContain(xs: seq<string>, c: char)
  {
    forall k | 0 <= k < |xs| :: c !in xs[k]
  }

  lemma OccursAtChar(s: string, c: char, i: int)
    ensures OccursAt(s, [c], i) <==> 0 <= i < |s| && s[i] == c
  {
    if 0 <= i < |s| {
      assert s[i..i + 1] == [s[i]];
    }
  }

  /** A string without the separator splits into itself alone. */
  lemma SplitNoSeparator(s: string, c: char)
    requires c !in s
    ensures Split(s, c) == [s]
  {
  }

  /** Splitting a join of several pieces yields the first piece, then the
      split of the join of the rest. */
  lemma SplitJoinStep(xs: seq<string>, c: char)
    requires |xs| > 1 && c !in xs[0]
    ensures Split(Join(xs, [c]), c) == [xs[0]] + Split(Join(xs[1..], [c]), c)
  {
    var t := Join(xs, [c]);
    var n := |xs[0]|;
    assert t == xs[0] + [c] + Join(xs[1..], [c]);
    assert t[n] == c;
    assert Absent(t, c, 0, n) by {
      forall i | 0 <= i < n ensures t[i] != c {
        assert t[i] == xs[0][i];
      }
    }
    assert Find(t, c, 0) == Some(n);
    assert t[..n] == xs[0];
    assert t[n + 1..] == Join(xs[1..], [c]);
  }

  lemma NoneContainTail(xs: seq<string>, c: char)
    requires |xs| > 0 && NoneContain(xs, c)
    ensures c !in xs[0] && NoneContain(xs[1..], c)
  {
    forall k | 0 <= k < |xs| - 1 ensures c !in xs[1..][k] {
      assert xs[1..][k] == xs[k + 1];
    }
  }

  /** Splitting undoes joining, for pieces that do not contain the separator. */
  lemma {:induction false} SplitJoin(xs: seq<string>, c: char)
    requires |xs| > 0 && NoneContain(xs, c)
    ensures Split(Join(xs, [c]), c) == xs
  {
    NoneContainTail(xs, c);
    if |xs| == 1 {
      SplitNoSeparator(xs[0], c);
    } else {
      SplitJoinStep(xs, c);
      SplitJoin(xs[1..], c);
    }
  }

  // ---------------------------------------------------------------------------
  // numbers

  function DigitChar(d: nat): (c: char)
    requires d < 16
  {
    "0123456789abcdef"[d]
  }

  /** Every character is a decimal digit. */
  predicate AllDigits(s: string) {
    forall i | 0 <= i < |s| :: IsDigit(s[i])
  }

  /** `String(n)` for a non-negative integer. */
  function NatToString(n: nat): (r: string)
    ensures |r| > 0
    ensures AllDigits(r)
  {
    if n < 10 then [DigitChar(n)] else NatToString(n / 10) + [DigitChar(n % 10)]
  }
}
