// The password generator hook: a character set built from the enabled
// classes, one random pick per character, and a six-point strength score.

module PasswordGenerator {
  import opened Strings
  import opened RandomDraws

  const UppercaseLetters := "ABCDEFGHIJKLMNOPQRSTUVWXYZ"
  const LowercaseLetters := "abcdefghijklmnopqrstuvwxyz"
  const Numbers := "0123456789"
  const Symbols := "!@#$%^&*()_+-=[]{}|;:,.<>?"

  /** The characters of the enabled classes, always in the order upper case,
      lower case, digits, symbols. */
  function Charset(upper: bool, lower: bool, numbers: bool, symbols: bool): string {
    Part(upper, UppercaseLetters) + Part(lower, LowercaseLetters) + Part(numbers, Numbers) + Part(symbols, Symbols)
  }

  function Part(enabled: bool, chars: string): string {
    if enabled then chars else ""
  }

  /** A character is available exactly when its class is enabled. */
  lemma CharsetMembers(upper: bool, lower: bool, numbers: bool, symbols: bool, c: char)
    ensures c in Charset(upper, lower, numbers, symbols)
      <==> ((upper && c in UppercaseLetters) || (lower && c in LowercaseLetters)
            || (numbers && c in Numbers) || (symbols && c in Symbols))
  {
  }

  /** The set is empty exactly when every class is disabled. */
  lemma CharsetEmptyIff(upper: bool, lower: bool, numbers: bool, symbols: bool)
    ensures Charset(upper, lower, numbers, symbols) == "" <==> !upper && !lower && !numbers && !symbols
  {
    var cs := Charset(upper, lower, numbers, symbols);
    if upper { assert cs[0] == 'A'; }
    else if lower { assert cs[0] == 'a'; }
    else if numbers { assert cs[0] == '0'; }
    else if symbols { assert cs[0] == '!'; }
  }

  // ---------------------------------------------------------------------------
  // random picks

  /** The password built from the first n draws: character k is the pick of
      draw k. */
  function Password(characters: string, draws: seq<nat>, n: nat): (p: string)
    requires characters != [] && n <= |draws|
    requires forall k | 0 <= k < |draws| :: IsDraw(draws[k])
    ensures |p| == n
  {
    if n == 0 then ""
    else Password(characters, draws, n - 1) + [characters[Pick(draws[n - 1], |characters|)]]
  }

  /** Every character of a password comes from the character set. */
  lemma {:induction false} PasswordFromCharset(characters: string, draws: seq<nat>, n: nat)
    requires characters != [] && n <= |draws|
    requires forall k | 0 <= k < |draws| :: IsDraw(draws[k])
    ensures forall k | 0 <= k < n :: Password(characters, draws, n)[k] in characters
  {
    if n > 0 {
      PasswordFromCharset(characters, draws, n - 1);
      var p := Password(characters, draws, n);
      assert p[..n - 1] == Password(characters, draws, n - 1);
      forall k | 0 <= k < n ensures p[k] in characters {
        if k < n - 1 {
          assert p[k] == p[..n - 1][k];
        }
      }
    }
  }

  // ---------------------------------------------------------------------------
  // strength

  predicate HasUpper(p: string) { exists k | 0 <= k < |p| :: IsAsciiUpper(p[k]) }
  predicate HasLower(p: string) { exists k | 0 <= k < |p| :: IsAsciiLower(p[k]) }
  predicate HasDigit(p: string) { exists k | 0 <= k < |p| :: IsDigit(p[k]) }

  /** `[!@#$%^&*()_+\-=[\]{}|;:'",.<>?/]`: the generated symbols plus quote,
      double quote and slash. */
  predicate IsScoredSymbol(c: char) {
    c in "!@#$%^&*()_+-=[]{}|;:'\",.<>?/"
  }

  predicate HasSymbol(p: string) { exists k | 0 <= k < |p| :: IsScoredSymbol(p[k]) }

  function Point(b: bool): nat { if b then 1 else 0 }

  /** One point each for length at least 8, length at least 12, an upper-case
      letter, a lower-case letter, a digit and a symbol. */
  function Score(p: string): (s: nat)
    ensures s <= 6
  {
    Point(|p| >= 8) + Point(|p| >= 12) + Point(HasUpper(p)) + Point(HasLower(p))
    + Point(HasDigit(p)) + Point(HasSymbol(p))
  }

  function Classify(score: nat): string {
    if score <= 2 then "Weak" else if score <= 4 then "Moderate" else "Strong"
  }

  /** A password shorter than 8 misses both length points, so it is never
      strong. */
  lemma StrongNeedsEight(p: string)
    requires Classify(Score(p)) == "Strong"
    ensures |p| >= 8
  {
  }

  /** At least 12 characters from all four classes is full marks. */
  lemma FullMarks(p: string)
    ensures Score(p) == 6 <==> |p| >= 12 && HasUpper(p) && HasLower(p) && HasDigit(p) && HasSymbol(p)
  {
  }

  /** A symbol of the generator's set is scored as a symbol. */
  lemma GeneratedSymbolsScore(c: char)
    requires c in Symbols
    ensures IsScoredSymbol(c)
  {
  }

  // ---------------------------------------------------------------------------
  // the hook's state

  class PasswordGenerator {
    var length: int
    var hasUppercase: bool
    var hasLowercase: bool
    var hasNumbers: bool
    var hasSymbols: bool
    var password: string
    var strength: string

    constructor()
      ensures length == 15 && hasUppercase && hasLowercase && hasNumbers && hasSymbols
      ensures password == "" && strength == ""
    {
      length := 15;
      hasUppercase := true;
      hasLowercase := true;
      hasNumbers := true;
      hasSymbols := true;
      password := "";
      strength := "";
    }

    /** The enabled classes appended one by one. */
    method Characters() returns (characters: string)
      ensures characters == Charset(hasUppercase, hasLowercase, hasNumbers, hasSymbols)
    {
      characters := "";
      if hasUppercase { characters := characters + UppercaseLetters; }
      assert characters == Part(hasUppercase, UppercaseLetters);
      if hasLowercase { characters := characters + LowercaseLetters; }
      assert characters == Part(hasUppercase, UppercaseLetters) + Part(hasLowercase, LowercaseLetters);
      if hasNumbers { characters := characters + Numbers; }
      if hasSymbols { characters := characters + Symbols; }
    }

    /** `generatePassword`, with the values `Math.random()` returns supplied as
        draws, one per character. */
    method GeneratePassword(draws: seq<nat>)
      requires length <= |draws|
      requires forall k | 0 <= k < |draws| :: IsDraw(draws[k])
      modifies this
      ensures length == old(length) && hasUppercase == old(hasUppercase) && hasLowercase == old(hasLowercase)
      ensures hasNumbers == old(hasNumbers) && hasSymbols == old(hasSymbols)
      ensures var cs := Charset(hasUppercase, hasLowercase, hasNumbers, hasSymbols);
        cs == "" ==> password == "" && strength == old(strength)
      ensures var cs := Charset(hasUppercase, hasLowercase, hasNumbers, hasSymbols);
        cs != "" ==> (password == Password(cs, draws, if length < 0 then 0 else length)
                      && strength == Classify(Score(password)))
    {
      var characters := Characters();
      if characters == "" {
        password := "";
        return;
      }
      var generated := Generate(characters, draws, length);
      password := generated;
      AssessStrength(generated);
    }

    /** The `for` loop: one picked character appended per position. */
    static method Generate(characters: string, draws: seq<nat>, length: int) returns (generated: string)
      requires characters != [] && length <= |draws|
      requires forall k | 0 <= k < |draws| :: IsDraw(draws[k])
      ensures generated == Password(characters, draws, if length < 0 then 0 else length)
    {
      generated := "";
      var i := 0;
      while i < length
        invariant 0 <= i && (length >= 0 ==> i <= length) && (length < 0 ==> i == 0)
        invariant generated == Password(characters, draws, i)
      {
        var randomChar := characters[Pick(draws[i], |characters|)];
        generated := generated + [randomChar];
        i := i + 1;
      }
    }

    /** `assessStrength`: the score counted point by point, then classified. */
    method AssessStrength(p: string)
      modifies this
      ensures strength == Classify(Score(p))
      ensures length == old(length) && hasUppercase == old(hasUppercase) && hasLowercase == old(hasLowercase)
      ensures hasNumbers == old(hasNumbers) && hasSymbols == old(hasSymbols) && password == old(password)
    {
      var score := CountScore(p);
      if score <= 2 {
        strength := "Weak";
      } else if score <= 4 {
        strength := "Moderate";
      } else {
        strength := "Strong";
      }
    }

    static method CountScore(p: string) returns (score: nat)
      ensures score == Score(p)
    {
      score := 0;
      if |p| >= 8 { score := score + 1; }
      if |p| >= 12 { score := score + 1; }
      if HasUpper(p) { score := score + 1; }
      if HasLower(p) { score := score + 1; }
      if HasDigit(p) { score := score + 1; }
      if HasSymbol(p) { score := score + 1; }
    }
  }
}
