// The palette generator: five colours, each with a lock, random
// regeneration of the unlocked ones, validated hex edits and the CSS
// custom-property export.

module Palette {
  import opened Strings
  import opened RandomDraws

  // ---------------------------------------------------------------------------
  // hexadecimal text

  predicate IsLowerHexDigit(c: char) {
    '0' <= c <= '9' || 'a' <= c <= 'f'
  }

  predicate IsHexDigit(c: char) {
    '0' <= c <= '9' || 'a' <= c <= 'f' || 'A' <= c <= 'F'
  }

  predicate AllLowerHex(s: string) {
    forall k | 0 <= k < |s| :: IsLowerHexDigit(s[k])
  }

  function DigitValue(c: char): (d: nat)
    requires IsLowerHexDigit(c)
    ensures d < 16
  {
    if c <= '9' then c as int - '0' as int else c as int - 'a' as int + 10
  }

  lemma DigitRoundTrip(d: nat)
    requires d < 16
    ensures IsLowerHexDigit(DigitChar(d)) && DigitValue(DigitChar(d)) == d
  {
  }

  /** `n.toString(16)`: lower-case digits, no leading zeros. */
  function ToHex(n: nat): (r: string)
    ensures r != [] && AllLowerHex(r)
    ensures r[0] == '0' <==> n == 0
  {
    DigitRoundTrip(n % 16);
    if n < 16 then [DigitChar(n)] else ToHex(n / 16) + [DigitChar(n % 16)]
  }

  /** The number a string of lower-case hex digits denotes. */
  function HexValue(s: string): nat
    requires AllLowerHex(s)
  {
    if s == [] then 0 else 16 * HexValue(s[..|s| - 1]) + DigitValue(s[|s| - 1])
  }

  lemma {:induction false} HexRoundTrip(n: nat)
    ensures HexValue(ToHex(n)) == n
  {
    DigitRoundTrip(n % 16);
    if n >= 16 {
      var r := ToHex(n);
      assert r[..|r| - 1] == ToHex(n / 16);
      HexRoundTrip(n / 16);
    }
  }

  function Pow16(k: nat): nat {
    if k == 0 then 1 else 16 * Pow16(k - 1)
  }

  lemma {:induction false} ToHexLength(n: nat, k: nat)
    requires k >= 1 && n < Pow16(k)
    ensures |ToHex(n)| <= k
  {
    if n >= 16 {
      ToHexLength(n / 16, k - 1);
    }
  }

  function Zeros(k: nat): (r: string)
    ensures |r| == k && AllLowerHex(r)
  {
    if k == 0 then "" else Zeros(k - 1) + "0"
  }

  /** `padStart(6, "0")`. */
  function PadStart6(s: string): (r: string)
    requires AllLowerHex(s)
    ensures AllLowerHex(r) && |r| == if |s| >= 6 then |s| else 6
  {
    if |s| >= 6 then s else Zeros(6 - |s|) + s
  }

  lemma {:induction false} ZerosValue(k: nat)
    ensures HexValue(Zeros(k)) == 0
  {
    if k > 0 {
      assert Zeros(k)[..k - 1] == Zeros(k - 1);
      ZerosValue(k - 1);
    }
  }

  lemma {:induction false} LeadingZeros(k: nat, s: string)
    requires AllLowerHex(s)
    ensures HexValue(Zeros(k) + s) == HexValue(s)
  {
    if s == [] {
      assert Zeros(k) + s == Zeros(k);
      ZerosValue(k);
    } else {
      var t := Zeros(k) + s;
      assert t[..|t| - 1] == Zeros(k) + s[..|s| - 1];
      LeadingZeros(k, s[..|s| - 1]);
    }
  }

  /** The colour text for a number below 2^24: `#` and six hex digits. */
  function HexColor(n: nat): (r: string)
    requires n < 0x100_0000
  {
    "#" + PadStart6(ToHex(n))
  }

  /** A colour is `#` and exactly six lower-case hex digits, and the digits
      read back as the number. */
  lemma HexColorShape(n: nat)
    requires n < 0x100_0000
    ensures |HexColor(n)| == 7 && HexColor(n)[0] == '#'
    ensures AllLowerHex(HexColor(n)[1..]) && HexValue(HexColor(n)[1..]) == n
  {
    ToHexLength(n, 6);
    HexRoundTrip(n);
    var h := ToHex(n);
    assert HexColor(n)[1..] == PadStart6(h);
    if |h| < 6 {
      LeadingZeros(6 - |h|, h);
    }
  }

  /** The digits of white read back as 2^24 - 1. */
  lemma WhiteDigits()
    ensures AllLowerHex("ffffff") && HexValue("ffffff") == 0xff_ffff
  {
    assert "f"[..0] == "" && HexValue("f") == 15;
    assert "ff"[..1] == "f" && HexValue("ff") == 0xff;
    assert "fff"[..2] == "ff" && HexValue("fff") == 0xfff;
    assert "ffff"[..3] == "fff" && HexValue("ffff") == 0xffff;
    assert "fffff"[..4] == "ffff" && HexValue("fffff") == 0xf_ffff;
    assert "ffffff"[..5] == "fffff";
  }

  /** `randomHex` as written: the draw is scaled by `0xffffff`. */
  function RandomHexAsWritten(u: nat): string
    requires IsDraw(u)
  {
    HexColor(Pick(u, 0xff_ffff))
  }

  /** As written, no draw yields white. */
  lemma WhiteUnreachable(u: nat)
    requires IsDraw(u)
    ensures RandomHexAsWritten(u) != "#ffffff"
  {
    var n := Pick(u, 0xff_ffff);
    HexColorShape(n);
    var digits := "ffffff";
    WhiteDigits();
    var h := RandomHexAsWritten(u);
    assert h[1..] != digits;
    assert "#ffffff"[1..] == digits;
  }

  /** `randomHex` with the draw scaled by 2^24, so every colour can come up. */
  function RandomHex(u: nat): string
    requires IsDraw(u)
  {
    HexColor(Pick(u, 0x100_0000))
  }

  /** Every colour is the image of some draw. */
  lemma EveryColorReachable(n: nat)
    requires n < 0x100_0000
    ensures exists u | IsDraw(u) :: RandomHex(u) == HexColor(n)
  {
    var u := n * 0x2000_0000;
    assert IsDraw(u);
    assert u * 0x100_0000 == n * 0x20_0000_0000_0000;
    assert Pick(u, 0x100_0000) == n;
  }

  // ---------------------------------------------------------------------------
  // palette entries

  datatype PaletteColor = PaletteColor(hex: string, locked: bool)

  function InitialPalette(draws: seq<nat>): (p: seq<PaletteColor>)
    requires |draws| == 5 && forall k | 0 <= k < 5 :: IsDraw(draws[k])
  {
    seq(5, i requires 0 <= i < 5 => PaletteColor(RandomHex(draws[i]), false))
  }

  /** The initial palette has five unlocked, well-formed colours. */
  lemma InitialPaletteShape(draws: seq<nat>)
    requires |draws| == 5 && forall k | 0 <= k < 5 :: IsDraw(draws[k])
    ensures |InitialPalette(draws)| == 5
    ensures forall i | 0 <= i < 5 :: !InitialPalette(draws)[i].locked && IsColor(InitialPalette(draws)[i].hex)
  {
    forall i | 0 <= i < 5 ensures IsColor(InitialPalette(draws)[i].hex) {
      HexColorShape(Pick(draws[i], 0x100_0000));
    }
  }

  /** `#` followed by six lower-case hex digits. */
  predicate IsColor(h: string) {
    |h| == 7 && h[0] == '#' && AllLowerHex(h[1..])
  }

  function RegenerateColor(c: PaletteColor, u: nat): PaletteColor
    requires IsDraw(u)
  {
    if c.locked then c else c.(hex := RandomHex(u))
  }

  /** Each unlocked entry gets a new colour from its draw. */
  function Regenerated(colors: seq<PaletteColor>, draws: seq<nat>): (r: seq<PaletteColor>)
    requires |draws| == |colors| && forall k | 0 <= k < |draws| :: IsDraw(draws[k])
  {
    seq(|colors|, i requires 0 <= i < |colors| => RegenerateColor(colors[i], draws[i]))
  }

  /** Regeneration keeps the length, every lock, and every locked entry
      exactly; unlocked entries get a well-formed colour. */
  lemma RegeneratedKeepsLocked(colors: seq<PaletteColor>, draws: seq<nat>)
    requires |draws| == |colors| && forall k | 0 <= k < |draws| :: IsDraw(draws[k])
    ensures |Regenerated(colors, draws)| == |colors|
    ensures forall i | 0 <= i < |colors| :: Regenerated(colors, draws)[i].locked == colors[i].locked
    ensures forall i | 0 <= i < |colors| && colors[i].locked :: Regenerated(colors, draws)[i] == colors[i]
    ensures forall i | 0 <= i < |colors| && !colors[i].locked :: IsColor(Regenerated(colors, draws)[i].hex)
  {
    forall i | 0 <= i < |colors| && !colors[i].locked ensures IsColor(Regenerated(colors, draws)[i].hex) {
      HexColorShape(Pick(draws[i], 0x100_0000));
    }
  }

  function Toggled(colors: seq<PaletteColor>, index: int): (r: seq<PaletteColor>)
  {
    seq(|colors|, i requires 0 <= i < |colors| => if i == index then colors[i].(locked := !colors[i].locked) else colors[i])
  }

  /** Toggling flips the lock of entry `index` and nothing else; an index
      outside the palette changes nothing, and toggling twice restores it. */
  lemma ToggledFlipsOnly(colors: seq<PaletteColor>, index: int)
    ensures |Toggled(colors, index)| == |colors|
    ensures forall i | 0 <= i < |colors| :: Toggled(colors, index)[i].hex == colors[i].hex
    ensures forall i | 0 <= i < |colors| :: Toggled(colors, index)[i].locked == (colors[i].locked != (i == index))
    ensures !(0 <= index < |colors|) ==> Toggled(colors, index) == colors
    ensures Toggled(Toggled(colors, index), index) == colors
  {
  }

  /** `^#?[0-9a-fA-F]{0,6}$`. */
  predicate AcceptedHexInput(value: string) {
    var digits := if |value| > 0 && value[0] == '#' then value[1..] else value;
    |digits| <= 6 && forall k | 0 <= k < |digits| :: IsHexDigit(digits[k])
  }

  /** An accepted value without a leading `#` gets one, unless it is empty. */
  function WithHash(value: string): string {
    if |value| > 0 && value[0] != '#' then "#" + value else value
  }

  function HexUpdated(colors: seq<PaletteColor>, index: int, value: string): (r: seq<PaletteColor>)
  {
    if !AcceptedHexInput(value) then colors
    else seq(|colors|, i requires 0 <= i < |colors| => if i == index then colors[i].(hex := WithHash(value)) else colors[i])
  }

  /** A rejected value changes nothing. An accepted one replaces only entry
      `index`'s hex, with text of at most 7 characters that starts with `#`
      unless it is empty. */
  lemma HexUpdatedEffect(colors: seq<PaletteColor>, index: int, value: string)
    ensures !AcceptedHexInput(value) ==> HexUpdated(colors, index, value) == colors
    ensures |HexUpdated(colors, index, value)| == |colors|
    ensures forall i | 0 <= i < |colors| && i != index :: HexUpdated(colors, index, value)[i] == colors[i]
    ensures AcceptedHexInput(value) && 0 <= index < |colors| ==>
      var h := HexUpdated(colors, index, value)[index];
      h.locked == colors[index].locked && h.hex == WithHash(value)
      && |h.hex| <= 7 && (value != "" ==> h.hex[0] == '#')
  {
  }

  /** An accepted value is still accepted once its `#` is added. */
  lemma WithHashAccepted(value: string)
    requires AcceptedHexInput(value)
    ensures AcceptedHexInput(WithHash(value))
  {
    if |value| > 0 && value[0] != '#' {
      assert WithHash(value)[1..] == value;
    }
  }

  /** An accepted value holds no line break. */
  lemma AcceptedHasNoLineBreak(value: string)
    requires AcceptedHexInput(value)
    ensures '\n' !in value
  {
    var digits := if |value| > 0 && value[0] == '#' then value[1..] else value;
    forall k | 0 <= k < |value| ensures value[k] != '\n' {
      if value[0] == '#' {
        if k > 0 {
          assert value[k] == digits[k - 1] && IsHexDigit(digits[k - 1]);
        }
      } else {
        assert IsHexDigit(digits[k]);
      }
    }
  }

  /** Every entry's hex text passes the edit check. */
  predicate AllAccepted(colors: seq<PaletteColor>) {
    forall i | 0 <= i < |colors| :: AcceptedHexInput(colors[i].hex)
  }

  /** Accepted hex texts hold no line break. */
  lemma AllAcceptedNoLineBreak(colors: seq<PaletteColor>)
    ensures AllAccepted(colors) ==> forall i | 0 <= i < |colors| :: '\n' !in colors[i].hex
  {
    if AllAccepted(colors) {
      forall i | 0 <= i < |colors| ensures '\n' !in colors[i].hex {
        AcceptedHasNoLineBreak(colors[i].hex);
      }
    }
  }

  /** Regeneration, toggling and edits keep every hex text accepted. */
  lemma EditsKeepAccepted(colors: seq<PaletteColor>, draws: seq<nat>, index: int, value: string)
    requires AllAccepted(colors)
    requires |draws| == |colors| && forall k | 0 <= k < |draws| :: IsDraw(draws[k])
    ensures AllAccepted(Regenerated(colors, draws))
    ensures AllAccepted(Toggled(colors, index))
    ensures AllAccepted(HexUpdated(colors, index, value))
  {
    var r := Regenerated(colors, draws);
    forall i | 0 <= i < |r| ensures AcceptedHexInput(r[i].hex) {
      if !colors[i].locked {
        GeneratedColorAccepted(Pick(draws[i], 0x100_0000));
      }
    }
    ToggledFlipsOnly(colors, index);
    HexUpdatedEffect(colors, index, value);
    if AcceptedHexInput(value) {
      WithHashAccepted(value);
    }
  }

  /** A generated colour passes the edit check and is stored as it is. */
  lemma GeneratedColorAccepted(n: nat)
    requires n < 0x100_0000
    ensures AcceptedHexInput(HexColor(n)) && WithHash(HexColor(n)) == HexColor(n)
  {
    HexColorShape(n);
    var h := HexColor(n);
    var digits := h[1..];
    assert |h| > 0 && h[0] == '#';
    assert forall k | 0 <= k < |digits| :: IsHexDigit(digits[k]) by {
      forall k | 0 <= k < |digits| ensures IsHexDigit(digits[k]) {
        assert IsLowerHexDigit(digits[k]);
      }
    }
  }

  /** Line i of the export declares `--color-{i+1}`. */
  function CssLine(i: nat, c: PaletteColor): string {
    "--color-" + NatToString(i + 1) + ": " + c.hex + ";"
  }

  function CssLines(colors: seq<PaletteColor>): (lines: seq<string>)
    ensures |lines| == |colors|
  {
    seq(|colors|, i requires 0 <= i < |colors| => CssLine(i, colors[i]))
  }

  function CssVariables(colors: seq<PaletteColor>): string {
    Join(CssLines(colors), "\n")
  }

  /** The export splits back into one declaration per entry, in order, as long
      as no hex contains a line break. */
  lemma CssVariablesLines(colors: seq<PaletteColor>)
    requires |colors| > 0
    requires forall i | 0 <= i < |colors| :: '\n' !in colors[i].hex
    ensures Split(CssVariables(colors), '\n') == CssLines(colors)
  {
    var lines := CssLines(colors);
    forall k | 0 <= k < |lines| ensures '\n' !in lines[k] {
      var d := NatToString(k + 1);
      assert lines[k] == "--color-" + d + ": " + colors[k].hex + ";";
    }
    SplitJoin(lines, '\n');
  }

  // ---------------------------------------------------------------------------
  // the tool's state

  class PaletteGenerator {
    var palette: array<PaletteColor>

    /** Five entries, each with a hex text the edit check accepts. */
    predicate Valid()
      reads this, palette
    {
      palette.Length == 5 && AllAccepted(palette[..])
    }

    constructor(draws: seq<nat>)
      requires |draws| == 5 && forall k | 0 <= k < 5 :: IsDraw(draws[k])
      ensures fresh(palette) && palette[..] == InitialPalette(draws)
      ensures Valid()
    {
      palette := new PaletteColor[5](i requires 0 <= i < 5 => PaletteColor(RandomHex(draws[i]), false));
      new;
      forall i | 0 <= i < 5 ensures AcceptedHexInput(palette[i].hex) {
        GeneratedColorAccepted(Pick(draws[i], 0x100_0000));
      }
    }

    /** `regenerate`: one draw per entry, used only by the unlocked ones. */
    method Regenerate(draws: seq<nat>)
      requires |draws| == palette.Length && forall k | 0 <= k < |draws| :: IsDraw(draws[k])
      modifies palette
      ensures palette[..] == Regenerated(old(palette[..]), draws)
      ensures old(Valid()) ==> Valid()
    {
      ghost var before := palette[..];
      for i := 0 to palette.Length
        invariant forall k | 0 <= k < i :: palette[k] == RegenerateColor(before[k], draws[k])
        invariant forall k | i <= k < palette.Length :: palette[k] == before[k]
      {
        palette[i] := RegenerateColor(palette[i], draws[i]);
      }
      assert palette[..] == Regenerated(before, draws);
      if palette.Length == 5 && AllAccepted(before) {
        EditsKeepAccepted(before, draws, 0, "");
      }
    }

    /** `toggleLock`. */
    method ToggleLock(index: int)
      modifies palette
      ensures palette[..] == Toggled(old(palette[..]), index)
      ensures old(Valid()) ==> Valid()
    {
      ghost var before := palette[..];
      if 0 <= index < palette.Length {
        palette[index] := palette[index].(locked := !palette[index].locked);
      }
      assert palette[..] == Toggled(before, index);
      ToggledFlipsOnly(before, index);
    }

    /** `updateHex`. */
    method UpdateHex(index: int, value: string)
      modifies palette
      ensures palette[..] == HexUpdated(old(palette[..]), index, value)
      ensures old(Valid()) ==> Valid()
    {
      ghost var before := palette[..];
      if !AcceptedHexInput(value) {
        return;
      }
      var v := value;
      if !(|v| > 0 && v[0] == '#') && |v| > 0 {
        v := "#" + v;
      }
      if 0 <= index < palette.Length {
        palette[index] := palette[index].(hex := v);
      }
      assert palette[..] == HexUpdated(before, index, value);
      if AllAccepted(before) {
        EditsKeepAccepted(before, seq(|before|, k => 0), index, value);
      }
    }

    /** The text `exportCss` downloads: one declaration per entry, in order. */
    function ExportCss(): (css: string)
      reads this, palette
      ensures palette.Length > 0 && (forall i | 0 <= i < palette.Length :: '\n' !in palette[i].hex) ==>
        Split(css, '\n') == CssLines(palette[..])
      ensures Valid() ==> Split(css, '\n') == CssLines(palette[..])
    {
      AllAcceptedNoLineBreak(palette[..]);
      if palette.Length > 0 && (forall i | 0 <= i < palette.Length :: '\n' !in palette[i].hex) then
        CssVariablesLines(palette[..]);
        CssVariables(palette[..])
      else
        CssVariables(palette[..])
    }
  }
}
