/**
 * The find bar's colour helpers (src/addons/addons/find-bar/userscript.js):
 * `normalizeColour`, which turns a block colour of any accepted form into a hex string,
 * and `Dropdown.getTextColor`, which picks black or white text for a background.
 */
module BlockColour {
  import opened Wrappers
  import opened JsStrings
  import opened JsNumbers

  /** A colour value as a block may hold it; `Other` is any value that is neither a number nor a string. */
  datatype ColourValue = Num(n: int) | Str(s: string) | Other

  // ---------------------------------------------------------------------------
  // colour.match(/\d+/g)

  predicate IsDecimalDigit(c: char) {
    '0' <= c <= '9'
  }

  /** The maximal runs of ASCII digits in `s`, left to right. */
  function DigitRuns(s: string): (runs: seq<string>)
    ensures forall k :: 0 <= k < |runs| ==> |runs[k]| >= 1 && AllDigitsIn(runs[k], 10)
    decreases |s|
  {
    if |s| == 0 then []
    else if IsDecimalDigit(s[0]) then
      var z := LeadingDigits(s, 10);
      assert |z| >= 1 by {
        assert IsDigitIn(s[0], 10);
      }
      [z] + DigitRuns(s[|z|..])
    else DigitRuns(s[1..])
  }

  /** A stretch without digits contributes no run. */
  lemma {:induction false} RunsSkipText(p: string, rest: string)
    requires forall k :: 0 <= k < |p| ==> !IsDecimalDigit(p[k])
    ensures DigitRuns(p + rest) == DigitRuns(rest)
    decreases |p|
  {
    if |p| > 0 {
      assert (p + rest)[0] == p[0];
      assert (p + rest)[1..] == p[1..] + rest;
      RunsSkipText(p[1..], rest);
    } else {
      assert p + rest == rest;
    }
  }

  /** A digit string followed by a non-digit is one run. */
  lemma {:induction false} RunThenText(ds: string, rest: string)
    requires |ds| >= 1 && AllDigitsIn(ds, 10)
    requires |rest| == 0 || !IsDecimalDigit(rest[0])
    ensures DigitRuns(ds + rest) == [ds] + DigitRuns(rest)
  {
    var s := ds + rest;
    assert IsDigitIn(ds[0], 10) && s[0] == ds[0];
    LeadingDigitsAt(ds, rest);
    assert s[|ds|..] == rest;
  }

  lemma {:induction false} LeadingDigitsAt(ds: string, rest: string)
    requires AllDigitsIn(ds, 10)
    requires |rest| == 0 || !IsDecimalDigit(rest[0])
    ensures LeadingDigits(ds + rest, 10) == ds
    decreases |ds|
  {
    if |ds| == 0 {
      assert ds + rest == rest;
      if |rest| > 0 {
        assert !IsDigitIn(rest[0], 10);
      }
    } else {
      assert (ds + rest)[1..] == ds[1..] + rest;
      assert IsDigitIn((ds + rest)[0], 10);
      LeadingDigitsAt(ds[1..], rest);
      assert ds == [ds[0]] + ds[1..];
    }
  }

  /** Every run reads as a decimal number, so `parseInt(run)` is its value. */
  lemma {:induction false} RunParses(run: string)
    requires |run| >= 1 && AllDigitsIn(run, 10)
    ensures ParseInt(run, Auto) == Some(Value(run, 10))
  {
    assert !IsDigitIn('x', 10) && !IsDigitIn('X', 10);
    if |run| >= 2 {
      assert IsDigitIn(run[1], 10);
    }
    ParsePlainDigits(run, Auto);
  }

  // ---------------------------------------------------------------------------
  // normalizeColour

  /** `(1 << 24) + (r << 16) + (g << 8) + b`, with JavaScript's 32-bit shifts. */
  function PackRgb(r: int, g: int, b: int): int {
    0x100_0000 + ShiftLeft(r, 16) + ShiftLeft(g, 8) + b
  }

  /** `str.slice(i)` for a non-negative `i`. */
  function SliceFrom(s: string, i: nat): string {
    if i <= |s| then s[i..] else ""
  }

  /** The hex form `normalizeColour` writes for a number: `'#' + n.toString(16).padStart(6, '0')`. */
  function HexOf(n: int): string {
    "#" + PadStart(ToRadixString(n, 16), 6)
  }

  /** The `colourNames` table. */
  const ColourNames: map<string, string> := map[
    "red" := "#FF0000", "blue" := "#0000FF", "green" := "#00FF00", "yellow" := "#FFFF00",
    "orange" := "#FFA500", "purple" := "#800080", "pink" := "#FFC0CB"
  ]

  /**
   * `normalizeColour(colour)`. A falsy value gives null; a number its hex form; a string
   * starting with '#' is kept; "rgb(" with three digit runs is packed into six hex
   * digits; "hsl(" with three runs goes through `hslToHex` (floating-point, supplied by
   * the caller); a colour name is looked up case-insensitively; anything else that
   * `parseInt` reads gives that number's hex form, and the rest null.
   */
  function NormalizeColour(colour: Option<ColourValue>, hslToHex: (nat, nat, nat) -> string): (r: Option<string>)
    ensures colour.None? || colour == Some(Num(0)) || colour == Some(Str("")) || colour == Some(Other) ==> r.None?
    ensures colour.Some? && colour.value.Num? && colour.value.n != 0 ==> r == Some(HexOf(colour.value.n))
    ensures colour.Some? && colour.value.Str? && StartsWith(colour.value.s, "#") ==> r == Some(colour.value.s)
    ensures r.Some? ==> colour.Some? && ((colour.value.Str? && StartsWith(colour.value.s, "hsl(")) || (|r.value| >= 1 && r.value[0] == '#'))
  {
    match colour
    case None => None
    case Some(Num(n)) => if n == 0 then None else Some(HexOf(n))
    case Some(Other) => None
    case Some(Str(s)) => if s == "" then None else NormalizeText(s, hslToHex)
  }

  /** The string branch of `normalizeColour`, for a non-empty string. */
  function NormalizeText(s: string, hslToHex: (nat, nat, nat) -> string): (r: Option<string>)
    ensures StartsWith(s, "#") ==> r == Some(s)
    ensures r.Some? ==> StartsWith(s, "hsl(") || (|r.value| >= 1 && r.value[0] == '#')
  {
    if StartsWith(s, "#") then Some(s)
    else
      var runs := DigitRuns(s);
      if StartsWith(s, "rgb(") && |runs| >= 3 then Some(FromRgb(runs))
      else if StartsWith(s, "hsl(") && |runs| >= 3 then
        Some(hslToHex(Value(runs[0], 10), Value(runs[1], 10), Value(runs[2], 10)))
      else if Lower(s) in ColourNames then Some(ColourNames[Lower(s)])
      else match ParseInt(s, Auto)
        case Some(num) => Some(HexOf(num))
        case None => None
  }

  /** The rgb branch: the first three numbers packed and written in hex without the leading 1. */
  function FromRgb(runs: seq<string>): (r: string)
    requires |runs| >= 3
    ensures |r| >= 1 && r[0] == '#'
  {
    "#" + SliceFrom(ToRadixString(PackRgb(Value(runs[0], 10), Value(runs[1], 10), Value(runs[2], 10)), 16), 1)
  }

  // ---------------------------------------------------------------------------
  // Properties of normalizeColour

  lemma {:induction false} Pow2Values()
    ensures Pow2(8) == 0x100 && Pow2(16) == 0x1_0000
  {
    assert Pow2(2) == 4;
    assert Pow2(4) == 16;
    assert Pow2(6) == 64;
    assert Pow2(8) == 0x100;
    assert Pow2(10) == 0x400;
    assert Pow2(12) == 0x1000;
    assert Pow2(14) == 0x4000;
  }

  /** For components in [0, 255] the packing is plain base-256 arithmetic behind a leading 1. */
  lemma {:induction false} PackRgbBytes(r: nat, g: nat, b: nat)
    requires r < 256 && g < 256 && b < 256
    ensures PackRgb(r, g, b) == ((1 * 256 + r) * 256 + g) * 256 + b
  {
    Pow2Values();
    assert r * 0x1_0000 < TwoTo31 && g * 0x100 < TwoTo31;
  }

  /** The packed value's hex digits are "1" followed by the three components' two digits each. */
  lemma {:induction false} PackRgbDigits(r: nat, g: nat, b: nat)
    requires r < 256 && g < 256 && b < 256
    ensures ToRadixString(PackRgb(r, g, b), 16) == "1" + Hex2(r) + Hex2(g) + Hex2(b)
  {
    PackRgbBytes(r, g, b);
    DigitsAppendByte(1, r);
    DigitsAppendByte(1 * 256 + r, g);
    DigitsAppendByte((1 * 256 + r) * 256 + g, b);
    assert Digits(1, 16) == "1";
  }

  /** The CSS text `rgb(r, g, b)` as the workspace serialises a colour. */
  function RgbText(r: nat, g: nat, b: nat): string {
    "rgb(" + Decimal(r) + ", " + Decimal(g) + ", " + Decimal(b) + ")"
  }

  /** A separator and a number, as in ", 255" and the rest. */
  lemma {:induction false} SeparatedRun(sep: string, d: string, t: string)
    requires forall k :: 0 <= k < |sep| ==> !IsDecimalDigit(sep[k])
    requires |d| >= 1 && AllDigitsIn(d, 10)
    requires |t| == 0 || !IsDecimalDigit(t[0])
    ensures DigitRuns(sep + (d + t)) == [d] + DigitRuns(t)
  {
    RunsSkipText(sep, d + t);
    RunThenText(d, t);
  }

  lemma {:induction false} RgbTextRuns(r: nat, g: nat, b: nat)
    ensures DigitRuns(RgbText(r, g, b)) == [Decimal(r), Decimal(g), Decimal(b)]
  {
    var dr, dg, db := Decimal(r), Decimal(g), Decimal(b);
    var t3 := ", " + (db + ")");
    var t2 := ", " + (dg + t3);
    assert RgbText(r, g, b) == "rgb(" + (dr + t2);
    assert DigitRuns(")") == [];
    SeparatedRun(", ", db, ")");
    SeparatedRun(", ", dg, t3);
    SeparatedRun("rgb(", dr, t2);
  }

  /**
   * `rgb(r, g, b)` with components in [0, 255] normalises to "#rrggbb", each component
   * as two lower-case hex digits.
   */
  lemma {:induction false} NormalizeRgb(r: nat, g: nat, b: nat, hslToHex: (nat, nat, nat) -> string)
    requires r < 256 && g < 256 && b < 256
    ensures NormalizeColour(Some(Str(RgbText(r, g, b))), hslToHex) == Some("#" + Hex2(r) + Hex2(g) + Hex2(b))
  {
    var s := RgbText(r, g, b);
    RgbTextShape(r, g, b);
    RgbTextValues(r, g, b);
    FromRgbBytes(DigitRuns(s), r, g, b);
    RgbBranch(s, hslToHex);
  }

  lemma {:induction false} RgbTextShape(r: nat, g: nat, b: nat)
    ensures StartsWith(RgbText(r, g, b), "rgb(") && !StartsWith(RgbText(r, g, b), "#")
  {
    var s := RgbText(r, g, b);
    assert s == "rgb(" + (Decimal(r) + ", " + Decimal(g) + ", " + Decimal(b) + ")");
    assert s[0] == 'r' && s[..1] != "#";
  }

  /** The three numbers of `rgb(r, g, b)` read back as r, g and b. */
  lemma {:induction false} RgbTextValues(r: nat, g: nat, b: nat)
    ensures var runs := DigitRuns(RgbText(r, g, b));
            |runs| == 3 && Value(runs[0], 10) == r && Value(runs[1], 10) == g && Value(runs[2], 10) == b
  {
    RgbTextRuns(r, g, b);
    DigitsValue(r, 10);
    DigitsValue(g, 10);
    DigitsValue(b, 10);
  }

  /** A non-empty string that starts with "rgb(" and holds three numbers takes the rgb branch. */
  lemma {:induction false} RgbBranch(s: string, hslToHex: (nat, nat, nat) -> string)
    requires StartsWith(s, "rgb(") && !StartsWith(s, "#") && |DigitRuns(s)| >= 3
    ensures NormalizeColour(Some(Str(s)), hslToHex) == Some(FromRgb(DigitRuns(s)))
  {
  }

  lemma {:induction false} FromRgbBytes(runs: seq<string>, r: nat, g: nat, b: nat)
    requires |runs| >= 3 && r < 256 && g < 256 && b < 256
    requires Value(runs[0], 10) == r && Value(runs[1], 10) == g && Value(runs[2], 10) == b
    ensures FromRgb(runs) == "#" + Hex2(r) + Hex2(g) + Hex2(b)
  {
    PackRgbDigits(r, g, b);
    var hex := ToRadixString(PackRgb(r, g, b), 16);
    assert SliceFrom(hex, 1) == Hex2(r) + Hex2(g) + Hex2(b);
  }

  function Pow16(k: nat): (p: nat)
    ensures p >= 1
  {
    if k == 0 then 1 else 16 * Pow16(k - 1)
  }

  /** A number below 16^k has at most k hex digits. */
  lemma {:induction false} DigitsShort(n: nat, k: nat)
    requires k >= 1 && n < Pow16(k)
    ensures |Digits(n, 16)| <= k
    decreases k
  {
    if n >= 16 && k >= 2 {
      assert n / 16 < Pow16(k - 1);
      DigitsShort(n / 16, k - 1);
    }
  }

  /**
   * A colour number in (0, 2^24) normalises to '#' and six hex digits that read back
   * as the number.
   */
  lemma {:induction false} NormalizeNumberRoundTrip(n: int, hslToHex: (nat, nat, nat) -> string)
    requires 0 < n < 0x100_0000
    ensures var r := NormalizeColour(Some(Num(n)), hslToHex);
            r.Some? && |r.value| == 7 && r.value[0] == '#' && ParseInt(r.value[1..], Hex) == Some(n)
  {
    var ds := Digits(n, 16);
    assert Pow16(6) == 0x100_0000;
    DigitsShort(n, 6);
    var h := PadStart(ds, 6);
    assert HexOf(n) == "#" + h;
    assert HexOf(n)[1..] == h;
    PaddedDigitsParse(ds, n);
  }

  /** Six hex digits, zero-padded on the left, read back as the number they pad. */
  lemma {:induction false} PaddedDigitsParse(ds: string, n: nat)
    requires ds == Digits(n, 16) && |ds| <= 6
    ensures |PadStart(ds, 6)| == 6 && ParseInt(PadStart(ds, 6), Hex) == Some(n)
  {
    var h := PadStart(ds, 6);
    var z := Zeros(6 - |ds|);
    assert h == z + ds;
    assert AllDigitsIn(h, 16) by {
      forall k | 0 <= k < |h| ensures IsDigitIn(h[k], 16) {
        if k < |z| { assert h[k] == '0'; } else { assert h[k] == ds[k - |z|]; }
      }
    }
    assert !IsDigitIn('x', 16) && !IsDigitIn('X', 16);
    ParsePlainDigits(h, Hex);
    ValueLeadingZeros(z, ds, 16);
    DigitsValue(n, 16);
  }

  /** A colour name is recognised in any letter case. */
  lemma {:induction false} NamedColour(s: string, hslToHex: (nat, nat, nat) -> string)
    requires Lower(s) in ColourNames
    ensures NormalizeColour(Some(Str(s)), hslToHex) == Some(ColourNames[Lower(s)])
  {
    var l := Lower(s);
    assert |s| >= 3 && 'a' <= l[0] <= 'z' && l[|s| - 1] != '(' && (|s| > 3 ==> l[3] != '(');
    assert s[0] != '#';
    if |s| >= 4 {
      assert s[3] != '(';
    }
    assert !StartsWith(s, "#") && !StartsWith(s, "rgb(") && !StartsWith(s, "hsl(");
  }

  // ---------------------------------------------------------------------------
  // getTextColor

  const Black: string := "#000000"
  const White: string := "#FFFFFF"

  /**
   * The luma test `(r*299 + g*587 + b*114) / 1000 > 128`. The source divides in floating
   * point; multiplying both sides by 1000 gives the same answer on whole components.
   */
  predicate IsBright(r: int, g: int, b: int) {
    r * 299 + g * 587 + b * 114 > 128000
  }

  /**
   * `getTextColor(bgColor)`: black on a colour that is not '#'-prefixed; otherwise the
   * three two-character components are read as hex, and text is black on a bright
   * background and white on a dark one. A component that does not parse is NaN, the
   * comparison fails, and the text is white.
   */
  function TextColor(bg: string): (r: string)
    ensures r == Black || r == White
    ensures !StartsWith(bg, "#") ==> r == Black
  {
    if !StartsWith(bg, "#") then Black else ChannelColor(Channels(bg))
  }

  /** The three channels `getTextColor` reads: hex pairs at offsets 1, 3 and 5. */
  function Channels(bg: string): (Option<int>, Option<int>, Option<int>) {
    (ParseInt(Substr(bg, 1, 2), Hex), ParseInt(Substr(bg, 3, 2), Hex), ParseInt(Substr(bg, 5, 2), Hex))
  }

  /** The luma test on parsed channels; NaN in any channel makes it fail. */
  function ChannelColor(ch: (Option<int>, Option<int>, Option<int>)): (r: string)
    ensures r == Black || r == White
    ensures r == Black <==> ch.0.Some? && ch.1.Some? && ch.2.Some? && IsBright(ch.0.value, ch.1.value, ch.2.value)
  {
    match ch
    case (Some(r), Some(g), Some(b)) => if IsBright(r, g, b) then Black else White
    case _ => White
  }

  /** On a well-formed "#rrggbb" the text is black exactly when the colour is bright. */
  lemma {:induction false} TextColorOfHex(r: nat, g: nat, b: nat)
    requires r < 256 && g < 256 && b < 256
    ensures TextColor("#" + Hex2(r) + Hex2(g) + Hex2(b)) == Black <==> IsBright(r, g, b)
  {
    var s := "#" + Hex2(r) + Hex2(g) + Hex2(b);
    ParseHex2(r);
    ParseHex2(g);
    ParseHex2(b);
    HashPairs(Hex2(r), Hex2(g), Hex2(b));
    ChannelsOfPairs(Hex2(r), Hex2(g), Hex2(b));
    assert TextColor(s) == ChannelColor((Some(r), Some(g), Some(b)));
  }

  lemma {:induction false} ChannelsOfPairs(hr: string, hg: string, hb: string)
    requires |hr| == 2 && |hg| == 2 && |hb| == 2
    ensures Channels("#" + hr + hg + hb) == (ParseInt(hr, Hex), ParseInt(hg, Hex), ParseInt(hb, Hex))
  {
    HashPairs(hr, hg, hb);
  }

  /** "#" and three two-character pieces: the slices `getTextColor` takes are the pieces. */
  lemma {:induction false} HashPairs(a: string, b: string, c: string)
    requires |a| == 2 && |b| == 2 && |c| == 2
    ensures StartsWith("#" + a + b + c, "#")
    ensures var s := "#" + a + b + c; Substr(s, 1, 2) == a && Substr(s, 3, 2) == b && Substr(s, 5, 2) == c
  {
    var s := "#" + a + b + c;
    assert s[..1] == "#";
    assert s[1..3] == a && s[3..5] == b && s[5..7] == c;
  }

  /** A block coloured `rgb(r, g, b)` gets black text exactly when the colour is bright. */
  lemma {:induction false} RgbBlockTextColor(r: nat, g: nat, b: nat, hslToHex: (nat, nat, nat) -> string)
    requires r < 256 && g < 256 && b < 256
    ensures var c := NormalizeColour(Some(Str(RgbText(r, g, b))), hslToHex);
            c.Some? && (TextColor(c.value) == Black <==> IsBright(r, g, b))
  {
    NormalizeRgb(r, g, b, hslToHex);
    TextColorOfHex(r, g, b);
  }
}
