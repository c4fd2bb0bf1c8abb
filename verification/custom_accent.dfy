/**
 * The custom accent theme (src/lib/themes/accent/custom.js): the three user colours,
 * their update and read, the table of GUI colours derived from them, and its resolution
 * into a plain key-to-colour map.
 */
module CustomAccent {
  import opened Wrappers
  import opened JsStrings
  import opened JsNumbers
  import opened BlockColour

  // ---------------------------------------------------------------------------
  // customColors, updateCustomColors, getCustomColors

  datatype Colors = Colors(primary: string, secondary: string, tertiary: string)

  const DefaultPrimary: string := "#ff4c4c"
  const DefaultSecondary: string := "#ff4c4c"
  const DefaultTertiary: string := "#cc3333"

  /** The colours the module starts with. */
  const Initial: Colors := Colors(DefaultPrimary, DefaultSecondary, DefaultTertiary)

  /** The argument of `updateCustomColors`: each field may be absent. */
  datatype ColorsArg = ColorsArg(primary: Option<string>, secondary: Option<string>, tertiary: Option<string>)

  /** JavaScript's `a || b` when `a` is an optional string: a present, non-empty `a` wins. */
  function Or(a: Option<string>, b: string): (r: string)
    ensures a.Some? && a.value != "" ==> r == a.value
    ensures a.None? || a.value == "" ==> r == b
  {
    if a.Some? && a.value != "" then a.value else b
  }

  /** `x || d` on a stored colour. */
  function OrDefault(x: string, d: string): (r: string)
    ensures x != "" ==> r == x
    ensures x == "" ==> r == d
  {
    if x != "" then x else d
  }

  predicate Given(a: Option<string>) {
    a.Some? && a.value != ""
  }

  /**
   * `updateCustomColors(colors)`: a field given non-empty replaces the stored one; any
   * other field keeps its value, and an empty tertiary falls back to the default.
   */
  function Update(c: Colors, arg: ColorsArg): (r: Colors)
    ensures r.primary == (if Given(arg.primary) then arg.primary.value else c.primary)
    ensures r.secondary == (if Given(arg.secondary) then arg.secondary.value else c.secondary)
    ensures r.tertiary == (if Given(arg.tertiary) then arg.tertiary.value
                           else if c.tertiary != "" then c.tertiary else DefaultTertiary)
    ensures r.tertiary != ""
  {
    Colors(Or(arg.primary, c.primary), Or(arg.secondary, c.secondary),
           Or(arg.tertiary, OrDefault(c.tertiary, DefaultTertiary)))
  }

  /** `getCustomColors()`: the stored colours, an empty one replaced by its default. */
  function Get(c: Colors): (r: Colors)
    ensures r.primary != "" && r.secondary != "" && r.tertiary != ""
    ensures c.primary != "" ==> r.primary == c.primary
    ensures c.secondary != "" ==> r.secondary == c.secondary
    ensures c.tertiary != "" ==> r.tertiary == c.tertiary
  {
    Colors(OrDefault(c.primary, DefaultPrimary), OrDefault(c.secondary, DefaultSecondary),
           OrDefault(c.tertiary, DefaultTertiary))
  }

  /** No colour is empty. */
  predicate Complete(c: Colors) {
    c.primary != "" && c.secondary != "" && c.tertiary != ""
  }

  /** The colours after a sequence of updates from the start. */
  function Replay(updates: seq<ColorsArg>): Colors {
    if |updates| == 0 then Initial else Update(Replay(updates[..|updates| - 1]), updates[|updates| - 1])
  }

  /** Updates keep every colour non-empty. */
  lemma {:induction false} UpdateKeepsComplete(c: Colors, arg: ColorsArg)
    requires Complete(c)
    ensures Complete(Update(c, arg))
  {
  }

  /** Every reachable state is complete, so reading it returns it unchanged. */
  lemma {:induction false} ReachableIsComplete(updates: seq<ColorsArg>)
    ensures Complete(Replay(updates))
    ensures Get(Replay(updates)) == Replay(updates)
    decreases |updates|
  {
    if |updates| > 0 {
      ReachableIsComplete(updates[..|updates| - 1]);
      UpdateKeepsComplete(Replay(updates[..|updates| - 1]), updates[|updates| - 1]);
    }
  }

  /** Applying the same update twice is applying it once. */
  lemma {:induction false} UpdateIdempotent(c: Colors, arg: ColorsArg)
    ensures Update(Update(c, arg), arg) == Update(c, arg)
  {
  }

  /** Reading is idempotent and never sees an empty colour. */
  lemma {:induction false} GetIdempotent(c: Colors)
    ensures Get(Get(c)) == Get(c) && Complete(Get(c))
  {
  }

  // ---------------------------------------------------------------------------
  // Derived colours

  datatype Field = Primary | Secondary | Tertiary

  function FieldOf(c: Colors, f: Field): string {
    match f
    case Primary => c.primary
    case Secondary => c.secondary
    case Tertiary => c.tertiary
  }

  /** The shapes of the `guiColors` functions. */
  datatype Formula =
    | Literal(value: string)              // a fixed colour
    | Base(field: Field)                  // one of the user colours
    | WithAlpha(field: Field, alpha: string)  // a user colour with an alpha suffix
    | AsRgb(field: Field)                 // the colour's components as rgb(...)
    | Darker(field: Field)                // each component times 0.7, rounded down
    | Lighter(field: Field)               // each component times 1.3, rounded down, at most 255

  /**
   * `parseInt(hex.substr(i, 2), 16)` for i = 0, 2, 4, where `hex` is the colour with its
   * first '#' removed; None is NaN.
   */
  function Components(s: string): (Option<int>, Option<int>, Option<int>) {
    var hex := RemoveFirst(s, '#');
    (ParseInt(Substr(hex, 0, 2), Hex), ParseInt(Substr(hex, 2, 2), Hex), ParseInt(Substr(hex, 4, 2), Hex))
  }

  /** `Math.floor(x * 0.7)`, on the exact product. */
  function Darken(x: int): (r: int)
    ensures x >= 0 ==> 0 <= r <= x
    ensures x > 0 ==> r < x
  {
    (7 * x) / 10
  }

  /** `Math.min(255, Math.floor(x * 1.3))`, on the exact product. */
  function Lighten(x: int): (r: int)
    ensures r <= 255
    ensures 0 <= x <= 255 ==> x <= r
    ensures 0 <= x && 13 * x < 2560 ==> r == (13 * x) / 10
  {
    Min(255, (13 * x) / 10)
  }

  /** Template-literal formatting of a number that may be NaN. */
  function Show(x: Option<int>): string {
    match x
    case Some(n) => Decimal(n)
    case None => "NaN"
  }

  /** `x op y` where NaN stays NaN. */
  function MapNum(x: Option<int>, f: int -> int): Option<int> {
    match x
    case Some(n) => Some(f(n))
    case None => None
  }

  /** The same operation on each component. */
  function Scale(rgb: (Option<int>, Option<int>, Option<int>), f: int -> int): (Option<int>, Option<int>, Option<int>) {
    (MapNum(rgb.0, f), MapNum(rgb.1, f), MapNum(rgb.2, f))
  }

  function Rgb(rgb: (Option<int>, Option<int>, Option<int>)): string {
    "rgb(" + Show(rgb.0) + ", " + Show(rgb.1) + ", " + Show(rgb.2) + ")"
  }

  /** The value a `guiColors` function returns for the colours `c`. */
  function Evaluate(f: Formula, c: Colors): string {
    match f
    case Literal(v) => v
    case Base(field) => FieldOf(c, field)
    case WithAlpha(field, alpha) => FieldOf(c, field) + alpha
    case AsRgb(field) => Rgb(Components(FieldOf(c, field)))
    case Darker(field) => Rgb(Scale(Components(FieldOf(c, field)), Darken))
    case Lighter(field) => Rgb(Scale(Components(FieldOf(c, field)), Lighten))
  }

  /** The `guiColors` table, in declaration order. */
  const GuiColors: seq<(string, Formula)> := [
    ("motion-primary", Base(Primary)),
    ("motion-primary-transparent", WithAlpha(Primary, "e6")),
    ("motion-tertiary", Base(Tertiary)),
    ("looks-secondary", Base(Secondary)),
    ("looks-transparent", WithAlpha(Secondary, "59")),
    ("looks-light-transparent", WithAlpha(Secondary, "26")),
    ("looks-secondary-dark", Darker(Secondary)),
    ("extensions-primary", AsRgb(Primary)),
    ("extensions-tertiary", Base(Tertiary)),
    ("extensions-transparent", WithAlpha(Primary, "59")),
    ("extensions-light", Lighter(Primary)),
    ("drop-highlight", Lighter(Primary)),
    ("menu-bar-background", Base(Primary)),
    ("menu-bar-text", Literal("#ffffff")),
    ("menu-bar-text-transparent", Literal("#ffffff99")),
    ("menu-bar-border", Base(Tertiary)),
    ("menu-bar-item-hover", WithAlpha(Secondary, "33")),
    ("menu-bar-item-active", WithAlpha(Secondary, "66")),
    ("background", Literal("#ffffff")),
    ("background-on", Literal("#f8f8f8")),
    ("background-hover", Literal("#f0f0f0")),
    ("background-active", Literal("#e8e8e8")),
    ("text", Literal("#000000")),
    ("text-on-primary", Literal("#ffffff")),
    ("text-secondary", Literal("#666666")),
    ("text-tertiary", Literal("#999999")),
    ("border", Literal("#cccccc")),
    ("border-accent", Base(Tertiary)),
    ("border-error", Literal("#ff8c1a")),
    ("border-success", Literal("#00c175")),
    ("input-border-accent", Base(Secondary))
  ]

  /** The `blockColors` table. */
  const BlockColors: seq<(string, Formula)> := [
    ("checkboxActiveBackground", Base(Primary)),
    ("checkboxActiveBorder", Base(Tertiary))
  ]

  // ---------------------------------------------------------------------------
  // resolveColor, getResolvedGuiColors

  /** A table value: a colour function, or a colour given as is. */
  datatype ColorSpec = Fn(formula: Formula) | Value(color: string)

  /** `resolveColor(color)`: a function is called, anything else is returned unchanged. */
  function ResolveColor(spec: ColorSpec, c: Colors): (r: string)
    ensures spec.Value? ==> r == spec.color
    ensures spec.Fn? ==> r == Evaluate(spec.formula, c)
  {
    match spec
    case Fn(f) => Evaluate(f, c)
    case Value(v) => v
  }

  /** The table's keys are pairwise different. */
  ghost predicate DistinctKeys(table: seq<(string, Formula)>) {
    forall i, j :: 0 <= i < j < |table| ==> table[i].0 != table[j].0
  }

  /**
   * `getResolvedGuiColors()` over any table: each key bound to its function's value for
   * the current colours. The map holds exactly the table's keys; a key listed twice
   * keeps its last value.
   */
  method ResolveTable(table: seq<(string, Formula)>, c: Colors) returns (resolved: map<string, string>)
    ensures forall key :: key in resolved <==> exists k :: 0 <= k < |table| && table[k].0 == key
    ensures forall k :: 0 <= k < |table| && (forall j :: k < j < |table| ==> table[j].0 != table[k].0) ==>
              resolved[table[k].0] == ResolveColor(Fn(table[k].1), c)
  {
    resolved := map[];
    var i := 0;
    while i < |table|
      invariant 0 <= i <= |table|
      invariant forall key :: key in resolved <==> exists k :: 0 <= k < i && table[k].0 == key
      invariant forall k :: 0 <= k < i && (forall j :: k < j < i ==> table[j].0 != table[k].0) ==>
                  resolved[table[k].0] == ResolveColor(Fn(table[k].1), c)
    {
      resolved := resolved[table[i].0 := ResolveColor(Fn(table[i].1), c)];
      i := i + 1;
    }
  }

  /** `getResolvedGuiColors()`. */
  method ResolvedGuiColors(c: Colors) returns (resolved: map<string, string>)
    ensures forall key :: key in resolved <==> exists k :: 0 <= k < |GuiColors| && GuiColors[k].0 == key
    ensures forall k :: 0 <= k < |GuiColors| ==> resolved[GuiColors[k].0] == Evaluate(GuiColors[k].1, c)
  {
    GuiColorsDistinct();
    resolved := ResolveTable(GuiColors, c);
  }

  /** `getResolvedBlockColors()`: both entries of the block table are functions. */
  method ResolvedBlockColors(c: Colors) returns (resolved: map<string, string>)
    ensures resolved == map["checkboxActiveBackground" := c.primary, "checkboxActiveBorder" := c.tertiary]
  {
    resolved := ResolveTable(BlockColors, c);
    assert BlockColors[0].0 != BlockColors[1].0;
    assert resolved["checkboxActiveBackground"] == c.primary && resolved["checkboxActiveBorder"] == c.tertiary;
  }

  /** Length, first and last character: already enough to tell the table's keys apart. */
  function Signature(s: string): (int, char, char) {
    if |s| == 0 then (0, ' ', ' ') else (|s|, s[0], s[|s| - 1])
  }

  /** The keys of the rows from `lo` up to `hi` differ from those of every later row. */
  ghost predicate KeysDistinctFrom(lo: nat, hi: nat) {
    forall i, j :: lo <= i < hi && i < j < |GuiColors| ==> GuiColors[i].0 != GuiColors[j].0
  }

  lemma {:induction false} GuiColorsDistinct()
    ensures DistinctKeys(GuiColors)
  {
    RowsDistinctA();
    RowsDistinctB();
    RowsDistinctC();
    RowsDistinctD();
    RowsDistinctE();
    RowsDistinctF();
    RowsDistinctG();
    forall i, j | 0 <= i < j < |GuiColors| ensures GuiColors[i].0 != GuiColors[j].0 {
      if i < 3 { assert KeysDistinctFrom(0, 3); }
      else if i < 6 { assert KeysDistinctFrom(3, 6); }
      else if i < 9 { assert KeysDistinctFrom(6, 9); }
      else if i < 12 { assert KeysDistinctFrom(9, 12); }
      else if i < 16 { assert KeysDistinctFrom(12, 16); }
      else if i < 22 { assert KeysDistinctFrom(16, 22); }
      else { assert KeysDistinctFrom(22, 31); }
    }
  }

  lemma {:induction false} RowsDistinctA()
    ensures KeysDistinctFrom(0, 3)
  {
    forall i, j | 0 <= i < 3 && i < j < |GuiColors| ensures GuiColors[i].0 != GuiColors[j].0 {
      assert Signature(GuiColors[i].0) != Signature(GuiColors[j].0);
    }
  }

  lemma {:induction false} RowsDistinctB()
    ensures KeysDistinctFrom(3, 6)
  {
    forall i, j | 3 <= i < 6 && i < j < |GuiColors| ensures GuiColors[i].0 != GuiColors[j].0 {
      assert Signature(GuiColors[i].0) != Signature(GuiColors[j].0);
    }
  }

  lemma {:induction false} RowsDistinctC()
    ensures KeysDistinctFrom(6, 9)
  {
    forall i, j | 6 <= i < 9 && i < j < |GuiColors| ensures GuiColors[i].0 != GuiColors[j].0 {
      assert Signature(GuiColors[i].0) != Signature(GuiColors[j].0);
    }
  }

  lemma {:induction false} RowsDistinctD()
    ensures KeysDistinctFrom(9, 12)
  {
    forall i, j | 9 <= i < 12 && i < j < |GuiColors| ensures GuiColors[i].0 != GuiColors[j].0 {
      assert Signature(GuiColors[i].0) != Signature(GuiColors[j].0);
    }
  }

  lemma {:induction false} RowsDistinctE()
    ensures KeysDistinctFrom(12, 16)
  {
    forall i, j | 12 <= i < 16 && i < j < |GuiColors| ensures GuiColors[i].0 != GuiColors[j].0 {
      assert Signature(GuiColors[i].0) != Signature(GuiColors[j].0);
    }
  }

  lemma {:induction false} RowsDistinctF()
    ensures KeysDistinctFrom(16, 22)
  {
    forall i, j | 16 <= i < 22 && i < j < |GuiColors| ensures GuiColors[i].0 != GuiColors[j].0 {
      assert Signature(GuiColors[i].0) != Signature(GuiColors[j].0);
    }
  }

  lemma {:induction false} RowsDistinctG()
    ensures KeysDistinctFrom(22, 31)
  {
    forall i, j | 22 <= i < 31 && i < j < |GuiColors| ensures GuiColors[i].0 != GuiColors[j].0 {
      assert Signature(GuiColors[i].0) != Signature(GuiColors[j].0);
    }
  }

  // ---------------------------------------------------------------------------
  // Properties of the derived colours

  /** Every transparent variant is its user colour with a two-hex-digit alpha appended. */
  lemma {:induction false} TransparentVariants(c: Colors)
    ensures forall k :: 0 <= k < |GuiColors| && GuiColors[k].1.WithAlpha? ==>
              var f := GuiColors[k].1;
              |f.alpha| == 2 && AllDigitsIn(f.alpha, 16) && Evaluate(f, c) == FieldOf(c, f.field) + f.alpha
  {
    forall k | 0 <= k < |GuiColors| && GuiColors[k].1.WithAlpha?
      ensures |GuiColors[k].1.alpha| == 2 && AllDigitsIn(GuiColors[k].1.alpha, 16)
    {
    }
  }

  /** The colour "#rrggbb" with lower-case hex digits. */
  function HexColour(r: nat, g: nat, b: nat): string
    requires r < 256 && g < 256 && b < 256
  {
    "#" + Hex2(r) + Hex2(g) + Hex2(b)
  }

  /** A well-formed "#rrggbb" colour parses into exactly its three components. */
  lemma {:induction false} ComponentsOfHex(r: nat, g: nat, b: nat)
    requires r < 256 && g < 256 && b < 256
    ensures Components(HexColour(r, g, b)) == (Some(r), Some(g), Some(b))
  {
    var hex := Hex2(r) + Hex2(g) + Hex2(b);
    assert HexColour(r, g, b) == "#" + hex;
    HashStripped(hex);
    ThreePairs(Hex2(r), Hex2(g), Hex2(b));
    ParseHex2(r);
    ParseHex2(g);
    ParseHex2(b);
  }

  /** Removing the first '#' of "#" + hex leaves hex. */
  lemma {:induction false} HashStripped(hex: string)
    ensures RemoveFirst("#" + hex, '#') == hex
  {
    var s := "#" + hex;
    assert s[0] == '#';
    assert CharIndex(s, '#') == 0;
    assert s[1..] == hex;
  }

  /** The three two-character slices of a six-character string. */
  lemma {:induction false} ThreePairs(a: string, b: string, c: string)
    requires |a| == 2 && |b| == 2 && |c| == 2
    ensures Substr(a + b + c, 0, 2) == a && Substr(a + b + c, 2, 2) == b && Substr(a + b + c, 4, 2) == c
  {
    var s := a + b + c;
    assert s[0..2] == a && s[2..4] == b && s[4..6] == c;
  }

  /** What the derived formulas compute, for any field. */
  lemma {:induction false} EvaluateDerived(c: Colors, f: Formula)
    ensures f.AsRgb? ==> Evaluate(f, c) == Rgb(Components(FieldOf(c, f.field)))
    ensures f.Darker? ==> Evaluate(f, c) == Rgb(Scale(Components(FieldOf(c, f.field)), Darken))
    ensures f.Lighter? ==> Evaluate(f, c) == Rgb(Scale(Components(FieldOf(c, f.field)), Lighten))
  {
  }

  lemma {:induction false} ScaleNumbers(r: int, g: int, b: int, f: int -> int)
    ensures Scale((Some(r), Some(g), Some(b)), f) == (Some(f(r)), Some(f(g)), Some(f(b)))
  {
  }

  lemma {:induction false} RgbOfNumbers(r: nat, g: nat, b: nat)
    ensures Rgb((Some(r), Some(g), Some(b))) == RgbText(r, g, b)
  {
  }

  /**
   * For a well-formed primary colour, `extensions-primary` is `rgb(r, g, b)` with the
   * exact components, and normalising that text gives the primary colour back.
   */
  lemma {:induction false} ExtensionsPrimaryExact(c: Colors, r: nat, g: nat, b: nat, hslToHex: (nat, nat, nat) -> string)
    requires r < 256 && g < 256 && b < 256 && c.primary == HexColour(r, g, b)
    ensures Evaluate(AsRgb(Primary), c) == RgbText(r, g, b)
    ensures NormalizeColour(Some(Str(Evaluate(AsRgb(Primary), c))), hslToHex) == Some(c.primary)
  {
    ComponentsOfHex(r, g, b);
    RgbOfNumbers(r, g, b);
    EvaluateDerived(c, AsRgb(Primary));
    NormalizeRgb(r, g, b, hslToHex);
  }

  /** For a well-formed secondary colour, `looks-secondary-dark` darkens every component and keeps it in range. */
  lemma {:induction false} DarkerIsDarker(c: Colors, r: nat, g: nat, b: nat)
    requires r < 256 && g < 256 && b < 256 && c.secondary == HexColour(r, g, b)
    ensures Evaluate(Darker(Secondary), c) == RgbText(Darken(r), Darken(g), Darken(b))
    ensures Darken(r) <= r && Darken(g) <= g && Darken(b) <= b
  {
    ComponentsOfHex(r, g, b);
    EvaluateDerived(c, Darker(Secondary));
    ScaleNumbers(r, g, b, Darken);
    RgbOfNumbers(Darken(r), Darken(g), Darken(b));
  }

  /**
   * For a well-formed primary colour, `extensions-light` and `drop-highlight` lighten
   * every component without passing 255.
   */
  lemma {:induction false} LighterIsLighter(c: Colors, r: nat, g: nat, b: nat)
    requires r < 256 && g < 256 && b < 256 && c.primary == HexColour(r, g, b)
    ensures Evaluate(Lighter(Primary), c) == RgbText(Lighten(r), Lighten(g), Lighten(b))
    ensures r <= Lighten(r) <= 255 && g <= Lighten(g) <= 255 && b <= Lighten(b) <= 255
  {
    ComponentsOfHex(r, g, b);
    EvaluateDerived(c, Lighter(Primary));
    ScaleNumbers(r, g, b, Lighten);
    RgbOfNumbers(Lighten(r), Lighten(g), Lighten(b));
  }

  /** The initial primary colour is well formed: "#ff4c4c" is (255, 76, 76). */
  lemma {:induction false} InitialPrimaryIsHex()
    ensures Initial.primary == HexColour(255, 76, 76) && Initial.tertiary == HexColour(204, 51, 51)
  {
  }
}
