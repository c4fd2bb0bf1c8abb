/**
 * Block categories of the find bar: the classifier `getBlockCategory` and the
 * sort rank table `clsOrder` (src/addons/addons/find-bar/userscript.js).
 */
module Categories {
  import opened JsStrings

  /** The `cls` values an index entry can carry on the code tab. */
  datatype Category =
    | Flag | Receive | Event | Define
    | VarLocal | VarGlobal | ListLocal | ListGlobal
    | Motion | Looks | Sound | Control | Sensing | Operator | Data | Extension | Other
  {
    /** The string the source stores in `BlockItem.cls`. */
    function Name(): string {
      match this
      case Flag => "flag"
      case Receive => "receive"
      case Event => "event"
      case Define => "define"
      case VarLocal => "var"
      case VarGlobal => "VAR"
      case ListLocal => "list"
      case ListGlobal => "LIST"
      case Motion => "motion"
      case Looks => "looks"
      case Sound => "sound"
      case Control => "control"
      case Sensing => "sensing"
      case Operator => "operator"
      case Data => "data"
      case Extension => "extension"
      case Other => "other"
    }
  }

  /** The source's `clsOrder` table, keyed by `cls` string. */
  const ClsOrder: map<string, int> := map[
    "flag" := 0, "receive" := 1, "event" := 2, "define" := 3,
    "var" := 4, "VAR" := 5, "list" := 6, "LIST" := 7,
    "motion" := 8, "looks" := 9, "sound" := 10, "control" := 11,
    "sensing" := 12, "operator" := 13, "data" := 14, "extension" := 15,
    "other" := 16
  ]

  /** `clsOrder[c]`, written per category; `RankIsClsOrder` ties it to the table. */
  function Rank(c: Category): (n: int)
    ensures 0 <= n <= 16
  {
    match c
    case Flag => 0
    case Receive => 1
    case Event => 2
    case Define => 3
    case VarLocal => 4
    case VarGlobal => 5
    case ListLocal => 6
    case ListGlobal => 7
    case Motion => 8
    case Looks => 9
    case Sound => 10
    case Control => 11
    case Sensing => 12
    case Operator => 13
    case Data => 14
    case Extension => 15
    case Other => 16
  }

  /**
   * Every category has a `clsOrder` entry, so the sort comparator never subtracts
   * `undefined`, and the entry is the category's rank.
   */
  lemma {:induction false} RankIsClsOrder(c: Category)
    ensures c.Name() in ClsOrder && ClsOrder[c.Name()] == Rank(c)
  {
    match c
    case Flag => case Receive => case Event => case Define =>
    case VarLocal => case VarGlobal => case ListLocal => case ListGlobal =>
    case Motion => case Looks => case Sound => case Control =>
    case Sensing => case Operator => case Data => case Extension => case Other =>
  }

  /** The category a rank belongs to. */
  function OfRank(n: int): (c: Category)
    requires 0 <= n <= 16
    ensures Rank(c) == n
  {
    if n == 0 then Flag else if n == 1 then Receive else if n == 2 then Event else if n == 3 then Define
    else if n == 4 then VarLocal else if n == 5 then VarGlobal else if n == 6 then ListLocal
    else if n == 7 then ListGlobal else if n == 8 then Motion else if n == 9 then Looks
    else if n == 10 then Sound else if n == 11 then Control else if n == 12 then Sensing
    else if n == 13 then Operator else if n == 14 then Data else if n == 15 then Extension else Other
  }

  /** Distinct categories have distinct ranks: the rank orders categories totally. */
  lemma {:induction false} RankInjective(a: Category, b: Category)
    ensures Rank(a) == Rank(b) ==> a == b
  {
    RankInverse(a);
    RankInverse(b);
  }

  lemma {:induction false} RankInverse(c: Category)
    ensures OfRank(Rank(c)) == c
  {
    match c
    case Flag => case Receive => case Event => case Define =>
    case VarLocal => case VarGlobal => case ListLocal => case ListGlobal =>
    case Motion => case Looks => case Sound => case Control =>
    case Sensing => case Operator => case Data => case Extension => case Other =>
  }

  /** The five extension prefixes the classifier maps to "extension". */
  predicate HasExtensionPrefix(t: string) {
    || StartsWith(t, "argument_") || StartsWith(t, "text2speech_")
    || StartsWith(t, "music_") || StartsWith(t, "videoSensing_")
    || StartsWith(t, "pen_")
  }

  /** The other prefixes the classifier tests, in the order it tests them. */
  predicate HasBuiltinPrefix(t: string) {
    || StartsWith(t, "event_when") || StartsWith(t, "motion_") || StartsWith(t, "looks_")
    || StartsWith(t, "sound_") || StartsWith(t, "control_") || StartsWith(t, "sensing_")
    || StartsWith(t, "operator_") || StartsWith(t, "data_")
  }

  /** A string that starts with `p` agrees with `p` on its first two characters. */
  lemma {:induction false} StartsWithHead(t: string, p: string)
    requires |p| >= 2 && StartsWith(t, p)
    ensures t[0] == p[0] && t[1] == p[1]
  {
    assert t[..|p|][0] == t[0] && t[..|p|][1] == t[1];
  }

  /** The prefixes the classifier tests exclude one another, apart from the two exact types it tests first. */
  lemma {:induction false} PrefixesDisjoint(t: string)
    ensures StartsWith(t, "motion_") ==> !StartsWith(t, "music_")
    ensures StartsWith(t, "sound_") ==> !StartsWith(t, "sensing_")
    ensures StartsWith(t, "pen_") ==> t != "procedures_definition"
  {
    if StartsWith(t, "motion_") && StartsWith(t, "music_") {
      StartsWithHead(t, "motion_");
      StartsWithHead(t, "music_");
    }
    if StartsWith(t, "sound_") && StartsWith(t, "sensing_") {
      StartsWithHead(t, "sound_");
      StartsWithHead(t, "sensing_");
    }
    assert "procedures_definition"[1] == 'r';
    if StartsWith(t, "pen_") {
      StartsWithHead(t, "pen_");
    }
  }

  /** First characters of the prefixes, enough to tell them apart. */
  lemma {:induction false} PrefixHeads(t: string)
    ensures StartsWith(t, "event_when") ==> t[0] == 'e'
    ensures StartsWith(t, "motion_") ==> t[0] == 'm' && t[1] == 'o'
    ensures StartsWith(t, "looks_") ==> t[0] == 'l'
    ensures StartsWith(t, "sound_") ==> t[0] == 's' && t[1] == 'o'
    ensures StartsWith(t, "control_") ==> t[0] == 'c'
    ensures StartsWith(t, "sensing_") ==> t[0] == 's' && t[1] == 'e'
    ensures StartsWith(t, "operator_") ==> t[0] == 'o'
    ensures StartsWith(t, "data_") ==> t[0] == 'd'
    ensures StartsWith(t, "argument_") ==> t[0] == 'a'
    ensures StartsWith(t, "text2speech_") ==> t[0] == 't'
    ensures StartsWith(t, "music_") ==> t[0] == 'm' && t[1] == 'u'
    ensures StartsWith(t, "videoSensing_") ==> t[0] == 'v'
    ensures StartsWith(t, "pen_") ==> t[0] == 'p' && t[1] == 'e'
  {
    if StartsWith(t, "event_when") { StartsWithHead(t, "event_when"); }
    if StartsWith(t, "motion_") { StartsWithHead(t, "motion_"); }
    if StartsWith(t, "looks_") { StartsWithHead(t, "looks_"); }
    if StartsWith(t, "sound_") { StartsWithHead(t, "sound_"); }
    if StartsWith(t, "control_") { StartsWithHead(t, "control_"); }
    if StartsWith(t, "sensing_") { StartsWithHead(t, "sensing_"); }
    if StartsWith(t, "operator_") { StartsWithHead(t, "operator_"); }
    if StartsWith(t, "data_") { StartsWithHead(t, "data_"); }
    if StartsWith(t, "argument_") { StartsWithHead(t, "argument_"); }
    if StartsWith(t, "text2speech_") { StartsWithHead(t, "text2speech_"); }
    if StartsWith(t, "music_") { StartsWithHead(t, "music_"); }
    if StartsWith(t, "videoSensing_") { StartsWithHead(t, "videoSensing_"); }
    if StartsWith(t, "pen_") { StartsWithHead(t, "pen_"); }
  }

  /**
   * `getBlockCategory(type)`: fixed types and prefixes, first match wins. A missing
   * type is the empty string here (both are falsy in the source). What each category
   * stands for is stated by the lemmas below.
   */
  function BlockCategory(t: string): (c: Category)
    ensures c == Define <==> t == "procedures_definition"
    ensures c == Flag <==> t == "event_whenflagclicked"
    ensures c == Receive <==> t == "event_whenbroadcastreceived"
    ensures c !in {VarLocal, VarGlobal, ListLocal, ListGlobal}
  {
    if t == "" then Other
    else if t == "procedures_definition" then Define
    else if t == "event_whenflagclicked" then Flag
    else if t == "event_whenbroadcastreceived" then Receive
    else if StartsWith(t, "event_when") then Event
    else if t == "control_start_as_clone" then Event
    else if StartsWith(t, "motion_") then Motion
    else if StartsWith(t, "looks_") then Looks
    else if StartsWith(t, "sound_") then Sound
    else if StartsWith(t, "control_") then Control
    else if StartsWith(t, "sensing_") then Sensing
    else if StartsWith(t, "operator_") then Operator
    else if StartsWith(t, "data_") then Data
    else if HasExtensionPrefix(t) then Extension
    else Other
  }

  /** Hat blocks: every "event_when" type other than the flag and receive hats, and the clone hat. */
  lemma {:induction false} EventCategory(t: string)
    ensures BlockCategory(t) == Event <==>
      || (StartsWith(t, "event_when") && t != "event_whenflagclicked" && t != "event_whenbroadcastreceived")
      || t == "control_start_as_clone"
  {
    PrefixHeads(t);
    assert "procedures_definition"[0] == 'p';
  }

  /** The motion, looks, sound and control categories are exactly their prefixes (the clone hat aside). */
  lemma {:induction false} FirstPrefixCategories(t: string)
    ensures BlockCategory(t) == Motion <==> StartsWith(t, "motion_")
    ensures BlockCategory(t) == Looks <==> StartsWith(t, "looks_")
    ensures BlockCategory(t) == Sound <==> StartsWith(t, "sound_")
    ensures BlockCategory(t) == Control <==> StartsWith(t, "control_") && t != "control_start_as_clone"
  {
    PrefixHeads(t);
    assert "procedures_definition"[0] == 'p';
    assert "event_whenflagclicked"[0] == 'e' && "event_whenbroadcastreceived"[0] == 'e';
  }

  /** The sensing, operator and data categories are exactly their prefixes. */
  lemma {:induction false} LaterPrefixCategories(t: string)
    ensures BlockCategory(t) == Sensing <==> StartsWith(t, "sensing_")
    ensures BlockCategory(t) == Operator <==> StartsWith(t, "operator_")
    ensures BlockCategory(t) == Data <==> StartsWith(t, "data_")
  {
    PrefixHeads(t);
    PrefixesDisjoint(t);
    assert "procedures_definition"[0] == 'p';
    assert "event_whenflagclicked"[0] == 'e' && "event_whenbroadcastreceived"[0] == 'e';
    assert "control_start_as_clone"[0] == 'c';
  }

  /** The five extension prefixes make "extension"; a type with no known prefix is "other". */
  lemma {:induction false} ExtensionAndOtherCategories(t: string)
    ensures BlockCategory(t) == Extension <==> HasExtensionPrefix(t)
    ensures BlockCategory(t) == Other <==> t != "procedures_definition" && !HasBuiltinPrefix(t) && !HasExtensionPrefix(t)
  {
    PrefixHeads(t);
    PrefixesDisjoint(t);
    assert "procedures_definition"[0] == 'p';
    assert "event_whenflagclicked"[0] == 'e' && "event_whenbroadcastreceived"[0] == 'e';
    assert "control_start_as_clone"[0] == 'c';
  }
}
