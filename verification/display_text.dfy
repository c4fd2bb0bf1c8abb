/**
 * `getBlockDisplayText` (src/addons/addons/find-bar/userscript.js): the label a
 * block gets in the find bar.
 */
module DisplayText {
  import opened Wrappers
  import opened JsStrings
  import opened Host

  const VariableLabelPrefix: string := "变量 "
  const IfLabel: string := "如果...那么"
  const IfElseLabel: string := "如果...那么...否则"
  const RepeatLabel: string := "重复执行"

  predicate IsVariableBlockType(t: string) {
    t == "data_variable" || t == "data_changevariableby" || t == "data_setvariableto"
  }

  predicate IsPlaceholderLetter(c: char) {
    c == 's' || c == 'b' || c == 'n' || c == 'd'
  }

  /**
   * `procCode.replace(/%[sbnd]/g, '')`: scanning left to right, every `%` followed by
   * one of s, b, n, d is deleted together with that letter.
   */
  function StripPlaceholders(s: string): (r: string)
    ensures |r| <= |s| && (|s| - |r|) % 2 == 0
  {
    if |s| >= 2 && s[0] == '%' && IsPlaceholderLetter(s[1]) then StripPlaceholders(s[2..])
    else if |s| == 0 then []
    else [s[0]] + StripPlaceholders(s[1..])
  }

  /**
   * Only placeholders are deleted: every character other than `%`, s, b, n, d keeps its
   * count, and a proc code without `%` is its own label.
   */
  lemma {:induction false} StripKeepsOtherCharacters(s: string)
    ensures '%' !in s ==> StripPlaceholders(s) == s
    ensures forall c :: c != '%' && !IsPlaceholderLetter(c) ==> multiset(StripPlaceholders(s))[c] == multiset(s)[c]
    decreases |s|
  {
    if |s| >= 2 && s[0] == '%' && IsPlaceholderLetter(s[1]) {
      StripKeepsOtherCharacters(s[2..]);
      assert s == [s[0], s[1]] + s[2..];
    } else if |s| > 0 {
      StripKeepsOtherCharacters(s[1..]);
      assert s == [s[0]] + s[1..];
    }
  }

  /** Stripping works piecewise when the second part cannot complete a `%` the first part ends with. */
  lemma {:induction false} StripConcat(a: string, c: string)
    requires |c| == 0 || !IsPlaceholderLetter(c[0])
    ensures StripPlaceholders(a + c) == StripPlaceholders(a) + StripPlaceholders(c)
    decreases |a|
  {
    if |a| == 0 {
      assert a + c == c;
    } else if |a| >= 2 && a[0] == '%' && IsPlaceholderLetter(a[1]) {
      assert (a + c)[2..] == a[2..] + c;
      StripConcat(a[2..], c);
    } else if |a| == 1 {
      assert (a + c)[1..] == c;
      assert StripPlaceholders(a) == [a[0]];
    } else {
      assert (a + c)[1..] == a[1..] + c;
      StripConcat(a[1..], c);
    }
  }

  /** Which placeholder sits in a slot does not change the label: "move %n steps" and "move %s steps" agree. */
  lemma {:induction false} PlaceholderKindIrrelevant(a: string, c: string, k1: char, k2: char)
    requires IsPlaceholderLetter(k1) && IsPlaceholderLetter(k2)
    ensures StripPlaceholders(a + ['%', k1] + c) == StripPlaceholders(a + ['%', k2] + c)
    ensures StripPlaceholders(a + ['%', k1] + c) == StripPlaceholders(a) + StripPlaceholders(c)
  {
    assert a + ['%', k1] + c == a + (['%', k1] + c);
    assert a + ['%', k2] + c == a + (['%', k2] + c);
    StripConcat(a, ['%', k1] + c);
    StripConcat(a, ['%', k2] + c);
    assert (['%', k1] + c)[2..] == c && (['%', k2] + c)[2..] == c;
  }

  /** Deleting one placeholder can join a new one: the result may still contain "%s". */
  lemma {:induction false} StripCanExposePlaceholder()
    ensures StripPlaceholders("%%ss") == "%s"
  {
    assert "%%ss"[1..] == "%ss";
    assert "%ss"[2..] == "s";
  }

  /** The toString() fallback: the text before the first '[' (trimmed) when there is such a prefix. */
  function ToStringLabel(text: string): (r: string)
    ensures IndexOf(text, "[") > 0 ==> r == Trim(text[..IndexOf(text, "[")])
    ensures IndexOf(text, "[") <= 0 ==> r == text
  {
    var i := IndexOf(text, "[");
    if i > 0 then Trim(text[..i]) else text
  }

  /** A variable block whose first variable the workspace knows; any other block falls through. */
  predicate HasNamedVariable(b: Block, names: map<string, string>) {
    IsVariableBlockType(b.blockType) && |b.vars| > 0 && b.vars[0] in names
  }

  /**
   * `getBlockDisplayText(block)`; `names` is the workspace's variable-id-to-name lookup. A
   * variable block without a known first variable is labelled like any other block.
   */
  function BlockDisplayText(b: Block, names: map<string, string>): (r: string)
    ensures HasNamedVariable(b, names) ==> r == VariableLabelPrefix + names[b.vars[0]]
    ensures b.blockType == "control_if" ==> r == IfLabel
    ensures b.blockType == "control_if_else" ==> r == IfElseLabel
    ensures b.blockType == "control_repeat" || b.blockType == "control_forever" ==> r == RepeatLabel
    ensures !HasNamedVariable(b, names) && !IsFixedLabelType(b.blockType) && b.procCode.Some? ==>
              r == Trim(StripPlaceholders(b.procCode.value))
    ensures !HasNamedVariable(b, names) && !IsFixedLabelType(b.blockType) && b.procCode.None? ==>
              r == ToStringLabel(b.text)
  {
    if HasNamedVariable(b, names) then
      VariableLabelPrefix + names[b.vars[0]]
    else if b.blockType == "control_if" then IfLabel
    else if b.blockType == "control_if_else" then IfElseLabel
    else if b.blockType == "control_repeat" then RepeatLabel
    else if b.blockType == "control_forever" then RepeatLabel
    else
      match b.procCode
      case Some(p) => Trim(StripPlaceholders(p))
      case None => ToStringLabel(b.text)
  }

  predicate IsFixedLabelType(t: string) {
    t == "control_if" || t == "control_if_else" || t == "control_repeat" || t == "control_forever"
  }

  /**
   * Two blocks of an ordinary type whose proc codes differ only in the kind of one
   * placeholder get the same label, so the index merges them.
   */
  lemma {:induction false} SameLabelUpToPlaceholder(b1: Block, b2: Block, names: map<string, string>, a: string, c: string, k1: char, k2: char)
    requires b1.blockType == b2.blockType && !IsVariableBlockType(b1.blockType) && !IsFixedLabelType(b1.blockType)
    requires IsPlaceholderLetter(k1) && IsPlaceholderLetter(k2)
    requires b1.procCode == Some(a + ['%', k1] + c) && b2.procCode == Some(a + ['%', k2] + c)
    ensures BlockDisplayText(b1, names) == BlockDisplayText(b2, names)
  {
    PlaceholderKindIrrelevant(a, c, k1, k2);
  }
}
