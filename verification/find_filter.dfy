/**
 * The find bar's dropdown and its filter, `FindBar.showDropDown` and
 * `FindBar.inputChange` (src/addons/addons/find-bar/userscript.js). The dropdown rows
 * are reduced to their item, whether they are displayed, and their rendered label; a
 * row is named by its position in the current list.
 */
module FindFilter {
  import opened Wrappers
  import opened JsStrings
  import opened Categories
  import opened BlockItems
  import opened Carousels
  import opened CrossRefs
  import opened Dropdowns

  /** A row's content: the plain label, or the label cut around the match with the match in bold. */
  datatype Label = Plain(text: string) | Highlighted(pre: string, bold: string, post: string)

  datatype Row = Row(item: BlockItem, shown: bool, content: Label)

  /**
   * `visible` is the dropdown's "visible" class; `prevValue` is the last query filtered
   * for (null forces a refilter); `dropdown` holds the selected row and the carousel.
   */
  datatype FindBar = FindBar(visible: bool, prevValue: Option<string>, rows: seq<Row>, dropdown: Dropdown)

  /** JavaScript truthiness of the focus id argument. */
  predicate Truthy(focus: Option<string>) {
    focus.Some? && focus.value != ""
  }

  /** The positions of the items that stand for `id`, in increasing order. */
  function MatchingRows(items: seq<BlockItem>, id: string, from: nat): (ks: seq<nat>)
    requires from <= |items|
    ensures forall k :: k in ks <==> from <= k < |items| && Represents(items[k], id)
    ensures forall a, b :: 0 <= a < b < |ks| ==> ks[a] < ks[b]
    ensures forall a :: 0 <= a < |ks| ==> from <= ks[a]
    decreases |items| - from
  {
    if from == |items| then []
    else if Represents(items[from], id) then [from] + MatchingRows(items, id, from + 1)
    else MatchingRows(items, id, from + 1)
  }

  /**
   * `showDropDown(focusID)`. Without a focus id an open dropdown is left alone. Otherwise
   * the rows are rebuilt from the index (empty off the code tab) with plain labels:
   * the old rows are dropped with the selection and with the carousel hanging in one of
   * them. With a focus id only the rows standing for it stay displayed, and their
   * positions are returned as the rows `onItemClick` is called for.
   */
  function ShowDropDown(fb: FindBar, index: seq<BlockItem>, codeTab: bool, focus: Option<string>): (r: (FindBar, seq<nat>))
    ensures !Truthy(focus) && fb.visible ==> r == (fb, [])
    ensures !(!Truthy(focus) && fb.visible) ==>
              && r.0.visible
              && r.0.prevValue == (if Truthy(focus) then Some("") else None)
              && r.0.dropdown == Dropdown(None, Orphan(fb.dropdown.carousel))
              && |r.0.rows| == (if codeTab then |index| else 0)
              && forall k :: 0 <= k < |r.0.rows| ==>
                   && r.0.rows[k].item == index[k]
                   && r.0.rows[k].content == Plain(index[k].procCode)
                   && (r.0.rows[k].shown <==> !Truthy(focus) || Represents(index[k], focus.value))
    ensures forall k: nat :: k in r.1 <==> Truthy(focus) && codeTab && k < |index| && Represents(index[k], focus.value)
  {
    if !Truthy(focus) && fb.visible then (fb, [])
    else
      var items := if codeTab then index else [];
      var rows := seq(|items|, k requires 0 <= k < |items| =>
        Row(items[k], !Truthy(focus) || Represents(items[k], focus.value), Plain(items[k].procCode)));
      var clicked := if Truthy(focus) then MatchingRows(items, focus.value, 0) else [];
      (FindBar(true, if Truthy(focus) then Some("") else None, rows, Dropdown(None, Orphan(fb.dropdown.carousel))), clicked)
  }

  /** `procCode.substring(0, i)` for a non-negative `i`. */
  function Prefix(s: string, i: nat): string {
    s[..Min(i, |s|)]
  }

  /** The three pieces a displayed row is cut into for a match of length `n` at `i`. */
  function Cut(procCode: string, i: nat, n: nat): Label {
    Highlighted(Prefix(procCode, i), Substr(procCode, i, n),
                if i + n < |procCode| then procCode[i + n..] else "")
  }

  /**
   * One row of the filter loop: a row whose key contains the query is displayed, cut
   * around the first match when the query is not empty and plain otherwise; any other
   * row is hidden and keeps what it showed.
   */
  function FilterRow(row: Row, val: string): (r: Row)
    ensures r.item == row.item
    ensures r.shown <==> Contains(row.item.lower, val)
    ensures !r.shown ==> r.content == row.content
    ensures r.shown && |val| == 0 ==> r.content == Plain(row.item.procCode)
  {
    var i := IndexOf(row.item.lower, val);
    if i >= 0 then
      Row(row.item, true, if |val| > 0 then Cut(row.item.procCode, i, |val|) else Plain(row.item.procCode))
    else row.(shown := false)
  }

  /**
   * Refiltering replaces the children of every row it displays, so a carousel hanging in
   * a displayed row is taken out of it; one in a hidden row stays.
   */
  function Rerendered(c: Carousel, rows: seq<Row>): (r: Carousel)
    ensures c.el.AttachedTo? && c.el.row < |rows| && rows[c.el.row].shown ==> r == Orphan(c)
    ensures !(c.el.AttachedTo? && c.el.row < |rows| && rows[c.el.row].shown) ==> r == c
  {
    if c.el.AttachedTo? && c.el.row < |rows| && rows[c.el.row].shown then Orphan(c) else c
  }

  /**
   * `inputChange()`: open the dropdown if needed, lower the query, and refilter every
   * row unless the query is the one last filtered for.
   */
  function InputChange(fb: FindBar, index: seq<BlockItem>, codeTab: bool, value: string): (r: FindBar)
    ensures r.visible && r.prevValue == Some(Lower(value))
    ensures var bar := ShowDropDown(fb, index, codeTab, None).0;
            && |r.rows| == |bar.rows|
            && (bar.prevValue == Some(Lower(value)) ==> r == bar)
            && (bar.prevValue != Some(Lower(value)) ==>
                  && (forall k :: 0 <= k < |r.rows| ==> r.rows[k] == FilterRow(bar.rows[k], Lower(value)))
                  && r.dropdown.selected == bar.dropdown.selected
                  && r.dropdown.carousel.blocks == bar.dropdown.carousel.blocks
                  && r.dropdown.carousel.idx == bar.dropdown.carousel.idx
                  && (r.dropdown.carousel.el.AttachedTo? <==>
                        bar.dropdown.carousel.el.AttachedTo? &&
                        !(bar.dropdown.carousel.el.row < |r.rows| && r.rows[bar.dropdown.carousel.el.row].shown))
                  && (r.dropdown.carousel.el.AttachedTo? ==> r.dropdown.carousel.el == bar.dropdown.carousel.el))
  {
    var bar := ShowDropDown(fb, index, codeTab, None).0;
    var val := Lower(value);
    if bar.prevValue == Some(val) then bar
    else
      var rows := seq(|bar.rows|, k requires 0 <= k < |bar.rows| => FilterRow(bar.rows[k], val));
      bar.(prevValue := Some(val), rows := rows,
           dropdown := bar.dropdown.(carousel := Rerendered(bar.dropdown.carousel, rows)))
  }

  /** Typing the same query again changes nothing. */
  lemma {:induction false} InputChangeIdempotent(fb: FindBar, index: seq<BlockItem>, codeTab: bool, value: string)
    ensures InputChange(InputChange(fb, index, codeTab, value), index, codeTab, value) == InputChange(fb, index, codeTab, value)
  {
  }

  /**
   * After a query that differs from the last one, a row is displayed exactly when its
   * key contains the lowered query, and the rows are the index's items in order.
   */
  lemma {:induction false} InputChangeShowsMatches(fb: FindBar, index: seq<BlockItem>, codeTab: bool, value: string, k: nat)
    requires ShowDropDown(fb, index, codeTab, None).0.prevValue != Some(Lower(value))
    requires k < |InputChange(fb, index, codeTab, value).rows|
    ensures var row := InputChange(fb, index, codeTab, value).rows[k];
            row.item == ShowDropDown(fb, index, codeTab, None).0.rows[k].item &&
            (row.shown <==> Contains(row.item.lower, Lower(value)))
  {
  }

  /** Opening a closed dropdown and typing lists the whole index, in order, filtered. */
  lemma {:induction false} OpenAndType(fb: FindBar, index: seq<BlockItem>, value: string, k: nat)
    requires !fb.visible && k < |index|
    ensures var r := InputChange(fb, index, true, value);
            |r.rows| == |index| && r.rows[k].item == index[k] &&
            (r.rows[k].shown <==> Contains(index[k].lower, Lower(value)))
  {
  }

  /** The empty query displays every row with its plain label. */
  lemma {:induction false} EmptyQueryShowsAll(fb: FindBar, index: seq<BlockItem>, codeTab: bool, k: nat)
    requires ShowDropDown(fb, index, codeTab, None).0.prevValue != Some("")
    requires k < |InputChange(fb, index, codeTab, "").rows|
    ensures InputChange(fb, index, codeTab, "").rows[k].shown
    ensures InputChange(fb, index, codeTab, "").rows[k].content == Plain(InputChange(fb, index, codeTab, "").rows[k].item.procCode)
  {
    assert Lower("") == "";
    var row := ShowDropDown(fb, index, codeTab, None).0.rows[k];
    assert OccursAt(row.item.lower, "", 0);
  }

  /**
   * With the corrected click, a focus request that passes the block
   * (`showDropDown(id, block)`: the variable and broadcast shift-clicks) and clicks a
   * row standing for the block scrolls to that block, whatever the
   * dropdown held before: rebuilding the rows took the carousel out of its row, so a
   * repeated request for the same block starts a fresh carousel at the block instead of
   * stepping past it.
   */
  lemma {:induction false} FocusRequestFocusesBlock(fb: FindBar, index: seq<BlockItem>, id: string, k: nat, ws: Workspace)
    requires Valid(fb.dropdown.carousel) && id != ""
    requires k in ShowDropDown(fb, index, true, Some(id)).1
    requires !IsVariableCategory(index[k].cls) && index[k].cls != Define && !(index[k].cls == Receive && index[k].eventName.Some?)
    ensures var bar := ShowDropDown(fb, index, true, Some(id)).0;
            OnItemClick(bar.dropdown, k, index[k], Some(id), ws).1 == Focus(Some(id))
  {
    var bar := ShowDropDown(fb, index, true, Some(id)).0;
    assert Represents(index[k], id);
    assert !bar.dropdown.carousel.el.AttachedTo?;
  }

  /**
   * With the corrected click, the same for an entry that carries a message name: the
   * click starts the carousel at the requesting block whenever that block is among the
   * message's uses. The built index never holds such an entry (the only assignment of a
   * message name is commented out), so this is the behaviour that assignment intended.
   */
  lemma {:induction false} FocusRequestFocusesMessageUse(fb: FindBar, index: seq<BlockItem>, id: string, k: nat, ws: Workspace)
    requires Valid(fb.dropdown.carousel) && id != ""
    requires k in ShowDropDown(fb, index, true, Some(id)).1
    requires index[k].cls == Receive && index[k].eventName.Some?
    requires id in BlockIds(EventsByName(ws.targets, index[k].eventName, ws.complex))
    ensures var bar := ShowDropDown(fb, index, true, Some(id)).0;
            OnItemClick(bar.dropdown, k, index[k], Some(id), ws).1 == Focus(Some(id))
  {
    var bar := ShowDropDown(fb, index, true, Some(id)).0;
    assert !bar.dropdown.carousel.el.AttachedTo?;
  }

  /**
   * As written, the same holds for a request that passes the block and clicks an entry
   * that is not a variable, a definition, a sound block or a receive entry, again for
   * any prior state of the dropdown.
   */
  lemma {:induction false} FocusRequestAsWrittenFocusesBlock(fb: FindBar, index: seq<BlockItem>, id: string, k: nat, ws: Workspace)
    requires Valid(fb.dropdown.carousel) && id != ""
    requires k in ShowDropDown(fb, index, true, Some(id)).1
    requires !IsVariableCategory(index[k].cls) && index[k].cls != Define && index[k].cls != Sound && index[k].cls != Receive
    ensures var bar := ShowDropDown(fb, index, true, Some(id)).0;
            OnItemClickAsWritten(bar.dropdown, k, index[k], Some(id), ws).1 == Focus(Some(id))
  {
    var bar := ShowDropDown(fb, index, true, Some(id)).0;
    assert Represents(index[k], id);
    assert !bar.dropdown.carousel.el.AttachedTo?;
  }

  /**
   * As written, a focus request from a "when I receive" hat focuses nothing: the row it
   * clicks is a receive entry without a message name, which resolves to no block.
   */
  lemma {:induction false} ReceiveRequestAsWrittenFocusesNothing(fb: FindBar, index: seq<BlockItem>, id: string, k: nat, ws: Workspace)
    requires Valid(fb.dropdown.carousel) && id != ""
    requires k in ShowDropDown(fb, index, true, Some(id)).1
    requires index[k].cls == Receive && index[k].eventName.None?
    ensures var bar := ShowDropDown(fb, index, true, Some(id)).0;
            OnItemClickAsWritten(bar.dropdown, k, index[k], Some(id), ws).1 == Focus(None)
  {
    var bar := ShowDropDown(fb, index, true, Some(id)).0;
    NullNameFindsNothing(ws.targets, ws.complex);
    assert !bar.dropdown.carousel.el.AttachedTo?;
  }

  /**
   * A request that passes no block (`showDropDown(id)`: the custom-block shift-click)
   * starts at the entry's first occurrence, in both clicks: a later call of a custom
   * block, listed as a clone of the first, scrolls to the first call and not to itself.
   */
  lemma {:induction false} BlocklessRequestFocusesFirst(fb: FindBar, index: seq<BlockItem>, id: string, k: nat, ws: Workspace)
    requires Valid(fb.dropdown.carousel) && id != ""
    requires k in ShowDropDown(fb, index, true, Some(id)).1
    requires !IsVariableCategory(index[k].cls) && index[k].cls != Define && index[k].cls != Sound && index[k].cls != Receive
    ensures var bar := ShowDropDown(fb, index, true, Some(id)).0;
            && OnItemClickAsWritten(bar.dropdown, k, index[k], None, ws).1 == Focus(Some(index[k].labelID))
            && OnItemClick(bar.dropdown, k, index[k], None, ws).1 == Focus(Some(index[k].labelID))
    ensures id != index[k].labelID ==>
              OnItemClickAsWritten(ShowDropDown(fb, index, true, Some(id)).0.dropdown, k, index[k], None, ws).1 != Focus(Some(id))
  {
    var bar := ShowDropDown(fb, index, true, Some(id)).0;
    assert !bar.dropdown.carousel.el.AttachedTo?;
  }

  /** An item's search key is its label lowered, as every constructed item's is. */
  predicate WellFormed(item: BlockItem) {
    item.lower == Lower(item.procCode)
  }

  /** Cutting at a match that lies inside the label loses nothing. */
  lemma {:induction false} CutReassembles(p: string, i: nat, n: nat)
    requires i + n <= |p|
    ensures Cut(p, i, n).pre == p[..i] && Cut(p, i, n).bold == p[i..i + n]
    ensures Cut(p, i, n).pre + Cut(p, i, n).bold + Cut(p, i, n).post == p
  {
    if i + n < |p| {
      assert p == p[..i] + p[i..i + n] + p[i + n..];
    } else {
      assert p == p[..i] + p[i..i + n];
    }
  }

  /**
   * The highlight of a displayed row reassembles the label: the plain piece before the
   * first match, the bold match, which lowers to the query, and the rest.
   */
  lemma {:induction false} HighlightReassembles(row: Row, val: string)
    requires WellFormed(row.item) && |val| > 0 && Contains(row.item.lower, val)
    ensures FilterRow(row, val).content.Highlighted?
    ensures var l := FilterRow(row, val).content;
            && l.pre + l.bold + l.post == row.item.procCode
            && Lower(l.bold) == val
            && |l.pre| == IndexOf(row.item.lower, val)
            && forall j :: 0 <= j < |l.pre| ==> !OccursAt(row.item.lower, val, j)
  {
    var p := row.item.procCode;
    var i := IndexOf(row.item.lower, val);
    assert FilterRow(row, val).content == Cut(p, i, |val|);
    CutReassembles(p, i, |val|);
    LowerSlice(p, i, i + |val|);
  }
}
