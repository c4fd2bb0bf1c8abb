/**
 * `Dropdown.onItemClick` (src/addons/addons/find-bar/userscript.js): selecting a row
 * and sending the editor to the blocks its item stands for, through the carousel or by
 * scrolling one block into view.
 */
module Dropdowns {
  import opened Wrappers
  import opened Categories
  import opened BlockItems
  import opened Host
  import opened Carousels
  import opened CrossRefs

  /** The row marked "sel", and the carousel. */
  datatype Dropdown = Dropdown(selected: Option<RowRef>, carousel: Carousel)

  /** What the host supplies: the workspace, the VM targets and the localised "complex broadcast" text. */
  datatype Workspace = Workspace(
    blocks: seq<Block>,            // descendants of the top blocks, in traversal order
    byId: map<string, Block>,      // getBlockById
    targets: seq<Target>,
    editingTarget: string,         // id of the sprite being edited
    complex: string)

  /** What a click asks of the editor. */
  datatype Effect =
    | Focus(id: Option<string>)    // scroll this block into view (None: nothing to scroll to)
    | Idle                         // nothing beyond selecting the row
    | Throws                       // the handler ends in a TypeError

  predicate IsVariableCategory(c: Category) {
    c == VarLocal || c == VarGlobal || c == ListLocal || c == ListGlobal
  }

  /** The block ids of the event instances. */
  function BlockIds(instances: seq<Instance>): (ids: seq<string>)
    ensures |ids| == |instances| && forall k :: 0 <= k < |ids| ==> ids[k] == instances[k].blockId
  {
    seq(|instances|, k requires 0 <= k < |instances| => instances[k].blockId)
  }

  /** The first instance on the edited sprite, where the receive branch starts when no block was clicked. */
  function FirstOnTarget(instances: seq<Instance>, targetId: string): (r: Option<string>)
    ensures r.Some? ==> exists k :: 0 <= k < |instances| && instances[k].targetId == targetId && instances[k].blockId == r.value &&
                                   forall j :: 0 <= j < k ==> instances[j].targetId != targetId
    ensures r.None? ==> forall k :: 0 <= k < |instances| ==> instances[k].targetId != targetId
  {
    if |instances| == 0 then None
    else if instances[0].targetId == targetId then Some(instances[0].blockId)
    else
      var r := FirstOnTarget(instances[1..], targetId);
      if r.Some? then
        var k :| 0 <= k < |instances| - 1 && instances[1..][k].targetId == targetId && instances[1..][k].blockId == r.value &&
                 forall j :: 0 <= j < k ==> instances[1..][j].targetId != targetId;
        assert forall j :: 0 <= j < k + 1 ==> instances[j].targetId != targetId by {
          forall j | 0 <= j < k + 1 ensures instances[j].targetId != targetId {
            if j > 0 {
              assert instances[j] == instances[1..][j - 1];
            }
          }
        }
        r
      else r
  }

  /** Hands the blocks to the carousel on `row`. */
  function ToCarousel(dd: Dropdown, row: RowRef, blocks: seq<string>, instance: Option<string>): (r: (Dropdown, Effect))
    requires Valid(dd.carousel)
    ensures Valid(r.0.carousel) && r.0.selected == dd.selected
  {
    var (c, focus) := Build(dd.carousel, row, blocks, instance);
    (dd.(carousel := c), Focus(focus))
  }

  /**
   * `onItemClick(item, instanceBlock)` as written. The "sound" branch looks for the asset
   * panel, which is mounted only while the costume or sound tab is shown; the rows are
   * listed on the code tab only, so that branch finds no panel and does nothing.
   */
  function OnItemClickAsWritten(dd: Dropdown, row: RowRef, item: BlockItem, instance: Option<string>, ws: Workspace): (r: (Dropdown, Effect))
    requires Valid(dd.carousel)
    ensures Valid(r.0.carousel) && r.0.selected == Some(row)
    ensures item.cls == Sound ==> r == (dd.(selected := Some(row)), Idle)
  {
    var sel := dd.(selected := Some(row));
    if item.cls == Sound then (sel, Idle)
    else if IsVariableCategory(item.cls) then
      ToCarousel(sel, row, VariableUses(ws.blocks, item.labelID), instance)
    else if item.cls == Define then
      match ProcedureCalls(ws.byId, ws.blocks, item.labelID)
      case None => (sel, Throws)
      case Some(blocks) => ToCarousel(sel, row, blocks, instance)
    else if item.cls == Receive then
      var found := EventsByName(ws.targets, item.eventName, ws.complex);
      var start := if instance.Some? then instance else FirstOnTarget(found, ws.editingTarget);
      ToCarousel(sel, row, BlockIds(found), start)
    else GoToOccurrences(sel, row, item, instance)
  }

  /** The last two branches: cycle through the occurrences, or scroll to the only one and drop the carousel. */
  function GoToOccurrences(dd: Dropdown, row: RowRef, item: BlockItem, instance: Option<string>): (r: (Dropdown, Effect))
    requires Valid(dd.carousel)
    ensures Valid(r.0.carousel) && r.0.selected == dd.selected
    ensures item.clones.None? ==> r == (dd.(carousel := Remove(dd.carousel)), Focus(Some(item.labelID)))
    ensures item.clones.Some? ==> r == ToCarousel(dd, row, Occurrences(item), instance)
  {
    if item.clones.Some? then ToCarousel(dd, row, [item.labelID] + item.clones.value, instance)
    else (dd.(carousel := Remove(dd.carousel)), Focus(Some(item.labelID)))
  }

  /**
   * `onItemClick` with the two dead ends routed to the occurrences: a sound block of the
   * code tab is not a sound asset, and a receive entry without a message name has no
   * broadcasts to resolve.
   */
  function OnItemClick(dd: Dropdown, row: RowRef, item: BlockItem, instance: Option<string>, ws: Workspace): (r: (Dropdown, Effect))
    requires Valid(dd.carousel)
    ensures Valid(r.0.carousel) && r.0.selected == Some(row)
    ensures item.cls == Sound || (item.cls == Receive && item.eventName.None?) ==>
              r == GoToOccurrences(dd.(selected := Some(row)), row, item, instance)
    ensures item.cls != Sound && !(item.cls == Receive && item.eventName.None?) ==>
              r == OnItemClickAsWritten(dd, row, item, instance, ws)
  {
    if item.cls == Sound || (item.cls == Receive && item.eventName.None?) then
      GoToOccurrences(dd.(selected := Some(row)), row, item, instance)
    else OnItemClickAsWritten(dd, row, item, instance, ws)
  }

  /**
   * With the corrected click, a click on an entry that is not a variable, a definition or
   * a named receive, on a row that does not hold the carousel, scrolls to a block the
   * entry stands for.
   */
  lemma {:induction false} ClickFocusesOccurrence(dd: Dropdown, row: RowRef, item: BlockItem, instance: Option<string>, ws: Workspace)
    requires Valid(dd.carousel) && dd.carousel.el != AttachedTo(row)
    requires !IsVariableCategory(item.cls) && item.cls != Define && !(item.cls == Receive && item.eventName.Some?)
    ensures var (_, effect) := OnItemClick(dd, row, item, instance, ws);
            effect.Focus? && effect.id.Some? && Represents(item, effect.id.value)
  {
  }

  /**
   * As written, the same holds for entries that are also neither sound blocks nor
   * receive entries; those two only select the row or resolve to no block.
   */
  lemma {:induction false} ClickAsWrittenFocusesOccurrence(dd: Dropdown, row: RowRef, item: BlockItem, instance: Option<string>, ws: Workspace)
    requires Valid(dd.carousel) && dd.carousel.el != AttachedTo(row)
    requires !IsVariableCategory(item.cls) && item.cls != Define && item.cls != Sound && item.cls != Receive
    ensures var (_, effect) := OnItemClickAsWritten(dd, row, item, instance, ws);
            effect.Focus? && effect.id.Some? && Represents(item, effect.id.value)
  {
  }

  /** A click on a variable entry that leads anywhere leads to a block using the variable. */
  lemma {:induction false} VariableClickFocusesUse(dd: Dropdown, row: RowRef, item: BlockItem, instance: Option<string>, ws: Workspace)
    requires Valid(dd.carousel) && dd.carousel.el != AttachedTo(row) && IsVariableCategory(item.cls)
    ensures var (_, effect) := OnItemClick(dd, row, item, instance, ws);
            effect.Focus? && (effect.id.Some? ==> exists b :: b in ws.blocks && item.labelID in b.vars && b.id == effect.id.value)
  {
    var uses := VariableUses(ws.blocks, item.labelID);
    var (c, focus) := Build(dd.carousel, row, uses, instance);
    if focus.Some? {
      assert focus.value in uses;
    }
  }

  /** As written, a click on a sound block's entry only selects the row and never reaches the block. */
  lemma {:induction false} SoundEntryAsWritten(dd: Dropdown, row: RowRef, item: BlockItem, instance: Option<string>, ws: Workspace)
    requires Valid(dd.carousel) && item.cls == Sound && item.clones.None?
    ensures OnItemClickAsWritten(dd, row, item, instance, ws).1 == Idle
    ensures OnItemClickAsWritten(dd, row, item, instance, ws).0.carousel == dd.carousel
    ensures OnItemClick(dd, row, item, instance, ws).1 == Focus(Some(item.labelID))
  {
  }

  /** As written, a receive entry, whose message name is always null, resolves to no block. */
  lemma {:induction false} ReceiveEntryAsWritten(dd: Dropdown, row: RowRef, item: BlockItem, instance: Option<string>, ws: Workspace)
    requires Valid(dd.carousel) && dd.carousel.el != AttachedTo(row)
    requires item.cls == Receive && item.eventName.None? && item.clones.None?
    ensures OnItemClickAsWritten(dd, row, item, instance, ws).1 == Focus(None)
    ensures OnItemClickAsWritten(dd, row, item, instance, ws).0.carousel.blocks == []
    ensures OnItemClick(dd, row, item, instance, ws).1 == Focus(Some(item.labelID))
  {
    NullNameFindsNothing(ws.targets, ws.complex);
  }
}
