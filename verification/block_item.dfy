/**
 * The find bar's index entry (src/addons/addons/find-bar/blockly/BlockItem.js):
 * one searchable label standing for a first occurrence and its later clones.
 */
module BlockItems {
  import opened Wrappers
  import opened JsStrings
  import opened Categories

  datatype BlockItem = BlockItem(
    cls: Category,
    procCode: string,              // the label shown in the dropdown
    labelID: string,               // id of the first occurrence
    y: Option<int>,                // vertical position of that occurrence; null when it has none
    lower: string,                 // the label lowered, the search key
    clones: Option<seq<string>>,   // ids of later occurrences with the same label, null until one is seen
    eventName: Option<string>,
    colour: Option<string>)

  /** `new BlockItem(cls, procCode, labelID, y, colour)`. */
  function NewItem(cls: Category, procCode: string, labelID: string, y: Option<int>, colour: Option<string>): (item: BlockItem)
    ensures item.lower == Lower(procCode)
    ensures item.cls == cls && item.procCode == procCode && item.labelID == labelID
    ensures item.y == y && item.colour == colour
    ensures item.clones == None && item.eventName == None
  {
    BlockItem(cls, procCode, labelID, y, Lower(procCode), None, None, colour)
  }

  /** The occurrence ids an item stands for, first occurrence first. */
  function Occurrences(item: BlockItem): (ids: seq<string>)
    ensures |ids| >= 1 && ids[0] == item.labelID
  {
    [item.labelID] + item.clones.GetOr([])
  }

  /** The item stands for the occurrence `id`. */
  predicate Represents(item: BlockItem, id: string) {
    id in Occurrences(item)
  }

  /** `matchesID(id)`: the label id first, then the clones in order. */
  method MatchesID(item: BlockItem, id: string) returns (found: bool)
    ensures found <==> id == item.labelID || (item.clones.Some? && id in item.clones.value)
    ensures found <==> Represents(item, id)
  {
    if item.labelID == id {
      return true;
    }
    if item.clones.Some? {
      var cs := item.clones.value;
      var i := 0;
      while i < |cs|
        invariant 0 <= i <= |cs|
        invariant id !in cs[..i]
      {
        if cs[i] == id {
          return true;
        }
        assert cs[..i + 1] == cs[..i] + [cs[i]];
        i := i + 1;
      }
      assert cs[..i] == cs;
    }
    return false;
  }

  /** A fresh item, whose clones are still null, stands only for its own label id. */
  lemma {:induction false} FreshItemRepresentsOnlyLabel(cls: Category, procCode: string, labelID: string, y: Option<int>, colour: Option<string>, id: string)
    ensures Represents(NewItem(cls, procCode, labelID, y, colour), id) <==> id == labelID
  {
  }
}
