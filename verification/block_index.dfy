/**
 * `getAllScratchBlocks` (src/addons/addons/find-bar/userscript.js): the code-tab
 * index. Every workspace block that is not skipped, then every scalar variable, then
 * every list, goes through `addBlock`; the result is sorted for the dropdown.
 */
module BlockIndex {
  import opened Wrappers
  import opened JsStrings
  import opened Categories
  import opened BlockItems
  import opened Host
  import opened DisplayText
  import opened Deduplication
  import opened ItemSort

  /** `/^\d+$/`: a non-empty run of ASCII digits and nothing else. */
  predicate IsNumberLabel(s: string) {
    |s| > 0 && forall k :: 0 <= k < |s| ==> '0' <= s[k] <= '9'
  }

  /** `/^\?+$/`: a non-empty run of question marks and nothing else. */
  predicate IsQuestionLabel(s: string) {
    |s| > 0 && forall k :: 0 <= k < |s| ==> s[k] == '?'
  }

  /** The loop's reasons to pass over a block: no type, the broken id "@", or a label that is an input's value. */
  predicate Skipped(b: Block, names: map<string, string>) {
    || b.blockType == ""
    || b.id == "@"
    || IsNumberLabel(BlockDisplayText(b, names))
    || IsQuestionLabel(BlockDisplayText(b, names))
  }

  /** The `addBlock` call the loop makes for a block it keeps. */
  function BlockEntry(b: Block, names: map<string, string>): (e: Entry)
    ensures e.cls == BlockCategory(b.blockType) && e.txt == BlockDisplayText(b, names)
    ensures e.id == b.id && e.y == b.y && e.colour == b.colour
  {
    Entry(BlockCategory(b.blockType), BlockDisplayText(b, names), b.id, b.y, b.colour)
  }

  /** The entries the block loop produces, in workspace order. */
  function BlockEntries(blocks: seq<Block>, names: map<string, string>): (es: seq<Entry>)
    ensures |es| <= |blocks|
    ensures forall e :: e in es ==> exists b :: b in blocks && !Skipped(b, names) && e == BlockEntry(b, names)
    ensures forall b :: b in blocks && !Skipped(b, names) ==> BlockEntry(b, names) in es
    decreases |blocks|
  {
    if |blocks| == 0 then []
    else
      var rest := BlockEntries(blocks[1..], names);
      assert forall b :: b in blocks <==> b == blocks[0] || b in blocks[1..];
      if Skipped(blocks[0], names) then rest else [BlockEntry(blocks[0], names)] + rest
  }

  /** The loop works block by block: the entries of a block sequence are those of its parts, in order. */
  lemma {:induction false} BlockEntriesConcat(a: seq<Block>, b: seq<Block>, names: map<string, string>)
    ensures BlockEntries(a + b, names) == BlockEntries(a, names) + BlockEntries(b, names)
    decreases |a|
  {
    if |a| == 0 {
      assert a + b == b;
    } else {
      assert (a + b)[1..] == a[1..] + b;
      BlockEntriesConcat(a[1..], b, names);
    }
  }

  /** One block gives its entry, or none when it is skipped. */
  lemma {:induction false} BlockEntriesOne(b: Block, names: map<string, string>)
    ensures BlockEntries([b], names) == if Skipped(b, names) then [] else [BlockEntry(b, names)]
  {
    assert [b][1..] == [];
  }

  /**
   * The entries for the rows of one variable type. `msg` is the add-on's message lookup,
   * called with the message key and the row's name; the rows have no y and no colour.
   */
  function RowEntries(rows: seq<VariableRow>, lists: bool, msg: (string, string) -> string): (es: seq<Entry>)
    ensures |es| == |rows|
    ensures forall i :: 0 <= i < |rows| ==> es[i] == RowEntry(rows[i], lists, msg)
  {
    seq(|rows|, i requires 0 <= i < |rows| => RowEntry(rows[i], lists, msg))
  }

  function RowEntry(row: VariableRow, lists: bool, msg: (string, string) -> string): (e: Entry)
    ensures e.id == row.id && e.y == None && e.colour == None
    ensures e.cls == (if lists then (if row.isLocal then ListLocal else ListGlobal)
                      else (if row.isLocal then VarLocal else VarGlobal))
    ensures e.txt == msg(if lists then (if row.isLocal then "list-local" else "list-global")
                         else (if row.isLocal then "var-local" else "var-global"), row.name)
  {
    var key := if lists then (if row.isLocal then "list-local" else "list-global")
               else (if row.isLocal then "var-local" else "var-global");
    var cls := if lists then (if row.isLocal then ListLocal else ListGlobal)
               else (if row.isLocal then VarLocal else VarGlobal);
    Entry(cls, msg(key, row.name), row.id, None, None)
  }

  /** Everything `addBlock` is fed, in the order it is fed. */
  function AllEntries(blocks: seq<Block>, names: map<string, string>, vars: seq<VariableRow>, lists: seq<VariableRow>,
                      msg: (string, string) -> string): seq<Entry>
  {
    BlockEntries(blocks, names) + RowEntries(vars, false, msg) + RowEntries(lists, true, msg)
  }

  /** `getAllScratchBlocks()`: the deduplicated entries, sorted. */
  function AllScratchBlocks(blocks: seq<Block>, names: map<string, string>, vars: seq<VariableRow>, lists: seq<VariableRow>,
                            msg: (string, string) -> string): (r: seq<BlockItem>)
    ensures StableSortOf(r, Dedup(AllEntries(blocks, names, vars, lists, msg)))
  {
    Sort(Dedup(AllEntries(blocks, names, vars, lists, msg)))
  }

  /** A label occurs at most once among items whose labels are distinct. */
  lemma {:induction false} DistinctCountsOnce(d: seq<BlockItem>, x: BlockItem)
    requires DistinctTexts(d)
    ensures multiset(d)[x] <= 1
    decreases |d|
  {
    if |d| > 0 {
      assert d == [d[0]] + d[1..];
      DistinctCountsOnce(d[1..], x);
      if d[0] == x {
        assert x !in d[1..];
      }
    }
  }

  /** Reordering keeps labels distinct. */
  lemma {:induction false} PermutationKeepsDistinct(r: seq<BlockItem>, d: seq<BlockItem>)
    requires multiset(r) == multiset(d) && DistinctTexts(d)
    ensures DistinctTexts(r)
  {
    forall i, j | 0 <= i < j < |r| ensures r[i].procCode != r[j].procCode {
      if r[i].procCode == r[j].procCode {
        assert r[i] in multiset(d) && r[j] in multiset(d);
        var a :| 0 <= a < |d| && d[a] == r[i];
        var b :| 0 <= b < |d| && d[b] == r[j];
        assert a == b;
        assert r == r[..j] + r[j..];
        assert r[i] in r[..j] && r[j] in r[j..];
        assert multiset(r)[r[i]] == multiset(r[..j])[r[i]] + multiset(r[j..])[r[i]];
        DistinctCountsOnce(d, r[i]);
      }
    }
  }

  /** The index offers every label once, and every item is the reference item of its label. */
  lemma {:induction false} IndexIsDeduplicated(blocks: seq<Block>, names: map<string, string>, vars: seq<VariableRow>, lists: seq<VariableRow>,
                            msg: (string, string) -> string)
    ensures DistinctTexts(AllScratchBlocks(blocks, names, vars, lists, msg))
    ensures forall item :: item in AllScratchBlocks(blocks, names, vars, lists, msg) ==>
              var es := AllEntries(blocks, names, vars, lists, msg);
              item.procCode in TextsOf(es) && item == ItemFor(es, item.procCode) && item.eventName == None
  {
    var es := AllEntries(blocks, names, vars, lists, msg);
    var d := Dedup(es);
    var r := AllScratchBlocks(blocks, names, vars, lists, msg);
    PermutationKeepsDistinct(r, d);
    forall item | item in r ensures item.procCode in TextsOf(es) && item == ItemFor(es, item.procCode) {
      assert item in multiset(d);
      var k :| 0 <= k < |d| && d[k] == item;
    }
  }

  /** Every entry fed to `addBlock` is found in the sorted index under its label, by its own id. */
  lemma {:induction false} EntryIndexed(es: seq<Entry>, i: nat)
    requires i < |es|
    ensures exists item :: item in Sort(Dedup(es)) && item.procCode == es[i].txt && Represents(item, es[i].id)
  {
    DedupKeepsEveryOccurrence(es, i);
    var d := Dedup(es);
    var k := FindText(d, es[i].txt);
    SortKeeps(d, k);
  }

  /** Sorting loses no item. */
  lemma {:induction false} SortKeeps(d: seq<BlockItem>, k: nat)
    requires k < |d|
    ensures d[k] in Sort(d)
  {
    assert d[k] in multiset(d);
  }

  /** Every block the loop keeps is found under its label, by its own id. */
  lemma {:induction false} IndexCoversEveryKeptBlock(blocks: seq<Block>, names: map<string, string>, vars: seq<VariableRow>, lists: seq<VariableRow>,
                                  msg: (string, string) -> string, b: Block)
    requires b in blocks && !Skipped(b, names)
    ensures exists item :: item in AllScratchBlocks(blocks, names, vars, lists, msg) &&
              item.procCode == BlockDisplayText(b, names) && Represents(item, b.id)
  {
    var es := AllEntries(blocks, names, vars, lists, msg);
    var be, rv, rl := BlockEntries(blocks, names), RowEntries(vars, false, msg), RowEntries(lists, true, msg);
    var e := BlockEntry(b, names);
    assert e in be;
    var i :| 0 <= i < |be| && be[i] == e;
    assert es == (be + rv) + rl;
    assert es[i] == (be + rv)[i] == e;
    EntryIndexed(es, i);
    var item :| item in Sort(Dedup(es)) && item.procCode == es[i].txt && Represents(item, es[i].id);
    assert item in AllScratchBlocks(blocks, names, vars, lists, msg);
  }

  /** Every variable and list row is found under its message label, by its own id. */
  lemma {:induction false} IndexCoversEveryRow(blocks: seq<Block>, names: map<string, string>, vars: seq<VariableRow>, lists: seq<VariableRow>,
                            msg: (string, string) -> string, j: nat, isList: bool)
    requires j < (if isList then |lists| else |vars|)
    ensures var e := RowEntry(if isList then lists[j] else vars[j], isList, msg);
            exists item :: item in AllScratchBlocks(blocks, names, vars, lists, msg) &&
              item.procCode == e.txt && Represents(item, e.id)
  {
    var es := AllEntries(blocks, names, vars, lists, msg);
    var i := RowPosition(BlockEntries(blocks, names), vars, lists, msg, j, isList);
    EntryIndexed(es, i);
  }

  /** Where the loop over variables or lists feeds row `j` to `addBlock`. */
  lemma {:induction false} RowPosition(be: seq<Entry>, vars: seq<VariableRow>, lists: seq<VariableRow>,
                                       msg: (string, string) -> string, j: nat, isList: bool) returns (i: nat)
    requires j < (if isList then |lists| else |vars|)
    ensures var es := be + RowEntries(vars, false, msg) + RowEntries(lists, true, msg);
            i < |es| && es[i] == RowEntry(if isList then lists[j] else vars[j], isList, msg)
  {
    var rv, rl := RowEntries(vars, false, msg), RowEntries(lists, true, msg);
    i := if isList then |be| + |vars| + j else |be| + j;
    if isList {
      assert (be + rv + rl)[i] == rl[j];
    } else {
      assert (be + rv + rl)[i] == (be + rv)[i] == rv[j];
    }
  }
}
