/**
 * `addBlock` inside `getAllScratchBlocks` (src/addons/addons/find-bar/userscript.js):
 * the stream of (category, label, occurrence) entries is folded into one index item
 * per distinct label, later occurrences becoming the item's clones.
 */
module Deduplication {
  import opened Wrappers
  import opened JsStrings
  import opened Categories
  import opened BlockItems

  /** One call `addBlock(cls, txt, root)`: the root contributes its id, y and colour. */
  datatype Entry = Entry(cls: Category, txt: string, id: string, y: Option<int>, colour: Option<string>)

  function Init(es: seq<Entry>): seq<Entry>
    requires |es| > 0
  {
    es[..|es| - 1]
  }

  function Last(es: seq<Entry>): Entry
    requires |es| > 0
  {
    es[|es| - 1]
  }

  // ---------------------------------------------------------------------------
  // The reference: what the index should hold for a given entry stream

  /** The labels that occur in the stream. */
  function TextsOf(es: seq<Entry>): set<string>
    decreases |es|
  {
    if |es| == 0 then {} else TextsOf(Init(es)) + {Last(es).txt}
  }

  /** A label is in `TextsOf` exactly when some entry carries it. */
  lemma {:induction false} TextsOfMembers(es: seq<Entry>, t: string)
    ensures t in TextsOf(es) <==> exists i :: 0 <= i < |es| && es[i].txt == t
    decreases |es|
  {
    if |es| > 0 {
      TextsOfMembers(Init(es), t);
      if t in TextsOf(Init(es)) {
        var i :| 0 <= i < |Init(es)| && Init(es)[i].txt == t;
        assert es[i].txt == t;
      }
      if exists i :: 0 <= i < |es| && es[i].txt == t {
        var i :| 0 <= i < |es| && es[i].txt == t;
        if i < |es| - 1 {
          assert Init(es)[i].txt == t;
        }
      }
    }
  }

  /** The ids of the entries labelled `t`, in stream order. */
  function IdsWithText(es: seq<Entry>, t: string): seq<string>
    decreases |es|
  {
    if |es| == 0 then []
    else IdsWithText(Init(es), t) + (if Last(es).txt == t then [Last(es).id] else [])
  }

  /** The position of the first entry labelled `t`. */
  function FirstWithText(es: seq<Entry>, t: string): (i: nat)
    requires t in TextsOf(es)
    ensures i < |es| && es[i].txt == t
    ensures forall j :: 0 <= j < i ==> es[j].txt != t
    decreases |es|
  {
    if t in TextsOf(Init(es)) then
      var i := FirstWithText(Init(es), t);
      assert es[i] == Init(es)[i];
      i
    else
      TextsOfMembers(Init(es), t);
      assert forall j :: 0 <= j < |es| - 1 ==> es[j] == Init(es)[j];
      |es| - 1
  }

  /** A label that occurs has at least one id, and the first of them is the first entry's. */
  lemma {:induction false} IdsWithTextHead(es: seq<Entry>, t: string)
    requires t in TextsOf(es)
    ensures |IdsWithText(es, t)| >= 1
    ensures IdsWithText(es, t)[0] == es[FirstWithText(es, t)].id
    decreases |es|
  {
    if t in TextsOf(Init(es)) {
      IdsWithTextHead(Init(es), t);
      assert es[FirstWithText(Init(es), t)] == Init(es)[FirstWithText(Init(es), t)];
    } else {
      IdsWithTextAbsent(Init(es), t);
    }
  }

  /** A label that does not occur has no ids. */
  lemma {:induction false} IdsWithTextAbsent(es: seq<Entry>, t: string)
    requires t !in TextsOf(es)
    ensures IdsWithText(es, t) == []
    decreases |es|
  {
    if |es| > 0 {
      IdsWithTextAbsent(Init(es), t);
    }
  }

  /**
   * The item the index should hold for label `t`: category, id, y and colour of the
   * first entry labelled `t`, and the ids of the later ones as clones (null while there
   * are none).
   */
  function ItemFor(es: seq<Entry>, t: string): (item: BlockItem)
    requires t in TextsOf(es)
    ensures item.procCode == t && item.lower == Lower(t) && item.eventName == None
    ensures Occurrences(item) == IdsWithText(es, t)
  {
    var first := es[FirstWithText(es, t)];
    var ids := IdsWithText(es, t);
    IdsWithTextHead(es, t);
    assert ids == [ids[0]] + ids[1..];
    BlockItem(first.cls, t, first.id, first.y, Lower(t), if |ids| == 1 then None else Some(ids[1..]), None, first.colour)
  }

  // ---------------------------------------------------------------------------
  // The fold

  /** No two items share a label. */
  predicate DistinctTexts(items: seq<BlockItem>) {
    forall i, j :: 0 <= i < j < |items| ==> items[i].procCode != items[j].procCode
  }

  function FindTextFrom(items: seq<BlockItem>, t: string, from: nat): (r: int)
    requires from <= |items|
    ensures r == -1 || (from <= r < |items| && items[r].procCode == t)
    ensures r == -1 ==> forall i :: from <= i < |items| ==> items[i].procCode != t
    decreases |items| - from
  {
    if from == |items| then -1
    else if items[from].procCode == t then from
    else FindTextFrom(items, t, from + 1)
  }

  /** `myBlocksByProcCode[txt]`: the position of the item labelled `t`, or -1. */
  function FindText(items: seq<BlockItem>, t: string): (r: int)
    ensures -1 <= r < |items|
    ensures r >= 0 ==> items[r].procCode == t
    ensures r == -1 <==> forall i :: 0 <= i < |items| ==> items[i].procCode != t
  {
    FindTextFrom(items, t, 0)
  }

  /** The item with one more occurrence pushed onto its clones (created on the first push). */
  function AddClone(item: BlockItem, id: string): (r: BlockItem)
    ensures Occurrences(r) == Occurrences(item) + [id]
    ensures r.(clones := item.clones) == item
  {
    item.(clones := Some(item.clones.GetOr([]) + [id]))
  }

  /**
   * `addBlock(cls, txt, root)` with the label lookup keyed on own entries only: a label
   * already indexed gains a clone, a new label is appended as a fresh item.
   */
  function AddBlock(items: seq<BlockItem>, e: Entry): (r: seq<BlockItem>)
    ensures FindText(items, e.txt) >= 0 ==>
              && |r| == |items|
              && Occurrences(r[FindText(items, e.txt)]) == Occurrences(items[FindText(items, e.txt)]) + [e.id]
              && r[FindText(items, e.txt)].(clones := items[FindText(items, e.txt)].clones) == items[FindText(items, e.txt)]
              && forall j :: 0 <= j < |items| && j != FindText(items, e.txt) ==> r[j] == items[j]
    ensures FindText(items, e.txt) == -1 ==>
              r == items + [NewItem(e.cls, e.txt, e.id, e.y, e.colour)]
  {
    var k := FindText(items, e.txt);
    if k >= 0 then items[k := AddClone(items[k], e.id)]
    else items + [NewItem(e.cls, e.txt, e.id, e.y, e.colour)]
  }

  /**
   * What the fold keeps true, for the stream fed so far: one item per label that occurs
   * and no other, each item equal to the reference item of its label, items in order of
   * their labels' first occurrences.
   */
  ghost predicate Indexes(es: seq<Entry>, items: seq<BlockItem>) {
    && DistinctTexts(items)
    && Faithful(es, items)
    && Covers(es, items)
    && InFirstOrder(es, items)
  }

  /** Every item carries a label of the stream and is that label's reference item. */
  ghost predicate Faithful(es: seq<Entry>, items: seq<BlockItem>) {
    forall k :: 0 <= k < |items| ==> items[k].procCode in TextsOf(es) && items[k] == ItemFor(es, items[k].procCode)
  }

  /** Every label of the stream has an item. */
  ghost predicate Covers(es: seq<Entry>, items: seq<BlockItem>) {
    forall t :: t in TextsOf(es) ==> FindText(items, t) >= 0
  }

  /** The items come in the order their labels first occur. */
  ghost predicate InFirstOrder(es: seq<Entry>, items: seq<BlockItem>) {
    forall i, j :: 0 <= i < j < |items| && items[i].procCode in TextsOf(es) && items[j].procCode in TextsOf(es) ==>
      FirstWithText(es, items[i].procCode) < FirstWithText(es, items[j].procCode)
  }

  /** The index after feeding the whole stream through `addBlock`, before sorting. */
  function Dedup(es: seq<Entry>): (r: seq<BlockItem>)
    ensures Indexes(es, r)
    decreases |es|
  {
    if |es| == 0 then []
    else
      var prev := Dedup(Init(es));
      DedupStep(es, prev);
      AddBlock(prev, Last(es))
  }

  /** Appending an entry leaves the reference item of every other label alone. */
  lemma {:induction false} OtherLabelUnchanged(es: seq<Entry>, t: string)
    requires |es| > 0 && t in TextsOf(Init(es)) && t != Last(es).txt
    ensures t in TextsOf(es)
    ensures FirstWithText(es, t) == FirstWithText(Init(es), t)
    ensures ItemFor(es, t) == ItemFor(Init(es), t)
  {
    assert IdsWithText(es, t) == IdsWithText(Init(es), t);
    assert es[FirstWithText(Init(es), t)] == Init(es)[FirstWithText(Init(es), t)];
  }

  /** Appending an entry with a label already seen adds its id to that label's ids only. */
  lemma {:induction false} SameLabelExtended(es: seq<Entry>)
    requires |es| > 0 && Last(es).txt in TextsOf(Init(es))
    ensures FirstWithText(es, Last(es).txt) == FirstWithText(Init(es), Last(es).txt)
    ensures IdsWithText(es, Last(es).txt) == IdsWithText(Init(es), Last(es).txt) + [Last(es).id]
    ensures TextsOf(es) == TextsOf(Init(es))
  {
  }

  /** Appending an entry with a new label makes it the label's first and only entry. */
  lemma {:induction false} NewLabelStarted(es: seq<Entry>)
    requires |es| > 0 && Last(es).txt !in TextsOf(Init(es))
    ensures FirstWithText(es, Last(es).txt) == |es| - 1
    ensures IdsWithText(es, Last(es).txt) == [Last(es).id]
    ensures TextsOf(es) == TextsOf(Init(es)) + {Last(es).txt}
  {
    IdsWithTextAbsent(Init(es), Last(es).txt);
  }

  lemma {:induction false} DedupStep(es: seq<Entry>, items: seq<BlockItem>)
    requires |es| > 0 && Indexes(Init(es), items)
    ensures Indexes(es, AddBlock(items, Last(es)))
  {
    if FindText(items, Last(es).txt) >= 0 {
      StepExistingLabel(es, items);
    } else {
      StepNewLabel(es, items);
    }
  }

  lemma {:induction false} StepExistingLabel(es: seq<Entry>, items: seq<BlockItem>)
    requires |es| > 0 && Indexes(Init(es), items) && FindText(items, Last(es).txt) >= 0
    ensures Indexes(es, AddBlock(items, Last(es)))
  {
    var e := Last(es);
    var k := FindText(items, e.txt);
    var r := items[k := AddClone(items[k], e.id)];
    assert AddBlock(items, e) == r;
    assert SameLabels(items, r);
    SameLabelExtended(es);
    ExistingFaithful(es, items, k, r);
    SameLabelsKept(es, items, r);
  }

  /** Two item lists with the same labels in the same places. */
  predicate SameLabels(items: seq<BlockItem>, r: seq<BlockItem>) {
    |r| == |items| && forall j :: 0 <= j < |r| ==> r[j].procCode == items[j].procCode
  }

  /** Relabelling nothing keeps labels distinct, covered and in first-occurrence order. */
  lemma {:induction false} SameLabelsKept(es: seq<Entry>, items: seq<BlockItem>, r: seq<BlockItem>)
    requires |es| > 0 && SameLabels(items, r) && TextsOf(es) == TextsOf(Init(es))
    requires DistinctTexts(items) && Covers(Init(es), items) && InFirstOrder(Init(es), items) && Faithful(es, r)
    requires forall j :: 0 <= j < |r| ==> FirstWithText(es, r[j].procCode) == FirstWithText(Init(es), items[j].procCode)
    ensures DistinctTexts(r) && Covers(es, r) && InFirstOrder(es, r)
  {
    forall t | t in TextsOf(es) ensures FindText(r, t) >= 0 {
      var j := FindText(items, t);
      assert r[j].procCode == t;
    }
  }

  /** The item that gains the clone becomes its label's reference item for the longer stream; the others already are. */
  lemma {:induction false} ExistingFaithful(es: seq<Entry>, items: seq<BlockItem>, k: nat, r: seq<BlockItem>)
    requires |es| > 0 && Faithful(Init(es), items) && DistinctTexts(items)
    requires k < |items| && items[k].procCode == Last(es).txt
    requires r == items[k := AddClone(items[k], Last(es).id)]
    requires TextsOf(es) == TextsOf(Init(es))
    ensures Faithful(es, r)
    ensures forall j :: 0 <= j < |r| ==> FirstWithText(es, r[j].procCode) == FirstWithText(Init(es), items[j].procCode)
  {
    var e := Last(es);
    SameLabelExtended(es);
    var item := ItemFor(es, e.txt);
    assert r[k] == item by {
      assert Occurrences(r[k]) == Occurrences(item);
      assert Occurrences(r[k])[1..] == r[k].clones.GetOr([]);
      assert Occurrences(item)[1..] == item.clones.GetOr([]);
    }
    forall j | 0 <= j < |r| && j != k
      ensures r[j].procCode in TextsOf(es) && r[j] == ItemFor(es, r[j].procCode)
      ensures FirstWithText(es, r[j].procCode) == FirstWithText(Init(es), items[j].procCode)
    {
      OtherLabelUnchanged(es, r[j].procCode);
    }
  }

  lemma {:induction false} StepNewLabel(es: seq<Entry>, items: seq<BlockItem>)
    requires |es| > 0 && Indexes(Init(es), items) && FindText(items, Last(es).txt) == -1
    ensures Indexes(es, AddBlock(items, Last(es)))
  {
    var e := Last(es);
    var r := items + [NewItem(e.cls, e.txt, e.id, e.y, e.colour)];
    assert AddBlock(items, e) == r;
    assert e.txt !in TextsOf(Init(es));
    NewLabelStarted(es);
    NewFaithful(es, items, r);
    AppendedKept(es, items, r);
  }

  /** The appended item is the new label's reference item; the others keep theirs and their first positions. */
  lemma {:induction false} NewFaithful(es: seq<Entry>, items: seq<BlockItem>, r: seq<BlockItem>)
    requires |es| > 0 && Faithful(Init(es), items) && Last(es).txt !in TextsOf(Init(es))
    requires r == items + [NewItem(Last(es).cls, Last(es).txt, Last(es).id, Last(es).y, Last(es).colour)]
    ensures Faithful(es, r)
    ensures forall j :: 0 <= j < |items| ==> items[j].procCode in TextsOf(Init(es))
    ensures forall j :: 0 <= j < |items| ==>
              FirstWithText(es, items[j].procCode) == FirstWithText(Init(es), items[j].procCode) < |es| - 1
  {
    var e := Last(es);
    NewLabelStarted(es);
    assert r[|items|] == ItemFor(es, e.txt);
    forall j | 0 <= j < |items|
      ensures r[j].procCode in TextsOf(es) && r[j] == ItemFor(es, r[j].procCode)
      ensures FirstWithText(es, r[j].procCode) == FirstWithText(Init(es), r[j].procCode) < |es| - 1
    {
      OtherLabelUnchanged(es, r[j].procCode);
    }
  }

  /** Appending the new label's item keeps labels distinct, covered and in first-occurrence order. */
  lemma {:induction false} AppendedKept(es: seq<Entry>, items: seq<BlockItem>, r: seq<BlockItem>)
    requires |es| > 0 && Last(es).txt !in TextsOf(Init(es)) && TextsOf(es) == TextsOf(Init(es)) + {Last(es).txt}
    requires FindText(items, Last(es).txt) == -1 && FirstWithText(es, Last(es).txt) == |es| - 1
    requires |r| == |items| + 1 && r[..|items|] == items && r[|items|].procCode == Last(es).txt
    requires DistinctTexts(items) && Covers(Init(es), items) && InFirstOrder(Init(es), items)
    requires forall j :: 0 <= j < |items| ==> items[j].procCode in TextsOf(Init(es))
    requires forall j :: 0 <= j < |items| ==>
               FirstWithText(es, items[j].procCode) == FirstWithText(Init(es), items[j].procCode) < |es| - 1
    ensures DistinctTexts(r) && Covers(es, r) && InFirstOrder(es, r)
  {
    assert forall j :: 0 <= j < |items| ==> r[j] == items[j];
    AppendedDistinct(items, r, Last(es).txt);
    AppendedCovers(es, items, r);
    AppendedInOrder(es, items, r);
  }

  lemma {:induction false} AppendedDistinct(items: seq<BlockItem>, r: seq<BlockItem>, t: string)
    requires DistinctTexts(items) && FindText(items, t) == -1
    requires |r| == |items| + 1 && (forall j :: 0 <= j < |items| ==> r[j] == items[j]) && r[|items|].procCode == t
    ensures DistinctTexts(r)
  {
  }

  lemma {:induction false} AppendedCovers(es: seq<Entry>, items: seq<BlockItem>, r: seq<BlockItem>)
    requires |es| > 0 && TextsOf(es) == TextsOf(Init(es)) + {Last(es).txt} && Covers(Init(es), items)
    requires |r| == |items| + 1 && (forall j :: 0 <= j < |items| ==> r[j] == items[j]) && r[|items|].procCode == Last(es).txt
    ensures Covers(es, r)
  {
    forall t | t in TextsOf(es) ensures FindText(r, t) >= 0 {
      if t in TextsOf(Init(es)) {
        var j := FindText(items, t);
        assert r[j].procCode == t;
      } else {
        assert r[|items|].procCode == t;
      }
    }
  }

  lemma {:induction false} AppendedInOrder(es: seq<Entry>, items: seq<BlockItem>, r: seq<BlockItem>)
    requires |es| > 0 && Last(es).txt in TextsOf(es) && FirstWithText(es, Last(es).txt) == |es| - 1
    requires InFirstOrder(Init(es), items)
    requires |r| == |items| + 1 && (forall j :: 0 <= j < |items| ==> r[j] == items[j]) && r[|items|].procCode == Last(es).txt
    requires forall j :: 0 <= j < |items| ==> items[j].procCode in TextsOf(Init(es)) && items[j].procCode in TextsOf(es)
    requires forall j :: 0 <= j < |items| ==>
               FirstWithText(es, items[j].procCode) == FirstWithText(Init(es), items[j].procCode) < |es| - 1
    ensures InFirstOrder(es, r)
  {
    forall i, j | 0 <= i < j < |r| && r[i].procCode in TextsOf(es) && r[j].procCode in TextsOf(es)
      ensures FirstWithText(es, r[i].procCode) < FirstWithText(es, r[j].procCode)
    {
      if j < |items| {
        assert FirstWithText(Init(es), items[i].procCode) < FirstWithText(Init(es), items[j].procCode);
      }
    }
  }

  /** Every entry's occurrence is represented by the item that carries its label. */
  lemma {:induction false} DedupKeepsEveryOccurrence(es: seq<Entry>, i: nat)
    requires i < |es|
    ensures FindText(Dedup(es), es[i].txt) >= 0
    ensures Represents(Dedup(es)[FindText(Dedup(es), es[i].txt)], es[i].id)
  {
    TextsOfMembers(es, es[i].txt);
    var r := Dedup(es);
    var k := FindText(r, es[i].txt);
    IdsWithTextMember(es, es[i].txt, i);
  }

  /** The id of an entry labelled `t` is among `t`'s ids. */
  lemma {:induction false} IdsWithTextMember(es: seq<Entry>, t: string, i: nat)
    requires i < |es| && es[i].txt == t
    ensures es[i].id in IdsWithText(es, t)
    decreases |es|
  {
    if i < |es| - 1 {
      IdsWithTextMember(Init(es), t, i);
      assert Init(es)[i] == es[i];
    }
  }

  // ---------------------------------------------------------------------------
  // The lookup as written: a plain object inherits Object.prototype's members

  /** The property names every plain object inherits from Object.prototype. */
  const InheritedKeys: set<string> := {
    "constructor", "hasOwnProperty", "isPrototypeOf", "propertyIsEnumerable",
    "toLocaleString", "toString", "valueOf", "__proto__",
    "__defineGetter__", "__defineSetter__", "__lookupGetter__", "__lookupSetter__"
  }

  /**
   * `addBlock` as written: `myBlocksByProcCode[txt]` is truthy for an inherited name, so
   * such a label is taken for an existing item and its id is pushed onto the inherited
   * member instead; the index does not change.
   */
  function AddBlockAsWritten(items: seq<BlockItem>, e: Entry): (r: seq<BlockItem>)
    ensures e.txt in InheritedKeys ==> r == items
    ensures e.txt !in InheritedKeys ==> r == AddBlock(items, e)
  {
    if e.txt in InheritedKeys then items else AddBlock(items, e)
  }

  function DedupAsWritten(es: seq<Entry>): seq<BlockItem>
    decreases |es|
  {
    if |es| == 0 then [] else AddBlockAsWritten(DedupAsWritten(Init(es)), Last(es))
  }

  /** Without inherited names among the labels the two lookups build the same index. */
  lemma {:induction false} AsWrittenAgrees(es: seq<Entry>)
    requires forall i :: 0 <= i < |es| ==> es[i].txt !in InheritedKeys
    ensures DedupAsWritten(es) == Dedup(es)
    decreases |es|
  {
    if |es| > 0 {
      AsWrittenAgrees(Init(es));
    }
  }

  /** A custom block labelled "toString" never reaches the index as written. */
  lemma {:induction false} InheritedLabelLost(cls: Category, id: string, y: Option<int>, colour: Option<string>)
    ensures DedupAsWritten([Entry(cls, "toString", id, y, colour)]) == []
    ensures |Dedup([Entry(cls, "toString", id, y, colour)])| == 1
    ensures Represents(Dedup([Entry(cls, "toString", id, y, colour)])[0], id)
  {
    var es := [Entry(cls, "toString", id, y, colour)];
    assert Init(es) == [];
    DedupKeepsEveryOccurrence(es, 0);
  }
}
