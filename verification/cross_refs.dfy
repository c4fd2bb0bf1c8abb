/**
 * The dropdown's cross-reference resolvers `getVariableUsesById`,
 * `getCallsToProcedureById` and `getCallsToEventsByName`
 * (src/addons/addons/find-bar/userscript.js): filters over the workspace's blocks in
 * traversal order, and over the VM targets' block tables.
 */
module CrossRefs {
  import opened Wrappers
  import opened Host

  // ---------------------------------------------------------------------------
  // getVariableUsesById

  /** How many times `id` occurs in `vs`. */
  function Count(vs: seq<string>, id: string): (n: nat)
    ensures n <= |vs|
    ensures n > 0 <==> id in vs
  {
    if |vs| == 0 then 0
    else
      assert vs == [vs[0]] + vs[1..];
      (if vs[0] == id then 1 else 0) + Count(vs[1..], id)
  }

  function Repeat(x: string, n: nat): (r: seq<string>)
    ensures |r| == n && forall k :: 0 <= k < n ==> r[k] == x
  {
    if n == 0 then [] else [x] + Repeat(x, n - 1)
  }

  /**
   * `getVariableUsesById(id)` over the descendants of all top blocks, in order: a block
   * is listed once per variable reference of it that has the id.
   */
  function VariableUses(blocks: seq<Block>, id: string): (uses: seq<string>)
    ensures forall x :: x in uses <==> exists b :: b in blocks && id in b.vars && b.id == x
    decreases |blocks|
  {
    if |blocks| == 0 then []
    else
      var rest := VariableUses(blocks[1..], id);
      assert forall b :: b in blocks <==> b == blocks[0] || b in blocks[1..];
      Repeat(blocks[0].id, Count(blocks[0].vars, id)) + rest
  }

  /** The uses over several top blocks are the uses in each, one after the other. */
  lemma {:induction false} VariableUsesConcat(a: seq<Block>, b: seq<Block>, id: string)
    ensures VariableUses(a + b, id) == VariableUses(a, id) + VariableUses(b, id)
    decreases |a|
  {
    if |a| > 0 {
      VariableUsesConcat(a[1..], b, id);
      assert (a + b)[1..] == a[1..] + b;
    } else {
      assert a + b == b;
    }
  }

  /** A block is listed exactly as often as it references the variable. */
  lemma {:induction false} VariableUsesCount(b: Block, id: string)
    ensures |VariableUses([b], id)| == Count(b.vars, id)
  {
    assert [b][1..] == [];
  }

  // ---------------------------------------------------------------------------
  // getCallsToProcedureById

  /** The ids of the `procedures_call` blocks whose proc code is `code`, in order. */
  function CallsOf(blocks: seq<Block>, code: string): (ids: seq<string>)
    ensures |ids| <= |blocks|
    ensures forall x :: x in ids <==>
              exists b :: b in blocks && b.blockType == "procedures_call" && b.procCode == Some(code) && b.id == x
    decreases |blocks|
  {
    if |blocks| == 0 then []
    else
      var rest := CallsOf(blocks[1..], code);
      assert forall b :: b in blocks <==> b == blocks[0] || b in blocks[1..];
      var b := blocks[0];
      (if b.blockType == "procedures_call" && b.procCode == Some(code) then [b.id] else []) + rest
  }

  /** The calls across several blocks are the calls in each part, one after the other. */
  lemma {:induction false} CallsOfConcat(a: seq<Block>, b: seq<Block>, code: string)
    ensures CallsOf(a + b, code) == CallsOf(a, code) + CallsOf(b, code)
    decreases |a|
  {
    if |a| > 0 {
      CallsOfConcat(a[1..], b, code);
      assert (a + b)[1..] == a[1..] + b;
    } else {
      assert a + b == b;
    }
  }

  /** A block is listed once when it is a call with the proc code, and otherwise not at all. */
  lemma {:induction false} CallsOfOne(b: Block, code: string)
    ensures CallsOf([b], code) == if b.blockType == "procedures_call" && b.procCode == Some(code) then [b.id] else []
  {
    assert [b][1..] == [];
  }

  /**
   * The proc code a definition block declares: that of its first child, the prototype.
   * None where the source would throw: the definition is not found, has no child, or
   * its first child has no `getProcCode`.
   */
  function DefinedProcCode(byId: map<string, Block>, id: string): Option<string> {
    if id !in byId || |byId[id].children| == 0 || byId[id].children[0] !in byId then None
    else byId[byId[id].children[0]].procCode
  }

  /**
   * `getCallsToProcedureById(id)`: the definition block first, then every call with the
   * same proc code; None where the source throws.
   */
  function ProcedureCalls(byId: map<string, Block>, blocks: seq<Block>, id: string): (r: Option<seq<string>>)
    ensures r.None? <==> DefinedProcCode(byId, id).None?
    ensures r.Some? ==> |r.value| >= 1 && r.value[0] == byId[id].id
    ensures r.Some? ==> r.value[1..] == CallsOf(blocks, DefinedProcCode(byId, id).value)
    ensures r.Some? ==> forall x :: x in r.value[1..] <==>
              exists b :: b in blocks && b.blockType == "procedures_call" && b.procCode == DefinedProcCode(byId, id) && b.id == x
  {
    match DefinedProcCode(byId, id)
    case None => None
    case Some(code) =>
      var calls := CallsOf(blocks, code);
      assert ([byId[id].id] + calls)[1..] == calls;
      Some([byId[id].id] + calls)
  }

  // ---------------------------------------------------------------------------
  // getCallsToEventsByName

  /** A block of a sprite, as `new BlockInstance(target, block)` identifies it. */
  datatype Instance = Instance(targetId: string, blockId: string)

  /** `blocks._blocks[id]`. */
  function Lookup(blocks: seq<VmBlock>, id: string): (r: Option<VmBlock>)
    ensures r.Some? ==> r.value in blocks && r.value.id == id
    ensures r.None? ==> forall b :: b in blocks ==> b.id != id
  {
    if |blocks| == 0 then None
    else if blocks[0].id == id then Some(blocks[0])
    else
      assert forall b :: b in blocks <==> b == blocks[0] || b in blocks[1..];
      Lookup(blocks[1..], id)
  }

  predicate IsBroadcast(b: VmBlock) {
    b.opcode == "event_broadcast" || b.opcode == "event_broadcastandwait"
  }

  /**
   * The message a broadcast block sends: its menu's option, or the "complex broadcast"
   * message when its input is a reporter; None when the input block is missing.
   */
  function SentMessage(b: VmBlock, blocks: seq<VmBlock>, complex: string): Option<string> {
    if b.input.None? then None
    else match Lookup(blocks, b.input.value)
      case None => None
      case Some(m) => if m.opcode == "event_broadcast_menu" then m.option else Some(complex)
  }

  /**
   * The block takes part in the message `name`: a receiver for it, or a broadcast of it.
   * JavaScript's `===` against a null name never holds.
   */
  predicate Mentions(b: VmBlock, blocks: seq<VmBlock>, name: Option<string>, complex: string) {
    name.Some? &&
    if b.opcode == "event_whenbroadcastreceived" then b.option == name
    else IsBroadcast(b) && SentMessage(b, blocks, complex) == name
  }

  function MentionsIn(t: Target, all: seq<VmBlock>, blocks: seq<VmBlock>, name: Option<string>, complex: string): (r: seq<Instance>)
    ensures forall i :: i in r <==> exists b :: b in blocks && Mentions(b, all, name, complex) && i == Instance(t.id, b.id)
    decreases |blocks|
  {
    if |blocks| == 0 then []
    else
      assert forall b :: b in blocks <==> b == blocks[0] || b in blocks[1..];
      (if Mentions(blocks[0], all, name, complex) then [Instance(t.id, blocks[0].id)] else [])
        + MentionsIn(t, all, blocks[1..], name, complex)
  }

  /** One sprite's instances follow its block table: those of each part, one after the other. */
  lemma {:induction false} MentionsInConcat(t: Target, all: seq<VmBlock>, a: seq<VmBlock>, b: seq<VmBlock>, name: Option<string>, complex: string)
    ensures MentionsIn(t, all, a + b, name, complex) == MentionsIn(t, all, a, name, complex) + MentionsIn(t, all, b, name, complex)
    decreases |a|
  {
    if |a| > 0 {
      MentionsInConcat(t, all, a[1..], b, name, complex);
      assert (a + b)[1..] == a[1..] + b;
    } else {
      assert a + b == b;
    }
  }

  /** A block of the table gives one instance when it takes part in the message, and none otherwise. */
  lemma {:induction false} MentionsInOne(t: Target, all: seq<VmBlock>, b: VmBlock, name: Option<string>, complex: string)
    ensures MentionsIn(t, all, [b], name, complex) == if Mentions(b, all, name, complex) then [Instance(t.id, b.id)] else []
  {
    assert [b][1..] == [];
  }

  /** A target the resolver looks into: an original sprite or the stage, with a block table. */
  predicate Searched(t: Target) {
    t.isOriginal && t.blocks.Some?
  }

  /**
   * `getCallsToEventsByName(name)`: over the original targets with a block table, the
   * receivers and broadcasts of `name`, in target order and then block-table order.
   */
  function EventsByName(targets: seq<Target>, name: Option<string>, complex: string): (r: seq<Instance>)
    ensures forall i :: i in r <==>
              exists t, b :: t in targets && Searched(t) && b in t.blocks.value &&
                             Mentions(b, t.blocks.value, name, complex) && i == Instance(t.id, b.id)
    decreases |targets|
  {
    if |targets| == 0 then []
    else
      assert forall t :: t in targets <==> t == targets[0] || t in targets[1..];
      var t := targets[0];
      (if Searched(t) then MentionsIn(t, t.blocks.value, t.blocks.value, name, complex) else [])
        + EventsByName(targets[1..], name, complex)
  }

  /** One target contributes the instances of its own block table, or nothing when it is skipped. */
  lemma {:induction false} EventsByNameOne(t: Target, name: Option<string>, complex: string)
    ensures EventsByName([t], name, complex) == if Searched(t) then MentionsIn(t, t.blocks.value, t.blocks.value, name, complex) else []
  {
    assert [t][1..] == [];
  }

  /** A null message name resolves to nothing at all. */
  lemma {:induction false} NullNameFindsNothing(targets: seq<Target>, complex: string)
    ensures EventsByName(targets, None, complex) == []
    decreases |targets|
  {
    if |targets| > 0 {
      NullNameFindsNothing(targets[1..], complex);
      var t := targets[0];
      if Searched(t) {
        NullNameMentionsNothing(t, t.blocks.value, t.blocks.value, complex);
      }
    }
  }

  lemma {:induction false} NullNameMentionsNothing(t: Target, all: seq<VmBlock>, blocks: seq<VmBlock>, complex: string)
    ensures MentionsIn(t, all, blocks, None, complex) == []
    decreases |blocks|
  {
    if |blocks| > 0 {
      NullNameMentionsNothing(t, all, blocks[1..], complex);
    }
  }

  /** The resolver works target by target. */
  lemma {:induction false} EventsByNameConcat(a: seq<Target>, b: seq<Target>, name: Option<string>, complex: string)
    ensures EventsByName(a + b, name, complex) == EventsByName(a, name, complex) + EventsByName(b, name, complex)
    decreases |a|
  {
    if |a| > 0 {
      EventsByNameConcat(a[1..], b, name, complex);
      assert (a + b)[1..] == a[1..] + b;
    } else {
      assert a + b == b;
    }
  }
}
