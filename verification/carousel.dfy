/**
 * `Carousel` (src/addons/addons/find-bar/userscript.js): the "◀ i / n ▶" cursor a
 * dropdown row shows over the blocks an entry stands for. Scrolling a block into view
 * is the emitted focus id.
 */
module Carousels {
  import opened Wrappers
  import opened JsNumbers

  /** Identity of a dropdown row element (`item` in the source). */
  type RowRef = nat

  /** `this.el`: never created, created and hanging under a row, or created and removed from the page. */
  datatype Element = NoElement | AttachedTo(row: RowRef) | Detached

  /** `blocks` holds the ids of the blocks the carousel cycles through. */
  datatype Carousel = Carousel(el: Element, blocks: seq<string>, idx: int)

  const Initial: Carousel := Carousel(NoElement, [], 0)

  /** The cursor is on a block, or at 0 when there is none. */
  predicate Valid(c: Carousel) {
    if |c.blocks| == 0 then c.idx == 0 else 0 <= c.idx < |c.blocks|
  }

  datatype Dir = Left | Right

  function Step(d: Dir): int {
    match d
    case Left => -1
    case Right => 1
  }

  /** `navSideways(e, dir)`: with blocks, move one place cyclically and focus the block under the cursor. */
  function NavSideways(c: Carousel, d: Dir): (r: (Carousel, Option<string>))
    requires Valid(c)
    ensures Valid(r.0) && r.0.el == c.el && r.0.blocks == c.blocks
    ensures |c.blocks| == 0 ==> r == (c, None)
    ensures |c.blocks| > 0 && d == Right ==> r.0.idx == (if c.idx == |c.blocks| - 1 then 0 else c.idx + 1)
    ensures |c.blocks| > 0 && d == Left ==> r.0.idx == (if c.idx == 0 then |c.blocks| - 1 else c.idx - 1)
    ensures |c.blocks| > 0 ==> r.1 == Some(c.blocks[r.0.idx])
  {
    var n := |c.blocks|;
    if n > 0 then
      var a := c.idx + Step(d) + n;
      RemBelowTwice(a, n);
      var idx := JsRem(a, n);
      (c.(idx := idx), Some(c.blocks[idx]))
    else (c, None)
  }

  /** `remove()`: a created element is taken off the page and the cursor is cleared. */
  function Remove(c: Carousel): (r: Carousel)
    ensures Valid(c) ==> Valid(r)
    ensures c.el == NoElement ==> r == c
    ensures c.el != NoElement ==> r == Carousel(Detached, [], 0)
  {
    if c.el != NoElement then Carousel(Detached, [], 0) else c
  }

  /**
   * The carousel once the row holding it is taken off the list or has its children
   * replaced: the element lives on under a row no click can reach, with its blocks and
   * cursor, so the next `build` on any row starts afresh.
   */
  function Orphan(c: Carousel): (r: Carousel)
    ensures Valid(c) ==> Valid(r)
    ensures !r.el.AttachedTo? && r.blocks == c.blocks && r.idx == c.idx
    ensures r.el == NoElement <==> c.el == NoElement
  {
    if c.el.AttachedTo? then c.(el := Detached) else c
  }

  /** The first position of `id` in `blocks`, or 0 when it is absent. */
  function FirstPosition(blocks: seq<string>, id: string): (i: nat)
    ensures i <= |blocks|
    ensures id in blocks ==> i < |blocks| && blocks[i] == id && id !in blocks[..i]
    ensures id !in blocks ==> i == 0
  {
    if |blocks| == 0 then 0
    else if blocks[0] == id then 0
    else if id in blocks[1..] then
      var i := FirstPosition(blocks[1..], id);
      assert blocks[..i + 1] == [blocks[0]] + blocks[1..][..i];
      i + 1
    else
      assert id !in blocks by {
        assert blocks == [blocks[0]] + blocks[1..];
      }
      0
  }

  /**
   * `build(item, blocks, instanceBlock)`: a second click on the row that already holds
   * the carousel steps right; otherwise the carousel moves to `row` with the new blocks,
   * the cursor on the instance block when it is among them, and focuses that block.
   */
  function Build(c: Carousel, row: RowRef, blocks: seq<string>, instance: Option<string>): (r: (Carousel, Option<string>))
    requires Valid(c)
    ensures Valid(r.0)
    ensures c.el == AttachedTo(row) ==> r == NavSideways(c, Right)
    ensures c.el != AttachedTo(row) ==> r.0.el == AttachedTo(row) && r.0.blocks == blocks
    ensures c.el != AttachedTo(row) && instance.Some? && instance.value in blocks ==>
              r.0.blocks[r.0.idx] == instance.value && instance.value !in blocks[..r.0.idx]
    ensures c.el != AttachedTo(row) && (instance.None? || instance.value !in blocks) ==> r.0.idx == 0
    ensures c.el != AttachedTo(row) ==> (r.1 == if |blocks| > 0 then Some(blocks[r.0.idx]) else None)
  {
    if c.el == AttachedTo(row) then NavSideways(c, Right)
    else
      var cleared := Remove(c);
      var idx := if instance.Some? then FirstPosition(blocks, instance.value) else 0;
      var next := Carousel(AttachedTo(row), blocks, idx);
      (next, if idx < |blocks| then Some(blocks[idx]) else None)
  }

  /** `k` steps to the right, for `k` up to the number of blocks, count forward with one wrap. */
  lemma {:induction false} RightSteps(c: Carousel, k: nat)
    requires Valid(c) && 0 < |c.blocks| && k <= |c.blocks|
    ensures StepsRight(c, k).blocks == c.blocks && StepsRight(c, k).el == c.el
    ensures StepsRight(c, k).idx == (if c.idx + k < |c.blocks| then c.idx + k else c.idx + k - |c.blocks|)
  {
    if k > 0 {
      RightSteps(c, k - 1);
    }
  }

  /** The carousel after `k` right steps. */
  function StepsRight(c: Carousel, k: nat): (r: Carousel)
    requires Valid(c)
    ensures Valid(r)
  {
    if k == 0 then c else NavSideways(StepsRight(c, k - 1), Right).0
  }

  /** Stepping right once per block goes all the way round. */
  lemma {:induction false} FullCircle(c: Carousel)
    requires Valid(c) && |c.blocks| > 0
    ensures StepsRight(c, |c.blocks|) == c
  {
    RightSteps(c, |c.blocks|);
  }

  /** A step left undoes a step right. */
  lemma {:induction false} LeftUndoesRight(c: Carousel)
    requires Valid(c)
    ensures NavSideways(NavSideways(c, Right).0, Left).0 == c
  {
  }
}
