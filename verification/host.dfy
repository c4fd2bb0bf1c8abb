/**
 * The host objects the find bar reads, reduced to plain records: Blockly blocks of
 * the open workspace, rows of its variable map, and the VM's per-sprite block tables.
 */
module Host {
  import opened Wrappers

  /** A Blockly block as the find bar sees it. A missing `type` is the empty `blockType`. */
  datatype Block = Block(
    blockType: string,
    id: string,
    procCode: Option<string>,   // getProcCode(), for blocks that have it
    text: string,               // toString()
    y: Option<int>,             // getRelativeToSurfaceXY().y, for blocks that have it
    vars: seq<string>,          // ids from getVars() / getVarModels()
    children: seq<string>,      // ids of getChildren(), in order
    colour: Option<string>)     // the colour extractBlockColour finds, already normalised

  /** A row of the workspace variable map (`getVariablesOfType`). */
  datatype VariableRow = VariableRow(id: string, name: string, isLocal: bool)

  /** A block of a VM target: opcode, its BROADCAST_OPTION field value and BROADCAST_INPUT block id. */
  datatype VmBlock = VmBlock(id: string, opcode: string, option: Option<string>, input: Option<string>)

  /** A VM target (sprite, clone or stage); `blocks` is `_blocks` in key order, None when absent. */
  datatype Target = Target(id: string, isOriginal: bool, blocks: Option<seq<VmBlock>>)
}
