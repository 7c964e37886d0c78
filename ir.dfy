/**
 * The slice of the SSA intermediate representation the pass consumes:
 * instructions reduced to the three shapes it recognises, and a function
 * whose entry block, last block and reachable blocks are given rather than
 * computed from the control-flow graph.
 */
module Ir {
  import opened Types

  type ValueId = nat
  type InstructionId = nat
  type BasicBlockId = nat

  /** Every instruction kind other than the three reference-count related ones is `Other`. */
  datatype Instruction =
    | IncrementRc(value: ValueId)
    | DecrementRc(value: ValueId)
    | ArraySet(arrayValue: ValueId, index: ValueId, value: ValueId)
    | Other

  /**
   * A function body. Only the instruction lists of its blocks change (the
   * eraser deletes from them); value types, instruction shapes, parameters
   * and the block structure stay fixed.
   */
  class Function {
    const parameters: seq<ValueId>
    const typeOf: ValueId -> Type
    const instructionOf: InstructionId -> Instruction
    const entryBlock: BasicBlockId
    /** The block `find_last_block` designates: the one holding the final `dec_rc`s. */
    const lastBlock: BasicBlockId
    /** The blocks `reachable_blocks` enumerates, in order. */
    const reachableBlocks: seq<BasicBlockId>
    var blocks: map<BasicBlockId, seq<InstructionId>>

    /** Every block the pass indexes is present in `blocks`. */
    predicate HasBlocksOf(bm: map<BasicBlockId, seq<InstructionId>>) {
      && entryBlock in bm
      && lastBlock in bm
      && forall b :: b in reachableBlocks ==> b in bm
    }

    ghost predicate Valid()
      reads this
    {
      HasBlocksOf(blocks)
    }

    constructor (
      parameters: seq<ValueId>,
      typeOf: ValueId -> Type,
      instructionOf: InstructionId -> Instruction,
      entryBlock: BasicBlockId,
      lastBlock: BasicBlockId,
      reachableBlocks: seq<BasicBlockId>,
      blocks: map<BasicBlockId, seq<InstructionId>>)
      requires entryBlock in blocks && lastBlock in blocks
      requires forall b :: b in reachableBlocks ==> b in blocks
      ensures Valid()
      ensures this.parameters == parameters && this.typeOf == typeOf
      ensures this.instructionOf == instructionOf
      ensures this.entryBlock == entryBlock && this.lastBlock == lastBlock
      ensures this.reachableBlocks == reachableBlocks && this.blocks == blocks
    {
      this.parameters := parameters;
      this.typeOf := typeOf;
      this.instructionOf := instructionOf;
      this.entryBlock := entryBlock;
      this.lastBlock := lastBlock;
      this.reachableBlocks := reachableBlocks;
      this.blocks := blocks;
    }
  }
}
