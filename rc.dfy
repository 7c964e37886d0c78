/**
 * The paired reference-count removal pass over one function.
 *
 * It removes an `inc_rc` of the entry block together with a `dec_rc` of the
 * same value in the last block unless some reachable `array_set` writes to
 * an array of the same type. Mutation is tracked per type, not per value, so
 * an `array_set` through an alias (a parameter, a value loaded from a
 * reference) still blocks the removal.
 *
 * Only the first and the last block are searched for `inc_rc` and `dec_rc`:
 * `dec_rc` is issued only at the end of a function and only for parameters,
 * so no state has to be merged across control flow. The whole function is
 * still searched for `array_set`s.
 */
module PairedRc {
  import opened Wrappers
  import opened Types
  import opened Ir
  import opened RcSpec

  /** True when some parameter's type contains an array. */
  function AnyContainsAnArray(values: seq<ValueId>, typeOf: ValueId -> Type): (r: bool)
    ensures r <==> exists i :: 0 <= i < |values| && typeOf(values[i]).ContainsAnArray()
    decreases |values|
  {
    if values == [] then false
    else typeOf(values[0]).ContainsAnArray() || AnyContainsAnArray(values[1..], typeOf)
  }

  /** The guard: the pass only runs on functions that take an array. */
  function ContainsArrayParameter(f: Function): (r: bool)
    ensures r <==> exists i :: 0 <= i < |f.parameters| && f.typeOf(f.parameters[i]).ContainsAnArray()
  {
    AnyContainsAnArray(f.parameters, f.typeOf)
  }

  /** The entry block's `inc_rc`s, before any taint. */
  function EntryIncRcs(f: Function, blocks: map<BasicBlockId, seq<InstructionId>>): (r: IncRcTable)
    requires f.HasBlocksOf(blocks)
    ensures forall typ :: Pending(r, typ) == IncRcsOfType(blocks[f.entryBlock], f.instructionOf, f.typeOf, typ)
    ensures KeyedByType(r, f.typeOf)
  {
    PopulateByType(map[], blocks[f.entryBlock], f.instructionOf, f.typeOf);
    PopulateFromEmpty(blocks[f.entryBlock], f.instructionOf, f.typeOf);
    Populate(map[], blocks[f.entryBlock], f.instructionOf, f.typeOf)
  }

  /** The types some reachable `array_set` writes to. */
  function MutatedTypes(f: Function, blocks: map<BasicBlockId, seq<InstructionId>>): (r: set<Type>)
    requires f.HasBlocksOf(blocks)
    ensures forall typ :: typ in r <==>
      exists i, k :: 0 <= i < |f.reachableBlocks| && 0 <= k < |blocks[f.reachableBlocks[i]]| &&
        f.instructionOf(blocks[f.reachableBlocks[i]][k]).ArraySet? &&
        f.typeOf(f.instructionOf(blocks[f.reachableBlocks[i]][k]).arrayValue) == typ
  {
    ReachableArraySetTypesMeaning(f.reachableBlocks, blocks, f.instructionOf, f.typeOf);
    ReachableArraySetTypes(f.reachableBlocks, blocks, f.instructionOf, f.typeOf)
  }

  /** The table the matcher starts from: the entry block's `inc_rc`s after the taint scan. */
  function TaintedIncRcs(f: Function, blocks: map<BasicBlockId, seq<InstructionId>>): (r: IncRcTable)
    requires f.HasBlocksOf(blocks)
    ensures r.Keys == EntryIncRcs(f, blocks).Keys
    ensures forall typ :: typ in r ==> |r[typ]| == |EntryIncRcs(f, blocks)[typ]|
    ensures forall typ, k :: typ in r && 0 <= k < |r[typ]| ==>
      && r[typ][k].id == EntryIncRcs(f, blocks)[typ][k].id
      && r[typ][k].arrayValue == EntryIncRcs(f, blocks)[typ][k].arrayValue
      && (r[typ][k].possiblyMutated <==> typ in MutatedTypes(f, blocks))
  {
    PopulateFromEmpty(blocks[f.entryBlock], f.instructionOf, f.typeOf);
    MarkMutated(EntryIncRcs(f, blocks), MutatedTypes(f, blocks))
  }

  /** The instructions the pass deletes from a function whose blocks are `blocks`. */
  function RemovalSet(f: Function, blocks: map<BasicBlockId, seq<InstructionId>>): set<InstructionId>
    requires f.HasBlocksOf(blocks)
  {
    Match(MatchState(TaintedIncRcs(f, blocks), {}), blocks[f.lastBlock],
          f.instructionOf, f.typeOf).toRemove
  }

  /**
   * Every instruction the pass deletes is an `inc_rc` of the entry block or a
   * `dec_rc` of the last block, of a value of a type that no reachable
   * `array_set` writes to.
   */
  lemma RemovalSetOrigins(f: Function, blocks: map<BasicBlockId, seq<InstructionId>>)
    requires f.HasBlocksOf(blocks)
    ensures forall x :: x in RemovalSet(f, blocks) ==>
      && ((x in blocks[f.entryBlock] && f.instructionOf(x).IncrementRc?)
          || (x in blocks[f.lastBlock] && f.instructionOf(x).DecrementRc?))
      && f.typeOf(f.instructionOf(x).value) !in MutatedTypes(f, blocks)
  {
    var entry: IncRcTable := EntryIncRcs(f, blocks);
    var mutated := MutatedTypes(f, blocks);
    var t := TaintedIncRcs(f, blocks);
    var ids := blocks[f.lastBlock];
    PopulateFromEmpty(blocks[f.entryBlock], f.instructionOf, f.typeOf);
    MatchRemovesUntaintedPairs(t, ids, f.instructionOf, f.typeOf);
    PairingsAreDecrements(t, ids, f.instructionOf, f.typeOf);
    PairingsFromTable(t, ids, f.instructionOf, f.typeOf);
    var ps := Pairings(t, ids, f.instructionOf, f.typeOf);
    forall x | x in RemovalSet(f, blocks)
      ensures (x in blocks[f.entryBlock] && f.instructionOf(x).IncrementRc?)
              || (x in blocks[f.lastBlock] && f.instructionOf(x).DecrementRc?)
      ensures f.typeOf(f.instructionOf(x).value) !in mutated
    {
      var k :| 0 <= k < |ps| && !ps[k].inc.possiblyMutated && (x == ps[k].inc.id || x == ps[k].dec);
      var rc: RcInstruction := ps[k].inc;
      var typ: Type := f.typeOf(rc.arrayValue);
      var j :| 0 <= j < |t[typ]| && t[typ][j] == rc;
      assert entry[typ][j].id == rc.id && entry[typ][j].arrayValue == rc.arrayValue;
    }
  }

  /**
   * Conservativeness: an `array_set` anywhere in a reachable block, before or
   * after the pair, keeps every `inc_rc` and `dec_rc` of a value of the type
   * it writes to.
   */
  lemma ArraySetBlocksRemoval(f: Function, blocks: map<BasicBlockId, seq<InstructionId>>,
                              i: nat, k: nat, x: InstructionId)
    requires f.HasBlocksOf(blocks)
    requires i < |f.reachableBlocks| && k < |blocks[f.reachableBlocks[i]]|
    requires f.instructionOf(blocks[f.reachableBlocks[i]][k]).ArraySet?
    requires f.instructionOf(x).IncrementRc? || f.instructionOf(x).DecrementRc?
    requires f.typeOf(f.instructionOf(x).value)
          == f.typeOf(f.instructionOf(blocks[f.reachableBlocks[i]][k]).arrayValue)
    ensures x !in RemovalSet(f, blocks)
  {
    RemovalSetOrigins(f, blocks);
  }

  /**
   * Removal is by pairs of one value: each deleted `dec_rc` comes with a
   * deleted entry-block `inc_rc` of exactly its value, and each deleted
   * `inc_rc` with a deleted last-block `dec_rc` of exactly its value.
   */
  lemma RemovalSetPairsValues(f: Function, blocks: map<BasicBlockId, seq<InstructionId>>)
    requires f.HasBlocksOf(blocks)
    ensures forall x :: x in RemovalSet(f, blocks) && f.instructionOf(x).DecrementRc? ==>
      exists y :: y in RemovalSet(f, blocks) && y in blocks[f.entryBlock] && f.instructionOf(y) == IncrementRc(f.instructionOf(x).value)
    ensures forall x :: x in RemovalSet(f, blocks) && f.instructionOf(x).IncrementRc? ==>
      exists y :: y in RemovalSet(f, blocks) && y in blocks[f.lastBlock] && f.instructionOf(y) == DecrementRc(f.instructionOf(x).value)
  {
    var entry: IncRcTable := EntryIncRcs(f, blocks);
    var t := TaintedIncRcs(f, blocks);
    var ids := blocks[f.lastBlock];
    var removed := RemovalSet(f, blocks);
    PopulateFromEmpty(blocks[f.entryBlock], f.instructionOf, f.typeOf);
    MatchRemovesUntaintedPairs(t, ids, f.instructionOf, f.typeOf);
    PairingsAreDecrements(t, ids, f.instructionOf, f.typeOf);
    PairingsFromTable(t, ids, f.instructionOf, f.typeOf);
    var ps := Pairings(t, ids, f.instructionOf, f.typeOf);
    forall x | x in removed
      ensures f.instructionOf(x).DecrementRc? ==>
        exists y :: y in removed && y in blocks[f.entryBlock] && f.instructionOf(y) == IncrementRc(f.instructionOf(x).value)
      ensures f.instructionOf(x).IncrementRc? ==>
        exists y :: y in removed && y in blocks[f.lastBlock] && f.instructionOf(y) == DecrementRc(f.instructionOf(x).value)
    {
      var k :| 0 <= k < |ps| && !ps[k].inc.possiblyMutated && (x == ps[k].inc.id || x == ps[k].dec);
      var rc: RcInstruction := ps[k].inc;
      var typ: Type := f.typeOf(rc.arrayValue);
      var j :| 0 <= j < |t[typ]| && t[typ][j] == rc;
      assert entry[typ][j].id == rc.id && entry[typ][j].arrayValue == rc.arrayValue;
      assert ps[k].inc.id in removed && ps[k].dec in removed;
      assert f.instructionOf(rc.id) == IncrementRc(rc.arrayValue);
      assert f.instructionOf(ps[k].dec) == DecrementRc(rc.arrayValue);
    }
  }

  /**
   * Completeness: an entry-block `inc_rc` and a last-block `dec_rc` of one
   * value both survive only when some reachable `array_set` writes to that
   * value's type.
   */
  lemma SurvivingPairIsTainted(f: Function, blocks: map<BasicBlockId, seq<InstructionId>>, i: InstructionId, d: InstructionId)
    requires f.HasBlocksOf(blocks)
    requires i in blocks[f.entryBlock] && f.instructionOf(i).IncrementRc?
    requires d in blocks[f.lastBlock] && f.instructionOf(d) == DecrementRc(f.instructionOf(i).value)
    requires i !in RemovalSet(f, blocks) && d !in RemovalSet(f, blocks)
    ensures f.typeOf(f.instructionOf(i).value) in MutatedTypes(f, blocks)
  {
    var v := f.instructionOf(i).value;
    var typ: Type := f.typeOf(v);
    if typ !in MutatedTypes(f, blocks) {
      var entryIds := blocks[f.entryBlock];
      var lastIds := blocks[f.lastBlock];
      var entry: IncRcTable := EntryIncRcs(f, blocks);
      var t: IncRcTable := TaintedIncRcs(f, blocks);
      PopulateByType(map[], entryIds, f.instructionOf, f.typeOf);
      PopulateFromEmpty(entryIds, f.instructionOf, f.typeOf);
      var ki :| 0 <= ki < |entryIds| && entryIds[ki] == i;
      var rec := RcInstruction(i, v, false);
      IncRcsOfTypeMeaning(entryIds, f.instructionOf, f.typeOf, typ);
      assert rec in IncRcsOfType(entryIds, f.instructionOf, f.typeOf, typ);
      assert typ in entry && rec in entry[typ];
      assert t[typ] == entry[typ];
      assert forall r :: r in t[typ] ==> !r.possiblyMutated;
      var st := MatchState(t, {});
      MatchKeepsUnremoved(st, lastIds, f.instructionOf, f.typeOf, typ, rec);
      MatchExhaustsUnremoved(st, lastIds, f.instructionOf, f.typeOf, typ);
      assert false;
    }
  }

  /** Erasure keeps every `array_set`, so the types written to stay the same or grow. */
  lemma ErasureKeepsMutatedTypes(f: Function, blocks: map<BasicBlockId, seq<InstructionId>>)
    requires f.HasBlocksOf(blocks)
    ensures f.HasBlocksOf(Erase(blocks, f.reachableBlocks, RemovalSet(f, blocks)))
    ensures MutatedTypes(f, blocks) <= MutatedTypes(f, Erase(blocks, f.reachableBlocks, RemovalSet(f, blocks)))
  {
    var removed := RemovalSet(f, blocks);
    var after := Erase(blocks, f.reachableBlocks, removed);
    RemovalSetOrigins(f, blocks);
    forall typ | typ in MutatedTypes(f, blocks)
      ensures typ in MutatedTypes(f, after)
    {
      var i, k :| 0 <= i < |f.reachableBlocks| && 0 <= k < |blocks[f.reachableBlocks[i]]| &&
        f.instructionOf(blocks[f.reachableBlocks[i]][k]).ArraySet? &&
        f.typeOf(f.instructionOf(blocks[f.reachableBlocks[i]][k]).arrayValue) == typ;
      var b := f.reachableBlocks[i];
      var id := blocks[b][k];
      assert id !in removed;
      assert after[b] == Retain(blocks[b], removed);
      RetainMembers(blocks[b], removed);
      assert id in after[b];
      var k' :| 0 <= k' < |after[b]| && after[b][k'] == id;
    }
  }

  /** Each removed instruction belongs to a removed pair of one value of an untainted type. */
  lemma RemovedPair(f: Function, blocks: map<BasicBlockId, seq<InstructionId>>, x: InstructionId)
      returns (i: InstructionId, d: InstructionId)
    requires f.HasBlocksOf(blocks)
    requires x in RemovalSet(f, blocks)
    ensures x == i || x == d
    ensures i in blocks[f.entryBlock] && f.instructionOf(i).IncrementRc?
    ensures d in blocks[f.lastBlock] && f.instructionOf(d) == DecrementRc(f.instructionOf(i).value)
    ensures i in RemovalSet(f, blocks) && d in RemovalSet(f, blocks)
    ensures f.typeOf(f.instructionOf(i).value) !in MutatedTypes(f, blocks)
  {
    RemovalSetOrigins(f, blocks);
    RemovalSetPairsValues(f, blocks);
    if f.instructionOf(x).DecrementRc? {
      d := x;
      i :| i in RemovalSet(f, blocks) && i in blocks[f.entryBlock] && f.instructionOf(i) == IncrementRc(f.instructionOf(x).value);
    } else {
      i := x;
      d :| d in RemovalSet(f, blocks) && d in blocks[f.lastBlock] && f.instructionOf(d) == DecrementRc(f.instructionOf(x).value);
    }
  }

  /** An instruction the pass leaves in place is not removed by a second run. */
  lemma NotRemovedTwice(f: Function, blocks: map<BasicBlockId, seq<InstructionId>>, x: InstructionId)
    requires f.HasBlocksOf(blocks)
    requires f.entryBlock in f.reachableBlocks && f.lastBlock in f.reachableBlocks
    ensures f.HasBlocksOf(Erase(blocks, f.reachableBlocks, RemovalSet(f, blocks)))
    ensures x !in RemovalSet(f, Erase(blocks, f.reachableBlocks, RemovalSet(f, blocks)))
  {
    var removed := RemovalSet(f, blocks);
    var after := Erase(blocks, f.reachableBlocks, removed);
    assert f.HasBlocksOf(after);
    if x in RemovalSet(f, after) {
      var i, d := RemovedPair(f, after, x);
      assert after[f.entryBlock] == Retain(blocks[f.entryBlock], removed);
      assert after[f.lastBlock] == Retain(blocks[f.lastBlock], removed);
      RetainMembers(blocks[f.entryBlock], removed);
      RetainMembers(blocks[f.lastBlock], removed);
      ErasureKeepsMutatedTypes(f, blocks);
      SurvivingPairIsTainted(f, blocks, i, d);
      assert false;
    }
  }

  /**
   * Idempotence: when the entry and the last block are reachable, a second
   * run of the pass on its own output finds nothing more to remove and
   * changes nothing.
   */
  lemma RemovalIdempotent(f: Function, blocks: map<BasicBlockId, seq<InstructionId>>)
    requires f.HasBlocksOf(blocks)
    requires f.entryBlock in f.reachableBlocks && f.lastBlock in f.reachableBlocks
    ensures f.HasBlocksOf(Erase(blocks, f.reachableBlocks, RemovalSet(f, blocks)))
    ensures RemovalSet(f, Erase(blocks, f.reachableBlocks, RemovalSet(f, blocks))) == {}
    ensures var after := Erase(blocks, f.reachableBlocks, RemovalSet(f, blocks));
      Erase(after, f.reachableBlocks, RemovalSet(f, after)) == after
  {
    var after := Erase(blocks, f.reachableBlocks, RemovalSet(f, blocks));
    forall x
      ensures x !in RemovalSet(f, after)
    {
      NotRemovedTwice(f, blocks, x);
    }
    EraseNothing(after, f.reachableBlocks);
  }

  /** The per-function analysis state: the pending-increment table. */
  class Context {
    var incRcs: IncRcTable

    constructor ()
      ensures incRcs == map[]
    {
      incRcs := map[];
    }

    /** Records every `inc_rc` of the entry block, untainted, under its value's type. */
    method FindRcsInEntryBlock(f: Function)
      requires f.Valid()
      modifies this
      ensures incRcs == Populate(old(incRcs), f.blocks[f.entryBlock], f.instructionOf, f.typeOf)
    {
      var ids := f.blocks[f.entryBlock];
      for i := 0 to |ids|
        invariant incRcs == Populate(old(incRcs), ids[..i], f.instructionOf, f.typeOf)
      {
        var instruction := ids[i];
        match f.instructionOf(instruction) {
          case IncrementRc(value) =>
            var typ := f.typeOf(value);
            var incRc := RcInstruction(instruction, value, false);
            incRcs := incRcs[typ := (if typ in incRcs then incRcs[typ] else []) + [incRc]];
          case _ =>
        }
        assert ids[..i + 1][..i] == ids[..i];
      }
      assert ids[..|ids|] == ids;
    }

    /** Taints every pending record of type `typ`. */
    method MarkPossiblyMutated(typ: Type)
      modifies this
      ensures incRcs == MarkMutated(old(incRcs), {typ})
    {
      MarkMutatedOne(incRcs, typ);
      if typ in incRcs {
        var rcs := incRcs[typ];
        for k := 0 to |rcs|
          invariant |rcs| == |incRcs[typ]|
          invariant forall j :: 0 <= j < |rcs| ==>
            rcs[j] == if j < k then incRcs[typ][j].(possiblyMutated := true) else incRcs[typ][j]
        {
          rcs := rcs[k := rcs[k].(possiblyMutated := true)];
        }
        assert rcs == MarkAll(incRcs[typ]);
        incRcs := incRcs[typ := rcs];
      }
    }

    /** Taints, for every reachable `array_set`, all pending records of the type it writes to. */
    method ScanForArraySets(f: Function)
      requires f.Valid()
      modifies this
      ensures incRcs == MarkMutated(old(incRcs), MutatedTypes(f, f.blocks))
    {
      ghost var start := incRcs;
      MarkMutatedNothing(start);
      var bs := f.reachableBlocks;
      for i := 0 to |bs|
        invariant incRcs == MarkMutated(start, ReachableArraySetTypes(bs[..i], f.blocks, f.instructionOf, f.typeOf))
      {
        ReachableArraySetTypesStep(bs, i, f.blocks, f.instructionOf, f.typeOf);
        MarkMutatedTwice(start, ReachableArraySetTypes(bs[..i], f.blocks, f.instructionOf, f.typeOf),
                         ArraySetTypes(f.blocks[bs[i]], f.instructionOf, f.typeOf));
        ScanBlockForArraySets(f, f.blocks[bs[i]]);
      }
      assert bs[..|bs|] == bs;
    }

    /** The body of the scan for one block: taints the types its `array_set`s write to. */
    method ScanBlockForArraySets(f: Function, ids: seq<InstructionId>)
      modifies this
      ensures incRcs == MarkMutated(old(incRcs), ArraySetTypes(ids, f.instructionOf, f.typeOf))
    {
      ghost var start := incRcs;
      MarkMutatedNothing(start);
      for j := 0 to |ids|
        invariant incRcs == MarkMutated(start, ArraySetTypes(ids[..j], f.instructionOf, f.typeOf))
      {
        ArraySetTypesStep(ids, j, f.instructionOf, f.typeOf);
        match f.instructionOf(ids[j]) {
          case ArraySet(arrayValue, _, _) =>
            var typ := f.typeOf(arrayValue);
            MarkMutatedTwice(start, ArraySetTypes(ids[..j], f.instructionOf, f.typeOf), {typ});
            MarkPossiblyMutated(typ);
          case _ =>
        }
      }
      assert ids[..|ids|] == ids;
    }

    /**
     * Pairs each `dec_rc` of the last block with the first pending `inc_rc` of
     * the same value and returns both halves of every untainted pair.
     */
    method FindRcsToRemove(f: Function) returns (toRemove: set<InstructionId>)
      requires f.Valid()
      modifies this
      ensures MatchState(incRcs, toRemove)
           == Match(MatchState(old(incRcs), {}), f.blocks[f.lastBlock], f.instructionOf, f.typeOf)
    {
      var ids := f.blocks[f.lastBlock];
      toRemove := {};
      for i := 0 to |ids|
        invariant MatchState(incRcs, toRemove)
               == Match(MatchState(old(incRcs), {}), ids[..i], f.instructionOf, f.typeOf)
      {
        var instruction := ids[i];
        match f.instructionOf(instruction) {
          case DecrementRc(value) =>
            var incRc, rest := PopRcFor(value, f, incRcs);
            incRcs := rest;
            if incRc.Some? && !incRc.value.possiblyMutated {
              toRemove := toRemove + {incRc.value.id, instruction};
            }
          case _ =>
        }
        assert ids[..i + 1][..i] == ids[..i];
      }
      assert ids[..|ids|] == ids;
    }
  }

  /**
   * Finds the first pending record for exactly `value` in the list of its
   * type and takes it out; returns it with the table that remains.
   */
  method PopRcFor(value: ValueId, f: Function, incRcs: IncRcTable)
    returns (popped: Option<RcInstruction>, remaining: IncRcTable)
    ensures (popped, remaining) == PopRc(value, f.typeOf, incRcs)
  {
    var typ := f.typeOf(value);
    if typ !in incRcs {
      return None, incRcs;
    }
    var rcs := incRcs[typ];
    var position := 0;
    while position < |rcs| && rcs[position].arrayValue != value
      invariant position <= |rcs|
      invariant forall j :: 0 <= j < position ==> rcs[j].arrayValue != value
    {
      position := position + 1;
    }
    if position == |rcs| {
      return None, incRcs;
    }
    popped := Some(rcs[position]);
    remaining := incRcs[typ := rcs[..position] + rcs[position + 1..]];
  }

  /** Deletes the chosen instructions from every reachable block, keeping the rest in order. */
  method RemoveInstructions(toRemove: set<InstructionId>, f: Function)
    requires f.Valid()
    modifies f
    ensures f.Valid()
    ensures f.blocks == Erase(old(f.blocks), f.reachableBlocks, toRemove)
  {
    if toRemove == {} {
      EraseNothing(f.blocks, f.reachableBlocks);
      return;
    }
    var bs := f.reachableBlocks;
    for i := 0 to |bs|
      invariant f.blocks == Erase(old(f.blocks), bs[..i], toRemove)
    {
      var block := bs[i];
      EraseStep(old(f.blocks), f.blocks, bs, i, toRemove);
      f.blocks := f.blocks[block := Retain(f.blocks[block], toRemove)];
    }
    assert bs[..|bs|] == bs;
  }

  /**
   * The pass on one function: no change when no parameter carries an array;
   * otherwise the blocks lose exactly the removal set.
   */
  method RemovePairedRc(f: Function)
    requires f.Valid()
    modifies f
    ensures f.Valid()
    ensures !ContainsArrayParameter(f) ==> f.blocks == old(f.blocks)
    ensures ContainsArrayParameter(f) ==>
      f.blocks == Erase(old(f.blocks), f.reachableBlocks, RemovalSet(f, old(f.blocks)))
  {
    if !ContainsArrayParameter(f) {
      return;
    }
    var context := new Context();
    context.FindRcsInEntryBlock(f);
    context.ScanForArraySets(f);
    var toRemove := context.FindRcsToRemove(f);
    RemoveInstructions(toRemove, f);
  }

  /** Running the pass a second time changes nothing more than the first run did. */
  method RemovePairedRcTwice(f: Function)
    requires f.Valid()
    requires f.entryBlock in f.reachableBlocks && f.lastBlock in f.reachableBlocks
    modifies f
    ensures f.Valid()
    ensures !ContainsArrayParameter(f) ==> f.blocks == old(f.blocks)
    ensures ContainsArrayParameter(f) ==>
      f.blocks == Erase(old(f.blocks), f.reachableBlocks, RemovalSet(f, old(f.blocks)))
  {
    ghost var before := f.blocks;
    RemovePairedRc(f);
    if ContainsArrayParameter(f) {
      RemovalIdempotent(f, before);
    }
    RemovePairedRc(f);
  }
}
