/**
 Renaming the stack pointer for native execution. The host cannot run an instruction on the user's
 stack pointer, so explicit mentions of it are renamed to a general register that the instruction
 leaves alone, which is copied back afterwards.
 */
module StackAlias {
  import opened Bits
  import opened FlatMemory
  import opened Machine
  import opened Isa
  import opened Locality

  function FirstFree(used: set<RegId>): Option<RegId> {
    if RAX !in used then Some(RAX)
    else if RCX !in used then Some(RCX)
    else if RDX !in used then Some(RDX)
    else if RBX !in used then Some(RBX)
    else None
  }

  lemma FirstFreeIsAlias(inst: Inst, used: set<RegId>)
    requires used == {RIP} + UsedIds(inst)
    ensures FirstFree(used) == AliasFor(inst)
    ensures FirstFree(used).Some? ==> FirstFree(used).value !in used && FirstFree(used).value != RSP
  {
  }

  // The alias is scaled to the width of the operand it replaces.
  function Rename(op: RegOperand, alias: Option<RegId>): RegOperand {
    if op.explicit && op.reg.id == RSP && alias.Some? then op.(reg := Reg(alias.value, op.reg.part)) else op
  }

  function RenameAll(ops: seq<RegOperand>, alias: Option<RegId>): (r: seq<RegOperand>)
    ensures |r| == |ops| && forall i :: 0 <= i < |ops| ==> r[i] == Rename(ops[i], alias)
  {
    if ops == [] then [] else RenameAll(ops[..|ops| - 1], alias) + [Rename(ops[|ops| - 1], alias)]
  }

  lemma NoMention()
    ensures !MentionsStackPointer([])
  {
  }

  lemma MentionedThere(ops: seq<RegOperand>, i: nat)
    requires i < |ops| && ops[i].explicit && ops[i].reg.id == RSP
    ensures MentionsStackPointer(ops)
  {
  }

  lemma RenamedPrefix(ops: seq<RegOperand>, i: nat, before: Option<RegId>, after: Option<RegId>)
    requires i < |ops| && (before == after || (before == None && !MentionsStackPointer(ops[..i])))
    ensures RenameAll(ops[..i], before) + [Rename(ops[i], after)] == RenameAll(ops[..i + 1], after)
    ensures MentionsStackPointer(ops[..i + 1]) <==>
      MentionsStackPointer(ops[..i]) || (ops[i].explicit && ops[i].reg.id == RSP)
  {
    hide MentionsStackPointer, Rename;
    assert ops[..i + 1][..i] == ops[..i];
    if before != after {
      NothingToRename(ops[..i], before);
      NothingToRename(ops[..i], after);
    }
    MentionedBefore(ops[..i + 1]);
    MentionedLast(ops[..i + 1]);
  }

  lemma MentionedLast(ops: seq<RegOperand>)
    requires ops != []
    ensures
      var op := ops[|ops| - 1];
      MentionsStackPointer(ops) ==> MentionsStackPointer(ops[..|ops| - 1]) || (op.explicit && op.reg.id == RSP)
    ensures
      var op := ops[|ops| - 1];
      op.explicit && op.reg.id == RSP ==> MentionsStackPointer(ops)
  {
    var init := ops[..|ops| - 1];
    forall j | 0 <= j < |ops| && ops[j].explicit && ops[j].reg.id == RSP
      ensures j == |ops| - 1 || MentionsStackPointer(init)
    {
      if j < |ops| - 1 {
        MentionedThere(init, j);
      }
    }
  }

  // The instruction that is encoded and run on the host.
  function Renamed(inst: Inst): Inst {
    inst.(regs := RenameAll(inst.regs, AliasFor(inst)))
  }

  // The host's instructions are functions of their operands' values: renaming the stack pointer to a register
  // that is not used changes neither whether they can be encoded nor what they compute.
  ghost predicate OperandFunctional(m: Machine) {
    && (forall inst :: m.encodes(Renamed(inst)) == m.encodes(inst))
    && forall inst, nin :: m.native(Renamed(inst), nin) == m.native(inst, nin)
  }

  lemma MentionedBefore(ops: seq<RegOperand>)
    requires ops != []
    ensures MentionsStackPointer(ops[..|ops| - 1]) ==> MentionsStackPointer(ops)
  {
    var init := ops[..|ops| - 1];
    forall j | 0 <= j < |init| && init[j].explicit && init[j].reg.id == RSP
      ensures MentionsStackPointer(ops)
    {
      MentionedThere(ops, j);
    }
  }

  lemma {:induction false} NothingToRename(ops: seq<RegOperand>, alias: Option<RegId>)
    requires !MentionsStackPointer(ops)
    ensures RenameAll(ops, alias) == ops
  {
    if ops != [] {
      MentionedBefore(ops);
      NothingToRename(ops[..|ops| - 1], alias);
    }
  }

  lemma RenamedIs(m: Machine, inst: Inst, nin: NativeIn)
    requires OperandFunctional(m)
    ensures m.encodes(Renamed(inst)) == m.encodes(inst) && m.native(Renamed(inst), nin) == m.native(inst, nin)
  {
  }

  // The registers as the instruction sees them while the stack pointer lives in its alias.
  function Unalias(regs: Regs, alias: Option<RegId>): Regs {
    if alias.Some? then regs[RSP := regs[alias.value]] else regs
  }

  // Operands that can be renamed: all mentions of the stack pointer are explicit, and none of the alias.
  ghost predicate Renamable(ops: seq<RegOperand>, alias: Option<RegId>, u: set<RegId>) {
    && (forall i :: 0 <= i < |ops| ==> ops[i].reg.id in u && (ops[i].explicit || ops[i].reg.id != RSP))
    && (alias.Some? ==> alias.value !in u && alias.value != RSP)
  }

  lemma NativeOperands(inst: Inst, a: AddrSize, u: set<RegId>, alias: Option<RegId>)
    requires Decoded(inst, a) && inst.form.Native? && u == {RIP} + UsedIds(inst)
    ensures (alias.Some? ==> alias.value !in u && alias.value != RSP) ==> Renamable(inst.regs, alias, u)
    ensures forall i :: 0 <= i < |inst.regs| ==> PartFits(inst.regs[i].reg, a)
    ensures Covers(inst, u)
  {
  }

  lemma {:induction false} RenamedValues(ops: seq<RegOperand>, alias: Option<RegId>, u: set<RegId>, regs: Regs)
    requires Renamable(ops, alias, u)
    ensures OperandValues(regs, RenameAll(ops, alias)) == OperandValues(Unalias(regs, alias), ops)
  {
    if ops != [] {
      hide Slice;
      var last := |ops| - 1;
      RenamedValues(ops[..last], alias, u, regs);
      assert RenameAll(ops, alias)[..last] == RenameAll(ops[..last], alias);
    }
  }

  lemma RenamedPut(a: AddrSize, op: RegOperand, alias: Option<RegId>, u: set<RegId>, regs: Regs, want: Regs, v: Word)
    requires op.reg.id in u && (op.explicit || op.reg.id != RSP)
    requires alias.Some? ==> alias.value !in u && alias.value != RSP
    requires AgreeRegs(Unalias(regs, alias), want, u)
    ensures AgreeRegs(Unalias(Put(a, regs, Rename(op, alias).reg, v), alias), Put(a, want, op.reg, v), u)
  {
    hide Splice, Wrap;
  }

  lemma {:induction false} RenamedResults(a: AddrSize, ops: seq<RegOperand>, alias: Option<RegId>, u: set<RegId>,
                                          regs: Regs, vs: seq<Word>)
    requires Renamable(ops, alias, u) && |vs| == |ops|
    ensures AgreeRegs(Unalias(PutResults(a, regs, RenameAll(ops, alias), vs), alias),
                      PutResults(a, Unalias(regs, alias), ops, vs), u)
  {
    if ops != [] {
      hide Put;
      var last := |ops| - 1;
      var renamed := RenameAll(ops, alias);
      assert renamed[..last] == RenameAll(ops[..last], alias);
      RenamedResults(a, ops[..last], alias, u, regs, vs[..last]);
      var done := PutResults(a, regs, renamed[..last], vs[..last]);
      RenamedPut(a, ops[last], alias, u, done, PutResults(a, Unalias(regs, alias), ops[..last], vs[..last]), vs[last]);
    }
  }

  // Renaming preserves meaning: run on a cache where a free register holds the stack pointer, the
  // renamed instruction reads the values of the original and, once the alias is copied back, leaves
  // every register the original uses, and the stack pointer, as the original would. The alias is
  // not a register of the instruction.
  lemma RenamingPreserves(a: AddrSize, inst: Inst, regs: Regs, vs: seq<Word>)
    requires Decoded(inst, a) && inst.form.Native? && AliasFor(inst).Some? && |vs| == |inst.regs|
    ensures
      var alias := AliasFor(inst).value;
      var renamed := RenameAll(inst.regs, Some(alias));
      var cache := regs[alias := regs[RSP]];
      var after := PutResults(a, cache, renamed, vs);
      && alias !in UsedIds(inst)
      && OperandValues(cache, renamed) == OperandValues(regs, inst.regs)
      && AgreeRegs(after[RSP := after[alias]], PutResults(a, regs, inst.regs, vs), UsedIds(inst) + {RSP})
      && RSP !in RegIds(renamed)
  {
    hide UsedIds, AliasFor, PutResults, OperandValues, RenameAll, RegIds, AgreeRegs;
    var alias := AliasFor(inst).value;
    var u := UsedIds(inst) + {RSP};
    var cache := regs[alias := regs[RSP]];
    assert forall i :: 0 <= i < |inst.regs| ==> inst.regs[i].reg.id in u by { OperandsAreUsed(inst); }
    RenamedValues(inst.regs, Some(alias), u, cache);
    RenamedResults(a, inst.regs, Some(alias), u, cache, vs);
    UnaliasedCache(regs, alias, u);
    ValuesLocal(inst.regs, Unalias(cache, Some(alias)), regs, u);
    ResultsLocal(a, inst.regs, vs, Unalias(cache, Some(alias)), regs, u);
    AgreeTransitive(Unalias(PutResults(a, cache, RenameAll(inst.regs, Some(alias)), vs), Some(alias)),
                    PutResults(a, Unalias(cache, Some(alias)), inst.regs, vs), PutResults(a, regs, inst.regs, vs), u);
    RenamedAway(inst.regs, alias);
  }

  lemma UnaliasedCache(regs: Regs, alias: RegId, u: set<RegId>)
    requires alias !in u
    ensures AgreeRegs(Unalias(regs[alias := regs[RSP]], Some(alias)), regs, u)
  {
  }

  lemma AgreeTransitive(s: Regs, t: Regs, r: Regs, u: set<RegId>)
    requires AgreeRegs(s, t, u) && AgreeRegs(t, r, u)
    ensures AgreeRegs(s, r, u)
  {
  }

  lemma OperandsAreUsed(inst: Inst)
    ensures forall i :: 0 <= i < |inst.regs| ==> inst.regs[i].reg.id in UsedIds(inst)
  {
  }

  lemma {:induction false} RenamedAway(ops: seq<RegOperand>, alias: RegId)
    requires alias != RSP
    requires forall i :: 0 <= i < |ops| ==> ops[i].explicit || ops[i].reg.id != RSP
    ensures RSP !in RegIds(RenameAll(ops, Some(alias)))
  {
    if ops != [] {
      RenamedAway(ops[..|ops| - 1], alias);
      var renamed := RenameAll(ops, Some(alias));
      assert renamed[..|ops| - 1] == RenameAll(ops[..|ops| - 1], Some(alias));
    }
  }
}
