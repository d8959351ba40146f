/**
 Which addresses the policy cares about (godefroid/policies.py:98-116 and 244-263, godefroid/policy_map.py:33-97): what
 a load or store at any address marks and notes, and where the two ideas of its ranges differ.
 */
module PolicyBounds {
  import opened Bits
  import opened FlatMemory
  import opened PageTables
  import opened InputPolicy
  import opened PolicyMap

  // The ends of both ranges count as inside.
  predicate Cared(p: Policy, addr: int) {
    p.start <= addr <= p.end || p.pointersStart <= addr <= p.pointersEnd
  }

  // A load that succeeds marks all its bytes read, and no other, if the policy cares about its address; and otherwise
  // changes nothing at all.
  lemma LoadMarks(s: MapState, addr: int, size: nat, random: seq<byte>)
    ensures
      var r := LoadOf(s, addr, size, random);
      !Cared(s.policy, addr) ==>
        r.state == s && r.value == Some(PySlice(s.data, addr - s.base, addr - s.base + size))
    ensures
      var r := LoadOf(s, addr, size, random);
      r.value.Some? ==>
        && (forall b, k :: k in MarksAt(r.state.marks, b) <==>
              k in MarksAt(s.marks, b) || (Cared(s.policy, addr) && addr <= b < addr + size && k == WasRead))
        && r.state.policy.outputs == s.policy.outputs && r.state.base == s.base
        && ((forall b :: addr <= b < addr + size ==> WasWritten in MarksAt(s.marks, b)) ==>
              r.state.policy == s.policy && r.state.data == s.data)
  {
    hide Discover, PyAssign, PySlice;
    PolicyKeepsOutputs(s.policy, addr, size, PySlice(s.data, addr - s.base, addr - s.base + size), random, []);
  }

  // A store that succeeds marks all its bytes written, and no other, and is noted as an output, if the policy cares
  // about its address; and otherwise changes data only. It never changes what is known of inputs and pointers.
  lemma StoreMarks(s: MapState, addr: int, size: nat, bs: seq<byte>)
    ensures
      var r := StoreOf(s, addr, size, bs);
      r.value.Some? ==>
        && (forall b, k :: k in MarksAt(r.state.marks, b) <==>
              k in MarksAt(s.marks, b) || (Cared(s.policy, addr) && addr <= b < addr + size && k == WasWritten))
        && r.state.policy == s.policy.(
             outputs := if Cared(s.policy, addr) then s.policy.outputs[addr := size] else s.policy.outputs)
        && r.state.base == s.base
  {
    hide PyAssign, PySlice, StoreFrom, SomeLacks;
  }

  // A computed address at the end of a range is not taken to be in it, though a load from it is: the two agree
  // everywhere but there.
  lemma RangesDisagree(p: Policy, addr: int)
    requires addr !in p.inputs && CheckRange(p, addr).value.Some?
    ensures CheckRange(p, addr).value.value ==> Cared(p, addr)
    ensures Cared(p, addr) && !CheckRange(p, addr).value.value <==>
      || (addr == p.end && p.start <= p.end && !(p.pointersStart <= addr < p.pointersEnd))
      || (addr == p.pointersEnd && p.pointersStart <= p.pointersEnd && !(p.start <= addr < p.end))
  {
  }
}
