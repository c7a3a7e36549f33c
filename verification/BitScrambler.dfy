/** Encoding of BitScrambler instructions and lookup tables. */
module BitScrambler {
  import opened Basics
  import opened BitStream

  // ------------------------------------------------------------------ opcodes

  /** Bitwise or. */
  function Or(a: nat, b: nat): nat
    decreases a, b
  {
    if a == 0 then b else if b == 0 then a
    else (if a % 2 == 1 || b % 2 == 1 then 1 else 0) + 2 * Or(a / 2, b / 2)
  }

  /** Setting a clear bit adds it. */
  lemma {:induction false} OrBit(a: nat, k: nat)
    requires a / Pow2(k) % 2 == 0
    ensures Or(a, Pow2(k)) == a + Pow2(k)
  {
    if a != 0 {
      if k == 0 {
        assert Pow2(0) == 1;
        assert Or(a, 1) == 1 + 2 * Or(a / 2, 0);
      } else {
        var p := Pow2(k - 1);
        assert a / 2 / p == a / (2 * p) by { DivTwice(a, p); }
        OrBit(a / 2, k - 1);
      }
    }
  }

  lemma DivTwice(a: nat, p: nat)
    requires p > 0
    ensures a / 2 / p == a / (2 * p)
  {
    var q := a / 2 / p;
    assert a / 2 == q * p + a / 2 % p;
    assert 2 * (q * p) == q * (2 * p);
    Arithmetic.DivUnique(a, q, 2 * (a / 2 % p) + a % 2, 2 * p);
  }

  /** Numbers without common bits, one below and one at or above bit `k`. */
  lemma {:induction false} OrDisjoint(hi: nat, lo: nat, k: nat)
    requires lo < Pow2(k)
    ensures Or(hi * Pow2(k), lo) == hi * Pow2(k) + lo == Or(lo, hi * Pow2(k))
  {
    if k > 0 && lo != 0 && hi != 0 {
      var p := Pow2(k - 1);
      var a := hi * Pow2(k);
      assert a == 2 * (hi * p);
      assert hi * p > 0;
      OrDisjoint(hi, lo / 2, k - 1);
      assert a % 2 == 0 && a / 2 == hi * p;
    } else if k == 0 {
      assert lo == 0;
    }
  }

  /** Bits of the instruction that an input needs in a certain state. */
  datatype Flags = Flags(relAddr: Option<bool>, ctrSel: Option<bool>, lutSel: Option<bool>)

  /** A selected input: its number and the flags it needs. */
  datatype Input = Input(number: nat, flags: Flags)

  /** The operations the assembler produces, with their operands. */
  datatype Op =
    | Loop(c: bool, endVal: nat, ctrAdd: nat, target: nat)
    | Add(c: bool, h: bool, l: bool, value: nat)
    | If(negated: bool, cond: Input, target: nat)
    | LoadDirect(c: bool, h: bool, l: bool, value: nat)
    | LoadInput(c: bool, h: bool, l: bool)
    | AddInput(c: bool, h: bool, l: bool)

  const OP_LOOP: nat := 0x2000000
  const OP_ADD: nat := 0x0000000
  const OP_IF: nat := 0x0010000
  const OP_IFN: nat := 0x0020000
  const OP_LDCTD: nat := 0x0030000
  const OP_LDCTI: nat := 0x0040000
  const OP_ADDCTI: nat := 0x0050000

  /** Operands as the assembler limits them; a jump target is any instruction number. */
  predicate OpOk(op: Op) {
    match op
    case Loop(_, endVal, ctrAdd, _) => endVal < 0x10000 && ctrAdd < 32
    case Add(_, _, _, value) => value < 0x10000
    case If(_, cond, _) => cond.number < 128
    case LoadDirect(_, _, _, value) => value < 0x10000
    case _ => true
  }

  function Target(op: Op): nat { if op.Loop? || op.If? then op.target else 0 }

  /** `opcode | (bit << k)`. */
  function OrFlag(opcode: nat, b: bool, k: nat): nat { Or(opcode, if b then Pow2(k) else 0) }

  function OrHalves(opcode: nat, c: bool, h: bool, l: bool): nat {
    OrFlag(OrFlag(OrFlag(opcode, c, 24), h, 23), l, 22)
  }

  /** The opcode word, put together as in the source. */
  function Opcode(op: Op): nat {
    match op
    case Loop(c, endVal, ctrAdd, target) =>
      Or(Or(Or(OrFlag(OP_LOOP, c, 24), target * Pow2(21)), endVal * Pow2(5)), ctrAdd)
    case Add(c, h, l, value) => Or(OrHalves(OP_ADD, c, h, l), value)
    case If(negated, cond, target) => Or(Or(if negated then OP_IFN else OP_IF, target * Pow2(21)), cond.number)
    case LoadDirect(c, h, l, value) => Or(OrHalves(OP_LDCTD, c, h, l), value)
    case LoadInput(c, h, l) => OrHalves(OP_LDCTI, c, h, l)
    case AddInput(c, h, l) => OrHalves(OP_ADDCTI, c, h, l)
  }

  /** What an opcode word means; only the number of a condition input is in it. */
  datatype Code =
    | CLoop(c: bool, endVal: nat, ctrAdd: nat, target: nat)
    | CAdd(c: bool, h: bool, l: bool, value: nat)
    | CIf(negated: bool, input: nat, target: nat)
    | CLoadDirect(c: bool, h: bool, l: bool, value: nat)
    | CLoadInput(c: bool, h: bool, l: bool)
    | CAddInput(c: bool, h: bool, l: bool)
    | CUnknown

  function Meaning(op: Op): Code {
    match op
    case Loop(c, endVal, ctrAdd, target) => CLoop(c, endVal, ctrAdd, target)
    case Add(c, h, l, value) => CAdd(c, h, l, value)
    case If(negated, cond, target) => CIf(negated, cond.number, target)
    case LoadDirect(c, h, l, value) => CLoadDirect(c, h, l, value)
    case LoadInput(c, h, l) => CLoadInput(c, h, l)
    case AddInput(c, h, l) => CAddInput(c, h, l)
  }

  /** A decoder by bit positions of the 26-bit field. */
  function DecodeOp(w: nat): Code {
    var c, h, l := w / 0x1000000 % 2 == 1, w / 0x800000 % 2 == 1, w / 0x400000 % 2 == 1;
    var target, kind, low := w / 0x200000 % 8, w / 0x10000 % 8, w % 0x10000;
    if w / 0x2000000 % 2 == 1 then CLoop(c, w / 32 % 0x10000, w % 32, target)
    else if kind == 0 then CAdd(c, h, l, low)
    else if kind == 1 then CIf(false, w % 128, target)
    else if kind == 2 then CIf(true, w % 128, target)
    else if kind == 3 then CLoadDirect(c, h, l, low)
    else if kind == 4 then CLoadInput(c, h, l)
    else if kind == 5 then CAddInput(c, h, l)
    else CUnknown
  }

  function B(b: bool): nat { if b then 1 else 0 }

  ghost function HalvesWord(kind: nat, c: bool, h: bool, l: bool, value: nat): nat {
    kind * 0x10000 + B(c) * 0x1000000 + B(h) * 0x800000 + B(l) * 0x400000 + value
  }

  ghost function LoopWord(c: bool, endVal: nat, ctrAdd: nat, target: nat): nat {
    OP_LOOP + B(c) * 0x1000000 + target * 0x200000 + endVal * 32 + ctrAdd
  }

  ghost function IfWord(negated: bool, input: nat, target: nat): nat {
    (if negated then OP_IFN else OP_IF) + target * 0x200000 + input
  }

  lemma PowersOfTwo()
    ensures Pow2(1) == 2 && Pow2(2) == 4 && Pow2(5) == 32 && Pow2(7) == 128 && Pow2(16) == 0x10000
    ensures Pow2(21) == 0x200000 && Pow2(22) == 0x400000 && Pow2(23) == 0x800000
    ensures Pow2(24) == 0x1000000 && Pow2(25) == 0x2000000 && Pow2(26) == 0x4000000
  {}

  lemma OrZero(a: nat)
    ensures Or(a, 0) == a
  {}

  lemma OrFlagAdds(a: nat, b: bool, k: nat)
    requires a / Pow2(k) % 2 == 0
    ensures OrFlag(a, b, k) == a + B(b) * Pow2(k)
  {
    if b { OrBit(a, k); } else { OrZero(a); }
  }

  lemma HalfC(op: nat, c: bool)
    requires op < 0x400000
    ensures OrFlag(op, c, 24) == op + B(c) * 0x1000000
  {
    PowersOfTwo();
    OrFlagAdds(op, c, 24);
  }

  lemma HalfH(op: nat, c: nat, h: bool)
    requires op < 0x400000 && c < 2
    ensures OrFlag(op + c * 0x1000000, h, 23) == op + c * 0x1000000 + B(h) * 0x800000
  {
    PowersOfTwo();
    OrFlagAdds(op + c * 0x1000000, h, 23);
  }

  lemma HalfL(op: nat, c: nat, h: nat, l: bool)
    requires op < 0x400000 && c < 2 && h < 2
    ensures OrFlag(op + c * 0x1000000 + h * 0x800000, l, 22) == op + c * 0x1000000 + h * 0x800000 + B(l) * 0x400000
  {
    PowersOfTwo();
    OrFlagAdds(op + c * 0x1000000 + h * 0x800000, l, 22);
  }

  lemma HalvesAdd(op: nat, c: bool, h: bool, l: bool)
    requires op < 0x400000
    ensures OrHalves(op, c, h, l) == op + B(c) * 0x1000000 + B(h) * 0x800000 + B(l) * 0x400000
  {
    HalfC(op, c);
    HalfH(op, B(c), h);
    HalfL(op, B(c), B(h), l);
  }

  lemma HalvesOnly(kind: nat, c: bool, h: bool, l: bool)
    requires kind < 8
    ensures OrHalves(kind * 0x10000, c, h, l) == HalvesWord(kind, c, h, l, 0)
  {
    HalvesAdd(kind * 0x10000, c, h, l);
  }

  lemma HalvesValue(kind: nat, c: bool, h: bool, l: bool, value: nat)
    requires kind < 8 && value < 0x10000
    ensures Or(OrHalves(kind * 0x10000, c, h, l), value)
            == HalvesWord(kind, c, h, l, value)
  {
    HalvesAdd(kind * 0x10000, c, h, l);
    PowersOfTwo();
    OrDisjoint(kind + B(c) * 0x100 + B(h) * 0x80 + B(l) * 0x40, value, 16);
  }

  lemma LoopHighAdds(c: bool, target: nat)
    requires target < 8
    ensures Or(OrFlag(OP_LOOP, c, 24), target * Pow2(21)) == (16 + B(c) * 8 + target) * 0x200000
  {
    PowersOfTwo();
    OrFlagAdds(OP_LOOP, c, 24);
    OrDisjoint(2 + B(c), target * 0x200000, 24);
  }

  lemma LoopMidAdds(high: nat, endVal: nat)
    requires endVal < 0x10000
    ensures Or(high * 0x200000, endVal * Pow2(5)) == (high * 0x10000 + endVal) * 32
  {
    PowersOfTwo();
    OrDisjoint(high, endVal * 32, 21);
  }

  lemma LoopLowAdds(mid: nat, ctrAdd: nat)
    requires ctrAdd < 32
    ensures Or(mid * 32, ctrAdd) == mid * 32 + ctrAdd
  {
    PowersOfTwo();
    OrDisjoint(mid, ctrAdd, 5);
  }

  lemma LoopAdds(c: bool, endVal: nat, ctrAdd: nat, target: nat)
    requires endVal < 0x10000 && ctrAdd < 32 && target < 8
    ensures Opcode(Loop(c, endVal, ctrAdd, target)) == LoopWord(c, endVal, ctrAdd, target)
  {
    var high := 16 + B(c) * 8 + target;
    LoopHighAdds(c, target);
    LoopMidAdds(high, endVal);
    LoopLowAdds(high * 0x10000 + endVal, ctrAdd);
  }

  lemma IfHighAdds(kind: nat, target: nat)
    requires kind < 8 && target < 8
    ensures Or(kind * 0x10000, target * Pow2(21)) == (target * 0x4000 + kind * 512) * 128
  {
    PowersOfTwo();
    OrDisjoint(target, kind * 0x10000, 21);
  }

  lemma IfLowAdds(high: nat, input: nat)
    requires input < 128
    ensures Or(high * 128, input) == high * 128 + input
  {
    PowersOfTwo();
    OrDisjoint(high, input, 7);
  }

  lemma IfAdds(negated: bool, cond: Input, target: nat)
    requires cond.number < 128 && target < 8
    ensures Opcode(If(negated, cond, target)) == IfWord(negated, cond.number, target)
  {
    var kind := if negated then 2 else 1;
    IfHighAdds(kind, target);
    IfLowAdds(target * 0x4000 + kind * 512, cond.number);
  }

  lemma DecodeLoop(c: bool, endVal: nat, ctrAdd: nat, target: nat)
    requires endVal < 0x10000 && ctrAdd < 32 && target < 8
    ensures var w := LoopWord(c, endVal, ctrAdd, target);
            w < 0x4000000 && DecodeOp(w) == CLoop(c, endVal, ctrAdd, target)
  {
    var w := LoopWord(c, endVal, ctrAdd, target);
    assert w / 0x2000000 == 1;
    assert w / 0x1000000 == 2 + B(c);
    assert w / 0x200000 == 16 + B(c) * 8 + target;
    assert w / 32 == (16 + B(c) * 8 + target) * 0x10000 + endVal;
  }

  lemma DecodeIf(negated: bool, input: nat, target: nat)
    requires input < 128 && target < 8
    ensures var w := IfWord(negated, input, target);
            w < 0x2000000 && DecodeOp(w) == CIf(negated, input, target)
  {
    var kind := if negated then 2 else 1;
    var w := kind * 0x10000 + target * 0x200000 + input;
    assert w / 0x10000 == target * 32 + kind;
    assert w / 0x200000 == target;
  }

  /** The fields of a word whose operation has counter halves. */
  lemma HalvesFields(kind: nat, c: bool, h: bool, l: bool, value: nat)
    requires kind < 8 && value < 0x10000
    ensures var w := HalvesWord(kind, c, h, l, value);
            && w < 0x2000000 && w % 0x10000 == value && w / 0x10000 % 8 == kind
            && w / 0x1000000 % 2 == B(c) && w / 0x800000 % 2 == B(h) && w / 0x400000 % 2 == B(l)
  {
    var w := HalvesWord(kind, c, h, l, value);
    assert w / 0x1000000 == B(c);
    assert w / 0x800000 == 2 * B(c) + B(h);
    assert w / 0x400000 == 4 * B(c) + 2 * B(h) + B(l);
    assert w / 0x10000 == (4 * B(c) + 2 * B(h) + B(l)) * 64 + kind;
  }

  lemma DecodeHalves(kind: nat, c: bool, h: bool, l: bool, value: nat)
    requires kind in {0, 3, 4, 5} && value < 0x10000
    ensures var w := HalvesWord(kind, c, h, l, value);
            && w < 0x2000000
            && DecodeOp(w) == (if kind == 0 then CAdd(c, h, l, value)
                               else if kind == 3 then CLoadDirect(c, h, l, value)
                               else if kind == 4 then CLoadInput(c, h, l)
                               else CAddInput(c, h, l))
  {
    HalvesFields(kind, c, h, l, value);
  }

  /** The opcode word as a sum of its parts. */
  ghost function Word(op: Op): nat {
    match op
    case Loop(c, endVal, ctrAdd, target) => LoopWord(c, endVal, ctrAdd, target)
    case Add(c, h, l, value) => HalvesWord(0, c, h, l, value)
    case If(negated, cond, target) => IfWord(negated, cond.number, target)
    case LoadDirect(c, h, l, value) => HalvesWord(3, c, h, l, value)
    case LoadInput(c, h, l) => HalvesWord(4, c, h, l, 0)
    case AddInput(c, h, l) => HalvesWord(5, c, h, l, 0)
  }

  lemma JumpIsWord(op: Op)
    requires OpOk(op) && (op.Loop? || op.If?) && op.target < 8
    ensures Opcode(op) == Word(op)
  {
    match op
    case Loop(c, endVal, ctrAdd, target) => LoopAdds(c, endVal, ctrAdd, target);
    case If(negated, cond, target) => IfAdds(negated, cond, target);
  }

  lemma ValueOpIsWord(op: Op)
    requires OpOk(op) && (op.Add? || op.LoadDirect?)
    ensures Opcode(op) == Word(op)
  {
    match op
    case Add(c, h, l, value) => HalvesValue(0, c, h, l, value);
    case LoadDirect(c, h, l, value) => HalvesValue(3, c, h, l, value);
  }

  lemma InputOpIsWord(op: Op)
    requires OpOk(op) && (op.LoadInput? || op.AddInput?)
    ensures Opcode(op) == Word(op)
  {
    match op
    case LoadInput(c, h, l) => HalvesOnly(4, c, h, l);
    case AddInput(c, h, l) => HalvesOnly(5, c, h, l);
  }

  lemma OpcodeIsWord(op: Op)
    requires OpOk(op) && Target(op) < 8
    ensures Opcode(op) == Word(op)
  {
    if op.Add? || op.LoadDirect? {
      ValueOpIsWord(op);
    } else if op.LoadInput? || op.AddInput? {
      InputOpIsWord(op);
    } else {
      JumpIsWord(op);
    }
  }

  lemma DecodeWord(op: Op)
    requires OpOk(op) && Target(op) < 8
    ensures Word(op) < 0x4000000 && DecodeOp(Word(op)) == Meaning(op)
  {
    match op
    case Loop(c, endVal, ctrAdd, target) => DecodeLoop(c, endVal, ctrAdd, target);
    case Add(c, h, l, value) => DecodeHalves(0, c, h, l, value);
    case If(negated, cond, target) => DecodeIf(negated, cond.number, target);
    case LoadDirect(c, h, l, value) => DecodeHalves(3, c, h, l, value);
    case LoadInput(c, h, l) => DecodeHalves(4, c, h, l, 0);
    case AddInput(c, h, l) => DecodeHalves(5, c, h, l, 0);
  }

  /** No 26-bit word means a jump to a target of more than three bits. */
  lemma WideTargetIsLost(op: Op, w: nat)
    requires Target(op) >= 8
    ensures DecodeOp(w) != Meaning(op)
  {}

  /** An opcode fits its 26-bit field and is decoded to what was meant, exactly when the jump target
      fits its three bits.  A label behind the eighth instruction has number 8 and does not. */
  lemma DecodeOpIff(op: Op)
    requires OpOk(op)
    ensures DecodeOp(Opcode(op) % Pow2(26)) == Meaning(op) <==> Target(op) < 8
  {
    if Target(op) >= 8 {
      WideTargetIsLost(op, Opcode(op) % Pow2(26));
    } else {
      OpcodeIsWord(op);
      DecodeWord(op);
      SmallWord(Word(op));
    }
  }

  lemma SmallWord(w: nat)
    requires w < 0x4000000
    ensures w % Pow2(26) == w
  {
    PowersOfTwo();
  }

  // ------------------------------------------------------------------ agreement of flags

  predicate Clash<T(==)>(a: Option<T>, b: Option<T>) { a.Some? && b.Some? && a.value != b.value }

  /** The check that two inputs can be used in one instruction. */
  predicate Compatible(a: Input, b: Input) {
    && !Clash(a.flags.relAddr, b.flags.relAddr)
    && !Clash(a.flags.ctrSel, b.flags.ctrSel)
    && !Clash(a.flags.lutSel, b.flags.lutSel)
  }

  /** The three instruction bits. */
  datatype Bits3 = Bits3(relAddr: bool, ctrSel: bool, lutSel: bool)

  /** The bits give an input what it needs. */
  predicate Serves(bits: Bits3, x: Input) {
    && (x.flags.relAddr.Some? ==> bits.relAddr == x.flags.relAddr.value)
    && (x.flags.ctrSel.Some? ==> bits.ctrSel == x.flags.ctrSel.value)
    && (x.flags.lutSel.Some? ==> bits.lutSel == x.flags.lutSel.value)
  }

  ghost predicate ServesAll(bits: Bits3, mux: map<nat, Input>) {
    forall i :: 0 <= i < 33 && i in mux ==> Serves(bits, mux[i])
  }

  /** The bits serve all inputs, and each is set only when every serving choice sets it. */
  ghost predicate LeastServing(bits: Bits3, mux: map<nat, Input>) {
    && ServesAll(bits, mux)
    && (forall b :: ServesAll(b, mux) ==>
          (bits.relAddr ==> b.relAddr) && (bits.ctrSel ==> b.ctrSel) && (bits.lutSel ==> b.lutSel))
  }

  function Update(bits: Bits3, x: Input): Bits3 {
    Bits3(if x.flags.relAddr.Some? then x.flags.relAddr.value else bits.relAddr,
          if x.flags.ctrSel.Some? then x.flags.ctrSel.value else bits.ctrSel,
          if x.flags.lutSel.Some? then x.flags.lutSel.value else bits.lutSel)
  }

  /** The nested loops over inputs 0 to 31 and the condition source, number 32: either all inputs can
      be served at once, and the bits found serve them all and are clear where no input asks for
      them, or no bits serve them all. */
  method FindFlags(mux: map<nat, Input>) returns (ok: bool, bits: Bits3)
    ensures ok ==> LeastServing(bits, mux)
    ensures !ok ==> forall b :: !ServesAll(b, mux)
  {
    bits := Bits3(false, false, false);
    ok := true;
    var i := 0;
    while i < 33
      invariant 0 <= i <= 33
      invariant forall k :: 0 <= k < i && k in mux ==> Serves(bits, mux[k])
      invariant forall k, j :: 0 <= k < i && k < j < 33 && k in mux && j in mux ==> Compatible(mux[k], mux[j])
      invariant bits.relAddr ==> exists k :: 0 <= k < i && k in mux && mux[k].flags.relAddr == Some(true)
      invariant bits.ctrSel ==> exists k :: 0 <= k < i && k in mux && mux[k].flags.ctrSel == Some(true)
      invariant bits.lutSel ==> exists k :: 0 <= k < i && k in mux && mux[k].flags.lutSel == Some(true)
    {
      if i in mux {
        var j := i + 1;
        while j < 33
          invariant i < j <= 33
          invariant forall k :: i < k < j && k in mux ==> Compatible(mux[i], mux[k])
        {
          if j in mux && !Compatible(mux[i], mux[j]) {
            forall b ensures !ServesAll(b, mux) {
              assert !Serves(b, mux[i]) || !Serves(b, mux[j]);
            }
            return false, bits;
          }
          j := j + 1;
        }
        bits := Update(bits, mux[i]);
      }
      i := i + 1;
    }
  }

  // ------------------------------------------------------------------ instructions

  /** Selections of the 32 output lines, at most one operation, and the bits read and written. */
  datatype Inst = Inst(mux: map<nat, Input>, op: Option<Op>, read: nat, write: nat)

  /** Mux number of the fixed-low input, which unused lines select. */
  const LOW: nat := 94

  const NOP: Op := Add(false, true, true, 0)

  predicate InstOk(inst: Inst) {
    && (forall i :: i in inst.mux ==> i < 32 && inst.mux[i].number < 128)
    && (inst.op.Some? ==> OpOk(inst.op.value))
    && inst.read in {0, 8, 16, 32} && inst.write in {0, 8, 16, 32}
  }

  function OpOf(inst: Inst): Op { if inst.op.Some? then inst.op.value else NOP }

  /** All inputs that share the three bits: the lines and the condition source. */
  function Inputs(inst: Inst): map<nat, Input> {
    if OpOf(inst).If? then inst.mux[32 := OpOf(inst).cond] else inst.mux
  }

  /** The bits serve every line of the instruction, and the condition of a conditional jump. */
  ghost predicate ServesInst(bits: Bits3, inst: Inst) {
    && (forall i :: 0 <= i < 32 && i in inst.mux ==> Serves(bits, inst.mux[i]))
    && (inst.op.Some? && inst.op.value.If? ==> Serves(bits, inst.op.value.cond))
  }

  /** They do, and each bit is set only when every such choice sets it. */
  ghost predicate LeastForInst(bits: Bits3, inst: Inst) {
    && ServesInst(bits, inst)
    && forall b :: ServesInst(b, inst) ==>
         (bits.relAddr ==> b.relAddr) && (bits.ctrSel ==> b.ctrSel) && (bits.lutSel ==> b.lutSel)
  }

  lemma ServesInputs(bits: Bits3, inst: Inst)
    requires InstOk(inst)
    ensures ServesAll(bits, Inputs(inst)) <==> ServesInst(bits, inst)
  {
    var mux := Inputs(inst);
    assert inst.op.Some? && inst.op.value.If? ==> 32 in mux && mux[32] == inst.op.value.cond;
    assert forall i :: 0 <= i < 32 ==> (i in mux <==> i in inst.mux) && (i in inst.mux ==> mux[i] == inst.mux[i]);
  }

  function Line(inst: Inst, i: nat): nat { if i in inst.mux then inst.mux[i].number else LOW }

  function LinesOf(inst: Inst, n: nat): (ls: seq<nat>)
    ensures |ls| == n
  {
    if n == 0 then [] else LinesOf(inst, n - 1) + [Line(inst, n - 1)]
  }

  function WidthCode(n: nat): nat { if n == 0 then 0 else if n == 8 then 1 else if n == 16 then 2 else 3 }

  function CodeWidth(c: nat): nat { if c == 0 then 0 else if c == 1 then 8 else if c == 2 then 16 else 32 }

  /** The numbers that go into the fields of an instruction. */
  datatype Word257 = Word257(lines: seq<nat>, opcode: nat, read: nat, write: nat, bits: Bits3)

  predicate WordOk(w: Word257) {
    && |w.lines| == 32 && (forall i :: 0 <= i < 32 ==> w.lines[i] < 128)
    && w.read < 4 && w.write < 4
  }

  function WordOf(inst: Inst, bits: Bits3): Word257 {
    Word257(LinesOf(inst, 32), Opcode(OpOf(inst)), WidthCode(inst.read), WidthCode(inst.write), bits)
  }

  lemma {:induction false} LinesOfAt(inst: Inst, n: nat, i: nat)
    requires i < n
    ensures LinesOf(inst, n)[i] == Line(inst, i)
  {
    if i < n - 1 { LinesOfAt(inst, n - 1, i); }
  }

  lemma WordOfOk(inst: Inst, bits: Bits3)
    requires InstOk(inst)
    ensures WordOk(WordOf(inst, bits))
  {
    var w := WordOf(inst, bits);
    forall i | 0 <= i < 32 ensures w.lines[i] < 128 { LinesOfAt(inst, 32, i); }
  }

  /** One 7-bit field per line. */
  function MuxFields(lines: seq<nat>): (fs: seq<Field>)
    ensures |fs| == |lines|
  {
    if lines == [] then [] else MuxFields(lines[..|lines| - 1]) + [Field(lines[|lines| - 1], 7)]
  }

  function TailFields(w: Word257): seq<Field> {
    [Field(w.opcode, 26), Field(w.read, 2), Field(w.write, 2),
     Field(B(w.bits.relAddr), 1), Field(B(w.bits.ctrSel), 1), Field(B(w.bits.lutSel), 1), Field(0, 31)]
  }

  function InstFields(w: Word257): seq<Field> { MuxFields(w.lines) + TailFields(w) }

  datatype EncodeError = InputsClash | InternalSize | TooManyInstructions | FieldRange
  datatype Result<+T> = Ok(value: T) | Err(error: EncodeError)

  method AddFields(s: Stream, ghost before: seq<Field>, fs: seq<Field>)
    requires s.Valid() && s.Bits() == FieldsBits(before)
    modifies s
    ensures s.Valid() && s.Bits() == FieldsBits(before + fs)
  {
    var i := 0;
    assert before + fs[..0] == before;
    while i < |fs|
      invariant 0 <= i <= |fs| && s.Valid() && s.Bits() == FieldsBits(before + fs[..i])
    {
      FieldsBitsSnoc(before + fs[..i], fs[i]);
      assert before + fs[..i] + [fs[i]] == before + fs[..i + 1];
      s.AddBits(fs[i].val, fs[i].width);
      i := i + 1;
    }
    assert fs[..i] == fs;
  }

  lemma {:induction false} MuxOffset(lines: seq<nat>, k: nat)
    requires k <= |lines|
    ensures Offset(MuxFields(lines), k) == 7 * k
    ensures k < |lines| ==> MuxFields(lines)[k] == Field(lines[k], 7)
    decreases |lines|
  {
    if lines != [] {
      var fs, n := MuxFields(lines), |lines| - 1;
      assert fs[..n] == MuxFields(lines[..n]);
      var j := if k <= n then k else n;
      MuxOffset(lines[..n], j);
      OffsetPrefix(fs, n, j);
    }
  }

  /** Where every field of an instruction starts. */
  lemma MuxAt(w: Word257, k: nat)
    requires WordOk(w) && k <= 32
    ensures |InstFields(w)| == 39 && Offset(InstFields(w), k) == 7 * k
    ensures k < 32 ==> InstFields(w)[k] == Field(w.lines[k], 7)
  {
    var fs := InstFields(w);
    assert fs[..32] == MuxFields(w.lines);
    MuxOffset(w.lines, k);
    OffsetPrefix(fs, 32, k);
    assert k < 32 ==> fs[k] == MuxFields(w.lines)[k];
  }

  lemma TailAt(w: Word257)
    requires WordOk(w)
    ensures var fs := InstFields(w);
            && |fs| == 39
            && fs[32] == Field(w.opcode, 26) && Offset(fs, 33) == 250
            && fs[33] == Field(w.read, 2) && Offset(fs, 34) == 252
            && fs[34] == Field(w.write, 2) && Offset(fs, 35) == 254
            && fs[35] == Field(B(w.bits.relAddr), 1) && Offset(fs, 36) == 255
            && fs[36] == Field(B(w.bits.ctrSel), 1) && Offset(fs, 37) == 256
            && fs[37] == Field(B(w.bits.lutSel), 1) && Offset(fs, 38) == 257
            && Offset(fs, 39) == 288
  {
    var fs := InstFields(w);
    MuxAt(w, 32);
    assert Offset(fs, 33) == Offset(fs, 32) + 26;
    assert Offset(fs, 34) == Offset(fs, 33) + 2;
    assert Offset(fs, 35) == Offset(fs, 34) + 2;
    assert Offset(fs, 36) == Offset(fs, 35) + 1;
    assert Offset(fs, 37) == Offset(fs, 36) + 1;
    assert Offset(fs, 38) == Offset(fs, 37) + 1;
    assert Offset(fs, 39) == Offset(fs, 38) + 31;
  }

  lemma InstSizes(w: Word257)
    requires WordOk(w)
    ensures |FieldsBits(InstFields(w))| == 288
    ensures |FieldsBits(InstFields(w)[..38])| == 257
  {
    var fs := InstFields(w);
    TailAt(w);
    ReadBack(fs, 0);
    ReadBack(fs[..38], 0);
    OffsetPrefix(fs, 38, 38);
  }

  /** A stream of whole bytes. */
  lemma WholeBytes(s: Stream)
    requires s.Valid() && |s.Bits()| % 8 == 0
    ensures s.bitpos == 0 && BitsOf(s.data) == s.Bits() && 8 * |s.data| == |s.Bits()|
  {
    s.SizeIsBits();
    ContentWhole(s.data);
    assert FieldBits(s.curbyte, 8)[8..] == FieldBits(0, 8)[8..];
  }

  /** The fields of an instruction as bytes, with the size check of the source. */
  method EncodeWord(w: Word257) returns (res: Result<seq<Byte>>)
    requires WordOk(w)
    ensures res.Ok? && |res.value| == 36 && BitsOf(res.value) == FieldsBits(InstFields(w))
  {
    var s := new Stream();
    ghost var fs := InstFields(w);
    InstSizes(w);
    var tail := TailFields(w);
    assert MuxFields(w.lines) + tail[..6] == fs[..38] && fs[..38] + tail[6..] == fs;
    AddFields(s, [], MuxFields(w.lines));
    assert [] + MuxFields(w.lines) == MuxFields(w.lines);
    AddFields(s, MuxFields(w.lines), tail[..6]);
    s.SizeIsBits();
    if s.Size() != 257 { return Err(InternalSize); }
    AddFields(s, fs[..38], tail[6..]);
    WholeBytes(s);
    res := Ok(s.data);
  }

  /** One instruction.  It is refused exactly when no setting of the three shared bits serves all its
      inputs; otherwise it takes 36 bytes, which hold its fields with bits that serve every input. */
  method EncodeInst(inst: Inst) returns (res: Result<seq<Byte>>, bits: Bits3)
    requires InstOk(inst)
    ensures res == Err(InputsClash) <==> forall b :: !ServesInst(b, inst)
    ensures res.Ok? <==> res != Err(InputsClash)
    ensures res.Ok? ==>
              && LeastForInst(bits, inst)
              && |res.value| == 36 && BitsOf(res.value) == FieldsBits(InstFields(WordOf(inst, bits)))
  {
    forall b: Bits3 ensures ServesAll(b, Inputs(inst)) <==> ServesInst(b, inst) { ServesInputs(b, inst); }
    var ok;
    ok, bits := FindFlags(Inputs(inst));
    if !ok { return Err(InputsClash), bits; }
    WordOfOk(inst, bits);
    res := EncodeWord(WordOf(inst, bits));
  }

  // ------------------------------------------------------------------ decoding

  datatype Decoded = Decoded(lines: seq<nat>, code: Code, read: nat, write: nat, bits: Bits3)

  function Read(b: seq<bool>, from: nat, to: nat): nat
    requires from <= to <= |b|
  {
    Value(b[from..to])
  }

  function Lines(b: seq<bool>, n: nat): (ls: seq<nat>)
    requires 7 * n <= |b|
    ensures |ls| == n
  {
    if n == 0 then [] else Lines(b, n - 1) + [Read(b, 7 * n - 7, 7 * n)]
  }

  /** The field values by bit positions of the 36 bytes of an instruction. */
  function SplitWord(b: seq<bool>): Word257
    requires |b| == 288
  {
    Word257(Lines(b, 32), Read(b, 224, 250), Read(b, 250, 252), Read(b, 252, 254),
            Bits3(Read(b, 254, 255) == 1, Read(b, 255, 256) == 1, Read(b, 256, 257) == 1))
  }

  function DecodeInst(data: seq<Byte>): Decoded
    requires |data| == 36
  {
    var w := SplitWord(BitsOf(data));
    Decoded(w.lines, DecodeOp(w.opcode), CodeWidth(w.read), CodeWidth(w.write), w.bits)
  }

  /** Reading field `k` of the encoded instruction, given where it starts and what it holds. */
  lemma ReadField(w: Word257, k: nat, from: nat, to: nat, f: Field)
    requires WordOk(w) && k < 39 && from <= to <= 288
    requires var fs := InstFields(w); |fs| == 39 && Offset(fs, k) == from && Offset(fs, k + 1) == to && fs[k] == f
    ensures |FieldsBits(InstFields(w))| == 288
    ensures Read(FieldsBits(InstFields(w)), from, to) == f.val % Pow2(f.width)
  {
    InstSizes(w);
    ReadBack(InstFields(w), k);
  }

  lemma SmallField(v: nat, w: nat)
    requires (w == 1 && v < 2) || (w == 2 && v < 4) || (w == 7 && v < 128)
    ensures v % Pow2(w) == v
  {
    PowersOfTwo();
  }

  lemma ReadLine(w: Word257, k: nat)
    requires WordOk(w) && k < 32
    ensures |FieldsBits(InstFields(w))| == 288
    ensures Read(FieldsBits(InstFields(w)), 7 * k, 7 * k + 7) == w.lines[k]
  {
    MuxAt(w, k);
    MuxAt(w, k + 1);
    ReadField(w, k, 7 * k, 7 * k + 7, Field(w.lines[k], 7));
    SmallField(w.lines[k], 7);
  }

  lemma {:induction false} LinesRead(w: Word257, n: nat, b: seq<bool>)
    requires WordOk(w) && n <= 32 && b == FieldsBits(InstFields(w)) && |b| == 288
    ensures Lines(b, n) == w.lines[..n]
  {
    if n > 0 {
      LinesRead(w, n - 1, b);
      ReadLine(w, n - 1);
    }
  }

  lemma TailRead(w: Word257)
    requires WordOk(w)
    ensures var b := FieldsBits(InstFields(w));
            && |b| == 288
            && Read(b, 224, 250) == w.opcode % Pow2(26)
            && Read(b, 250, 252) == w.read && Read(b, 252, 254) == w.write
            && Read(b, 254, 255) == B(w.bits.relAddr) && Read(b, 255, 256) == B(w.bits.ctrSel)
            && Read(b, 256, 257) == B(w.bits.lutSel)
  {
    MuxAt(w, 32);
    TailAt(w);
    ReadField(w, 32, 224, 250, Field(w.opcode, 26));
    ReadField(w, 33, 250, 252, Field(w.read, 2));
    ReadField(w, 34, 252, 254, Field(w.write, 2));
    ReadField(w, 35, 254, 255, Field(B(w.bits.relAddr), 1));
    ReadField(w, 36, 255, 256, Field(B(w.bits.ctrSel), 1));
    ReadField(w, 37, 256, 257, Field(B(w.bits.lutSel), 1));
    SmallField(w.read, 2);
    SmallField(w.write, 2);
    SmallField(B(w.bits.relAddr), 1);
    SmallField(B(w.bits.ctrSel), 1);
    SmallField(B(w.bits.lutSel), 1);
  }

  /** All fields are read back; only the opcode can lose bits. */
  lemma SplitWordReads(w: Word257)
    requires WordOk(w)
    ensures |FieldsBits(InstFields(w))| == 288
    ensures SplitWord(FieldsBits(InstFields(w))) == w.(opcode := w.opcode % Pow2(26))
  {
    var b := FieldsBits(InstFields(w));
    InstSizes(w);
    LinesRead(w, 32, b);
    TailRead(w);
    assert w.lines[..32] == w.lines;
  }

  lemma DecodedWord(w: Word257, data: seq<Byte>)
    requires WordOk(w) && |data| == 36 && BitsOf(data) == FieldsBits(InstFields(w))
    ensures DecodeInst(data)
            == Decoded(w.lines, DecodeOp(w.opcode % Pow2(26)), CodeWidth(w.read), CodeWidth(w.write), w.bits)
  {
    SplitWordReads(w);
  }

  lemma WidthRoundTrip(n: nat)
    requires n in {0, 8, 16, 32}
    ensures CodeWidth(WidthCode(n)) == n
  {}

  /** The inputs with numbers from 64 on that need no shared bit: comparisons, low and high. */
  const AUX: seq<string> := [
    "bl<=o0", "bl>o0", "bl=o0", "bl<=o8", "bl>o8", "bl=o8", "bl<=o16", "bl>o16",
    "bl=o16", "bl<=o24", "bl>o24", "bl=o24", "bh<=o0", "bh>o0", "bh=o0", "bh<=o8",
    "bh>o8", "bh=o8", "bh<=o16", "bh>o16", "bh=o16", "bh<=o24", "bh>o24", "bh=o24",
    "b<=o0", "b>o0", "b=o0", "b<=o16", "b>o16", "b=o16", "l", "h"]

  /** Unused lines select the input called low. */
  lemma LowIsLow()
    ensures |AUX| == 32 && 64 <= LOW < 96 && AUX[LOW - 64] == "l"
  {}

  /** Decoding the bytes of an instruction gives back its selections (the fixed-low input on unused
      lines), widths and shared bits; and its operation exactly when the jump target fits.  An
      instruction without an operation adds zero to both counter halves. */
  lemma DecodeEncodedIff(inst: Inst, bits: Bits3, data: seq<Byte>)
    requires InstOk(inst) && |data| == 36 && BitsOf(data) == FieldsBits(InstFields(WordOf(inst, bits)))
    ensures var d := DecodeInst(data);
            && (forall i :: 0 <= i < 32 ==> d.lines[i] == if i in inst.mux then inst.mux[i].number else LOW)
            && d.read == inst.read && d.write == inst.write && d.bits == bits
            && (inst.op.None? ==> d.code == CAdd(false, true, true, 0))
            && (inst.op.Some? ==> (d.code == Meaning(inst.op.value) <==> Target(inst.op.value) < 8))
  {
    WordOfOk(inst, bits);
    DecodedWord(WordOf(inst, bits), data);
    WidthRoundTrip(inst.read);
    WidthRoundTrip(inst.write);
    forall i | 0 <= i < 32 ensures LinesOf(inst, 32)[i] == Line(inst, i) { LinesOfAt(inst, 32, i); }
    DecodeOpIff(OpOf(inst));
  }
}
