/** Basic blocks and what running them does.
    A block ends at its first terminator: whatever the compiler appends after it is never reached.
 */
module BlockMachine {
  import opened Completions

  datatype Operand = Const(value: Value) | Reg(r: nat)

  /** The comparison bit a conditional branch tests. */
  datatype Compare = Bit(bit: bool) | IsFalsy(op: Operand)

  datatype Instr =
    | EvalTo(r: nat, id: int)              // call an operation, keep its result
    | StoreReason(reason: int)             // cleanup_reason := reason
    | StoreReturn(op: Operand)             // returnValue := op
    | Br(target: nat)
    | CondBr(cmp: Compare, ifSet: nat, ifClear: nat)
    | CaseBr(discriminant: Operand, test: Operand, ifDifferent: nat, ifEqual: nat)
    | SwitchReason(otherwise: nat, arms: seq<(int, nat)>)
    | Ret(op: Operand)
    | RetStored                            // return the stored return value

  type Code = seq<seq<Instr>>

  datatype Config =
    | Running(block: nat, pc: nat, trace: Trace, reason: int, returnValue: Value, regs: map<nat, Value>)
    | Halted(value: Value, trace: Trace)
    | Stuck                                // ran past the end of a block, or into no block

  function OperandValue(op: Operand, regs: map<nat, Value>): Value {
    match op
    case Const(v) => v
    case Reg(r) => if r in regs then regs[r] else Undefined
  }

  predicate CompareBit(cmp: Compare, regs: map<nat, Value>) {
    match cmp
    case Bit(b) => b
    case IsFalsy(op) => !Truthy(OperandValue(op, regs))
  }

  function ArmTarget(arms: seq<(int, nat)>, reason: int, otherwise: nat): nat {
    if arms == [] then otherwise
    else if arms[0].0 == reason then arms[0].1
    else ArmTarget(arms[1..], reason, otherwise)
  }

  function Jump(c: Config, b: nat): Config
    requires c.Running?
  {
    c.(block := b, pc := 0)
  }

  function Next(c: Config): Config
    requires c.Running?
  {
    c.(pc := c.pc + 1)
  }

  function Step(g: Code, o: Oracle, c: Config): Config {
    if !c.Running? then c
    else if c.block >= |g| || c.pc >= |g[c.block]| then Stuck
    else
      match g[c.block][c.pc]
      case EvalTo(r, id) => Next(c.(regs := c.regs[r := o.call(id, c.trace)], trace := c.trace + [id]))
      case StoreReason(k) => Next(c.(reason := k))
      case StoreReturn(op) => Next(c.(returnValue := OperandValue(op, c.regs)))
      case Br(b) => Jump(c, b)
      case CondBr(cmp, b1, b0) => Jump(c, if CompareBit(cmp, c.regs) then b1 else b0)
      case CaseBr(d, v, b0, b1) =>
        Jump(c, if o.strictlyEqual(OperandValue(d, c.regs), OperandValue(v, c.regs)) then b1 else b0)
      case SwitchReason(b, arms) => Jump(c, ArmTarget(arms, c.reason, b))
      case Ret(op) => Halted(OperandValue(op, c.regs), c.trace)
      case RetStored => Halted(c.returnValue, c.trace)
  }

  function Run(g: Code, o: Oracle, c: Config, n: nat): Config
    decreases n
  {
    if n == 0 then c else Run(g, o, Step(g, o, c), n - 1)
  }

  lemma {:induction false} RunAdd(g: Code, o: Oracle, c: Config, m: nat, n: nat)
    ensures Run(g, o, c, 0) == c
    ensures Run(g, o, Run(g, o, c, m), n) == Run(g, o, c, m + n)
    decreases m
  {
    if m > 0 {
      RunAdd(g, o, Step(g, o, c), m - 1, n);
    }
  }

  /** A configuration that has stopped stays as it is. */
  lemma {:induction false} RunStopped(g: Code, o: Oracle, c: Config, n: nat)
    requires !c.Running?
    ensures Run(g, o, c, n) == c
  {
    if n > 0 {
      RunStopped(g, o, c, n - 1);
    }
  }
}
