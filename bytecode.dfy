/** The inet_diag bytecode that the program hands to the kernel, and the
    kernel's interpreter for it as src/tcp_closer.h describes it: the length
    counter starts at the filter's byte length, every operation subtracts its
    `yes` or `no` offset from the counter and adds it to the cursor, the loop
    runs while the counter is positive, and the filter accepts iff the
    counter ends at exactly zero. */
module Bytecode {
  import opened Bytes
  import opened Wrappers

  /** sizeof(struct inet_diag_bc_op): code (u8), yes (u8), no (u16). */
  const OP_SIZE: nat := 4

  /** The combined source/destination port limit. */
  const MAX_NUM_PORTS: nat := 8191

  /** The largest value of the 16-bit `no` field, used to abort the loop. */
  const ABORT_OFFSET: nat := 0xFFFF

  /** The operation codes the program emits, a subset of the kernel's enum. */
  datatype OpCode = Nop | SGe | SLe | DGe | DLe

  function CodeByte(c: OpCode): byte
  {
    match c
    case Nop => 0
    case SGe => 2
    case SLe => 3
    case DGe => 4
    case DLe => 5
  }

  function CodeOfByte(b: byte): (r: Option<OpCode>)
    ensures r.Some? ==> CodeByte(r.value) == b
  {
    if b == 0 then Some(Nop)
    else if b == 2 then Some(SGe)
    else if b == 3 then Some(SLe)
    else if b == 4 then Some(DGe)
    else if b == 5 then Some(DLe)
    else None
  }

  /** struct inet_diag_bc_op; the field types carry the C widths. */
  datatype BcOp = BcOp(code: OpCode, yes: byte, no: u16)

  /** The all-zero operation calloc leaves in a fresh filter buffer. */
  const ZERO_OP := BcOp(Nop, 0, 0)

  predicate IsCompare(op: BcOp)
  {
    op.code != Nop
  }

  function EncodeOp(op: BcOp): (r: seq<byte>)
    ensures |r| == OP_SIZE as int
  {
    [CodeByte(op.code), op.yes] + Le16(op.no)
  }

  /** The filter as the bytes in memory (diag_filter, diag_filter_len long). */
  function Encode(ops: seq<BcOp>): (r: seq<byte>)
    ensures |r| == OP_SIZE * |ops|
  {
    if ops == [] then [] else EncodeOp(ops[0]) + Encode(ops[1..])
  }

  function Decode(bs: seq<byte>): Option<seq<BcOp>>
    decreases |bs|
  {
    if bs == [] then Some([])
    else if |bs| < OP_SIZE then None
    else
      match (CodeOfByte(bs[0]), Decode(bs[OP_SIZE..]))
      case (Some(c), Some(rest)) => Some([BcOp(c, bs[1], Le16At(bs, 2))] + rest)
      case _ => None
  }

  /** Decoding the bytes of a filter gives back its operations. */
  lemma {:induction false} DecodeEncode(ops: seq<BcOp>)
    ensures Decode(Encode(ops)) == Some(ops)
  {
    if ops != [] {
      var bs := Encode(ops);
      assert bs[OP_SIZE..] == Encode(ops[1..]);
      assert bs[2..4] == Le16(ops[0].no);
      Le16Read(bs, 2, ops[0].no);
      assert bs[0] == CodeByte(ops[0].code) && bs[1] == ops[0].yes;
      assert CodeOfByte(bs[0]) == Some(ops[0].code);
      DecodeEncode(ops[1..]);
      assert Decode(bs) == Some([BcOp(ops[0].code, bs[1], Le16At(bs, 2))] + ops[1..]);
      assert [ops[0]] + ops[1..] == ops;
    }
  }

  /** The outcome of running a filter. Hang: an offset of zero leaves the
      interpreter's state unchanged, so the kernel loop never ends. Fault:
      the cursor is not on an operation, or a comparison has no operand
      operation after it. */
  datatype Verdict = Accept | Reject | Hang | Fault

  /** Whether operation i takes its `yes` branch; a comparison reads the port
      it compares against from the `no` field of the next operation. */
  function Taken(prog: seq<BcOp>, i: nat, sport: int, dport: int): Option<bool>
    requires i < |prog|
  {
    if prog[i].code == Nop then Some(true)
    else if i + 1 >= |prog| then None
    else
      var operand := prog[i + 1].no;
      match prog[i].code
      case SGe => Some(sport >= operand)
      case SLe => Some(sport <= operand)
      case DGe => Some(dport >= operand)
      case DLe => Some(dport <= operand)
  }

  /** The kernel's loop from byte offset `cursor` with counter `len`. */
  function Run(prog: seq<BcOp>, sport: int, dport: int, cursor: int, len: int): Verdict
    decreases if len < 0 then 0 else len
  {
    if len <= 0 then (if len == 0 then Accept else Reject)
    else if cursor < 0 || cursor % OP_SIZE != 0 || cursor / OP_SIZE >= |prog| then Fault
    else
      var i := cursor / OP_SIZE;
      match Taken(prog, i, sport, dport)
      case None => Fault
      case Some(yes) =>
        var off := if yes then prog[i].yes else prog[i].no;
        if off == 0 then Hang else Run(prog, sport, dport, cursor + off, len - off)
  }

  /** A connection with these ports passes the filter. */
  function Accepts(prog: seq<BcOp>, sport: int, dport: int): Verdict
  {
    Run(prog, sport, dport, 0, OP_SIZE * |prog|)
  }

  /** Jumping by ABORT_OFFSET from byte offset pos of a filter `total` bytes
      long drives the counter negative. */
  predicate AbortsFrom(total: int, pos: int)
  {
    total - pos - ABORT_OFFSET < 0
  }

  /** The abort jump works from every operation of the filter. */
  ghost predicate AbortAlwaysWorks(total: int)
  {
    forall pos :: 0 <= pos < total ==> AbortsFrom(total, pos)
  }

  /** The abort jump works from everywhere exactly when the filter is at most
      0xFFFF - 1 bytes long, the limit the header states. */
  lemma AbortAlwaysWorksIff(total: int)
    ensures AbortAlwaysWorks(total) <==> total <= ABORT_OFFSET - 1
  {
    if total > ABORT_OFFSET - 1 {
      assert !AbortsFrom(total, 0);
    }
  }

  /** The header's own arithmetic: at 8 bytes per port, MAX_NUM_PORTS ports
      stay within 0xFFFF - 1 bytes, and one port more does not. */
  lemma HeaderArithmetic()
    ensures AbortAlwaysWorks(2 * OP_SIZE * MAX_NUM_PORTS)
    ensures !AbortAlwaysWorks(2 * OP_SIZE * (MAX_NUM_PORTS + 1))
  {
    AbortAlwaysWorksIff(2 * OP_SIZE * MAX_NUM_PORTS);
    AbortAlwaysWorksIff(2 * OP_SIZE * (MAX_NUM_PORTS + 1));
  }

  /** Taking the abort jump from inside a filter small enough rejects. */
  lemma AbortRejects(prog: seq<BcOp>, sport: int, dport: int, pos: int)
    requires 0 <= pos < OP_SIZE * |prog| && AbortAlwaysWorks(OP_SIZE * |prog|)
    ensures Run(prog, sport, dport, pos + ABORT_OFFSET, OP_SIZE * |prog| - pos - ABORT_OFFSET) == Reject
  {
    assert AbortsFrom(OP_SIZE * |prog|, pos);
  }
}
