/** The instruction encoding used by the compiler: one opcode byte followed
    by that opcode's fixed-width, big-endian operand. */
module OpCode {
  import opened Results

  type Byte = b: int | 0 <= b < 256

  datatype Opcode =
    | OpConst | OpAdd | OpPop | OpSub | OpMul | OpDiv | OpTrue | OpFalse
    | OpEqual | OpNotEqual | OpGreaterThan | OpMinus | OpBang
    | OpJumpNotTruthy | OpJump | OpNull | OpGetGlobal | OpSetGlobal | OpArray | OpHash

  /** The byte tag of each opcode: its position in the declaration. */
  function OpByte(op: Opcode): (b: Byte)
  {
    match op
    case OpConst => 0
    case OpAdd => 1
    case OpPop => 2
    case OpSub => 3
    case OpMul => 4
    case OpDiv => 5
    case OpTrue => 6
    case OpFalse => 7
    case OpEqual => 8
    case OpNotEqual => 9
    case OpGreaterThan => 10
    case OpMinus => 11
    case OpBang => 12
    case OpJumpNotTruthy => 13
    case OpJump => 14
    case OpNull => 15
    case OpGetGlobal => 16
    case OpSetGlobal => 17
    case OpArray => 18
    case OpHash => 19
  }

  /** cast_u8_to_opcode: the opcode a byte tags, if any. */
  function CastToOpcode(b: Byte): (r: Option<Opcode>)
    ensures r.Some? <==> b < 20
    ensures r.Some? ==> OpByte(r.value) == b
  {
    if b == 0 then Some(OpConst) else if b == 1 then Some(OpAdd)
    else if b == 2 then Some(OpPop) else if b == 3 then Some(OpSub)
    else if b == 4 then Some(OpMul) else if b == 5 then Some(OpDiv)
    else if b == 6 then Some(OpTrue) else if b == 7 then Some(OpFalse)
    else if b == 8 then Some(OpEqual) else if b == 9 then Some(OpNotEqual)
    else if b == 10 then Some(OpGreaterThan) else if b == 11 then Some(OpMinus)
    else if b == 12 then Some(OpBang) else if b == 13 then Some(OpJumpNotTruthy)
    else if b == 14 then Some(OpJump) else if b == 15 then Some(OpNull)
    else if b == 16 then Some(OpGetGlobal) else if b == 17 then Some(OpSetGlobal)
    else if b == 18 then Some(OpArray) else if b == 19 then Some(OpHash)
    else None
  }

  /** Decoding the tag of an opcode gives the opcode back; so tags are distinct. */
  lemma CastOpByte(op: Opcode)
    ensures CastToOpcode(OpByte(op)) == Some(op)
  {
  }

  /** Width in bytes of the operand of each opcode (0 means no operand). */
  function OperandWidth(op: Opcode): (w: nat)
    ensures w == 0 || w == 2
  {
    match op
    case OpConst => 2
    case OpJumpNotTruthy => 2
    case OpJump => 2
    case OpGetGlobal => 2
    case OpSetGlobal => 2
    case OpArray => 2
    case OpHash => 2
    case _ => 0
  }

  function OperandCount(op: Opcode): nat
  {
    if OperandWidth(op) == 0 then 0 else 1
  }

  /** Length in bytes of an encoded instruction. */
  function Size(op: Opcode): (n: nat)
    ensures n == 1 || n == 3
  {
    1 + OperandWidth(op)
  }

  /** The two big-endian bytes of an operand; a usize operand is cut to 16
      bits by the `as u16` conversion. */
  function U16BigEndian(v: nat): (bs: seq<Byte>)
    ensures |bs| == 2
  {
    [(v / 256) % 256, v % 256]
  }

  /** Reads a big-endian 16-bit operand. */
  function ReadU16(ins: seq<Byte>, i: nat): (v: nat)
    requires i + 2 <= |ins|
    ensures v < 65536
  {
    (ins[i] as int) * 256 + (ins[i + 1] as int)
  }

  /** make_instructions. */
  function Make(op: Opcode, operands: seq<nat>): (ins: seq<Byte>)
    requires |operands| == OperandCount(op)
    ensures |ins| == Size(op) && ins[0] == OpByte(op)
  {
    if OperandWidth(op) == 2 then [OpByte(op)] + U16BigEndian(operands[0]) else [OpByte(op)]
  }

  /** The remainder modulo 2^16 is the one r with v == 65536 * q + r and
      0 <= r < 65536. */
  lemma ModOfSplit(v: nat, q: nat, r: nat)
    requires v == 65536 * q + r && r < 65536
    ensures v % 65536 == r
  {
  }

  /** Reading back the two bytes of an operand gives it modulo 2^16. */
  lemma {:induction false} U16RoundTrip(v: nat)
    ensures ReadU16(U16BigEndian(v), 0) == v % 65536
  {
    var a, r := v / 256, v % 256;
    var b, c := a / 256, a % 256;
    assert v == 256 * a + r;
    assert a == 256 * b + c;
    ModOfSplit(v, b, 256 * c + r);
  }

  /** Decoding an encoded instruction gives back its opcode and operand
      (modulo 2^16). */
  lemma DecodeMake(op: Opcode, operands: seq<nat>)
    requires |operands| == OperandCount(op)
    ensures CastToOpcode(Make(op, operands)[0]) == Some(op)
    ensures OperandCount(op) == 1 ==> ReadU16(Make(op, operands), 1) == operands[0] % 65536
  {
    CastOpByte(op);
    if OperandCount(op) == 1 {
      var bs := U16BigEndian(operands[0]);
      U16RoundTrip(operands[0]);
      assert Make(op, operands) == [OpByte(op)] + bs;
      assert ReadU16(Make(op, operands), 1) == ReadU16(bs, 0);
    }
  }
}
