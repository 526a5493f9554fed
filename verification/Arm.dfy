/** Branches of the ARM assembler and emulator (assembler/branch/branch.c, emulator/branch/branch.c). Words and
    bytes are their unsigned values. */
module ArmBranch {
  import opened Powers

  type Byte = x: int | 0 <= x < 0x100
  type Nibble = x: int | 0 <= x < 0x10
  type Word = x: int | 0 <= x < 0x1_0000_0000
  type Int32 = x: int | -0x8000_0000 <= x < 0x8000_0000

  /** An instruction in the order in which the emulator decodes it, most significant byte first. */
  datatype Instruction = Instruction(b0: Byte, b1: Byte, b2: Byte, b3: Byte)

  const PIPELINE_OFFSET: nat := 8

  function Wrap(x: int): Word {
    x % 0x1_0000_0000
  }

  lemma WrapNear(x: int)
    requires -0x1_0000_0000 <= x < 0x2_0000_0000
    ensures Wrap(x) == if x < 0 then x + 0x1_0000_0000 else if x < 0x1_0000_0000 then x else x - 0x1_0000_0000
  {
  }

  /** The bitwise or. */
  function Or(x: nat, y: nat): nat {
    if x == 0 then y
    else if y == 0 then x
    else 2 * Or(x / 2, y / 2) + if x % 2 == 1 || y % 2 == 1 then 1 else 0
  }

  // ---------------------------------------------------------------------------------------------
  // The assembler

  function ComputeOffset(offset: Int32): Word {
    if offset >= 0 then offset / 4
    else SetBit25(Wrap(offset + 0x0200_0000)) / 4
  }

  function SetBit25(x: Word): Word {
    if x / 0x0200_0000 % 2 == 1 then x else x + 0x0200_0000
  }

  /** The instruction before the offset: 101 above bit 24, and the condition on top. */
  function Template(cond: Nibble): Word {
    0x0a00_0000 + cond * 0x1000_0000
  }

  function BranchWord(cond: Nibble, offset: Int32): nat {
    Or(Template(cond), ComputeOffset(offset))
  }

  function BytesOf(word: nat): Instruction {
    Instruction(word / 0x100_0000 % 0x100, word / 0x1_0000 % 0x100, word / 0x100 % 0x100, word % 0x100)
  }

  predicate IsInt32(x: int) {
    -0x8000_0000 <= x < 0x8000_0000
  }

  /** What a branch at one address to another has to add to a program counter that is ahead. */
  function OffsetTo(current: int, destination: int): int {
    destination - current - PIPELINE_OFFSET
  }

  /** assemble_branch puts the word together in place; write_word emits its bytes, the last one first. */
  method AssembleBranch(cond: Nibble, destination: Int32, current: Int32) returns (file: seq<Byte>)
    requires IsInt32(OffsetTo(current, destination))
    ensures |file| == 4
    ensures Instruction(file[3], file[2], file[1], file[0])
         == BytesOf(BranchWord(cond, OffsetTo(current, destination)))
  {
    var instruction: nat := 0x0a00_0000;
    instruction := instruction + cond * 0x1000_0000;
    var offset := destination - current - PIPELINE_OFFSET;
    instruction := Or(instruction, ComputeOffset(offset));
    file := [instruction % 0x100, instruction / 0x100 % 0x100, instruction / 0x1_0000 % 0x100,
             instruction / 0x100_0000 % 0x100];
  }

  // ---------------------------------------------------------------------------------------------
  // The emulator

  /** The last three bytes; they do not overlap. */
  function GetOffset(w: Instruction): nat {
    w.b1 * 0x1_0000 + w.b2 * 0x100 + w.b3
  }

  /** Six copies of bit 25 above an offset of 26 bits. */
  function SignExtended(offset: nat): Word
    requires offset < 0x0400_0000
  {
    if offset / 0x0200_0000 == 1 then 0xfc00_0000 + offset else offset
  }

  /** What execute_branch adds to the program counter. */
  function Displacement(w: Instruction): Word {
    SignExtended(GetOffset(w) * 4)
  }

  /** decode, as far as it tells branches from other instructions. */
  predicate IsBranch(w: Instruction) {
    w.b0 / 4 % 4 == 2
  }

  function Condition(w: Instruction): Nibble {
    w.b0 / 0x10
  }

  /** The offsets an instruction has room for. */
  predicate Reachable(offset: int) {
    offset % 4 == 0 && -0x0200_0000 <= offset < 0x0200_0000
  }

  /** An or works on each part of the words. */
  lemma {:induction false} OrSplits(x: nat, y: nat, k: nat)
    ensures High(Or(x, y), Pow2(k)) == Or(High(x, Pow2(k)), High(y, Pow2(k)))
    ensures Low(Or(x, y), Pow2(k)) == Or(Low(x, Pow2(k)), Low(y, Pow2(k)))
  {
    hide High, Low, Or;
    if k > 0 {
      OrSplits(x / 2, y / 2, k - 1);
      OrHalves(x, y);
      Halved(x, Pow2(k - 1));
      Halved(y, Pow2(k - 1));
      Halved(Or(x, y), Pow2(k - 1));
      OrOfHalves(Low(x / 2, Pow2(k - 1)), Low(y / 2, Pow2(k - 1)), x % 2, y % 2);
    } else {
      Whole(x);
      Whole(y);
      Whole(Or(x, y));
      OrNothing(0);
    }
  }

  lemma OrNothing(y: nat)
    ensures Or(0, y) == y
  {
  }

  lemma OrOfHalves(x: nat, y: nat, a: nat, b: nat)
    requires a < 2 && b < 2
    ensures Or(2 * x + a, 2 * y + b) == 2 * Or(x, y) + if a == 1 || b == 1 then 1 else 0
  {
  }

  lemma Whole(x: nat)
    ensures High(x, 1) == x && Low(x, 1) == 0
  {
  }

  function High(x: nat, n: nat): nat
    requires n > 0
  {
    x / n
  }

  function Low(x: nat, n: nat): (r: nat)
    requires n > 0
  {
    x % n
  }

  lemma OrHalves(x: nat, y: nat)
    ensures Or(x, y) / 2 == Or(x / 2, y / 2)
    ensures Or(x, y) % 2 == if x % 2 == 1 || y % 2 == 1 then 1 else 0
  {
  }

  lemma Times(x: int, y: int, n: nat)
    requires x <= y
    ensures x * n <= y * n
  {
  }

  /** Division with remainder has one answer. */
  lemma UniqueDivision(a: nat, n: nat, q: nat, r: nat)
    requires n > 0 && a == q * n + r && r < n
    ensures a / n == q && a % n == r
  {
    var d, e := a / n, a % n;
    assert a == d * n + e;
    OneQuotient(n, q, r, d, e);
  }

  lemma OneQuotient(n: nat, q: int, r: nat, d: int, e: nat)
    requires r < n && e < n && q * n + r == d * n + e
    ensures q == d && r == e
  {
    if q < d {
      Times(q + 1, d, n);
    } else if q > d {
      Times(d + 1, q, n);
    }
  }

  lemma Halved(x: nat, p: nat)
    requires p > 0
    ensures High(x, 2 * p) == High(x / 2, p)
    ensures Low(x, 2 * p) == 2 * Low(x / 2, p) + x % 2
  {
    var q, r := x / 2 / p, x / 2 % p;
    assert x / 2 == q * p + r;
    assert x == q * (2 * p) + (2 * r + x % 2);
    UniqueDivision(x, 2 * p, q, 2 * r + x % 2);
  }

  lemma Pow2Of24()
    ensures Pow2(24) == 0x100_0000
  {
    assert Pow2(4) == 16;
    assert Pow2(8) == 16 * Pow2(4);
    assert Pow2(12) == 16 * Pow2(8);
    assert Pow2(16) == 16 * Pow2(12);
    assert Pow2(20) == 16 * Pow2(16);
  }

  /** The low 24 bits of the instruction are those of the offset, and the top byte mixes the template with
      what does not fit. */
  lemma WordParts(cond: Nibble, offset: Int32)
    ensures BranchWord(cond, offset) % 0x100_0000 == ComputeOffset(offset) % 0x100_0000
    ensures BranchWord(cond, offset) / 0x100_0000 == Or(10 + 16 * cond, ComputeOffset(offset) / 0x100_0000)
  {
    hide *;
    var field := ComputeOffset(offset);
    Pow2Of24();
    OrSplits(Template(cond), field, 24);
    TemplateParts(cond);
    BranchWordIs(cond, offset);
    OrNothing(field % 0x100_0000);
    PartsOf(Template(cond));
    PartsOf(field);
    PartsOf(Or(Template(cond), field));
  }

  lemma PartsOf(x: nat)
    ensures High(x, 0x100_0000) == x / 0x100_0000 && Low(x, 0x100_0000) == x % 0x100_0000
  {
  }

  lemma TemplateParts(cond: Nibble)
    ensures Template(cond) / 0x100_0000 == 10 + 16 * cond
    ensures Template(cond) % 0x100_0000 == 0
  {
  }

  lemma BranchWordIs(cond: Nibble, offset: Int32)
    ensures BranchWord(cond, offset) == Or(Template(cond), ComputeOffset(offset))
  {
    hide Or, Template, ComputeOffset;
  }

  lemma OffsetOfBytes(word: nat)
    ensures GetOffset(BytesOf(word)) == word % 0x100_0000
  {
    var d0, q := word % 0x100, word / 0x100;
    var d1, p := q % 0x100, q / 0x100;
    var d2, o := p % 0x100, p / 0x100;
    UniqueDivision(word, 0x1_0000, p, d1 * 0x100 + d0);
    UniqueDivision(word, 0x100_0000, o, d2 * 0x1_0000 + d1 * 0x100 + d0);
  }

  /** The emulator moves by the offset that was assembled exactly when there is room for it. */
  lemma BranchRoundTripIff(cond: Nibble, offset: Int32)
    ensures Displacement(BytesOf(BranchWord(cond, offset))) == Wrap(offset) <==> Reachable(offset)
  {
    hide *;
    var w := BytesOf(BranchWord(cond, offset));
    WordParts(cond, offset);
    OffsetOfBytes(BranchWord(cond, offset));
    DisplacementIs(w);
    ComputedOffset(offset);
    Extended(offset, GetOffset(w));
  }

  lemma DisplacementIs(w: Instruction)
    ensures GetOffset(w) < 0x100_0000
    ensures Displacement(w) == SignExtended(GetOffset(w) * 4)
  {
  }

  /** A quarter of the offset, where bit 25 is set if it is negative. */
  lemma ComputedOffset(offset: Int32)
    ensures offset >= 0 ==> ComputeOffset(offset) == offset / 4
    ensures -0x0200_0000 <= offset < 0 ==> ComputeOffset(offset) == (offset + 0x0400_0000) / 4
    ensures offset < 0 ==> ComputeOffset(offset) % 0x100_0000 >= 0x80_0000
  {
    hide Wrap;
    WrapNear(offset + 0x0200_0000);
  }

  lemma Extended(offset: Int32, field: nat)
    requires field < 0x100_0000 && field == ComputeOffset(offset) % 0x100_0000
    requires offset >= 0 ==> ComputeOffset(offset) == offset / 4
    requires -0x0200_0000 <= offset < 0 ==> ComputeOffset(offset) == (offset + 0x0400_0000) / 4
    requires offset < 0 ==> field >= 0x80_0000
    ensures SignExtended(field * 4) == Wrap(offset) <==> Reachable(offset)
  {
    hide Wrap, ComputeOffset;
    WrapNear(offset);
  }

  /** An offset there is room for leaves the instruction a branch, and its condition as it was written. */
  lemma BranchStaysBranch(cond: Nibble, offset: Int32)
    requires Reachable(offset)
    ensures IsBranch(BytesOf(BranchWord(cond, offset)))
    ensures Condition(BytesOf(BranchWord(cond, offset))) == cond
  {
    hide BranchWord, ComputeOffset, Or;
    WordParts(cond, offset);
    ComputedOffset(offset);
    assert ComputeOffset(offset) / 0x100_0000 == 0;
    OrNothingRight(10 + 16 * cond);
  }

  /** The word of the ARM architecture: the condition, 101, a clear link bit, and 24 bits of the number of words
      to go. */
  lemma BranchIsEncoded(cond: Nibble, offset: Int32)
    requires Reachable(offset)
    ensures BranchWord(cond, offset) == cond * 0x1000_0000 + 0xa00_0000 + offset / 4 % 0x100_0000
  {
    hide BranchWord, ComputeOffset, Or;
    WordParts(cond, offset);
    ComputedOffset(offset);
    assert ComputeOffset(offset) / 0x100_0000 == 0;
    OrNothingRight(10 + 16 * cond);
    assert ComputeOffset(offset) == offset / 4 % 0x100_0000;
  }

  lemma OrNothingRight(x: nat)
    ensures Or(x, 0) == x
  {
  }

  /** The smallest offset there is no room for: the branch goes as far back as it should go forward. */
  lemma NearestUnreachable(cond: Nibble)
    ensures !Reachable(0x0200_0000) && forall offset | 0 <= offset < 0x0200_0000 && offset % 4 == 0 :: Reachable(offset)
    ensures Displacement(BytesOf(BranchWord(cond, 0x0200_0000))) == Wrap(-0x0200_0000)
  {
    hide Or, BranchWord, GetOffset, BytesOf;
    WordParts(cond, 0x0200_0000);
    OffsetOfBytes(BranchWord(cond, 0x0200_0000));
  }

  /** Bit 28 of the offset, to which an offset back has had 2^25 added. */
  predicate LeavesBit26(offset: Int32) {
    (if offset >= 0 then offset else offset + 0x0200_0000) / 0x1000_0000 % 2 == 0
  }

  /** Any offset leaves the instruction a branch exactly if it does not set bit 26: among those there is no
      room for, 2^28 and the first one back do set it, and 2^29 does not. */
  lemma StaysBranchIff(cond: Nibble, offset: Int32)
    ensures IsBranch(BytesOf(BranchWord(cond, offset))) <==> LeavesBit26(offset)
    ensures !LeavesBit26(0x1000_0000) && !LeavesBit26(-0x0200_0004) && LeavesBit26(0x2000_0000)
  {
    hide BranchWord, Or, ComputeOffset, IsBranch, BytesOf;
    WordParts(cond, offset);
    TopByte(cond, ComputeOffset(offset) / 0x100_0000);
    Bit26(offset);
    BranchBits(BranchWord(cond, offset));
  }

  lemma BranchBits(word: nat)
    ensures IsBranch(BytesOf(word)) <==> word / 0x100_0000 / 4 % 4 == 2
  {
    TopByteOf(word);
    LowByte(word / 0x100_0000);
    hide BytesOf;
  }

  lemma TopByteOf(word: nat)
    ensures BytesOf(word).b0 == Low(High(word, 0x100_0000), 0x100)
  {
  }

  lemma LowByte(x: nat)
    ensures Low(x, 0x100) / 4 % 4 == x / 4 % 4
  {
    var q, r := x / 0x100, x % 0x100;
    assert x == q * 0x100 + r;
    assert x / 4 == q * 0x40 + r / 4;
  }

  lemma Bit26(offset: Int32)
    ensures ComputeOffset(offset) / 0x100_0000 / 4 % 2 == 0 <==> LeavesBit26(offset)
  {
    hide Wrap, SetBit25;
    var x := Wrap(offset + 0x0200_0000);
    WrapNear(offset + 0x0200_0000);
    if offset >= 0 {
      Bit28(offset);
    } else {
      Bit28(SetBit25(x));
      SetBit25Above(x);
      Around(offset + 0x0200_0000, x);
    }
  }

  lemma Bit28(x: nat)
    ensures x / 4 / 0x100_0000 / 4 == x / 0x1000_0000
  {
  }

  lemma SetBit25Above(x: Word)
    ensures SetBit25(x) / 0x1000_0000 == x / 0x1000_0000
  {
    var q, r := x / 0x0200_0000, x % 0x0200_0000;
    assert x == q * 0x0200_0000 + r;
    assert q % 2 == 0 ==> (q + 1) / 8 == q / 8;
  }

  lemma Around(y: int, x: Word)
    requires x == y || x == y + 0x1_0000_0000
    ensures x / 0x1000_0000 % 2 == y / 0x1000_0000 % 2
  {
  }

  /** Bits 26 and 27 of the instruction, when the offset reaches into the top byte. */
  lemma TopByte(cond: Nibble, x: nat)
    ensures Or(10 + 16 * cond, x) / 4 % 4 == 2 + x / 4 % 2
  {
    hide Or;
    OrQuarters(10 + 16 * cond, x);
    OrHalves(2 + 4 * cond, x / 4);
    OrHalves(1 + 2 * cond, x / 8);
    assert (10 + 16 * cond) / 4 == 2 + 4 * cond && x / 4 / 2 == x / 8;
  }

  lemma OrQuarters(x: nat, y: nat)
    ensures Or(x, y) / 4 == Or(x / 4, y / 4)
  {
    hide Or;
    OrHalves(x, y);
    OrHalves(x / 2, y / 2);
    assert x / 2 / 2 == x / 4 && y / 2 / 2 == y / 4 && Or(x, y) / 2 / 2 == Or(x, y) / 4;
  }
}
