/** The three-stage pipeline of the ARM emulator (emulate.c) beside an interpreter that does one
    instruction at a time. */
module ArmPipeline {
  import opened ArmBranch

  const PC: nat := 15
  const CPSR: nat := 16
  const MEMORY_SIZE: nat := 65536

  type Registers = r: seq<Word> | |r| == 17 witness seq(17, _ => 0)

  type Memory = s: seq<Byte> | |s| == MEMORY_SIZE witness seq(MEMORY_SIZE, _ => 0)

  /** The registers, the memory and the pins. */
  datatype Machine = Machine(registers: Registers, memory: Memory, gpio: seq<Byte>)

  /** What is not modelled further: what the instructions other than branches do, and what reading a word
      outside the memory array gives. */
  datatype World = World(others: (Instruction, Machine) -> Machine, outside: Word -> Instruction)

  function SetPC(m: Machine, at: Word): Machine {
    m.(registers := m.registers[PC := at])
  }

  function Next(at: Word): Word {
    Wrap(at + 4)
  }

  function Ahead(at: Word): Word {
    Wrap(at + 8)
  }

  function Behind(at: Word): Word {
    Wrap(at - 8)
  }

  function Target(at: Word, displacement: Word): Word {
    Wrap(at + displacement)
  }

  lemma Addresses(x: Word, n: Word)
    ensures Behind(Ahead(x)) == x && Ahead(Behind(x)) == x && Next(Next(x)) == Ahead(x)
    ensures Behind(Next(x)) == Next(Behind(x)) && Next(x) != Ahead(x)
    ensures Next(x) == Next(n) <==> x == n
    ensures Behind(x) == Behind(n) <==> x == n
  {
    hide *;
    Forward(x);
    AheadAndBehind(x);
    Back(x);
    Between(x);
    NextIsNotAhead(x);
    NextApart(x, n);
    BehindApart(x, n);
  }

  lemma Forward(x: Word)
    ensures Next(Next(x)) == Ahead(x)
  {
    hide Wrap;
    WrapNear(x + 4);
    WrapNear(Next(x) + 4);
    WrapNear(x + 8);
  }

  lemma AheadAndBehind(x: Word)
    ensures Behind(Ahead(x)) == x
  {
    hide Wrap;
    WrapNear(x + 8);
    WrapNear(Ahead(x) - 8);
  }

  lemma Back(x: Word)
    ensures Ahead(Behind(x)) == x
  {
    hide Wrap;
    WrapNear(x - 8);
    WrapNear(Behind(x) + 8);
  }

  lemma Between(x: Word)
    ensures Behind(Next(x)) == Next(Behind(x))
  {
    hide Wrap;
    WrapNear(x + 4);
    WrapNear(Next(x) - 8);
    WrapNear(x - 8);
    WrapNear(Behind(x) + 4);
  }

  lemma NextIsNotAhead(x: Word)
    ensures Next(x) != Ahead(x)
  {
    hide Wrap;
    WrapNear(x + 4);
    WrapNear(x + 8);
  }

  lemma NextApart(x: Word, n: Word)
    ensures Next(x) == Next(n) <==> x == n
  {
    hide Wrap;
    WrapNear(x + 4);
    WrapNear(n + 4);
  }

  lemma BehindApart(x: Word, n: Word)
    ensures Behind(x) == Behind(n) <==> x == n
  {
    hide Wrap;
    WrapNear(x - 8);
    WrapNear(n - 8);
  }

  /** reverse_instruction. */
  function Decoded(bytes: seq<Byte>): Instruction
    requires |bytes| == 4
  {
    Instruction(bytes[3], bytes[2], bytes[1], bytes[0])
  }

  /** The four bytes at an address, decoded: the last byte is the most significant one. */
  function WordAt(world: World, memory: Memory, at: Word): Instruction {
    if at + 4 <= MEMORY_SIZE then Decoded(memory[at..at + 4]) else world.outside(at)
  }

  /** checkCond: the condition code in the top half of the first byte, against the flags. */
  predicate CheckCond(b: Byte, cpsr: Word) {
    var z := cpsr / 0x4000_0000 % 2 == 1;
    var nEqualV := cpsr / 0x1000_0000 % 2 == cpsr / 0x8000_0000;
    match b / 16
    case 14 => true
    case 0 => z
    case 1 => !z
    case 10 => nEqualV
    case 11 => !nEqualV
    case 12 => !z && nEqualV
    case 13 => z || !nEqualV
    case _ => false
  }

  /** The flags that a comparison of two signed numbers leaves: equal, the sign of the difference in 32 bits,
      and whether the difference has more than 32 bits. */
  predicate Compared(cpsr: Word, x: Int32, y: Int32) {
    && (cpsr / 0x4000_0000 % 2 == 1 <==> x == y)
    && (cpsr / 0x8000_0000 % 2 == 1 <==> Wrap(x - y) >= 0x8000_0000)
    && (cpsr / 0x1000_0000 % 2 == 1 <==> !IsInt32(x - y))
  }

  /** What the condition codes stand for, as eq, ne, ge, lt, gt, le and al. */
  predicate Meant(b: Byte, x: int, y: int) {
    || (b / 16 == 0 && x == y) || (b / 16 == 1 && x != y)
    || (b / 16 == 10 && x >= y) || (b / 16 == 11 && x < y) || (b / 16 == 12 && x > y) || (b / 16 == 13 && x <= y)
    || b / 16 == 14
  }

  /** Behind a comparison a condition holds exactly if the numbers compare in the way that it stands for. */
  lemma ConditionsMean(b: Byte, cpsr: Word, x: Int32, y: Int32)
    requires Compared(cpsr, x, y)
    ensures CheckCond(b, cpsr) <==> Meant(b, x, y)
  {
    hide Wrap;
    WrapNear(x - y);
  }

  /** set_CPSR of the data processing instructions: the flag N gets bit 30 of the result, and V stays. */
  function FlagsSet(cpsr: Word, result: Word, carry: bool): Word {
    cpsr % 0x2000_0000
    + (if result / 0x4000_0000 % 2 == 1 then 0x8000_0000 else 0) + (if result == 0 then 0x4000_0000 else 0)
    + if carry then 0x2000_0000 else 0
  }

  /** cmp of two registers, with the S bit set. */
  function CompareFlags(cpsr: Word, x: Word, y: Word): Word {
    FlagsSet(cpsr, Wrap(x - y), x >= y)
  }

  lemma FlagsAre(cpsr: Word, result: Word, carry: bool)
    ensures var f := FlagsSet(cpsr, result, carry);
      && (f / 0x8000_0000 % 2 == 1 <==> result / 0x4000_0000 % 2 == 1) && (f / 0x4000_0000 % 2 == 1 <==> result == 0)
      && (f / 0x2000_0000 % 2 == 1 <==> carry) && f / 0x1000_0000 % 2 == cpsr / 0x1000_0000 % 2
  {
    var n, z, c := if result / 0x4000_0000 % 2 == 1 then 1 else 0, if result == 0 then 1 else 0, if carry then 1 else 0;
    FlagBits(n, z, c, cpsr % 0x2000_0000);
    LowFlag(cpsr);
  }

  lemma FlagBits(n: nat, z: nat, c: nat, low: nat)
    requires n < 2 && z < 2 && c < 2 && low < 0x2000_0000
    ensures var f := low + n * 0x8000_0000 + z * 0x4000_0000 + c * 0x2000_0000;
      && f / 0x8000_0000 == n && f / 0x4000_0000 == 2 * n + z && f / 0x2000_0000 == 4 * n + 2 * z + c
      && f / 0x1000_0000 == 8 * n + 4 * z + 2 * c + low / 0x1000_0000
  {
  }

  lemma LowFlag(x: Word)
    ensures x % 0x2000_0000 / 0x1000_0000 == x / 0x1000_0000 % 2
  {
  }

  /** The quotients for which bit 30 of the difference is its sign: among them all differences of less than
      2^30 either way. */
  predicate SignInBit30(d: int) {
    d / 0x4000_0000 >= 0 <==> d / 0x4000_0000 % 2 == 0
  }

  /** Behind the emulator's own cmp, while V is clear, the conditions on equality always hold as they should,
      and each of the others does exactly when bit 30 of the difference is its sign. */
  lemma CompareBranchesIff(b: Byte, cpsr: Word, x: Int32, y: Int32)
    requires cpsr / 0x1000_0000 % 2 == 0
    ensures var f := CompareFlags(cpsr, Wrap(x), Wrap(y));
      && f / 0x1000_0000 % 2 == 0
      && (b / 16 < 2 || b / 16 == 14 ==> (CheckCond(b, f) <==> Meant(b, x, y)))
      && (10 <= b / 16 <= 13 ==> ((CheckCond(b, f) <==> Meant(b, x, y)) <==> SignInBit30(x - y)))
  {
    hide Wrap, FlagsSet;
    var r := Wrap(Wrap(x) - Wrap(y));
    WrapNear(x);
    WrapNear(y);
    WrapNear(Wrap(x) - Wrap(y));
    FlagsAre(cpsr, r, Wrap(x) >= Wrap(y));
    SignOf(x - y, r);
  }

  lemma SignOf(d: int, r: Word)
    requires -0x1_0000_0000 < d < 0x1_0000_0000 && (r == d || r == d + 0x1_0000_0000)
    ensures SignInBit30(d) <==> (d >= 0 <==> r / 0x4000_0000 % 2 == 0)
    ensures r == 0 <==> d == 0
  {
  }

  /** cmp of 2^30 with 0 is followed by a bge that is not taken. */
  lemma CompareCanMislead()
    ensures SignInBit30(0x3fff_ffff) && !SignInBit30(0x4000_0000) && SignInBit30(-0x4000_0000) && !SignInBit30(-0x4000_0001)
    ensures !CheckCond(0xaa, CompareFlags(0, 0x4000_0000, 0))
  {
  }

  const HALT: Instruction := Instruction(0, 0, 0, 0)

  /** execute. */
  function Execute(world: World, w: Instruction, m: Machine): Machine {
    if IsBranch(w) then SetPC(m, Target(m.registers[PC], Displacement(w))) else world.others(w, m)
  }

  // ---------------------------------------------------------------------------------------------
  // One instruction at a time: register 15 holds the address of the next instruction

  function NextWord(world: World, m: Machine): Instruction {
    WordAt(world, m.memory, m.registers[PC])
  }

  /** What an instruction at register 15 sees: itself eight bytes ahead. */
  function Seen(m: Machine): Machine {
    SetPC(m, Ahead(m.registers[PC]))
  }

  function Step(world: World, m: Machine): Machine {
    var w := NextWord(world, m);
    if !CheckCond(w.b0, m.registers[CPSR]) then SetPC(m, Next(m.registers[PC]))
    else if IsBranch(w) then SetPC(m, Target(Ahead(m.registers[PC]), Displacement(w)))
    else SetPC(world.others(w, Seen(m)), Next(m.registers[PC]))
  }

  /** n instructions, or fewer if the program halts before. */
  function Steps(world: World, m: Machine, n: nat): Machine
    decreases n
  {
    if n == 0 || NextWord(world, m) == HALT then m else Steps(world, Step(world, m), n - 1)
  }

  /** A data processing instruction with opcode 13, an immediate operand that is not rotated, and the flags
      left alone: mov. */
  predicate Moves(w: Instruction) {
    && w.b0 / 4 % 4 != 1 && w.b0 / 4 % 4 != 2
    && w.b0 / 2 % 2 == 1 && w.b0 % 2 * 8 + w.b1 / 0x20 == 13 && w.b1 / 0x10 % 2 == 0 && w.b2 % 0x10 == 0
  }

  /** The world does with mov what execute_data_processing does. */
  ghost predicate DoesMoves(world: World) {
    forall w, m :: Moves(w) ==> world.others(w, m) == m.(registers := m.registers[w.b2 / 0x10 := w.b3])
  }

  /** A run of one instruction more does that instruction last, unless the program has halted. */
  lemma {:induction false} OneMore(world: World, m: Machine, n: nat)
    ensures var before := Steps(world, m, n);
      Steps(world, m, n + 1) == if NextWord(world, before) == HALT then before else Step(world, before)
    decreases n
  {
    hide Step, NextWord;
    if n > 0 && NextWord(world, m) != HALT {
      OneMore(world, Step(world, m), n - 1);
    }
  }

  /** mov to another register than 15, when its condition holds: this register has the operand, the next
      instruction is the one behind, and nothing else has changed. */
  lemma MoveStep(world: World, m: Machine)
    requires DoesMoves(world) && Moves(NextWord(world, m)) && NextWord(world, m).b2 / 0x10 != PC
    requires CheckCond(NextWord(world, m).b0, m.registers[CPSR])
    ensures var w := NextWord(world, m);
      && w.b2 / 0x10 < PC
      && Step(world, m) == m.(registers := m.registers[w.b2 / 0x10 := w.b3][PC := Next(m.registers[PC])])
  {
    hide NextWord, CheckCond, Wrap;
    var w, d := NextWord(world, m), NextWord(world, m).b2 / 0x10;
    assert m.registers[PC := Ahead(m.registers[PC])][d := w.b3][PC := Next(m.registers[PC])]
        == m.registers[d := w.b3][PC := Next(m.registers[PC])];
  }

  // ---------------------------------------------------------------------------------------------
  // The pipeline

  datatype Pipe = Pipe(m: Machine, decoded: Instruction, fetched: Word)

  /** The state before the main loop. */
  function Start(world: World, m: Machine): Pipe {
    Pipe(SetPC(m, Ahead(m.registers[PC])), WordAt(world, m.memory, m.registers[PC]), Next(m.registers[PC]))
  }

  /** One turn of the main loop. The flag isBranch is not assigned when the condition fails; stale is what
      it holds then. */
  function Cycle(world: World, p: Pipe, stale: bool): Pipe {
    var run := CheckCond(p.decoded.b0, p.m.registers[CPSR]);
    var m := if run then Execute(world, p.decoded, p.m) else p.m;
    var isBranch := if run then IsBranch(p.decoded) else stale;
    var n := m.registers[PC];
    if !isBranch then Pipe(SetPC(m, Next(n)), WordAt(world, m.memory, p.fetched), n)
    else Pipe(SetPC(m, Next(Next(n))), WordAt(world, m.memory, n), Next(n))
  }

  function Cycles(world: World, p: Pipe, stale: seq<bool>): Pipe
    decreases |stale|
  {
    if stale == [] || p.decoded == HALT then p else Cycles(world, Cycle(world, p, stale[0]), stale[1..])
  }

  /** The pipeline is full: the decoded word is the one at some address, the one fetched is the next, and
      register 15 is eight bytes ahead. */
  predicate Full(world: World, p: Pipe) {
    var at := Behind(p.m.registers[PC]);
    p.decoded == WordAt(world, p.m.memory, at) && p.fetched == Next(at)
  }

  /** The pipeline as the interpreter sees it. */
  function Unpiped(p: Pipe): Machine {
    SetPC(p.m, Behind(p.m.registers[PC]))
  }

  /** This turn does not write register 15 other than by branching, and finds the flag clear when it does
      not assign it. */
  predicate Orderly(world: World, p: Pipe, stale: bool) {
    if !CheckCond(p.decoded.b0, p.m.registers[CPSR]) then !stale
    else IsBranch(p.decoded) || world.others(p.decoded, p.m).registers[PC] == p.m.registers[PC]
  }

  lemma SetTwice(m: Machine, a: Word, b: Word)
    ensures SetPC(m, a).registers[PC] == a && SetPC(m, a).registers[CPSR] == m.registers[CPSR]
    ensures SetPC(m, b).registers[PC] == b && SetPC(m, b).registers[CPSR] == m.registers[CPSR]
    ensures SetPC(m, a).memory == m.memory && SetPC(m, b).memory == m.memory
    ensures SetPC(SetPC(m, a), b) == SetPC(m, b)
    ensures SetPC(m, m.registers[PC]) == m
  {
    assert m.registers[PC := a][PC := b] == m.registers[PC := b];
    assert m.registers[PC := m.registers[PC]] == m.registers;
  }

  predicate Matches(world: World, p: Pipe, q: Pipe) {
    Full(world, q) && Unpiped(q) == Step(world, Unpiped(p))
  }

  lemma SkipIsStepIff(world: World, p: Pipe, stale: bool)
    requires Full(world, p) && !CheckCond(p.decoded.b0, p.m.registers[CPSR])
    ensures Matches(world, p, Cycle(world, p, stale)) <==> !stale
  {
    hide WordAt, CheckCond, IsBranch, SetPC, Displacement, Next, Ahead, Behind, Execute;
    var x := p.m.registers[PC];
    SetTwice(p.m, Behind(x), Next(Behind(x)));
    SetTwice(p.m, Next(x), Behind(Next(x)));
    SetTwice(p.m, Next(Next(x)), Behind(Next(Next(x))));
    Addresses(x, x);
    Addresses(Behind(x), x);
    Addresses(Next(x), x);
  }

  lemma BranchIsStep(world: World, p: Pipe, stale: bool)
    requires Full(world, p) && CheckCond(p.decoded.b0, p.m.registers[CPSR]) && IsBranch(p.decoded)
    ensures Matches(world, p, Cycle(world, p, stale))
  {
    hide WordAt, CheckCond, IsBranch, SetPC, Displacement, Next, Ahead, Behind, Target;
    var x := p.m.registers[PC];
    var to := Target(x, Displacement(p.decoded));
    SetTwice(p.m, Behind(x), to);
    SetTwice(p.m, to, Next(Next(to)));
    SetTwice(p.m, Next(Next(to)), Behind(Next(Next(to))));
    Addresses(x, to);
    Addresses(to, to);
  }

  lemma OtherIsStepIff(world: World, p: Pipe, stale: bool)
    requires Full(world, p) && CheckCond(p.decoded.b0, p.m.registers[CPSR]) && !IsBranch(p.decoded)
    ensures Matches(world, p, Cycle(world, p, stale)) <==>
      world.others(p.decoded, p.m).registers[PC] == p.m.registers[PC]
  {
    hide WordAt, CheckCond, IsBranch, SetPC, Displacement, Next, Ahead, Behind;
    var x := p.m.registers[PC];
    var m := world.others(p.decoded, p.m);
    var n := m.registers[PC];
    SetTwice(p.m, Behind(x), x);
    SetTwice(m, Next(n), Behind(Next(n)));
    SetTwice(m, Next(Behind(x)), x);
    Addresses(x, n);
    Addresses(n, x);
    Addresses(Behind(x), Behind(n));
    Addresses(Next(n), Next(x));
  }

  /** A turn of the loop with a full pipeline does what one instruction does, and leaves the pipeline
      full, exactly when it is orderly: also when the instruction has just changed the words that come
      next. */
  lemma CycleIsStepIff(world: World, p: Pipe, stale: bool)
    requires Full(world, p)
    ensures Matches(world, p, Cycle(world, p, stale)) <==> Orderly(world, p, stale)
  {
    hide Matches, Cycle, Full, CheckCond, IsBranch;
    if !CheckCond(p.decoded.b0, p.m.registers[CPSR]) {
      SkipIsStepIff(world, p, stale);
    } else if IsBranch(p.decoded) {
      BranchIsStep(world, p, stale);
    } else {
      OtherIsStepIff(world, p, stale);
    }
  }

  /** Memory that is 0 but for its first byte: andeq r0, r0, r1. */
  function OneWord(gpio: seq<Byte>): Machine {
    Machine(seq(17, _ => 0), seq(MEMORY_SIZE, _ => 0)[0 := 1], gpio)
  }

  /** A full pipeline where the condition fails: if isBranch happens to be true, the word at 4 is
      skipped. */
  lemma StaleFlagSkips(world: World, gpio: seq<Byte>)
    ensures var p := Start(world, OneWord(gpio));
      && Full(world, p) && p.decoded == Instruction(0, 0, 0, 1) && !Orderly(world, p, true)
      && Step(world, Unpiped(p)).registers[PC] == 4 && Unpiped(Cycle(world, p, true)).registers[PC] == 8
  {
    OneWordIs(world, gpio);
    StartIsFull(world, OneWord(gpio));
    hide WordAt, OneWord;
    assert !CheckCond(0, 0);
  }

  lemma OneWordIs(world: World, gpio: seq<Byte>)
    ensures var m := OneWord(gpio);
      m.registers[PC] == 0 && m.registers[CPSR] == 0 && WordAt(world, m.memory, 0) == Instruction(0, 0, 0, 1)
  {
  }

  /** mov r15, #64 with its word at 0, andeq r0, r0, r1 at 4, and nothing else. */
  function TwoWords(gpio: seq<Byte>): Machine {
    Machine(seq(17, _ => 0), seq(MEMORY_SIZE, _ => 0)[0 := 0x40][1 := 0xf0][2 := 0xa0][3 := 0xe3][4 := 1], gpio)
  }

  const MOVE_TO_COUNTER: Instruction := Instruction(0xe3, 0xa0, 0xf0, 0x40)

  /** A full pipeline where the instruction writes 64 to register 15 without being a branch: the word at 4
      is decoded next, although the program counter has moved, and the pipeline is not full. */
  lemma WrittenCounterIsLate(world: World, gpio: seq<Byte>)
    requires DoesMoves(world)
    ensures var p := Start(world, TwoWords(gpio));
      && Full(world, p) && p.decoded == MOVE_TO_COUNTER && !Orderly(world, p, false)
      && Cycle(world, p, false).decoded == WordAt(world, p.m.memory, 4) && Unpiped(Cycle(world, p, false)).registers[PC] == 60
      && !Full(world, Cycle(world, p, false))
  {
    var m := TwoWords(gpio);
    TwoWordsAre(world, gpio);
    StartIsFull(world, m);
    hide WordAt, TwoWords;
    assert !IsBranch(MOVE_TO_COUNTER) && CheckCond(0xe3, 0) && Moves(MOVE_TO_COUNTER);
  }

  lemma TwoWordsAre(world: World, gpio: seq<Byte>)
    ensures var m := TwoWords(gpio);
      && m.registers[PC] == 0 && m.registers[CPSR] == 0
      && WordAt(world, m.memory, 0) == MOVE_TO_COUNTER
      && WordAt(world, m.memory, 4) == Instruction(0, 0, 0, 1)
      && WordAt(world, m.memory, 60) == HALT
  {
  }

  // ---------------------------------------------------------------------------------------------
  // Whole runs

  predicate OrderlyRun(world: World, p: Pipe, stale: seq<bool>)
    decreases |stale|
  {
    stale == [] || p.decoded == HALT
    || (Orderly(world, p, stale[0]) && OrderlyRun(world, Cycle(world, p, stale[0]), stale[1..]))
  }

  lemma StartIsFull(world: World, m: Machine)
    ensures Full(world, Start(world, m)) && Unpiped(Start(world, m)) == m
  {
    hide SetPC, Next, Ahead, Behind, WordAt;
    var x := m.registers[PC];
    SetTwice(m, Ahead(x), Behind(Ahead(x)));
    Addresses(x, x);
  }

  /** A full pipeline decodes the word the interpreter comes to next. */
  lemma DecodedIsNext(world: World, p: Pipe)
    requires Full(world, p)
    ensures NextWord(world, Unpiped(p)) == p.decoded
  {
    hide SetPC, WordAt, Behind;
    SetTwice(p.m, Behind(p.m.registers[PC]), 0);
  }

  /** The pipeline runs programs as the interpreter does, turn by turn, to the same halt. */
  lemma {:induction false} RunIsSteps(world: World, p: Pipe, stale: seq<bool>)
    requires Full(world, p) && OrderlyRun(world, p, stale)
    ensures Full(world, Cycles(world, p, stale))
    ensures Unpiped(Cycles(world, p, stale)) == Steps(world, Unpiped(p), |stale|)
    decreases |stale|
  {
    hide Full, Cycle, Step, Unpiped, NextWord, Orderly;
    DecodedIsNext(world, p);
    if stale != [] && p.decoded != HALT {
      CycleIsStepIff(world, p, stale[0]);
      RunIsSteps(world, Cycle(world, p, stale[0]), stale[1..]);
    }
  }

  /** From the state main sets up. */
  lemma ProgramRuns(world: World, m: Machine, stale: seq<bool>)
    requires OrderlyRun(world, Start(world, m), stale)
    ensures Full(world, Cycles(world, Start(world, m), stale))
    ensures Unpiped(Cycles(world, Start(world, m), stale)) == Steps(world, m, |stale|)
  {
    hide *;
    StartIsFull(world, m);
    RunIsSteps(world, Start(world, m), stale);
  }

  // ---------------------------------------------------------------------------------------------
  // Branches to labels

  lemma Lands(at: Word, to: Word, displacement: Word)
    requires IsInt32(OffsetTo(at, to))
    ensures Target(Ahead(at), displacement) == to <==> displacement == Wrap(OffsetTo(at, to))
  {
    hide Wrap;
    WrapNear(at + 8);
    WrapNear(Ahead(at) + displacement);
    WrapNear(to - at - 8);
  }

  lemma NextIsReachable(at: Word, to: Word)
    requires Next(at) == to
    requires IsInt32(OffsetTo(at, to))
    ensures Reachable(OffsetTo(at, to))
  {
    hide Wrap;
    WrapNear(at + 4);
  }

  /** When its condition holds, the word assembled as a branch from here to a label goes to the label
      exactly when the label can be reached. */
  lemma BranchResumesIff(world: World, m: Machine, cond: Nibble, to: Word)
    requires IsInt32(OffsetTo(m.registers[PC], to))
    requires NextWord(world, m) == BytesOf(BranchWord(cond, OffsetTo(m.registers[PC], to)))
    requires CheckCond(NextWord(world, m).b0, m.registers[CPSR])
    ensures Step(world, m).registers[PC] == to <==> Reachable(OffsetTo(m.registers[PC], to))
  {
    hide NextWord, CheckCond, SetPC, Next, Ahead, Target, Displacement, OffsetTo, IsBranch, Reachable, BranchWord,
         BytesOf;
    var at := m.registers[PC];
    var w := NextWord(world, m);
    var offset := OffsetTo(at, to);
    if IsBranch(w) {
      SetTwice(m, at, Target(Ahead(at), Displacement(w)));
      Lands(at, to, Displacement(w));
      BranchRoundTripIff(cond, offset);
    } else {
      SetTwice(world.others(w, Seen(m)), at, Next(at));
      if Next(at) == to {
        NextIsReachable(at, to);
      }
      if Reachable(offset) {
        BranchStaysBranch(cond, offset);
      }
    }
  }

  /** The same for the bytes the assembler writes, once they are in memory. */
  lemma WrittenBranchResumesIff(world: World, m: Machine, cond: Nibble, to: Word, file: seq<Byte>)
    requires |file| == 4 && m.registers[PC] + 4 <= MEMORY_SIZE && IsInt32(OffsetTo(m.registers[PC], to))
    requires m.memory[m.registers[PC]..m.registers[PC] + 4] == file
    requires BytesOf(BranchWord(cond, OffsetTo(m.registers[PC], to)))
          == Instruction(file[3], file[2], file[1], file[0])
    requires CheckCond(file[3], m.registers[CPSR])
    ensures Step(world, m).registers[PC] == to <==> Reachable(OffsetTo(m.registers[PC], to))
  {
    hide CheckCond, Step, BranchWord, BytesOf, OffsetTo, Reachable;
    BranchResumesIff(world, m, cond, to);
  }

  // ---------------------------------------------------------------------------------------------
  // The emulator

  class Emulator {
    const registers: array<Word>
    const memory: array<Byte>
    const decoded: array<Byte>
    var gpio: seq<Byte>
    var fetched: Word

    ghost predicate Valid() {
      && registers.Length == 17 && memory.Length == MEMORY_SIZE && decoded.Length == 4
      && memory != decoded
    }

    function TheMachine(): Machine
      requires Valid()
      reads this, registers, memory
    {
      Machine(registers[..], memory[..], gpio)
    }

    function State(): Pipe
      requires Valid()
      reads this, registers, memory, decoded
    {
      Pipe(TheMachine(), Instruction(decoded[0], decoded[1], decoded[2], decoded[3]), fetched)
    }

    /** main up to its loop, with the program in memory. */
    constructor (world: World, program: array<Byte>, pins: seq<Byte>)
      requires program.Length == MEMORY_SIZE
      ensures Valid() && memory == program && fresh(registers) && fresh(decoded)
      ensures State() == Start(world, Machine(seq(17, _ => 0), program[..], pins))
    {
      registers := new Word[17](_ => 0);
      decoded := new Byte[4](_ => 0);
      memory := program;
      gpio := pins;
      fetched := 0;
      new;
      assert registers[..] == seq(17, _ => 0);
      registers[PC] := Next(registers[PC]);
      ReverseInstruction(world);
      fetched := registers[PC];
      registers[PC] := Next(registers[PC]);
      assert registers[..] == seq(17, _ => 0)[PC := 8];
    }

    /** reverse_instruction, on the word that was fetched. */
    method ReverseInstruction(world: World)
      requires Valid()
      modifies decoded
      ensures Instruction(decoded[0], decoded[1], decoded[2], decoded[3]) == WordAt(world, memory[..], fetched)
    {
      var bytes := FetchedBytes(world);
      for i := 0 to 4
        invariant forall k | 0 <= k < i :: decoded[k] == bytes[3 - k]
      {
        decoded[i] := bytes[3 - i];
      }
    }

    /** The four bytes that fetched points to. */
    method FetchedBytes(world: World) returns (bytes: seq<Byte>)
      requires Valid()
      ensures |bytes| == 4 && Decoded(bytes) == WordAt(world, memory[..], fetched)
    {
      if fetched + 4 <= MEMORY_SIZE {
        bytes := memory[fetched..fetched + 4];
        assert bytes == memory[..][fetched..fetched + 4];
      } else {
        var w := world.outside(fetched);
        bytes := [w.b3, w.b2, w.b1, w.b0];
      }
    }

    /** execute changes registers, memory and pins. */
    method DoExecute(world: World)
      requires Valid()
      modifies registers, memory, this`gpio
      ensures TheMachine() == Execute(world, old(State()).decoded, old(TheMachine()))
    {
      var w := Instruction(decoded[0], decoded[1], decoded[2], decoded[3]);
      if IsBranch(w) {
        registers[PC] := Target(registers[PC], Displacement(w));
        assert registers[..] == old(registers[..])[PC := registers[PC]];
      } else {
        var m := world.others(w, TheMachine());
        forall i | 0 <= i < 17 {
          registers[i] := m.registers[i];
        }
        forall i | 0 <= i < MEMORY_SIZE {
          memory[i] := m.memory[i];
        }
        gpio := m.gpio;
        assert registers[..] == m.registers;
        assert memory[..] == m.memory;
      }
    }

    /** One turn of the main loop. */
    method Turn(world: World, stale: bool)
      requires Valid()
      modifies this, registers, memory, decoded
      ensures State() == Cycle(world, old(State()), stale)
    {
      var isBranch := stale;
      var w := Instruction(decoded[0], decoded[1], decoded[2], decoded[3]);
      if CheckCond(decoded[0], registers[CPSR]) {
        DoExecute(world);
        isBranch := IsBranch(w);
      }
      ghost var m := TheMachine();
      if !isBranch {
        ReverseInstruction(world);
        fetched := registers[PC];
        registers[PC] := Next(registers[PC]);
      } else {
        fetched := registers[PC];
        ReverseInstruction(world);
        registers[PC] := Next(registers[PC]);
        fetched := registers[PC];
        registers[PC] := Next(registers[PC]);
      }
      assert registers[..] == m.registers[PC := registers[PC]];
    }

    /** The main loop for at most as many turns as there are values for the stale flag. */
    method Run(world: World, stale: seq<bool>)
      requires Valid()
      modifies this, registers, memory, decoded
      ensures State() == Cycles(world, old(State()), stale)
    {
      var n := 0;
      while n < |stale| && (decoded[0] != 0 || decoded[1] != 0 || decoded[2] != 0 || decoded[3] != 0)
        invariant 0 <= n <= |stale|
        invariant Cycles(world, State(), stale[n..]) == Cycles(world, old(State()), stale)
      {
        assert stale[n..][1..] == stale[n + 1..];
        Turn(world, stale[n]);
        n := n + 1;
      }
    }
  }
}
