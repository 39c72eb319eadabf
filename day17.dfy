/** Day 17: a three-register machine with eight two-byte instructions, and
    the search for an initial register A that makes the program print
    itself. */
module Day17 {
  import opened Wrappers
  import opened Util

  /** A 3-bit program byte, used both as an opcode and as an operand. */
  datatype Command = Adv | Bxl | Bst | Jnz | Bxc | Out | Bdv | Cdv

  /** What can stop the machine. MissingOperand is the out-of-range index
      `commands[ip + 1]` and EmptyProgram the underflow of `len() - 1`, both
      panics in the original; OutOfFuel is the model's bound on the run. */
  datatype Error = InvalidCombo | InvalidOpcode(byte: nat) | MissingOperand | EmptyProgram | NoSolution | OutOfFuel

  const A: nat := 0
  const B: nat := 1
  const C: nat := 2

  /** The literal operand: the byte itself. */
  function Literal(c: Command): (r: nat)
    ensures r < 8
  {
    match c
    case Adv => 0
    case Bxl => 1
    case Bst => 2
    case Jnz => 3
    case Bxc => 4
    case Out => 5
    case Bdv => 6
    case Cdv => 7
  }

  /** The combo operand: 0-3 stand for themselves, 4-6 for registers A-C,
      and 7 is invalid. */
  function Combo(c: Command, registers: seq<nat>): (r: Result<nat, Error>)
    requires |registers| == 3
    ensures r.Err? <==> c == Cdv
    ensures r.Err? ==> r.error == InvalidCombo
    ensures Literal(c) < 4 ==> r == Ok(Literal(c))
    ensures 4 <= Literal(c) < 7 ==> r == Ok(registers[Literal(c) - 4])
  {
    match c
    case Adv => Ok(0)
    case Bxl => Ok(1)
    case Bst => Ok(2)
    case Jnz => Ok(3)
    case Bxc => Ok(registers[A])
    case Out => Ok(registers[B])
    case Bdv => Ok(registers[C])
    case Cdv => Err(InvalidCombo)
  }

  /** `Command::try_from(u8)`: the bytes 0-7 and nothing else. */
  function TryFrom(b: nat): (r: Result<Command, Error>)
    ensures r.Ok? <==> b < 8
    ensures r.Ok? ==> Literal(r.value) == b
    ensures r.Err? ==> r.error == InvalidOpcode(b)
  {
    if b == 0 then Ok(Adv)
    else if b == 1 then Ok(Bxl)
    else if b == 2 then Ok(Bst)
    else if b == 3 then Ok(Jnz)
    else if b == 4 then Ok(Bxc)
    else if b == 5 then Ok(Out)
    else if b == 6 then Ok(Bdv)
    else if b == 7 then Ok(Cdv)
    else Err(InvalidOpcode(b))
  }

  lemma LiteralRoundTrip(c: Command)
    ensures TryFrom(Literal(c)) == Ok(c)
  {
  }

  /** `division`: value / 2^combo, rounded down. */
  function Division(value: nat, combo: nat): (r: nat)
    ensures r * Pow2(combo) <= value < (r + 1) * Pow2(combo)
  {
    DivBounds(value, Pow2(combo));
    value / Pow2(combo)
  }

  /** The quotient rounded down brackets the dividend. */
  lemma DivBounds(v: nat, p: nat)
    requires p >= 1
    ensures 0 <= v / p && (v / p) * p <= v < (v / p + 1) * p
  {
    var q, m := v / p, v % p;
    assert v == q * p + m;
    assert (q + 1) * p == q * p + p;
  }

  /** Bitwise exclusive or. */
  function Xor(a: nat, b: nat): nat
    decreases a + b
  {
    if a == 0 then b
    else if b == 0 then a
    else 2 * Xor(a / 2, b / 2) + (if a % 2 == b % 2 then 0 else 1)
  }

  /** The machine's state besides its (constant) program. */
  datatype Machine = Machine(registers: seq<nat>, ip: nat, output: seq<nat>)

  predicate WellFormed(m: Machine)
  {
    |m.registers| == 3
  }

  /** Write register i and advance past the instruction. */
  function Set(m: Machine, i: nat, v: nat): (r: Machine)
    requires WellFormed(m) && i < 3
  {
    m.(registers := m.registers[i := v], ip := m.ip + 2)
  }

  /** What one instruction does (`Device::apply` and the eight opcode
      functions): a failing combo operand leaves the machine as it was. */
  function Apply(m: Machine, opcode: Command, operand: Command): (r: Result<Machine, Error>)
    requires WellFormed(m)
    ensures r.Ok? ==> WellFormed(r.value)
  {
    var regs := m.registers;
    match opcode
    case Adv => (match Combo(operand, regs) case Ok(v) => Ok(Set(m, A, Division(regs[A], v))) case Err(e) => Err(e))
    case Bxl => Ok(Set(m, B, Xor(regs[B], Literal(operand))))
    case Bst => (match Combo(operand, regs) case Ok(v) => Ok(Set(m, B, v % 8)) case Err(e) => Err(e))
    case Jnz => if regs[A] != 0 then Ok(m.(ip := Literal(operand))) else Ok(m.(ip := m.ip + 2))
    case Bxc => Ok(Set(m, B, Xor(regs[B], regs[C])))
    case Out => (match Combo(operand, regs) case Ok(v) => Ok(m.(output := m.output + [v % 8], ip := m.ip + 2)) case Err(e) => Err(e))
    case Bdv => (match Combo(operand, regs) case Ok(v) => Ok(Set(m, B, Division(regs[A], v))) case Err(e) => Err(e))
    case Cdv => (match Combo(operand, regs) case Ok(v) => Ok(Set(m, C, Division(regs[A], v))) case Err(e) => Err(e))
  }

  /** Only a combo operand 7 fails, and only for the opcodes that read one. */
  lemma ApplyFails(m: Machine, opcode: Command, operand: Command)
    requires WellFormed(m)
    ensures Apply(m, opcode, operand).Err? <==> opcode in {Adv, Bst, Out, Bdv, Cdv} && operand == Cdv
  {
  }

  /** jnz with A non-zero jumps to its literal without advancing; every other
      instruction advances ip by exactly 2. */
  lemma ApplyIp(m: Machine, opcode: Command, operand: Command)
    requires WellFormed(m) && Apply(m, opcode, operand).Ok?
    ensures Apply(m, opcode, operand).value.ip ==
      if opcode == Jnz && m.registers[A] != 0 then Literal(operand) else m.ip + 2
  {
  }

  /** out appends one value below 8; nothing else writes output. */
  lemma ApplyOutput(m: Machine, opcode: Command, operand: Command)
    requires WellFormed(m) && Apply(m, opcode, operand).Ok?
    ensures var out := Apply(m, opcode, operand).value.output;
      if opcode == Out then |out| == |m.output| + 1 && out[..|m.output|] == m.output && out[|m.output|] < 8
      else out == m.output
  {
  }

  /** The division instructions write A / 2^combo to A, B or C and change
      no other register. */
  lemma ApplyDivision(m: Machine, opcode: Command, operand: Command, target: nat)
    requires WellFormed(m) && Apply(m, opcode, operand).Ok?
    requires (opcode == Adv && target == A) || (opcode == Bdv && target == B) || (opcode == Cdv && target == C)
    ensures var regs := Apply(m, opcode, operand).value.registers;
      regs[target] == m.registers[A] / Pow2(Combo(operand, m.registers).value)
      && regs[target] * Pow2(Combo(operand, m.registers).value) <= m.registers[A]
        < (regs[target] + 1) * Pow2(Combo(operand, m.registers).value)
      && forall i :: 0 <= i < 3 && i != target ==> regs[i] == m.registers[i]
  {
  }

  /** `is_halted`: ip has run off the end of the program. */
  predicate IsHalted(m: Machine, commands: seq<Command>)
  {
    m.ip + 1 > |commands|
  }

  /** One fetch and execute; an opcode in the last byte has no operand. */
  function Step(m: Machine, commands: seq<Command>): (r: Result<Machine, Error>)
    requires WellFormed(m) && !IsHalted(m, commands)
    ensures r.Ok? ==> WellFormed(r.value)
    ensures r.Err? && r.error == MissingOperand <==> m.ip == |commands| - 1
  {
    if m.ip + 1 >= |commands| then Err(MissingOperand)
    else Apply(m, commands[m.ip], commands[m.ip + 1])
  }

  /** The outcome of running and the state it stops in. */
  datatype Trace = Trace(status: Result<(), Error>, machine: Machine)

  /** `execute`, bounded to fuel instructions. */
  function Run(m: Machine, commands: seq<Command>, fuel: nat): (r: Trace)
    requires WellFormed(m)
    ensures WellFormed(r.machine)
    ensures r.status.Ok? <==> IsHalted(r.machine, commands)
    decreases fuel
  {
    if IsHalted(m, commands) then Trace(Ok(()), m)
    else if fuel == 0 then Trace(Err(OutOfFuel), m)
    else match Step(m, commands)
      case Err(e) => Trace(Err(e), m)
      case Ok(m') => Run(m', commands, fuel - 1)
  }

  /** A run that halts within fuel halts the same way with any more fuel. */
  lemma {:induction false} RunMoreFuel(m: Machine, commands: seq<Command>, fuel: nat, more: nat)
    requires WellFormed(m) && Run(m, commands, fuel).status.Ok? && fuel <= more
    ensures Run(m, commands, more) == Run(m, commands, fuel)
    decreases fuel
  {
    if !IsHalted(m, commands) {
      RunMoreFuel(Step(m, commands).value, commands, fuel - 1, more - 1);
    }
  }

  /** Running only appends to the output, and every value appended is below 8. */
  lemma {:induction false} RunOutput(m: Machine, commands: seq<Command>, fuel: nat)
    requires WellFormed(m)
    ensures var out := Run(m, commands, fuel).machine.output;
      |m.output| <= |out| && out[..|m.output|] == m.output
      && forall i :: |m.output| <= i < |out| ==> out[i] < 8
    decreases fuel
  {
    if !IsHalted(m, commands) && fuel > 0 && Step(m, commands).Ok? {
      var m' := Step(m, commands).value;
      ApplyOutput(m, commands[m.ip], commands[m.ip + 1]);
      RunOutput(m', commands, fuel - 1);
      var out := Run(m', commands, fuel - 1).machine.output;
      assert out[..|m'.output|][..|m.output|] == out[..|m.output|];
    }
  }

  class Device {
    var registers: seq<nat>
    var ip: nat
    var output: seq<nat>
    var commands: seq<Command>

    ghost predicate Valid()
      reads this
    {
      |registers| == 3
    }

    function State(): (r: Machine)
      reads this
    {
      Machine(registers, ip, output)
    }

    /** This instruction's effect on the device, given its state before. */
    ghost predicate Did(before: Machine, opcode: Command, operand: Command, r: Result<(), Error>)
      reads this
      requires WellFormed(before)
    {
      match Apply(before, opcode, operand)
      case Ok(m) => r.Ok? && State() == m
      case Err(e) => r == Err(e) && State() == before
    }

    constructor (registers: seq<nat>, commands: seq<Command>)
      requires |registers| == 3
      ensures Valid() && State() == Machine(registers, 0, []) && this.commands == commands
    {
      this.registers := registers;
      this.ip := 0;
      this.output := [];
      this.commands := commands;
    }

    method IncrementIp()
      modifies this
      ensures ip == old(ip) + 2
      ensures registers == old(registers) && output == old(output) && commands == old(commands)
    {
      ip := ip + 2;
    }

    method Adv(operand: Command) returns (r: Result<(), Error>)
      requires Valid()
      modifies this
      ensures Valid() && commands == old(commands) && Did(old(State()), Command.Adv, operand, r)
    {
      var combo := Combo(operand, registers);
      if combo.Err? { return Err(combo.error); }
      registers := registers[A := Division(registers[A], combo.value)];
      IncrementIp();
      return Ok(());
    }

    method Bxl(operand: Command) returns (r: Result<(), Error>)
      requires Valid()
      modifies this
      ensures Valid() && commands == old(commands) && Did(old(State()), Command.Bxl, operand, r)
    {
      registers := registers[B := Xor(registers[B], Literal(operand))];
      IncrementIp();
      return Ok(());
    }

    method Bst(operand: Command) returns (r: Result<(), Error>)
      requires Valid()
      modifies this
      ensures Valid() && commands == old(commands) && Did(old(State()), Command.Bst, operand, r)
    {
      var combo := Combo(operand, registers);
      if combo.Err? { return Err(combo.error); }
      registers := registers[B := combo.value % 8];
      IncrementIp();
      return Ok(());
    }

    method Jnz(operand: Command) returns (r: Result<(), Error>)
      requires Valid()
      modifies this
      ensures Valid() && commands == old(commands) && Did(old(State()), Command.Jnz, operand, r)
    {
      if registers[A] != 0 {
        ip := Literal(operand);
        return Ok(());
      }
      IncrementIp();
      return Ok(());
    }

    method Bxc(operand: Command) returns (r: Result<(), Error>)
      requires Valid()
      modifies this
      ensures Valid() && commands == old(commands) && Did(old(State()), Command.Bxc, operand, r)
    {
      registers := registers[B := Xor(registers[B], registers[C])];
      IncrementIp();
      return Ok(());
    }

    method Out(operand: Command) returns (r: Result<(), Error>)
      requires Valid()
      modifies this
      ensures Valid() && commands == old(commands) && Did(old(State()), Command.Out, operand, r)
    {
      var combo := Combo(operand, registers);
      if combo.Err? { return Err(combo.error); }
      output := output + [combo.value % 8];
      IncrementIp();
      return Ok(());
    }

    method Bdv(operand: Command) returns (r: Result<(), Error>)
      requires Valid()
      modifies this
      ensures Valid() && commands == old(commands) && Did(old(State()), Command.Bdv, operand, r)
    {
      var combo := Combo(operand, registers);
      if combo.Err? { return Err(combo.error); }
      registers := registers[B := Division(registers[A], combo.value)];
      IncrementIp();
      return Ok(());
    }

    method Cdv(operand: Command) returns (r: Result<(), Error>)
      requires Valid()
      modifies this
      ensures Valid() && commands == old(commands) && Did(old(State()), Command.Cdv, operand, r)
    {
      var combo := Combo(operand, registers);
      if combo.Err? { return Err(combo.error); }
      registers := registers[C := Division(registers[A], combo.value)];
      IncrementIp();
      return Ok(());
    }

    /** `Device::apply`: dispatch on the opcode. */
    method ApplyCommand(opcode: Command, operand: Command) returns (r: Result<(), Error>)
      requires Valid()
      modifies this
      ensures Valid() && commands == old(commands) && Did(old(State()), opcode, operand, r)
    {
      match opcode
      case Adv => r := Adv(operand);
      case Bxl => r := Bxl(operand);
      case Bst => r := Bst(operand);
      case Jnz => r := Jnz(operand);
      case Bxc => r := Bxc(operand);
      case Out => r := Out(operand);
      case Bdv => r := Bdv(operand);
      case Cdv => r := Cdv(operand);
    }

    function IsHaltedNow(): (r: bool)
      reads this
      ensures r <==> ip >= |commands|
    {
      ip + 1 > |commands|
    }

    /** `next_commands`; the operand read fails at the last byte. */
    function NextCommands(): (r: Result<(Command, Command), Error>)
      reads this
      requires ip < |commands|
      ensures r.Ok? <==> ip + 1 < |commands|
      ensures r.Ok? ==> r.value == (commands[ip], commands[ip + 1])
    {
      if ip + 1 < |commands| then Ok((commands[ip], commands[ip + 1])) else Err(MissingOperand)
    }

    /** `execute`: apply instructions until halted, stopping at the first
        failure, for at most fuel instructions. */
    method Execute(fuel: nat) returns (r: Result<(), Error>)
      requires Valid()
      modifies this
      ensures Valid() && commands == old(commands)
      ensures Trace(r, State()) == Run(old(State()), commands, fuel)
    {
      var budget := fuel;
      while !IsHaltedNow()
        invariant Valid() && commands == old(commands)
        invariant Run(State(), commands, budget) == Run(old(State()), commands, fuel)
        decreases budget
      {
        if budget == 0 {
          return Err(OutOfFuel);
        }
        var next := NextCommands();
        if next.Err? {
          return Err(next.error);
        }
        var (opcode, operand) := next.value;
        var res := ApplyCommand(opcode, operand);
        if res.Err? {
          return res;
        }
        budget := budget - 1;
      }
      return Ok(());
    }
  }

  /** `filter_map(|x| Command::try_from(x as u8).ok())`: at most one
      command per output, and outputs below 8 all convert, each to the
      command with that byte. */
  function ToCommands(out: seq<nat>): (r: seq<Command>)
    ensures |r| <= |out|
    ensures (forall i :: 0 <= i < |out| ==> out[i] < 8) ==>
      |r| == |out| && forall i :: 0 <= i < |out| ==> Literal(r[i]) == out[i]
  {
    if out == [] then []
    else
      var rest := ToCommands(out[..|out| - 1]);
      assert forall i :: 0 <= i < |out| - 1 ==> out[..|out| - 1][i] == out[i];
      match TryFrom(out[|out| - 1] % 256)
      case Ok(c) => rest + [c]
      case Err(_) => rest
  }

  /** What `run_program` returns: the output of a run from A = a, B = C = 0.
      A successful output is exactly the bytes the halted run printed. */
  function ProgramOutput(a: nat, program: seq<Command>, fuel: nat): (r: Result<seq<Command>, Error>)
    ensures r.Ok? ==>
      var t := Run(Machine([a, 0, 0], 0, []), program, fuel);
      IsHalted(t.machine, program) && |r.value| == |t.machine.output|
      && forall i :: 0 <= i < |r.value| ==> Literal(r.value[i]) == t.machine.output[i]
  {
    var m := Machine([a, 0, 0], 0, []);
    var t := Run(m, program, fuel);
    RunOutput(m, program, fuel);
    match t.status
    case Ok(_) => Ok(ToCommands(t.machine.output))
    case Err(e) => Err(e)
  }

  method RunProgram(a: nat, program: seq<Command>, fuel: nat) returns (r: Result<seq<Command>, Error>)
    ensures r == ProgramOutput(a, program, fuel)
  {
    var device := new Device([a, 0, 0], program);
    var status := device.Execute(fuel);
    if status.Err? {
      return Err(status.error);
    }
    return Ok(ToCommands(device.output));
  }

  /** `find_quine_value`: extend current_a by one octal digit at a time,
      from the last program byte to the first, keeping only values whose
      output is the matching tail of the program. */
  method FindQuineValue(program: seq<Command>, position: nat, currentA: nat, fuel: nat) returns (r: Option<nat>)
    requires position < |program|
    ensures r.Some? ==> ProgramOutput(r.value, program, fuel) == Ok(program)
    ensures r.Some? ==> currentA * Pow2(3 * (position + 1)) <= r.value < (currentA + 1) * Pow2(3 * (position + 1))
    decreases position
  {
    for digit := 0 to 8 {
      var nextA := currentA * 8 + digit;
      var expected := program[position..];
      var output := RunProgram(nextA, program, fuel);
      if output.Ok? && output.value == expected {
        if position == 0 {
          assert Pow2(3) == 8;
          return Some(nextA);
        }
        var solution := FindQuineValue(program, position - 1, nextA, fuel);
        if solution.Some? {
          QuineDigits(currentA, digit, position, solution.value);
          return solution;
        }
      }
    }
    return None;
  }

  /** A value with the octal prefix currentA * 8 + digit and position more
      digits has currentA as its prefix of position + 1 digits. */
  lemma QuineDigits(currentA: nat, digit: nat, position: nat, v: nat)
    requires digit < 8 && position > 0
    requires (currentA * 8 + digit) * Pow2(3 * position) <= v < (currentA * 8 + digit + 1) * Pow2(3 * position)
    ensures currentA * Pow2(3 * (position + 1)) <= v < (currentA + 1) * Pow2(3 * (position + 1))
  {
    var p := Pow2(3 * position);
    assert Pow2(3 * (position + 1)) == 8 * p by {
      assert 3 * (position + 1) == 3 * position + 3;
      Pow2Add(3 * position, 3);
    }
    DigitScale(currentA, digit, p, v);
  }

  /** Scaling one more octal digit: a value in the block of c * 8 + d of
      size p lies in the block of c of size 8 * p. */
  lemma DigitScale(c: nat, d: nat, p: nat, v: nat)
    requires d < 8 && (c * 8 + d) * p <= v < (c * 8 + d + 1) * p
    ensures c * (8 * p) <= v < (c + 1) * (8 * p)
  {
    var base := c * (8 * p);
    assert (c * 8 + d) * p == base + d * p;
    assert (c * 8 + d + 1) * p == base + (d + 1) * p;
    assert (c + 1) * (8 * p) == base + 8 * p;
    assert 0 <= d * p;
    assert (d + 1) * p <= 8 * p by {
      assert 8 * p - (d + 1) * p == (7 - d) * p;
    }
  }

  lemma {:induction false} Pow2Add(i: nat, j: nat)
    ensures Pow2(i + j) == Pow2(i) * Pow2(j)
    decreases j
  {
    if j > 0 {
      Pow2Add(i, j - 1);
      assert Pow2(i + j) == 2 * Pow2(i + j - 1);
    }
  }

  /** `find_quine`: search from the last byte with an empty prefix. */
  method FindQuine(program: seq<Command>, fuel: nat) returns (r: Result<nat, Error>)
    ensures r.Ok? ==> ProgramOutput(r.value, program, fuel) == Ok(program)
    ensures program == [] ==> r == Err(EmptyProgram)
  {
    if |program| == 0 {
      return Err(EmptyProgram);
    }
    var found := FindQuineValue(program, |program| - 1, 0, fuel);
    if found.None? {
      return Err(NoSolution);
    }
    return Ok(found.value);
  }

  // ---------------------------------------------------------------------
  // The two example programs

  /** One pass of the loop `adv k; out 4; jnz 0`: A is divided by 2^k, its
      new value printed modulo 8, and the loop repeats while A is non-zero. */
  lemma DivideLoop(program: seq<Command>, operand: Command, a: nat, out: seq<nat>, a': nat, out': seq<nat>, fuel: nat)
    requires program == [Adv, operand, Out, Bxc, Jnz, Adv] && Literal(operand) < 4
    requires a' == a / Pow2(Literal(operand)) && out' == out + [a' % 8]
    ensures Run(Machine([a, 0, 0], 0, out), program, fuel + 3)
      == Run(Machine([a', 0, 0], if a' != 0 then 0 else 6, out'), program, fuel)
  {
    var m0 := Machine([a, 0, 0], 0, out);
    var m1 := Machine([a', 0, 0], 2, out);
    var m2 := Machine([a', 0, 0], 4, out + [a' % 8]);
    var m3 := Machine([a', 0, 0], if a' != 0 then 0 else 6, out');
    assert [a, 0, 0][A := a'] == [a', 0, 0];
    assert Step(m0, program) == Ok(m1);
    assert Run(m0, program, fuel + 3) == Run(m1, program, fuel + 2);
    assert Step(m1, program) == Ok(m2);
    assert Run(m1, program, fuel + 2) == Run(m2, program, fuel + 1);
    assert Step(m2, program) == Ok(m3);
  }

  /** The first example from A = 5 on. */
  lemma FirstExampleEnd(fuel: nat)
    requires fuel >= 9
    ensures Run(Machine([5, 0, 0], 0, [4, 6, 3, 5, 6, 3, 5]), [Adv, Bxl, Out, Bxc, Jnz, Adv], fuel)
      == Trace(Ok(()), Machine([0, 0, 0], 6, [4, 6, 3, 5, 6, 3, 5, 2, 1, 0]))
  {
    var p := [Adv, Bxl, Out, Bxc, Jnz, Adv];
    assert Pow2(Literal(Bxl)) == 2;
    var f := fuel - 9;
    assert 5 / 2 == 2 && 2 / 2 == 1 && 1 / 2 == 0;
    DivideLoop(p, Bxl, 5, [4, 6, 3, 5, 6, 3, 5], 2, [4, 6, 3, 5, 6, 3, 5, 2], f + 6);
    DivideLoop(p, Bxl, 2, [4, 6, 3, 5, 6, 3, 5, 2], 1, [4, 6, 3, 5, 6, 3, 5, 2, 1], f + 3);
    DivideLoop(p, Bxl, 1, [4, 6, 3, 5, 6, 3, 5, 2, 1], 0, [4, 6, 3, 5, 6, 3, 5, 2, 1, 0], f);
  }

  /** The first example from A = 91 down to A = 5. */
  lemma FirstExampleMiddle(fuel: nat)
    ensures Run(Machine([91, 0, 0], 0, [4, 6, 3]), [Adv, Bxl, Out, Bxc, Jnz, Adv], fuel + 12)
      == Run(Machine([5, 0, 0], 0, [4, 6, 3, 5, 6, 3, 5]), [Adv, Bxl, Out, Bxc, Jnz, Adv], fuel)
  {
    var p := [Adv, Bxl, Out, Bxc, Jnz, Adv];
    assert Pow2(Literal(Bxl)) == 2;
    assert 91 / 2 == 45 && 45 / 2 == 22 && 22 / 2 == 11 && 11 / 2 == 5;
    DivideLoop(p, Bxl, 91, [4, 6, 3], 45, [4, 6, 3, 5], fuel + 9);
    DivideLoop(p, Bxl, 45, [4, 6, 3, 5], 22, [4, 6, 3, 5, 6], fuel + 6);
    DivideLoop(p, Bxl, 22, [4, 6, 3, 5, 6], 11, [4, 6, 3, 5, 6, 3], fuel + 3);
    DivideLoop(p, Bxl, 11, [4, 6, 3, 5, 6, 3], 5, [4, 6, 3, 5, 6, 3, 5], fuel);
  }

  /** With A = 729 the first example prints 4,6,3,5,6,3,5,2,1,0. */
  lemma FirstExample(fuel: nat)
    requires fuel >= 30
    ensures Run(Machine([729, 0, 0], 0, []), [Adv, Bxl, Out, Bxc, Jnz, Adv], fuel)
      == Trace(Ok(()), Machine([0, 0, 0], 6, [4, 6, 3, 5, 6, 3, 5, 2, 1, 0]))
  {
    var p := [Adv, Bxl, Out, Bxc, Jnz, Adv];
    assert Pow2(Literal(Bxl)) == 2;
    var f := fuel - 30;
    assert 729 / 2 == 364 && 364 / 2 == 182 && 182 / 2 == 91;
    DivideLoop(p, Bxl, 729, [], 364, [4], f + 27);
    DivideLoop(p, Bxl, 364, [4], 182, [4, 6], f + 24);
    DivideLoop(p, Bxl, 182, [4, 6], 91, [4, 6, 3], f + 21);
    FirstExampleMiddle(f + 9);
    FirstExampleEnd(f + 9);
  }

  lemma SecondExampleLate(fuel: nat)
    requires fuel >= 9
    ensures Run(Machine([229, 0, 0], 0, [0, 3, 5]), [Adv, Jnz, Out, Bxc, Jnz, Adv], fuel)
      == Trace(Ok(()), Machine([0, 0, 0], 6, [0, 3, 5, 4, 3, 0]))
  {
    var p := [Adv, Jnz, Out, Bxc, Jnz, Adv];
    assert Pow2(Literal(Jnz)) == 8;
    var f := fuel - 9;
    assert 229 / 8 == 28 && 28 / 8 == 3 && 3 / 8 == 0;
    DivideLoop(p, Jnz, 229, [0, 3, 5], 28, [0, 3, 5, 4], f + 6);
    DivideLoop(p, Jnz, 28, [0, 3, 5, 4], 3, [0, 3, 5, 4, 3], f + 3);
    DivideLoop(p, Jnz, 3, [0, 3, 5, 4, 3], 0, [0, 3, 5, 4, 3, 0], f);
  }

  lemma SecondExampleRun(fuel: nat)
    requires fuel >= 18
    ensures Run(Machine([117440, 0, 0], 0, []), [Adv, Jnz, Out, Bxc, Jnz, Adv], fuel)
      == Trace(Ok(()), Machine([0, 0, 0], 6, [0, 3, 5, 4, 3, 0]))
  {
    var p := [Adv, Jnz, Out, Bxc, Jnz, Adv];
    assert Pow2(Literal(Jnz)) == 8;
    var f := fuel - 9;
    assert 117440 / 8 == 14680 && 14680 / 8 == 1835 && 1835 / 8 == 229;
    DivideLoop(p, Jnz, 117440, [], 14680, [0], f + 6);
    DivideLoop(p, Jnz, 14680, [0], 1835, [0, 3], f + 3);
    DivideLoop(p, Jnz, 1835, [0, 3], 229, [0, 3, 5], f);
    SecondExampleLate(f);
  }

  /** 117440 makes the second example print itself. */
  lemma SecondExampleQuine(fuel: nat)
    requires fuel >= 18
    ensures ProgramOutput(117440, [Adv, Jnz, Out, Bxc, Jnz, Adv], fuel) == Ok([Adv, Jnz, Out, Bxc, Jnz, Adv])
  {
    var p := [Adv, Jnz, Out, Bxc, Jnz, Adv];
    var out := [0, 3, 5, 4, 3, 0];
    SecondExampleRun(fuel);
    var cs := ToCommands(out);
    forall i | 0 <= i < 6 ensures cs[i] == p[i] {
      LiteralRoundTrip(cs[i]);
      LiteralRoundTrip(p[i]);
    }
    assert cs == p;
    assert ProgramOutput(117440, p, fuel) == Ok(cs);
  }
}
