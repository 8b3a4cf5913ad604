/**
 * Day 16: the wrist device's register machine. Sixteen opcodes each write one
 * register from two operands, an operand being a register index or a literal.
 * Part 1 tries every opcode on a sample's registers-before and counts the
 * samples for which at least three opcodes produce the registers-after.
 * Register values come from `\d+` in the input and every opcode keeps them
 * non-negative, so registers and operands are natural numbers here.
 */
module Device {

  datatype Opcode =
    | Addr | Addi | Mulr | Muli
    | Banr | Bani | Borr | Bori
    | Setr | Seti
    | Gtir | Gtri | Gtrr
    | Eqir | Eqri | Eqrr

  /** The opcodes in the order the sample test tries them. */
  const Opcodes: seq<Opcode> :=
    [Addr, Addi, Mulr, Muli, Banr, Bani, Borr, Bori, Setr, Seti, Gtir, Gtri, Gtrr, Eqir, Eqri, Eqrr]

  /** `&` on non-negative integers, bit by bit from the lowest. */
  function BitAnd(x: nat, y: nat): (r: nat)
    ensures r <= x && r <= y
    decreases x
  {
    if x == 0 || y == 0 then 0
    else 2 * BitAnd(x / 2, y / 2) + (if x % 2 == 1 && y % 2 == 1 then 1 else 0)
  }

  /** `|` on non-negative integers, bit by bit from the lowest. */
  function BitOr(x: nat, y: nat): (r: nat)
    ensures x <= r && y <= r && r <= x + y
    decreases x
  {
    if x == 0 then y
    else if y == 0 then x
    else 2 * BitOr(x / 2, y / 2) + (if x % 2 == 1 || y % 2 == 1 then 1 else 0)
  }

  /** Every bit set in either operand is counted once by `|` and once more by `&` when set in both. */
  lemma {:induction false} AndPlusOr(x: nat, y: nat)
    ensures BitAnd(x, y) + BitOr(x, y) == x + y
    decreases x
  {
    if x != 0 && y != 0 {
      AndPlusOr(x / 2, y / 2);
    }
  }

  /** Whether the opcode reads operand `a` as a register index (otherwise `a` is a literal). */
  predicate RegisterA(op: Opcode)
  {
    !(op.Seti? || op.Gtir? || op.Eqir?)
  }

  /** Whether the opcode reads operand `b` as a register index (otherwise `b` is a literal or ignored). */
  predicate RegisterB(op: Opcode)
  {
    op.Addr? || op.Mulr? || op.Banr? || op.Borr? || op.Gtir? || op.Gtrr? || op.Eqir? || op.Eqrr?
  }

  /** Every register index the opcode touches exists; otherwise the array subscript traps. */
  predicate Fits(op: Opcode, registers: seq<nat>, a: nat, b: nat, c: nat)
  {
    c < |registers| && (RegisterA(op) ==> a < |registers|) && (RegisterB(op) ==> b < |registers|)
  }

  function Flag(b: bool): nat
  {
    if b then 1 else 0
  }

  /** The value the opcode stores into register `c`. */
  function Value(op: Opcode, registers: seq<nat>, a: nat, b: nat, c: nat): nat
    requires Fits(op, registers, a, b, c)
  {
    match op
    case Addr => registers[a] + registers[b]
    case Addi => registers[a] + b
    case Mulr => registers[a] * registers[b]
    case Muli => registers[a] * b
    case Banr => BitAnd(registers[a], registers[b])
    case Bani => BitAnd(registers[a], b)
    case Borr => BitOr(registers[a], registers[b])
    case Bori => BitOr(registers[a], b)
    case Setr => registers[a]
    case Seti => a
    case Gtir => Flag(a > registers[b])
    case Gtri => Flag(registers[a] > b)
    case Gtrr => Flag(registers[a] > registers[b])
    case Eqir => Flag(a == registers[b])
    case Eqri => Flag(registers[a] == b)
    case Eqrr => Flag(registers[a] == registers[b])
  }

  /** The registers after one instruction. */
  function Apply(op: Opcode, registers: seq<nat>, a: nat, b: nat, c: nat): (r: seq<nat>)
    requires Fits(op, registers, a, b, c)
    ensures |r| == |registers|
    ensures forall i :: 0 <= i < |registers| && i != c ==> r[i] == registers[i]
  {
    registers[c := Value(op, registers, a, b, c)]
  }

  /** The comparison opcodes store a flag, 0 or 1, whatever the operands. */
  lemma ComparisonStoresFlag(op: Opcode, registers: seq<nat>, a: nat, b: nat, c: nat)
    requires Fits(op, registers, a, b, c)
    requires op.Gtir? || op.Gtri? || op.Gtrr? || op.Eqir? || op.Eqri? || op.Eqrr?
    ensures Apply(op, registers, a, b, c)[c] <= 1
  {
  }

  /** `seti` stores its literal `a` and ignores `b`; `setr` copies register `a`. */
  lemma SetIgnoresB(registers: seq<nat>, a: nat, b: nat, b': nat, c: nat)
    requires c < |registers|
    ensures Apply(Seti, registers, a, b, c)[c] == a
    ensures Apply(Seti, registers, a, b, c) == Apply(Seti, registers, a, b', c)
    ensures a < |registers| ==> Apply(Setr, registers, a, b, c)[c] == registers[a]
  {
  }

  /** The register file of the device, updated in place by one opcode at a time. */
  class Compute {
    var registers: seq<nat>

    constructor (registers: seq<nat>)
      ensures this.registers == registers
    {
      this.registers := registers;
    }

    method Addr(a: nat, b: nat, c: nat)
      requires a < |registers| && b < |registers| && c < |registers|
      modifies this
      ensures registers == old(registers)[c := old(registers)[a] + old(registers)[b]]
    {
      registers := registers[c := registers[a] + registers[b]];
    }

    method Addi(a: nat, b: nat, c: nat)
      requires a < |registers| && c < |registers|
      modifies this
      ensures registers == old(registers)[c := old(registers)[a] + b]
    {
      registers := registers[c := registers[a] + b];
    }

    method Mulr(a: nat, b: nat, c: nat)
      requires a < |registers| && b < |registers| && c < |registers|
      modifies this
      ensures registers == old(registers)[c := old(registers)[a] * old(registers)[b]]
    {
      registers := registers[c := registers[a] * registers[b]];
    }

    method Muli(a: nat, b: nat, c: nat)
      requires a < |registers| && c < |registers|
      modifies this
      ensures registers == old(registers)[c := old(registers)[a] * b]
    {
      registers := registers[c := registers[a] * b];
    }

    method Banr(a: nat, b: nat, c: nat)
      requires a < |registers| && b < |registers| && c < |registers|
      modifies this
      ensures registers == old(registers)[c := BitAnd(old(registers)[a], old(registers)[b])]
    {
      registers := registers[c := BitAnd(registers[a], registers[b])];
    }

    method Bani(a: nat, b: nat, c: nat)
      requires a < |registers| && c < |registers|
      modifies this
      ensures registers == old(registers)[c := BitAnd(old(registers)[a], b)]
    {
      registers := registers[c := BitAnd(registers[a], b)];
    }

    method Borr(a: nat, b: nat, c: nat)
      requires a < |registers| && b < |registers| && c < |registers|
      modifies this
      ensures registers == old(registers)[c := BitOr(old(registers)[a], old(registers)[b])]
    {
      registers := registers[c := BitOr(registers[a], registers[b])];
    }

    method Bori(a: nat, b: nat, c: nat)
      requires a < |registers| && c < |registers|
      modifies this
      ensures registers == old(registers)[c := BitOr(old(registers)[a], b)]
    {
      registers := registers[c := BitOr(registers[a], b)];
    }

    method Setr(a: nat, b: nat, c: nat)
      requires a < |registers| && c < |registers|
      modifies this
      ensures registers == old(registers)[c := old(registers)[a]]
    {
      registers := registers[c := registers[a]];
    }

    method Seti(a: nat, b: nat, c: nat)
      requires c < |registers|
      modifies this
      ensures registers == old(registers)[c := a]
    {
      registers := registers[c := a];
    }

    method Gtir(a: nat, b: nat, c: nat)
      requires b < |registers| && c < |registers|
      modifies this
      ensures registers == old(registers)[c := Flag(a > old(registers)[b])]
    {
      registers := registers[c := if a > registers[b] then 1 else 0];
    }

    method Gtri(a: nat, b: nat, c: nat)
      requires a < |registers| && c < |registers|
      modifies this
      ensures registers == old(registers)[c := Flag(old(registers)[a] > b)]
    {
      registers := registers[c := if registers[a] > b then 1 else 0];
    }

    method Gtrr(a: nat, b: nat, c: nat)
      requires a < |registers| && b < |registers| && c < |registers|
      modifies this
      ensures registers == old(registers)[c := Flag(old(registers)[a] > old(registers)[b])]
    {
      registers := registers[c := if registers[a] > registers[b] then 1 else 0];
    }

    method Eqir(a: nat, b: nat, c: nat)
      requires b < |registers| && c < |registers|
      modifies this
      ensures registers == old(registers)[c := Flag(a == old(registers)[b])]
    {
      registers := registers[c := if a == registers[b] then 1 else 0];
    }

    method Eqri(a: nat, b: nat, c: nat)
      requires a < |registers| && c < |registers|
      modifies this
      ensures registers == old(registers)[c := Flag(old(registers)[a] == b)]
    {
      registers := registers[c := if registers[a] == b then 1 else 0];
    }

    method Eqrr(a: nat, b: nat, c: nat)
      requires a < |registers| && b < |registers| && c < |registers|
      modifies this
      ensures registers == old(registers)[c := Flag(old(registers)[a] == old(registers)[b])]
    {
      registers := registers[c := if registers[a] == registers[b] then 1 else 0];
    }

    /** Runs one opcode by name: the sample test's sixteen calls, one per opcode. */
    method Run(op: Opcode, a: nat, b: nat, c: nat)
      requires Fits(op, registers, a, b, c)
      modifies this
      ensures registers == Apply(op, old(registers), a, b, c)
    {
      match op
      case Addr => Addr(a, b, c);
      case Addi => Addi(a, b, c);
      case Mulr => Mulr(a, b, c);
      case Muli => Muli(a, b, c);
      case Banr => Banr(a, b, c);
      case Bani => Bani(a, b, c);
      case Borr => Borr(a, b, c);
      case Bori => Bori(a, b, c);
      case Setr => Setr(a, b, c);
      case Seti => Seti(a, b, c);
      case Gtir => Gtir(a, b, c);
      case Gtri => Gtri(a, b, c);
      case Gtrr => Gtrr(a, b, c);
      case Eqir => Eqir(a, b, c);
      case Eqri => Eqri(a, b, c);
      case Eqrr => Eqrr(a, b, c);
    }
  }

  /** One sample: registers before, the instruction `[opcode number, a, b, c]`, registers after. */
  datatype Sample = Sample(before: seq<nat>, command: seq<nat>, after: seq<nat>)

  /** Four numbers in the instruction, and `a`, `b` and `c` all register indices: the first opcode
      tried, `addr`, reads both `a` and `b` as registers and would trap otherwise. */
  predicate WellFormed(s: Sample)
  {
    |s.command| == 4 && s.command[1] < |s.before| && s.command[2] < |s.before| && s.command[3] < |s.before|
  }

  /** Whether running `op` on the sample's registers-before gives exactly its registers-after. */
  predicate Matches(s: Sample, op: Opcode)
    requires WellFormed(s)
  {
    Apply(op, s.before, s.command[1], s.command[2], s.command[3]) == s.after
  }

  /** The opcodes of `ops` that match the sample, in order. */
  function Matching(s: Sample, ops: seq<Opcode>): (r: seq<Opcode>)
    requires WellFormed(s)
    ensures |r| <= |ops|
  {
    if ops == [] then []
    else Matching(s, ops[..|ops| - 1]) + (if Matches(s, ops[|ops| - 1]) then [ops[|ops| - 1]] else [])
  }

  /** An opcode is among the matching ones exactly when it is tried and matches. */
  lemma {:induction false} MatchingMeaning(s: Sample, ops: seq<Opcode>, op: Opcode)
    requires WellFormed(s)
    ensures op in Matching(s, ops) <==> op in ops && Matches(s, op)
    decreases |ops|
  {
    if ops != [] {
      MatchingMeaning(s, ops[..|ops| - 1], op);
      assert ops == ops[..|ops| - 1] + [ops[|ops| - 1]];
    }
  }

  /** A matching opcode leaves every register but `c` as it was, so a sample whose registers-after
      differ from registers-before outside register `c` matches no opcode at all. */
  lemma MatchOnlyWritesC(s: Sample, op: Opcode)
    requires WellFormed(s) && op in Matching(s, Opcodes)
    ensures |s.after| == |s.before|
    ensures forall i :: 0 <= i < |s.before| && i != s.command[3] ==> s.after[i] == s.before[i]
  {
    MatchingMeaning(s, Opcodes, op);
  }

  /** The sample test: each opcode runs on a fresh copy of registers-before and the matches are counted. */
  method CountMatches(s: Sample) returns (matches: nat)
    requires WellFormed(s)
    ensures matches == |Matching(s, Opcodes)| && matches <= 16
  {
    matches := 0;
    var i := 0;
    while i < |Opcodes|
      invariant 0 <= i <= |Opcodes|
      invariant matches == |Matching(s, Opcodes[..i])|
    {
      assert Opcodes[..i + 1][..i] == Opcodes[..i];
      var hit := Try(s, Opcodes[i]);
      if hit {
        matches := matches + 1;
      }
      i := i + 1;
    }
    assert Opcodes[..|Opcodes|] == Opcodes;
  }

  /** One opcode on a fresh copy of registers-before (lines 165-169): does it reproduce
      registers-after? */
  method Try(s: Sample, op: Opcode) returns (hit: bool)
    requires WellFormed(s)
    ensures hit == Matches(s, op)
  {
    var compute := new Compute(s.before);
    compute.Run(op, s.command[1], s.command[2], s.command[3]);
    hit := compute.registers == s.after;
  }

  /** The number of samples that at least three opcodes match. */
  function ThreeOrMore(samples: seq<Sample>): nat
    requires forall k :: 0 <= k < |samples| ==> WellFormed(samples[k])
  {
    if samples == [] then 0
    else
      var last := samples[|samples| - 1];
      ThreeOrMore(samples[..|samples| - 1]) + (if |Matching(last, Opcodes)| >= 3 then 1 else 0)
  }

  /** Part 1: reads the samples in order and counts those with three or more matching opcodes. */
  method CountThreeOrMore(samples: seq<Sample>) returns (threeOrMoreMatches: nat)
    requires forall k :: 0 <= k < |samples| ==> WellFormed(samples[k])
    ensures threeOrMoreMatches == ThreeOrMore(samples) && threeOrMoreMatches <= |samples|
  {
    threeOrMoreMatches := 0;
    var i := 0;
    while i < |samples|
      invariant 0 <= i <= |samples|
      invariant threeOrMoreMatches == ThreeOrMore(samples[..i]) && threeOrMoreMatches <= i
    {
      assert samples[..i + 1][..i] == samples[..i];
      var matches := CountMatches(samples[i]);
      if matches >= 3 {
        threeOrMoreMatches := threeOrMoreMatches + 1;
      }
      i := i + 1;
    }
    assert samples[..|samples|] == samples;
  }
}
