/**
 dtm.cc: reading and writing target memory by driving a debug module (RISC-V
 External Debug Support 0.13.2, sections 3.6 and 3.7). The module is modelled
 from those sections: an abstract command moves a register to or from the data
 words and may run the program buffer; writing data word 0 repeats it when
 autoexec is set. Bit fields are written as sums and divisions.
 */
module Dtm {
  import opened Bytes

  // ------------------------------------------------------- instructions

  const X0 := 0
  const S0 := 8
  const S1 := 9
  const EBREAK := 0x00100073

  /** RV_X: the n bits of x from bit s on, where lo is 2^s and size is 2^n. */
  function Field(x: int, lo: nat, size: nat): (r: nat)
    requires lo > 0 && size > 0
    ensures r < size
  {
    x / lo % size
  }

  function LoadWord(xlen: nat, dst: nat, base: nat, imm: int): nat {
    (if xlen == 64 then 0x3003 else 0x2003) + dst * 0x80 + base * 0x8000 + Field(imm, 1, 0x1000) * 0x10_0000
  }

  function StoreWord(xlen: nat, src: nat, base: nat, imm: int): nat {
    (if xlen == 64 then 0x3023 else 0x2023) + src * 0x10_0000 + base * 0x8000
    + Field(imm, 1, 0x20) * 0x80 + Field(imm, 0x20, 0x80) * 0x200_0000
  }

  function AddiWord(dst: nat, src: nat, imm: int): nat {
    0x13 + dst * 0x80 + src * 0x8000 + Field(imm, 1, 0x1000) * 0x10_0000
  }

  /** Instructions the program buffer holds here; immediates are 12-bit fields. */
  datatype Instr =
    | Load(dst: nat, base: nat, imm: nat)
    | Store(src: nat, base: nat, imm: nat)
    | Addi(dst: nat, src: nat, imm: nat)
    | Ebreak
    | Other

  /** What a hart of this width makes of an instruction word. */
  function Decode(xlen: nat, w: nat): Instr {
    var opcode, rd, funct3 := w % 0x80, w / 0x80 % 0x20, w / 0x1000 % 8;
    var rs1, rs2 := w / 0x8000 % 0x20, w / 0x10_0000 % 0x20;
    if w == EBREAK then Ebreak
    else if opcode == 0x03 && funct3 == (if xlen == 64 then 3 else 2) then Load(rd, rs1, w / 0x10_0000 % 0x1000)
    else if opcode == 0x23 && funct3 == (if xlen == 64 then 3 else 2) then Store(rs2, rs1, rd + w / 0x200_0000 % 0x80 * 0x20)
    else if opcode == 0x13 && funct3 == 0 then Addi(rd, rs1, w / 0x10_0000 % 0x1000)
    else Other
  }

  /** An instruction word made of its fields. */
  lemma Fields(op: nat, rd: nat, f3: nat, rs1: nat, hi: nat)
    requires op < 0x80 && rd < 0x20 && f3 < 8 && rs1 < 0x20
    ensures var w := op + rd * 0x80 + f3 * 0x1000 + rs1 * 0x8000 + hi * 0x10_0000;
            && w % 0x80 == op && w / 0x80 % 0x20 == rd && w / 0x1000 % 8 == f3 && w / 0x8000 % 0x20 == rs1 && w / 0x10_0000 == hi
  {
    var w := op + rd * 0x80 + f3 * 0x1000 + rs1 * 0x8000 + hi * 0x10_0000;
    var w1 := rd + f3 * 0x20 + rs1 * 0x100 + hi * 0x2000;
    var w2 := f3 + rs1 * 8 + hi * 0x100;
    var w3 := rs1 + hi * 0x20;
    ModUnique(w, w1, op, 0x80);
    ModUnique(w1, w2, rd, 0x20);
    ModUnique(w, w2, op + rd * 0x80, 0x1000);
    ModUnique(w2, w3, f3, 8);
    ModUnique(w, w3, op + rd * 0x80 + f3 * 0x1000, 0x8000);
    ModUnique(w3, hi, rs1, 0x20);
    ModUnique(w, hi, op + rd * 0x80 + f3 * 0x1000 + rs1 * 0x8000, 0x10_0000);
  }

  /** The hart decodes what the driver encodes. */
  lemma EncodedRight(xlen: nat, a: nat, b: nat, imm: nat)
    requires a < 0x20 && b < 0x20 && imm < 0x1000
    ensures Decode(xlen, LoadWord(xlen, a, b, imm)) == Load(a, b, imm)
    ensures Decode(xlen, StoreWord(xlen, a, b, imm)) == Store(a, b, imm)
    ensures Decode(xlen, AddiWord(a, b, imm)) == Addi(a, b, imm)
  {
    hide Decode, LoadWord, StoreWord, AddiWord;
    LoadFields(xlen, a, b, imm);
    AddiFields(xlen, a, b, imm);
    StoreFields(xlen, a, b, imm);
  }

  lemma LoadFields(xlen: nat, dst: nat, base: nat, imm: nat)
    requires dst < 0x20 && base < 0x20 && imm < 0x1000
    ensures Decode(xlen, LoadWord(xlen, dst, base, imm)) == Load(dst, base, imm)
  {
    Fields(3, dst, if xlen == 64 then 3 else 2, base, imm);
    assert Field(imm, 1, 0x1000) == imm;
  }

  lemma AddiFields(xlen: nat, dst: nat, src: nat, imm: nat)
    requires dst < 0x20 && src < 0x20 && imm < 0x1000
    ensures Decode(xlen, AddiWord(dst, src, imm)) == Addi(dst, src, imm)
  {
    Fields(0x13, dst, 0, src, imm);
    assert Field(imm, 1, 0x1000) == imm;
  }

  /** One more word of v written over the front of w. */
  lemma OneMore(v: seq<nat>, w: seq<nat>, i: nat)
    requires i < |v| <= |w|
    ensures (v[..i] + w[i..])[i := v[i]] == v[..i + 1] + w[i + 1..]
  {
  }

  lemma StoreFields(xlen: nat, src: nat, base: nat, imm: nat)
    requires src < 0x20 && base < 0x20 && imm < 0x1000
    ensures Decode(xlen, StoreWord(xlen, src, base, imm)) == Store(src, base, imm)
  {
    var lo, hi := imm % 0x20, imm / 0x20;
    var w := StoreWord(xlen, src, base, imm);
    assert hi % 0x80 == hi;
    Fields(0x23, lo, if xlen == 64 then 3 else 2, base, src + hi * 0x20);
    assert w == 0x23 + lo * 0x80 + (if xlen == 64 then 3 else 2) * 0x1000 + base * 0x8000 + (src + hi * 0x20) * 0x10_0000;
    ModUnique(src + hi * 0x20, hi, src, 0x20);
    ModUnique(w, hi, 0x23 + lo * 0x80 + (if xlen == 64 then 3 else 2) * 0x1000 + base * 0x8000 + src * 0x10_0000, 0x200_0000);
  }

  // ------------------------------------------------------- debug module

  const TRANSFER := 0x2_0000
  const WRITE := 0x1_0000
  const POSTEXEC := 0x4_0000

  const DMI_DATA0 := 0x04
  const DMI_DMCONTROL := 0x10
  const DMI_ABSTRACTCS := 0x16
  const DMI_COMMAND := 0x17
  const DMI_ABSTRACTAUTO := 0x18
  const DMI_PROGBUF0 := 0x20

  const CMDERR_NOT_SUPPORTED := 2
  const CMDERR_EXCEPTION := 3
  const CMDERR_HALT_RESUME := 4

  /** The bytes in a register. */
  function Width(xlen: nat): (n: nat)
    ensures 4 <= n <= 8
  {
    if xlen == 64 then 8 else 4
  }

  function Modulus(xlen: nat): nat {
    if xlen == 64 then U32_LIMIT * U32_LIMIT else U32_LIMIT
  }

  function SizeCode(xlen: nat): nat {
    if xlen == 64 then 3 else 2
  }

  /** An access-register command. */
  function Command(write: bool, postexec: bool, xlen: nat, regno: nat): nat {
    TRANSFER + (if write then WRITE else 0) + (if postexec then POSTEXEC else 0) + SizeCode(xlen) * 0x10_0000 + 0x1000 + regno
  }

  /** The state of the debug module and of the hart that it has selected. */
  datatype State = State(mem: bytes, regs: seq<nat>, prog: seq<nat>, data: seq<nat>,
                         command: nat, auto: nat, cmderr: nat, halted: bool)
  {
    predicate Shape() {
      |regs| == 0x20 && |prog| >= 3 && |data| >= 2 && cmderr < 8
    }
  }

  function SetReg(s: State, r: nat, v: nat): (t: State)
    requires s.Shape() && r < 0x20
    ensures t.Shape()
  {
    if r == X0 then s else s.(regs := s.regs[r := v])
  }

  /** The program buffer from an index on; leaving it without EBREAK, or a fault, is an exception. */
  function Exec(s: State, xlen: nat, i: nat): (t: State)
    requires s.Shape()
    ensures t.Shape() && t.auto == s.auto && t.halted == s.halted && t.prog == s.prog
    decreases |s.prog| - i
  {
    if i >= |s.prog| then s.(cmderr := CMDERR_EXCEPTION)
    else
      match Decode(xlen, s.prog[i])
      case Ebreak => s
      case Other => s.(cmderr := CMDERR_EXCEPTION)
      case Addi(dst, src, imm) =>
        Exec(SetReg(s, dst % 0x20, (s.regs[src % 0x20] + imm) % Modulus(xlen)), xlen, i + 1)
      case Load(dst, base, imm) =>
        var a := s.regs[base % 0x20] + imm;
        if a + Width(xlen) > |s.mem| then s.(cmderr := CMDERR_EXCEPTION)
        else Exec(SetReg(s, dst % 0x20, Pack(s.mem[a..a + Width(xlen)])), xlen, i + 1)
      case Store(src, base, imm) =>
        var a := s.regs[base % 0x20] + imm;
        if a + Width(xlen) > |s.mem| then s.(cmderr := CMDERR_EXCEPTION)
        else Exec(s.(mem := Patch(s.mem, a, Unpack(s.regs[src % 0x20], Width(xlen)))), xlen, i + 1)
  }

  /** The register value that the data words hold. */
  function DataValue(data: seq<nat>, xlen: nat): nat
    requires |data| >= 2
  {
    if xlen == 64 then data[0] + data[1] * U32_LIMIT else data[0]
  }

  /** The data words after a register value is moved there. */
  function DataWords(data: seq<nat>, xlen: nat, v: nat): (r: seq<nat>)
    requires |data| >= 2
    ensures |r| == |data|
  {
    if xlen == 64 then data[0 := v % U32_LIMIT][1 := v / U32_LIMIT] else data[0 := v]
  }

  /** An access-register command on register r (section 3.6.1.1): move, then run the program buffer. */
  function AccessRegister(s: State, xlen: nat, c: nat, r: nat): (t: State)
    requires s.Shape() && r < 0x20
    ensures t.Shape() && t.auto == s.auto && t.halted == s.halted && t.prog == s.prog
  {
    var moved :=
      if c / TRANSFER % 2 == 0 then s
      else if c / WRITE % 2 == 1 then SetReg(s, r, DataValue(s.data, xlen))
      else s.(data := DataWords(s.data, xlen, s.regs[r]));
    if c / POSTEXEC % 2 == 1 then Exec(moved, xlen, 0) else moved
  }

  /** Running the abstract command in the command register, or refusing it. */
  function Access(s: State, xlen: nat): (t: State)
    requires s.Shape()
    ensures t.Shape() && t.auto == s.auto && t.halted == s.halted && t.prog == s.prog
  {
    var c := s.command;
    var regno := c % 0x1_0000;
    if s.cmderr != 0 then s
    else if !s.halted then s.(cmderr := CMDERR_HALT_RESUME)
    else if c / 0x10_0000 % 8 != SizeCode(xlen) || !(0x1000 <= regno < 0x1020) then s.(cmderr := CMDERR_NOT_SUPPORTED)
    else AccessRegister(s, xlen, c, regno - 0x1000)
  }

  /** A write to a register of the module; data word 0 repeats the command when autoexec is set (section 3.14.8). */
  function DmiWrite(s: State, xlen: nat, addr: nat, v: nat): (t: State)
    requires s.Shape()
    ensures t.Shape()
  {
    if addr == DMI_COMMAND then Access(s.(command := v), xlen)
    else if addr == DMI_ABSTRACTAUTO then s.(auto := v)
    else if addr == DMI_ABSTRACTCS then (if v / CMDERR % 8 == 7 then s.(cmderr := 0) else s)
    else if DMI_PROGBUF0 <= addr < DMI_PROGBUF0 + |s.prog| then s.(prog := s.prog[addr - DMI_PROGBUF0 := v])
    else if addr == DMI_DATA0 then
      var d := s.(data := s.data[0 := v]);
      if s.auto % 2 == 1 then Access(d, xlen) else d
    else if addr == DMI_DATA0 + 1 then s.(data := s.data[1 := v])
    else s
  }

  const HALTREQ := 0x8000_0000
  const RESUMEREQ := 0x4000_0000
  const DMACTIVE := 1
  const HARTSEL := 0x1_0000
  const ALLHALTED := 0x200
  const ALLRESUMEACK := 0x2_0000
  const BUSY := 0x1000
  const CMDERR := 0x100

  /** What a write to DMCONTROL selects and asks for. */
  function Selected(v: nat): nat {
    v / HARTSEL % 0x400
  }

  predicate AsksHalt(v: nat) {
    v / HALTREQ % 2 == 1
  }

  predicate AsksResume(v: nat) {
    v / RESUMEREQ % 2 == 1
  }

  lemma ControlFields(h: nat)
    requires h < 0x400
    ensures Selected(DMACTIVE + h * HARTSEL) == h && !AsksHalt(DMACTIVE + h * HARTSEL) && !AsksResume(DMACTIVE + h * HARTSEL)
    ensures var v := HALTREQ + DMACTIVE + h * HARTSEL; Selected(v) == h && AsksHalt(v) && !AsksResume(v)
    ensures var v := RESUMEREQ + DMACTIVE + h * HARTSEL; Selected(v) == h && !AsksHalt(v) && AsksResume(v)
  {
    assert h * HARTSEL + DMACTIVE < RESUMEREQ;
  }

  /** A hart on its own: its registers, whether it is halted, and what it was asked for last. */
  datatype Hart = Hart(regs: seq<nat>, halted: bool, haltReq: bool, resumeReq: bool)

  class DebugModule {
    const xlen: nat
    var st: State
    var haltReq: bool
    var resumeReq: bool
    /** The hart selected, whose own state is in st; harts holds that of the others. */
    var hartsel: nat
    var harts: seq<Hart>
    /** How many more polls find the module busy, or the hart not there yet. */
    var busy: nat

    ghost predicate Valid()
      reads this
    {
      && st.Shape() && (xlen == 32 || xlen == 64)
      && hartsel < |harts| <= 0x400 && forall h :: 0 <= h < |harts| ==> |harts[h].regs| == 0x20
    }

    function HartAt(h: nat): Hart
      requires h < |harts|
      reads this
    {
      if h == hartsel then Hart(st.regs, st.halted, haltReq, resumeReq) else harts[h]
    }

    /** The module as it would be if it had selected hart h. */
    function Seen(h: nat): State
      requires h < |harts|
      reads this
    {
      st.(regs := HartAt(h).regs, halted := HartAt(h).halted)
    }

    /** A write to DMCONTROL: the hart it selects gets the requests, and no other hart is touched. */
    method WriteControl(v: nat)
      requires Valid() && Selected(v) < |harts|
      modifies `st, `haltReq, `resumeReq, `hartsel, `harts, `busy
      ensures Valid() && hartsel == Selected(v) && |harts| == old(|harts|) && st == old(Seen(Selected(v)))
      ensures haltReq == AsksHalt(v) && resumeReq == AsksResume(v)
      ensures forall h: nat :: h < |harts| && h != hartsel ==> HartAt(h) == old(HartAt(h))
    {
      var h := Selected(v);
      harts := harts[hartsel := HartAt(hartsel)];
      st := st.(regs := harts[h].regs, halted := harts[h].halted);
      hartsel := h;
      haltReq := AsksHalt(v);
      resumeReq := AsksResume(v);
      busy := *;
    }

    /** A write to another register. */
    method Write(addr: nat, v: nat)
      requires Valid() && addr != DMI_DMCONTROL
      modifies `st, `busy
      ensures Valid() && st == DmiWrite(old(st), xlen, addr, v)
    {
      st := DmiWrite(st, xlen, addr, v);
      busy := *;
    }

    /** Polling the status of the hart; a pending request is honoured after some polls. */
    method ReadStatus() returns (v: nat)
      requires Valid()
      modifies `st, `busy
      ensures Valid()
      ensures old(busy) > 0 ==> st == old(st) && busy == old(busy) - 1 && v == 0
      ensures old(busy) == 0 ==>
                && st == old(st).(halted := if haltReq then true else if resumeReq then false else old(st).halted)
                && v == (if st.halted then ALLHALTED else 0) + (if resumeReq then ALLRESUMEACK else 0)
    {
      v := 0;
      if busy > 0 {
        busy := busy - 1;
        return;
      }
      st := st.(halted := if haltReq then true else if resumeReq then false else st.halted);
      v := (if st.halted then ALLHALTED else 0) + (if resumeReq then ALLRESUMEACK else 0);
    }

    /** Polling the state of the abstract command. */
    method ReadAbstractcs() returns (v: nat)
      requires Valid()
      modifies `busy
      ensures v == (if old(busy) > 0 then BUSY else 0) + st.cmderr * CMDERR
      ensures old(busy) > 0 ==> busy == old(busy) - 1
    {
      v := (if busy > 0 then BUSY else 0) + st.cmderr * CMDERR;
      if busy > 0 {
        busy := busy - 1;
      }
    }

    /** Reading a data word; data word 0 repeats the command when autoexec is set. */
    method ReadData(i: nat) returns (v: nat)
      requires Valid() && i < 2
      modifies `st
      ensures Valid() && v == old(st).data[i]
      ensures st == if i == 0 && old(st).auto % 2 == 1 then Access(old(st), xlen) else old(st)
    {
      v := st.data[i];
      if i == 0 && st.auto % 2 == 1 {
        st := Access(st, xlen);
      }
    }
  }

  // -------------------------------------------------- what commands do

  lemma CommandFields(write: bool, postexec: bool, xlen: nat, r: nat)
    requires r < 0x20
    ensures var c := Command(write, postexec, xlen, r);
            && c % 0x1_0000 == 0x1000 + r && c / 0x10_0000 % 8 == SizeCode(xlen)
            && c / TRANSFER % 2 == 1 && (c / WRITE % 2 == 1) == write && (c / POSTEXEC % 2 == 1) == postexec
  {
  }

  /** A command that moves a register, on a halted hart without a pending error. */
  lemma Moved(s: State, xlen: nat, write: bool, postexec: bool, r: nat)
    requires s.Shape() && s.cmderr == 0 && s.halted && 0 < r < 0x20 && s.command == Command(write, postexec, xlen, r)
    ensures var moved := if write then s.(regs := s.regs[r := DataValue(s.data, xlen)])
                         else s.(data := DataWords(s.data, xlen, s.regs[r]));
            moved.Shape() && Access(s, xlen) == if postexec then Exec(moved, xlen, 0) else moved
  {
    hide Exec, DataValue, DataWords, SizeCode;
    CommandFields(write, postexec, xlen, r);
    hide Command;
  }

  lemma PackBound(b: bytes)
    requires |b| == 4 || |b| == 8
    ensures Pack(b) < (if |b| == 8 then U32_LIMIT * U32_LIMIT else U32_LIMIT)
    ensures |b| == 8 ==> Pack(b) == Pack(b[..4]) + Pack(b[4..]) * U32_LIMIT && Pack(b[..4]) < U32_LIMIT && Pack(b[4..]) < U32_LIMIT
  {
    if |b| == 8 {
      Pack4(b[..4]);
      Pack4(b[4..]);
      PackSplit(b);
    } else {
      Pack4(b);
    }
  }

  lemma Pack4(b: bytes)
    requires |b| == 4
    ensures Pack(b) < U32_LIMIT
  {
    var b0: int, b1: int, b2: int, b3: int := b[0], b[1], b[2], b[3];
    assert b[3..][1..] == b[4..] && b[2..][1..] == b[3..] && b[1..][1..] == b[2..];
    assert Pack(b[3..]) == b3;
    assert Pack(b[2..]) == b2 + b3 * 0x100;
    assert Pack(b[1..]) == b1 + b2 * 0x100 + b3 * 0x1_0000;
  }

  lemma PackSplit(b: bytes)
    requires |b| == 8
    ensures Pack(b) == Pack(b[..4]) + Pack(b[4..]) * U32_LIMIT
  {
    var b0: int, b1: int, b2: int, b3: int := b[0], b[1], b[2], b[3];
    var p, c := Pack(b[4..]), b[..4];
    assert b[3..][1..] == b[4..] && b[2..][1..] == b[3..] && b[1..][1..] == b[2..];
    assert Pack(b[3..]) == b3 + p * 0x100;
    assert Pack(b[2..]) == b2 + b3 * 0x100 + p * 0x1_0000;
    assert Pack(b[1..]) == b1 + b2 * 0x100 + b3 * 0x1_0000 + p * 0x100_0000;
    assert c[3..][1..] == c[4..] && c[2..][1..] == c[3..] && c[1..][1..] == c[2..];
    assert Pack(c[3..]) == b3;
    assert Pack(c[2..]) == b2 + b3 * 0x100;
    assert Pack(c[1..]) == b1 + b2 * 0x100 + b3 * 0x1_0000;
  }

  predicate LoadProgram(prog: seq<nat>, xlen: nat) {
    && |prog| >= 3 && prog[0] == LoadWord(xlen, S1, S0, 0) && prog[1] == AddiWord(S0, S0, Width(xlen)) && prog[2] == EBREAK
  }

  predicate StoreProgram(prog: seq<nat>, xlen: nat) {
    && |prog| >= 3 && prog[0] == StoreWord(xlen, S1, S0, 0) && prog[1] == AddiWord(S0, S0, Width(xlen)) && prog[2] == EBREAK
  }

  /** The next address, as far as the register holds it. */
  function After(a: nat, xlen: nat): (r: nat)
    ensures a + Width(xlen) < Modulus(xlen) ==> r == a + Width(xlen)
  {
    (a + Width(xlen)) % Modulus(xlen)
  }

  lemma Decoded(xlen: nat)
    ensures Decode(xlen, LoadWord(xlen, S1, S0, 0)) == Load(S1, S0, 0)
    ensures Decode(xlen, StoreWord(xlen, S1, S0, 0)) == Store(S1, S0, 0)
    ensures Decode(xlen, AddiWord(S0, S0, Width(xlen))) == Addi(S0, S0, Width(xlen))
    ensures Decode(xlen, EBREAK) == Ebreak
  {
    hide LoadWord, StoreWord, AddiWord;
    EncodedRight(xlen, S1, S0, 0);
    EncodedRight(xlen, S0, S0, Width(xlen));
  }

  // What one instruction of the program buffer does.

  lemma StepAddi(s: State, xlen: nat, i: nat, dst: nat, src: nat, imm: nat)
    requires s.Shape() && i < |s.prog| && Decode(xlen, s.prog[i]) == Addi(dst, src, imm)
    ensures Exec(s, xlen, i) == Exec(SetReg(s, dst % 0x20, (s.regs[src % 0x20] + imm) % Modulus(xlen)), xlen, i + 1)
  {
    hide Decode, Modulus, SetReg;
  }

  lemma StepLoad(s: State, xlen: nat, i: nat, dst: nat, base: nat, imm: nat)
    requires s.Shape() && i < |s.prog| && Decode(xlen, s.prog[i]) == Load(dst, base, imm)
    requires s.regs[base % 0x20] + imm + Width(xlen) <= |s.mem|
    ensures var a := s.regs[base % 0x20] + imm;
            Exec(s, xlen, i) == Exec(SetReg(s, dst % 0x20, Pack(s.mem[a..a + Width(xlen)])), xlen, i + 1)
  {
    hide Decode, Width, Pack, SetReg;
  }

  lemma StepStore(s: State, xlen: nat, i: nat, src: nat, base: nat, imm: nat)
    requires s.Shape() && i < |s.prog| && Decode(xlen, s.prog[i]) == Store(src, base, imm)
    requires s.regs[base % 0x20] + imm + Width(xlen) <= |s.mem|
    ensures var a := s.regs[base % 0x20] + imm;
            Exec(s, xlen, i) == Exec(s.(mem := Patch(s.mem, a, Unpack(s.regs[src % 0x20], Width(xlen)))), xlen, i + 1)
  {
    hide Decode, Width, Unpack, Patch;
  }

  lemma StepEbreak(s: State, xlen: nat, i: nat)
    requires s.Shape() && i < |s.prog| && Decode(xlen, s.prog[i]) == Ebreak
    ensures Exec(s, xlen, i) == s
  {
    hide Decode;
  }

  /** One run of the load program: S1 gets the word at S0, and S0 moves on. */
  lemma ExecLoad(s: State, xlen: nat)
    requires s.Shape() && LoadProgram(s.prog, xlen) && s.regs[S0] + Width(xlen) <= |s.mem|
    ensures var a := s.regs[S0];
            Exec(s, xlen, 0) == s.(regs := s.regs[S1 := Pack(s.mem[a..a + Width(xlen)])][S0 := After(a, xlen)])
  {
    hide Exec, Decode, LoadWord, AddiWord, Pack, Width, Modulus;
    Decoded(xlen);
    var a := s.regs[S0];
    var s1 := SetReg(s, S1, Pack(s.mem[a..a + Width(xlen)]));
    StepLoad(s, xlen, 0, S1, S0, 0);
    StepAddi(s1, xlen, 1, S0, S0, Width(xlen));
    StepEbreak(SetReg(s1, S0, After(a, xlen)), xlen, 2);
  }

  /** One run of the store program: the word at S0 becomes S1, and S0 moves on. */
  lemma ExecStore(s: State, xlen: nat)
    requires s.Shape() && StoreProgram(s.prog, xlen) && s.regs[S0] + Width(xlen) <= |s.mem|
    ensures var a := s.regs[S0];
            Exec(s, xlen, 0) ==
            s.(mem := Patch(s.mem, a, Unpack(s.regs[S1], Width(xlen))), regs := s.regs[S0 := After(a, xlen)])
  {
    hide Exec, Decode, StoreWord, AddiWord, Unpack, Width, Modulus, Patch;
    Decoded(xlen);
    var a := s.regs[S0];
    var s1 := s.(mem := Patch(s.mem, a, Unpack(s.regs[S1], Width(xlen))));
    StepStore(s, xlen, 0, S1, S0, 0);
    StepAddi(s1, xlen, 1, S0, S0, Width(xlen));
    StepEbreak(SetReg(s1, S0, After(a, xlen)), xlen, 2);
  }

  // -------------------------------------------------------------- driver

  function LoadProg(s: State, program: seq<nat>): (t: State)
    requires s.Shape() && |program| <= |s.prog|
    ensures t.Shape()
  {
    s.(prog := program + s.prog[|program|..])
  }

  function LoadData(s: State, data: seq<nat>): (t: State)
    requires s.Shape() && |data| <= 2
    ensures t.Shape()
  {
    s.(data := data + s.data[|data|..])
  }

  /** What running a command does, program and data included. */
  function Ran(s: State, xlen: nat, command: nat, program: seq<nat>, data: seq<nat>): (t: State)
    requires s.Shape() && |program| <= |s.prog| && |data| <= 2
    ensures t.Shape()
  {
    var p := LoadProg(s, program);
    var d := if command / WRITE % 2 == 1 && command / TRANSFER % 2 == 1 then LoadData(p, data) else p;
    Access(d.(command := command), xlen)
  }

  class Dtm {
    const target: DebugModule
    var running: bool
    var currentHart: nat

    ghost predicate Valid()
      reads this, target
    {
      target.Valid() && currentHart < |target.harts|
    }

    constructor (target: DebugModule)
      ensures this.target == target && !running && currentHart == 0
    {
      this.target := target;
      running := false;
      currentHart := 0;
    }

    /** The other harts are as they were. */
    twostate predicate OthersKept()
      reads this, target
    {
      && |target.harts| == old(|target.harts|)
      && forall h: nat :: h < |target.harts| && h != currentHart ==>
           target.HartAt(h).regs == old(target.HartAt(h).regs) && target.HartAt(h).halted == old(target.HartAt(h).halted)
    }

    /** Selecting hart 0, with no request for it. */
    method SelectFirst()
      requires Valid()
      modifies target
      ensures Valid() && target.Seen(currentHart) == old(target.Seen(currentHart)) && OthersKept()
    {
      hide Access, State.Shape, Selected, AsksHalt, AsksResume;
      ControlFields(0);
      target.WriteControl(DMACTIVE);
      var _ := target.ReadStatus();
    }

    /** Taking back the request for the current hart. */
    method ClearRequest()
      requires Valid() && target.hartsel == currentHart
      modifies target
      ensures Valid() && target.hartsel == currentHart && target.st == old(target.st) && OthersKept()
    {
      hide Access, State.Shape, Selected, AsksHalt, AsksResume;
      ControlFields(currentHart);
      target.WriteControl(DMACTIVE + currentHart * HARTSEL);
      var _ := target.ReadStatus();
    }

    /** dtm_t::halt: the current hart is halted, and no other. */
    method Halt()
      requires Valid()
      modifies target
      ensures Valid() && target.hartsel == currentHart && target.st == old(target.Seen(currentHart)).(halted := true)
      ensures OthersKept()
    {
      hide Access, State.Shape, Selected, AsksHalt, AsksResume;
      ControlFields(currentHart);
      ghost var was := target.Seen(currentHart);
      if running {
        SelectFirst();
      }
      target.WriteControl(HALTREQ + DMACTIVE + currentHart * HARTSEL);
      while true
        invariant Valid() && target.hartsel == currentHart && target.st == was && target.haltReq && OthersKept()
        decreases target.busy
      {
        var dmstatus := target.ReadStatus();
        if dmstatus / ALLHALTED % 2 != 0 {
          break;
        }
      }
      assert OthersKept();
      ClearRequest();
    }

    /** dtm_t::resume: the current hart runs, and no other is touched. */
    method Resume()
      requires Valid()
      modifies target
      ensures Valid() && target.Seen(currentHart) == old(target.Seen(currentHart)).(halted := false)
      ensures OthersKept()
    {
      hide Access, State.Shape, Selected, AsksHalt, AsksResume;
      ControlFields(currentHart);
      ghost var was := target.Seen(currentHart);
      target.WriteControl(RESUMEREQ + DMACTIVE + currentHart * HARTSEL);
      while true
        invariant Valid() && target.hartsel == currentHart && target.st == was && !target.haltReq && target.resumeReq && OthersKept()
        decreases target.busy
      {
        var dmstatus := target.ReadStatus();
        if dmstatus / ALLRESUMEACK % 2 != 0 {
          break;
        }
      }
      assert OthersKept();
      ClearRequest();
      if running {
        SelectFirst();
      }
    }

    /** dtm_t::run_abstract_command */
    method RunAbstractCommand(command: nat, program: seq<nat>, data: seq<nat>) returns (err: nat, out: seq<nat>)
      requires Valid() && |program| <= |target.st.prog| && |data| <= 2 && target.st.auto % 2 == 0
      modifies target`st, target`busy
      ensures Valid() && target.st == Ran(old(target.st), target.xlen, command, program, data)
      ensures err == target.st.cmderr
      ensures out == if command / WRITE % 2 == 0 && command / TRANSFER % 2 == 1 then target.st.data[..|data|] else data
    {
      hide Access, LoadWord, StoreWord;
      ghost var was := target.st;
      WriteProgram(program);
      var isWrite, isTransfer := command / WRITE % 2 == 1, command / TRANSFER % 2 == 1;
      if isWrite && isTransfer {
        WriteData(data);
      }
      target.Write(DMI_COMMAND, command);
      var abstractcs := WaitWhileBusy();
      out := data;
      if !isWrite && isTransfer {
        out := ReadDataWords(|data|, data);
      }
      err := abstractcs / CMDERR % 8;
    }

    method WriteProgram(program: seq<nat>)
      requires Valid() && |program| <= |target.st.prog| && target.st.auto % 2 == 0
      modifies target`st, target`busy
      ensures Valid() && target.st == LoadProg(old(target.st), program)
    {
      hide Access;
      ghost var was := target.st;
      assert program[..0] + was.prog[0..] == was.prog;
      for i := 0 to |program|
        invariant Valid() && target.st == LoadProg(was, program[..i])
      {
        OneMore(program, was.prog, i);
        target.Write(DMI_PROGBUF0 + i, program[i]);
      }
      assert program[..|program|] == program;
    }

    method WriteData(data: seq<nat>)
      requires Valid() && |data| <= 2 && target.st.auto % 2 == 0
      modifies target`st, target`busy
      ensures Valid() && target.st == LoadData(old(target.st), data)
    {
      hide Access;
      ghost var was := target.st;
      assert data[..0] + was.data[0..] == was.data;
      for i := 0 to |data|
        invariant Valid() && target.st == LoadData(was, data[..i])
      {
        OneMore(data, was.data, i);
        target.Write(DMI_DATA0 + i, data[i]);
      }
      assert data[..|data|] == data;
    }

    method WaitWhileBusy() returns (abstractcs: nat)
      requires Valid()
      modifies target`busy
      ensures abstractcs / BUSY % 2 == 0 && abstractcs / CMDERR % 8 == target.st.cmderr
    {
      while true
        decreases target.busy
      {
        abstractcs := target.ReadAbstractcs();
        if abstractcs / BUSY % 2 == 0 {
          return;
        }
      }
    }

    method ReadDataWords(n: nat, ghost data: seq<nat>) returns (out: seq<nat>)
      requires Valid() && n <= 2 && target.st.auto % 2 == 0
      modifies target`st
      ensures Valid() && target.st == old(target.st) && out == target.st.data[..n]
    {
      out := [];
      for i := 0 to n
        invariant target.st == old(target.st) && out == target.st.data[..i]
      {
        var v := target.ReadData(i);
        out := out + [v];
      }
    }

    /** RUN_AC_OR_DIE: an error is reported and cleared, and the driver goes on. */
    method RunAcOrDie(command: nat, program: seq<nat>, data: seq<nat>) returns (out: seq<nat>)
      requires Valid() && |program| <= |target.st.prog| && |data| <= 2 && target.st.auto % 2 == 0
      modifies target`st, target`busy
      ensures Valid()
      ensures var s := Ran(old(target.st), target.xlen, command, program, data);
              s.cmderr == 0 ==>
                && target.st == s
                && out == if command / WRITE % 2 == 0 && command / TRANSFER % 2 == 1 then s.data[..|data|] else data
    {
      hide Ran;
      var err;
      err, out := RunAbstractCommand(command, program, data);
      if err != 0 {
        target.Write(DMI_ABSTRACTCS, 7 * CMDERR);
      }
    }

    /** dtm_t::save_reg */
    method SaveReg(regno: nat) returns (v: nat)
      requires Ready() && 0 < regno < 0x20 && target.st.regs[regno] < Modulus(target.xlen)
      modifies target`st, target`busy
      ensures Ready() && v == old(target.st).regs[regno]
      ensures target.st == old(target.st).(command := target.st.command, data := target.st.data)
    {
      hide Access, Exec, Command, Modulus;
      ghost var was := target.st;
      var command := Command(false, false, target.xlen, regno);
      CommandFields(false, false, target.xlen, regno);
      assert [] + was.prog[0..] == was.prog;
      Moved(was.(command := command), target.xlen, false, false, regno);
      var data := RunAcOrDie(command, [], if target.xlen == 64 then [0, 0] else [0]);
      SplitJoin(was.data, was.regs[regno], target.xlen);
      v := data[0];
      if target.xlen > 32 {
        v := v + data[1] * U32_LIMIT;
      }
    }

    /** dtm_t::restore_reg */
    method RestoreReg(regno: nat, val: nat)
      requires Ready() && 0 < regno < 0x20 && val < Modulus(target.xlen)
      modifies target`st, target`busy
      ensures Ready()
      ensures target.st == old(target.st).(command := target.st.command, data := target.st.data, regs := old(target.st).regs[regno := val])
    {
      hide Access, Exec, Command, Modulus;
      ghost var was := target.st;
      var command := Command(true, false, target.xlen, regno);
      CommandFields(true, false, target.xlen, regno);
      assert [] + was.prog[0..] == was.prog;
      var data := Split(val, target.xlen);
      SplitValue(was.data, val, target.xlen);
      Moved(LoadData(was, data).(command := command), target.xlen, true, false, regno);
      var _ := RunAcOrDie(command, [], data);
    }

    /** dtm_t::read_chunk: dst receives the bytes at taddr; memory and registers end as they were, the hart resumed. */
    method ReadChunk(taddr: nat, dst: array<byte>)
      requires Chunkable(taddr, dst.Length)
      modifies target, dst
      ensures Valid() && target.st.cmderr == 0 && target.st.auto == 0
      ensures target.st.mem == old(target.st).mem
      ensures !target.HartAt(currentHart).halted && target.HartAt(currentHart).regs == old(target.HartAt(currentHart)).regs && OthersKept()
      ensures dst[..] == target.st.mem[taddr..taddr + dst.Length]
    {
      hide Access, Exec, Command, LoadWord, AddiWord, Modulus, Reading, Ran;
      ghost var mem, regs := target.st.mem, target.HartAt(currentHart).regs;
      var xlen, w := target.xlen, Width(target.xlen);
      Halt();
      var s0 := SaveReg(S0);
      var s1 := SaveReg(S1);
      var prog := [LoadWord(xlen, S1, S0, 0), AddiWord(S0, S0, w), EBREAK];
      AtLeastOne(dst.Length, w);
      StartReading(target.st, xlen, taddr, prog);
      var _ := RunAcOrDie(Command(true, true, xlen, S0), prog, Split(taddr, xlen));
      ReadWords(taddr, dst, mem, regs);
      RestoreReg(S0, s0);
      RestoreReg(S1, s1);
      Restored(regs, target.st.regs);
      Resume();
    }

    /** The loop of read_chunk. */
    method ReadWords(taddr: nat, dst: array<byte>, ghost mem: bytes, ghost regs: seq<nat>)
      requires Ready() && 0 < dst.Length && dst.Length % Width(target.xlen) == 0 && taddr + dst.Length <= |mem| <= Modulus(target.xlen)
      requires Reading(target.st, mem, regs, target.xlen, taddr)
      modifies target`st, target`busy, dst
      ensures Ready() && Quiet(target.st, mem, regs)
      ensures dst[..] == mem[taddr..taddr + dst.Length]
    {
      hide Access, Exec, Command, Patch, Modulus, Reading, Ran, WordBytes;
      ghost var was := dst[..];
      var xlen, w := target.xlen, Width(target.xlen);
      var pos := 0;
      PatchNone(was, mem[taddr..taddr]);
      while pos < dst.Length
        invariant Ready() && 0 <= pos <= dst.Length && (dst.Length - pos) % w == 0
        invariant if pos < dst.Length then Reading(target.st, mem, regs, xlen, taddr + pos) else Quiet(target.st, mem, regs)
        invariant dst[..] == Patch(was, 0, mem[taddr..taddr + pos])
        decreases dst.Length - pos
      {
        AtLeastOne(dst.Length - pos, w);
        SubMod(dst.Length - pos, w, w);
        var more := pos + w < dst.Length;
        if more {
          AtLeastOne(dst.Length - pos - w, w);
        }
        ReadStep(target.st, mem, regs, xlen, taddr + pos, more);
        CommandFields(false, more, xlen, S1);
        var data := RunAcOrDie(Command(false, more, xlen, S1), [], if xlen == 64 then [0, 0] else [0]);
        CopyIn(dst, pos, WordBytes(data, xlen));
        NextPart(was, mem, taddr, pos, w, WordBytes(data, xlen));
        pos := pos + w;
      }
      PatchAll(was, mem[taddr..taddr + dst.Length]);
    }

    /** dtm_t::write_chunk: exactly the bytes at taddr change; registers end as they were, autoexec off, the hart resumed. */
    method WriteChunk(taddr: nat, src: bytes)
      requires Chunkable(taddr, |src|)
      modifies target
      ensures Valid() && target.st.cmderr == 0 && target.st.auto == 0
      ensures target.st.mem == Patch(old(target.st).mem, taddr, src)
      ensures !target.HartAt(currentHart).halted && target.HartAt(currentHart).regs == old(target.HartAt(currentHart)).regs && OthersKept()
    {
      hide Access, Exec, Command, StoreWord, AddiWord, Modulus, Patch, Ran;
      ghost var mem, regs := target.st.mem, target.HartAt(currentHart).regs;
      var xlen, w := target.xlen, Width(target.xlen);
      Halt();
      var s0 := SaveReg(S0);
      var s1 := SaveReg(S1);
      var prog := [StoreWord(xlen, S1, S0, 0), AddiWord(S0, S0, w), EBREAK];
      AtLeastOne(|src|, w);
      StartWriting(target.st, xlen, taddr, prog);
      var _ := RunAcOrDie(Command(true, false, xlen, S0), prog, Split(taddr, xlen));
      FirstWord(target.st, mem, regs, xlen, taddr, src[..w]);
      var _ := RunAcOrDie(Command(true, true, xlen, S1), [], ToWords(src[..w], xlen));
      WriteWords(taddr, src, mem, regs);
      RestoreReg(S0, s0);
      RestoreReg(S1, s1);
      Restored(regs, target.st.regs);
      Resume();
    }

    /** The loop of write_chunk, with autoexec repeating the command for each further word. */
    method WriteWords(taddr: nat, src: bytes, ghost mem: bytes, ghost regs: seq<nat>)
      requires Ready() && 0 < |src| && |src| % Width(target.xlen) == 0 && taddr + |src| <= |mem| <= Modulus(target.xlen)
      requires Width(target.xlen) <= |src|
      requires Writing(target.st, Patch(mem, taddr, src[..Width(target.xlen)]), regs, target.xlen, taddr + Width(target.xlen), 0)
      modifies target`st, target`busy
      ensures Ready() && Quiet(target.st, Patch(mem, taddr, src), regs)
    {
      hide Access, Exec, Command, Patch, Modulus, Writing;
      var xlen, w := target.xlen, Width(target.xlen);
      var pos := w;
      ModUnique(w, 1, 0, w);
      SubMod(|src|, w, w);
      while pos < |src|
        invariant Valid() && w <= pos <= |src| && (|src| - pos) % w == 0
        invariant Writing(target.st, Patch(mem, taddr, src[..pos]), regs, xlen, taddr + pos, if pos == w then 0 else 1)
        decreases |src| - pos
      {
        AtLeastOne(|src| - pos, w);
        SubMod(|src| - pos, w, w);
        if pos == w {
          AutoOn(target.st, Patch(mem, taddr, src[..pos]), regs, xlen, taddr + pos);
          target.Write(DMI_ABSTRACTAUTO, 1);
        }
        var data := ToWords(src[pos..pos + w], xlen);
        AutoStep(target.st, Patch(mem, taddr, src[..pos]), regs, xlen, taddr + pos, src[pos..pos + w]);
        PatchNext(mem, taddr, src, pos, w);
        if xlen == 64 {
          target.Write(DMI_DATA0 + 1, data[1]);
        }
        target.Write(DMI_DATA0, data[0]);
        WritingQuiet(target.st, Patch(mem, taddr, src[..pos + w]), regs, xlen, taddr + (pos + w), 1);
        CheckDone();
        pos := pos + w;
      }
      assert src[..pos] == src;
      WritingQuiet(target.st, Patch(mem, taddr, src), regs, xlen, taddr + pos, if pos == w then 0 else 1);
      if |src| > w {
        target.Write(DMI_ABSTRACTAUTO, 0);
      }
    }

    /** Waiting for a repeated command; an error is reported and cleared. */
    method CheckDone()
      requires Valid()
      modifies target`st, target`busy
      ensures Valid() && (old(target.st).cmderr == 0 ==> target.st == old(target.st))
    {
      var abstractcs := WaitWhileBusy();
      if abstractcs / CMDERR % 8 != 0 {
        target.Write(DMI_ABSTRACTCS, 7 * CMDERR);
      }
    }

    /** What a chunk access asks of its caller: whole words inside memory, and a module at rest. */
    ghost predicate Chunkable(taddr: nat, len: nat)
      reads this, target
    {
      && Valid() && target.st.cmderr == 0 && target.st.auto == 0
      && 0 < len && len % Width(target.xlen) == 0 && taddr + len <= |target.st.mem| <= Modulus(target.xlen)
      && (var regs := target.HartAt(currentHart).regs;
          |regs| == 0x20 && regs[S0] < Modulus(target.xlen) && regs[S1] < Modulus(target.xlen))
    }

    /** Between halt and resume: no error, and data word 0 does not repeat commands. */
    ghost predicate Ready()
      reads this, target
    {
      Valid() && target.st.halted && target.st.cmderr == 0 && target.st.auto == 0
    }
  }

  /** A register value as data words. */
  function Split(v: nat, xlen: nat): (r: seq<nat>)
    ensures |r| <= 2
  {
    if xlen == 64 then [v % U32_LIMIT, v / U32_LIMIT] else [v]
  }

  lemma SplitValue(data: seq<nat>, v: nat, xlen: nat)
    requires |data| >= 2
    ensures var d := Split(v, xlen) + data[|Split(v, xlen)|..]; |d| >= 2 && DataValue(d, xlen) == v
  {
  }

  lemma SplitJoin(data: seq<nat>, v: nat, xlen: nat)
    requires |data| >= 2
    ensures var d := DataWords(data, xlen, v); if xlen == 64 then d[0] + d[1] * U32_LIMIT == v else d[0] == v
  {
  }

  /** A stopped hart without errors, whose memory and registers other than S0 and S1 are these. */
  predicate Quiet(s: State, mem: bytes, regs: seq<nat>) {
    && s.Shape() && s.halted && s.cmderr == 0 && s.auto == 0 && s.mem == mem && |regs| == 0x20
    && forall r :: 0 <= r < 0x20 && r != S0 && r != S1 ==> s.regs[r] == regs[r]
  }

  /** In the middle of a read: S1 holds the word at a, and S0 the address after it. */
  predicate Reading(s: State, mem: bytes, regs: seq<nat>, xlen: nat, a: nat) {
    && Quiet(s, mem, regs) && LoadProgram(s.prog, xlen) && a + Width(xlen) <= |mem|
    && s.regs[S0] == After(a, xlen) && s.regs[S1] == Pack(mem[a..a + Width(xlen)])
  }

  /** The bytes of data words, as memcpy copies them on a little-endian host. */
  function WordBytes(data: seq<nat>, xlen: nat): bytes
    requires |data| >= if xlen == 64 then 2 else 1
  {
    if xlen == 64 then Unpack(data[0], 4) + Unpack(data[1], 4) else Unpack(data[0], 4)
  }

  lemma AtLeastOne(n: nat, w: nat)
    requires w > 0 && n % w == 0 && n > 0
    ensures w <= n
  {
    if n < w {
      ModUnique(n, 0, n, w);
    }
  }

  lemma PatchNone(s: bytes, w: bytes)
    requires w == []
    ensures Patch(s, 0, w) == s
  {
  }

  lemma PatchAll(s: bytes, w: bytes)
    requires |s| == |w|
    ensures Patch(s, 0, w) == w
  {
  }

  lemma NextPart(was: bytes, mem: bytes, a: nat, pos: nat, w: nat, b: bytes)
    requires a + pos + w <= |mem| && pos + w <= |was| && b == mem[a + pos..a + pos + w]
    ensures Patch(Patch(was, 0, mem[a..a + pos]), pos, b) == Patch(was, 0, mem[a..a + (pos + w)])
  {
    var l, r := Patch(Patch(was, 0, mem[a..a + pos]), pos, b), Patch(was, 0, mem[a..a + (pos + w)]);
    assert forall k :: 0 <= k < |was| ==> l[k] == r[k];
  }

  lemma Restored(regs: seq<nat>, now: seq<nat>)
    requires |regs| == |now| == 0x20 && now[S0] == regs[S0] && now[S1] == regs[S1]
    requires forall r :: 0 <= r < 0x20 && r != S0 && r != S1 ==> now[r] == regs[r]
    ensures now == regs
  {
  }

  /** The command that starts a read. */
  lemma StartReading(s: State, xlen: nat, taddr: nat, prog: seq<nat>)
    requires Quiet(s, s.mem, s.regs) && prog == [LoadWord(xlen, S1, S0, 0), AddiWord(S0, S0, Width(xlen)), EBREAK]
    requires taddr + Width(xlen) <= |s.mem|
    ensures var t := Ran(s, xlen, Command(true, true, xlen, S0), prog, Split(taddr, xlen));
            Quiet(t, s.mem, s.regs) && Reading(t, s.mem, s.regs, xlen, taddr)
  {
    hide Access, Exec, Command, LoadWord, AddiWord, Pack, Modulus, Width, DataValue;
    var c := Command(true, true, xlen, S0);
    CommandFields(true, true, xlen, S0);
    SplitValue(s.data, taddr, xlen);
    var d := LoadData(LoadProg(s, prog), Split(taddr, xlen)).(command := c);
    Moved(d, xlen, true, true, S0);
    var m := d.(regs := d.regs[S0 := taddr]);
    assert LoadProgram(m.prog, xlen);
    ExecLoad(m, xlen);
  }

  /** The command that fetches the word in S1 and, unless it is the last, loads the next. */
  lemma ReadStep(s: State, mem: bytes, regs: seq<nat>, xlen: nat, a: nat, more: bool)
    requires Reading(s, mem, regs, xlen, a) && |mem| <= Modulus(xlen) && (xlen == 32 || xlen == 64)
    requires more ==> a + Width(xlen) + Width(xlen) <= |mem|
    ensures var t := Ran(s, xlen, Command(false, more, xlen, S1), [], if xlen == 64 then [0, 0] else [0]);
            && Quiet(t, mem, regs) && (more ==> Reading(t, mem, regs, xlen, a + Width(xlen)))
            && WordBytes(t.data[..if xlen == 64 then 2 else 1], xlen) == mem[a..a + Width(xlen)]
  {
    hide Access, Exec, Command, LoadProgram, Pack, Modulus, DataWords, WordBytes;
    var c := Command(false, more, xlen, S1);
    CommandFields(false, more, xlen, S1);
    assert [] + s.prog[0..] == s.prog;
    Moved(s.(command := c), xlen, false, more, S1);
    var d := s.(command := c, data := DataWords(s.data, xlen, s.regs[S1]));
    FetchedBytes(s.data, xlen, mem[a..a + Width(xlen)]);
    if more {
      ExecLoad(d, xlen);
    }
  }

  lemma FetchedBytes(data: seq<nat>, xlen: nat, b: bytes)
    requires |data| >= 2 && |b| == Width(xlen) && (xlen == 32 || xlen == 64)
    ensures WordBytes(DataWords(data, xlen, Pack(b))[..if xlen == 64 then 2 else 1], xlen) == b
  {
    hide Pack, Unpack;
    PackBound(b);
    if xlen == 64 {
      UnpackPack(b[..4]);
      UnpackPack(b[4..]);
      ModUnique(Pack(b), Pack(b[4..]), Pack(b[..4]), U32_LIMIT);
      assert b[..4] + b[4..] == b;
    } else {
      UnpackPack(b);
    }
  }

  /** In the middle of a write: the next word goes to a, and the command is ready to be repeated. */
  predicate Writing(s: State, mem: bytes, regs: seq<nat>, xlen: nat, a: nat, auto: nat) {
    && Quiet(s.(auto := 0), mem, regs) && s.auto == auto && StoreProgram(s.prog, xlen)
    && s.command == Command(true, true, xlen, S1) && (a + Width(xlen) <= |mem| ==> s.regs[S0] == a)
  }

  lemma WritingQuiet(s: State, mem: bytes, regs: seq<nat>, xlen: nat, a: nat, auto: nat)
    requires Writing(s, mem, regs, xlen, a, auto)
    ensures s.Shape() && s.cmderr == 0 && s.halted && s.auto == auto && Quiet(s.(auto := 0), mem, regs)
  {
  }

  lemma AutoOn(s: State, mem: bytes, regs: seq<nat>, xlen: nat, a: nat)
    requires Writing(s, mem, regs, xlen, a, 0)
    ensures s.Shape() && Writing(DmiWrite(s, xlen, DMI_ABSTRACTAUTO, 1), mem, regs, xlen, a, 1)
  {
    hide Access, Command, StoreProgram;
    assert s.(auto := 1).(auto := 0) == s;
  }

  /** The data words of the bytes of a register, as memcpy fills them on a little-endian host. */
  function ToWords(b: bytes, xlen: nat): (r: seq<nat>)
    requires |b| == Width(xlen)
    ensures |r| == if xlen == 64 then 2 else 1
  {
    if xlen == 64 then [Pack(b[..4]), Pack(b[4..])] else [Pack(b)]
  }

  lemma WordsValue(b: bytes, xlen: nat, data: seq<nat>)
    requires |b| == Width(xlen) && |data| >= 2 && (xlen == 32 || xlen == 64)
    requires data[0] == ToWords(b, xlen)[0] && (xlen == 64 ==> data[1] == ToWords(b, xlen)[1])
    ensures DataValue(data, xlen) == Pack(b)
  {
    hide Pack;
    PackBound(b);
  }

  /** The command that gives S0 the address. */
  lemma StartWriting(s: State, xlen: nat, taddr: nat, prog: seq<nat>)
    requires Quiet(s, s.mem, s.regs) && prog == [StoreWord(xlen, S1, S0, 0), AddiWord(S0, S0, Width(xlen)), EBREAK]
    ensures var t := Ran(s, xlen, Command(true, false, xlen, S0), prog, Split(taddr, xlen));
            Quiet(t, s.mem, s.regs) && StoreProgram(t.prog, xlen) && t.regs[S0] == taddr
  {
    hide Access, Exec, Command, StoreWord, AddiWord, Modulus, Width, DataValue;
    CommandFields(true, false, xlen, S0);
    SplitValue(s.data, taddr, xlen);
    var d := LoadData(LoadProg(s, prog), Split(taddr, xlen)).(command := Command(true, false, xlen, S0));
    Moved(d, xlen, true, false, S0);
  }

  /** Moving a word to S1 and storing it. */
  lemma StoreStep(d: State, mem: bytes, regs: seq<nat>, xlen: nat, a: nat, b: bytes, auto: nat)
    requires Quiet(d.(auto := 0), mem, regs) && d.auto == auto && StoreProgram(d.prog, xlen)
    requires d.regs[S0] == a && |b| == Width(xlen) && a + |b| <= |mem| <= Modulus(xlen)
    requires d.command == Command(true, true, xlen, S1) && DataValue(d.data, xlen) == Pack(b)
    ensures d.Shape() && Writing(Access(d, xlen), Patch(mem, a, b), regs, xlen, a + |b|, auto)
  {
    hide Access, Exec, Command, StoreProgram, Pack, Unpack, Modulus, Patch, DataValue;
    Moved(d, xlen, true, true, S1);
    var m := d.(regs := d.regs[S1 := Pack(b)]);
    ExecStore(m, xlen);
    UnpackPack(b);
    var t := m.(mem := Patch(mem, a, b), regs := m.regs[S0 := After(a, xlen)]);
    assert Access(d, xlen) == t;
    assert t.(auto := 0).Shape();
  }

  /** The first word, moved and stored by one command. */
  lemma FirstWord(s: State, mem: bytes, regs: seq<nat>, xlen: nat, a: nat, b: bytes)
    requires Quiet(s, mem, regs) && StoreProgram(s.prog, xlen) && s.regs[S0] == a && (xlen == 32 || xlen == 64)
    requires |b| == Width(xlen) && a + |b| <= |mem| <= Modulus(xlen)
    ensures var t := Ran(s, xlen, Command(true, true, xlen, S1), [], ToWords(b, xlen));
            t.cmderr == 0 && t.auto == 0 && t.halted && Writing(t, Patch(mem, a, b), regs, xlen, a + |b|, 0)
  {
    hide Access, Command, StoreProgram, Pack, Modulus, Patch, Writing, DataValue, ToWords;
    CommandFields(true, true, xlen, S1);
    assert [] + s.prog[0..] == s.prog;
    var d := LoadData(s, ToWords(b, xlen)).(command := Command(true, true, xlen, S1));
    WordsValue(b, xlen, d.data);
    assert d.(auto := 0) == d;
    StoreStep(d, mem, regs, xlen, a, b, 0);
    WritingQuiet(Access(d, xlen), Patch(mem, a, b), regs, xlen, a + |b|, 0);
  }

  /** A further word, by writing data words alone. */
  lemma AutoStep(s: State, mem: bytes, regs: seq<nat>, xlen: nat, a: nat, b: bytes)
    requires Writing(s, mem, regs, xlen, a, 1) && (xlen == 32 || xlen == 64)
    requires |b| == Width(xlen) && a + |b| <= |mem| <= Modulus(xlen)
    ensures s.Shape()
    ensures var h := if xlen == 64 then DmiWrite(s, xlen, DMI_DATA0 + 1, ToWords(b, xlen)[1]) else s;
            Writing(DmiWrite(h, xlen, DMI_DATA0, ToWords(b, xlen)[0]), Patch(mem, a, b), regs, xlen, a + |b|, 1)
  {
    hide Access, Command, StoreProgram, Pack, Modulus, Patch, DataValue, ToWords;
    var h := if xlen == 64 then DmiWrite(s, xlen, DMI_DATA0 + 1, ToWords(b, xlen)[1]) else s;
    var d := h.(data := h.data[0 := ToWords(b, xlen)[0]]);
    WordsValue(b, xlen, d.data);
    StoreStep(d, mem, regs, xlen, a, b, 1);
  }

  lemma PatchNext(mem: bytes, a: nat, src: bytes, pos: nat, w: nat)
    requires pos + w <= |src| && a + |src| <= |mem|
    ensures Patch(Patch(mem, a, src[..pos]), a + pos, src[pos..pos + w]) == Patch(mem, a, src[..pos + w])
  {
    var l, r := Patch(Patch(mem, a, src[..pos]), a + pos, src[pos..pos + w]), Patch(mem, a, src[..pos + w]);
    assert forall k :: 0 <= k < |mem| ==> l[k] == r[k];
  }
}
