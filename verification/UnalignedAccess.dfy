/** Unaligned loads and stores of the simulated MIPS (code/machine/mipssim.cc:312-418, 552-668) and the
    delayed load (code/machine/mipssim.cc:711-718).

    LWL, LWR, SWL and SWR each move part of a word, using aligned accesses only; a pair of them moves
    the word at any address. Words are kept as their four bytes; that the masks and shifts of the
    simulator do to the 32 bits what the model does to the bytes is proved first. */
module UnalignedAccess {

  type Byte = bv8

  /** A register or an aligned word of memory, lowest byte first. */
  datatype Word = Word(b0: Byte, b1: Byte, b2: Byte, b3: Byte)
  {
    function At(k: nat): Byte
      requires k < 4
    {
      if k == 0 then b0 else if k == 1 then b1 else if k == 2 then b2 else b3
    }
  }

  const Zero := Word(0, 0, 0, 0)

  /** The low n bytes of x, and above them the low bytes of y. LWL and SWR build their word this way. */
  function JoinLow(x: Word, y: Word, n: nat): Word
    requires n < 4
  {
    if n == 0 then y
    else if n == 1 then Word(x.b0, y.b0, y.b1, y.b2)
    else if n == 2 then Word(x.b0, x.b1, y.b0, y.b1)
    else Word(x.b0, x.b1, x.b2, y.b0)
  }

  /** The high n bytes of x, and below them the high bytes of y. LWR and SWL build their word this way. */
  function JoinHigh(x: Word, y: Word, n: nat): Word
    requires n < 4
  {
    if n == 0 then y
    else if n == 1 then Word(y.b1, y.b2, y.b3, x.b3)
    else if n == 2 then Word(y.b2, y.b3, x.b2, x.b3)
    else Word(y.b3, x.b1, x.b2, x.b3)
  }

  // ---------- The same on 32 bits ----------

  /** The 32-bit number the simulator holds for a word. */
  function Bits(w: Word): bv32 {
    (w.b0 as bv32) | ((w.b1 as bv32) << 8) | ((w.b2 as bv32) << 16) | ((w.b3 as bv32) << 24)
  }

  function OfBits(b: bv32): Word {
    Word((b & 0xff) as bv8, ((b >> 8) & 0xff) as bv8, ((b >> 16) & 0xff) as bv8, (b >> 24) as bv8)
  }

  lemma BitsRoundTrip(w: Word, b: bv32)
    ensures OfBits(Bits(w)) == w
    ensures Bits(OfBits(b)) == b
  {
  }

  function MasksLow(x: bv32, y: bv32, n: nat): bv32
    requires n < 4
  {
    if n == 0 then y
    else if n == 1 then (x & 0xff) | (y << 8)
    else if n == 2 then (x & 0xffff) | (y << 16)
    else (x & 0xffffff) | (y << 24)
  }

  /** The simulator's right shifts are of signed numbers; the masks take away what that makes of the sign. */
  function MasksHigh(x: bv32, y: bv32, n: nat): bv32
    requires n < 4
  {
    if n == 0 then y
    else if n == 1 then (x & 0xff000000) | ((y >> 8) & 0xffffff)
    else if n == 2 then (x & 0xffff0000) | ((y >> 16) & 0xffff)
    else (x & 0xffffff00) | ((y >> 24) & 0xff)
  }

  lemma Low1(x: bv32, y: bv32)
    ensures OfBits((x & 0xff) | (y << 8)) == Word(OfBits(x).b0, OfBits(y).b0, OfBits(y).b1, OfBits(y).b2)
  {
  }

  lemma Low2(x: bv32, y: bv32)
    ensures OfBits((x & 0xffff) | (y << 16)) == Word(OfBits(x).b0, OfBits(x).b1, OfBits(y).b0, OfBits(y).b1)
  {
  }

  lemma Low3(x: bv32, y: bv32)
    ensures OfBits((x & 0xffffff) | (y << 24)) == Word(OfBits(x).b0, OfBits(x).b1, OfBits(x).b2, OfBits(y).b0)
  {
  }

  lemma High1(x: bv32, y: bv32)
    ensures OfBits((x & 0xff000000) | ((y >> 8) & 0xffffff))
            == Word(OfBits(y).b1, OfBits(y).b2, OfBits(y).b3, OfBits(x).b3)
  {
  }

  lemma High2(x: bv32, y: bv32)
    ensures OfBits((x & 0xffff0000) | ((y >> 16) & 0xffff))
            == Word(OfBits(y).b2, OfBits(y).b3, OfBits(x).b2, OfBits(x).b3)
  {
  }

  lemma High3(x: bv32, y: bv32)
    ensures OfBits((x & 0xffffff00) | ((y >> 24) & 0xff))
            == Word(OfBits(y).b3, OfBits(x).b1, OfBits(x).b2, OfBits(x).b3)
  {
  }

  /** The masks and shifts of the simulator join the bytes. */
  lemma MasksJoinLow(x: bv32, y: bv32, n: nat)
    requires n < 4
    ensures OfBits(MasksLow(x, y, n)) == JoinLow(OfBits(x), OfBits(y), n)
  {
    if n == 1 {
      Low1(x, y);
    } else if n == 2 {
      Low2(x, y);
    } else if n == 3 {
      Low3(x, y);
    }
  }

  lemma MasksJoinHigh(x: bv32, y: bv32, n: nat)
    requires n < 4
    ensures OfBits(MasksHigh(x, y, n)) == JoinHigh(OfBits(x), OfBits(y), n)
  {
    if n == 1 {
      High1(x, y);
    } else if n == 2 {
      High2(x, y);
    } else if n == 3 {
      High3(x, y);
    }
  }

  // ---------- Memory ----------

  /** Memory as the aligned words ReadMem and WriteMem transfer; byte a is byte a % 4 of word a / 4. */
  type Memory = seq<Word>

  function ByteAt(mem: Memory, a: nat): Byte
    requires a < 4 * |mem|
  {
    mem[a / 4].At(a % 4)
  }

  /** The little-endian word at any address. */
  function WordAt(mem: Memory, a: nat): Word
    requires a + 3 < 4 * |mem|
  {
    Word(ByteAt(mem, a), ByteAt(mem, a + 1), ByteAt(mem, a + 2), ByteAt(mem, a + 3))
  }

  // ---------- Loads ----------

  /** The 32 registers and the load that is still on its way. */
  datatype RawCpu = RawCpu(regs: seq<Word>, loadReg: nat, loadValue: Word)
  type Cpu = c: RawCpu | |c.regs| == 32 && c.regs[0] == Zero && c.loadReg < 32
    witness RawCpu(seq(32, _ => Zero), 0, Zero)

  /** The pending load arrives, another one takes its place, and register 0 stays zero. */
  function DelayedLoad(c: Cpu, nextReg: nat, nextValue: Word): Cpu
    requires nextReg < 32
  {
    RawCpu(c.regs[c.loadReg := c.loadValue][0 := Zero], nextReg, nextValue)
  }

  /** What an interrupt or exception does to a pending load. */
  function Flush(c: Cpu): Cpu {
    DelayedLoad(c, 0, Zero)
  }

  /** The register as it will be when the pending load has arrived. */
  function Current(c: Cpu, r: nat): Word
    requires r < 32
  {
    if c.loadReg == r then c.loadValue else c.regs[r]
  }

  /** The processor when the next instruction starts, or when an instruction reads its register: an interrupt or a
      page fault may have come before. */
  function Between(c: Cpu, flushed: bool): Cpu {
    if flushed then Flush(c) else c
  }

  /** From c to c', register rt gets the value and no other register is affected. */
  ghost predicate Loaded(c: Cpu, c': Cpu, rt: nat, value: Word)
    requires rt < 32
  {
    Flush(c').regs[rt] == value && forall r :: 0 < r < 32 && r != rt ==> Flush(c').regs[r] == Current(c, r)
  }

  function Lwl(c: Cpu, mem: Memory, rt: nat, addr: nat): Cpu
    requires rt < 32 && addr < 4 * |mem|
  {
    DelayedLoad(c, rt, JoinLow(Current(c, rt), mem[addr / 4], 3 - addr % 4))
  }

  function Lwr(c: Cpu, mem: Memory, rt: nat, addr: nat): Cpu
    requires rt < 32 && addr < 4 * |mem|
  {
    DelayedLoad(c, rt, JoinHigh(Current(c, rt), mem[addr / 4], addr % 4))
  }

  /** In either order the two parts make the word at the address, whatever the register held. */
  lemma PartsMakeWord(mem: Memory, a: nat, reg: Word)
    requires a + 3 < 4 * |mem|
    ensures JoinLow(JoinHigh(reg, mem[a / 4], a % 4), mem[(a + 3) / 4], 3 - (a + 3) % 4) == WordAt(mem, a)
    ensures JoinHigh(JoinLow(reg, mem[(a + 3) / 4], 3 - (a + 3) % 4), mem[a / 4], a % 4) == WordAt(mem, a)
  {
    var r := a % 4;
    if r == 0 {
      assert (a + 3) / 4 == a / 4 && (a + 3) % 4 == 3;
    } else {
      assert (a + 3) / 4 == a / 4 + 1 && (a + 3) % 4 == r - 1;
    }
  }

  /** Two loads of one register in a row: the second sees the first one's value, flushed or not, and the
      other registers end as the pending load left them. */
  lemma LoadTwice(c: Cpu, rt: nat, v1: Word, v2: Word, flushed: bool)
    requires 0 < rt < 32
    ensures Current(Between(DelayedLoad(c, rt, v1), flushed), rt) == v1
    ensures Loaded(c, DelayedLoad(Between(DelayedLoad(c, rt, v1), flushed), rt, v2), rt, v2)
  {
  }

  /** LWR at an address and then LWL three bytes up, with the pending load flushed in between or not,
      load the word at that address; no other register is affected. */
  lemma UnalignedLoad(c: Cpu, mem: Memory, rt: nat, a: nat, flushed: bool)
    requires 0 < rt < 32 && a + 3 < 4 * |mem|
    ensures Loaded(c, Lwl(Between(Lwr(c, mem, rt, a), flushed), mem, rt, a + 3), rt, WordAt(mem, a))
  {
    var v1 := JoinHigh(Current(c, rt), mem[a / 4], a % 4);
    PartsMakeWord(mem, a, Current(c, rt));
    LoadTwice(c, rt, v1, WordAt(mem, a), flushed);
  }

  /** The same two loads in the other order. */
  lemma UnalignedLoadLeftFirst(c: Cpu, mem: Memory, rt: nat, a: nat, flushed: bool)
    requires 0 < rt < 32 && a + 3 < 4 * |mem|
    ensures Loaded(c, Lwr(Between(Lwl(c, mem, rt, a + 3), flushed), mem, rt, a), rt, WordAt(mem, a))
  {
    var v1 := JoinLow(Current(c, rt), mem[(a + 3) / 4], 3 - (a + 3) % 4);
    PartsMakeWord(mem, a, Current(c, rt));
    LoadTwice(c, rt, v1, WordAt(mem, a), flushed);
  }

  // ---------- Stores ----------

  function Swl(mem: Memory, reg: Word, addr: nat): Memory
    requires addr < 4 * |mem|
  {
    mem[addr / 4 := JoinHigh(mem[addr / 4], reg, 3 - addr % 4)]
  }

  function Swr(mem: Memory, reg: Word, addr: nat): Memory
    requires addr < 4 * |mem|
  {
    mem[addr / 4 := JoinLow(mem[addr / 4], reg, addr % 4)]
  }

  /** From mem to mem', the bytes of addresses lo to hi - 1 become bytes of the register, the one at
      address a byte 0, and no other byte changes. */
  ghost predicate Stored(mem: Memory, mem': Memory, reg: Word, a: int, lo: int, hi: int)
    requires a <= lo <= hi <= a + 4
  {
    |mem'| == |mem| &&
    forall x :: 0 <= x < 4 * |mem| ==> ByteAt(mem', x) == if lo <= x < hi then reg.At(x - a) else ByteAt(mem, x)
  }

  lemma SwlBytes(mem: Memory, reg: Word, addr: nat)
    requires addr < 4 * |mem|
    ensures Stored(mem, Swl(mem, reg, addr), reg, addr - 3, addr - addr % 4, addr + 1)
  {
  }

  lemma SwrBytes(mem: Memory, reg: Word, addr: nat)
    requires addr < 4 * |mem|
    ensures Stored(mem, Swr(mem, reg, addr), reg, addr, addr, addr + 4 - addr % 4)
  {
  }

  /** Two stores of parts of one register that together cover the four bytes. */
  lemma StoredBoth(mem: Memory, mem1: Memory, mem2: Memory, reg: Word, a: nat, mid: nat, mid': nat)
    requires a <= mid' <= mid <= a + 4 && a + 3 < 4 * |mem|
    requires || (Stored(mem, mem1, reg, a, a, mid) && Stored(mem1, mem2, reg, a, mid', a + 4))
             || (Stored(mem, mem1, reg, a, mid', a + 4) && Stored(mem1, mem2, reg, a, a, mid))
    ensures Stored(mem, mem2, reg, a, a, a + 4)
  {
  }

  /** SWR at an address and then SWL three bytes up write the four bytes from that address and no other. */
  lemma UnalignedStore(mem: Memory, reg: Word, a: nat)
    requires a + 3 < 4 * |mem|
    ensures Stored(mem, Swl(Swr(mem, reg, a), reg, a + 3), reg, a, a, a + 4)
  {
    var mem1 := Swr(mem, reg, a);
    SwrBytes(mem, reg, a);
    SwlBytes(mem1, reg, a + 3);
    StoredBoth(mem, mem1, Swl(mem1, reg, a + 3), reg, a, a + 4 - a % 4, a + 3 - (a + 3) % 4);
  }

  /** The same two stores in the other order. */
  lemma UnalignedStoreLeftFirst(mem: Memory, reg: Word, a: nat)
    requires a + 3 < 4 * |mem|
    ensures Stored(mem, Swr(Swl(mem, reg, a + 3), reg, a), reg, a, a, a + 4)
  {
    var mem1 := Swl(mem, reg, a + 3);
    SwlBytes(mem, reg, a + 3);
    SwrBytes(mem1, reg, a);
    StoredBoth(mem, mem1, Swr(mem1, reg, a), reg, a, a + 4 - a % 4, a + 3 - (a + 3) % 4);
  }

  lemma StoredWord(mem: Memory, mem': Memory, reg: Word, a: nat)
    requires a + 3 < 4 * |mem| && Stored(mem, mem', reg, a, a, a + 4)
    ensures WordAt(mem', a) == reg
  {
  }

  /** A word stored at any address is the word loaded from it. */
  lemma StoreLoadRoundTrip(mem: Memory, reg: Word, a: nat, c: Cpu, rt: nat, flushed: bool)
    requires a + 3 < 4 * |mem| && 0 < rt < 32
    ensures var mem' := Swl(Swr(mem, reg, a), reg, a + 3);
      Loaded(c, Lwl(Between(Lwr(c, mem', rt, a), flushed), mem', rt, a + 3), rt, reg)
  {
    var mem' := Swl(Swr(mem, reg, a), reg, a + 3);
    UnalignedStore(mem, reg, a);
    StoredWord(mem, mem', reg, a);
    UnalignedLoad(c, mem', rt, a, flushed);
  }

  /** From mem to mem', the bytes from a up to split become bytes of the first register value, those from split
      up to a + 4 bytes of the second, and no other byte changes. */
  ghost predicate StoredInParts(mem: Memory, mem': Memory, first: Word, second: Word, a: nat, split: nat)
    requires a <= split <= a + 4
  {
    |mem'| == |mem| &&
    forall x :: 0 <= x < 4 * |mem| ==>
      ByteAt(mem', x) == if a <= x < split then first.At(x - a) else if split <= x < a + 4 then second.At(x - a) else ByteAt(mem, x)
  }

  /** At the level of instructions: SWR stores from the register as it is, or, if its read of memory was a page
      fault, with the load that was on its way; SWL always with that load. So the pair stores the register
      exactly as it then is, unless SWR found the load still on its way and bringing something new. */
  lemma StorePair(c: Cpu, mem: Memory, rt: nat, a: nat, flushed: bool)
    requires rt < 32 && a + 3 < 4 * |mem|
    ensures var first, second := Between(c, flushed).regs[rt], Flush(c).regs[rt]; var mem' := Swl(Swr(mem, first, a), second, a + 3);
      && StoredInParts(mem, mem', first, second, a, a + 3 - (a + 3) % 4)
      && (flushed || c.loadReg != rt || rt == 0 || c.loadValue == c.regs[rt] ==> Stored(mem, mem', second, a, a, a + 4))
  {
    var first, second := Between(c, flushed).regs[rt], Flush(c).regs[rt];
    var mem1 := Swr(mem, first, a);
    SwrBytes(mem, first, a);
    SwlBytes(mem1, second, a + 3);
    PartsOfTwo(mem, mem1, Swl(mem1, second, a + 3), first, second, a);
    if first == second {
      UnalignedStore(mem, first, a);
    }
  }

  lemma PartsOfTwo(mem: Memory, mem1: Memory, mem2: Memory, first: Word, second: Word, a: nat)
    requires a + 3 < 4 * |mem|
    requires Stored(mem, mem1, first, a, a, a + 4 - a % 4) && Stored(mem1, mem2, second, a, a + 3 - (a + 3) % 4, a + 4)
    ensures StoredInParts(mem, mem2, first, second, a, a + 3 - (a + 3) % 4)
  {
  }

  // ---------- The instructions on the machine's registers and memory ----------

  /** Registers or memory of 32-bit numbers, as words. */
  ghost function Words(bits: seq<bv32>): (words: seq<Word>)
    ensures |words| == |bits| && forall i :: 0 <= i < |bits| ==> words[i] == OfBits(bits[i])
  {
    seq(|bits|, i requires 0 <= i < |bits| => OfBits(bits[i]))
  }

  lemma WordsUpdate(bits: seq<bv32>, i: nat, b: bv32)
    requires i < |bits|
    ensures Words(bits[i := b]) == Words(bits)[i := OfBits(b)]
  {
  }

  /** Nothing of the machine's numbers is lost in words, so a contract in words determines them. */
  lemma WordsAreExact(x: seq<bv32>, y: seq<bv32>)
    requires Words(x) == Words(y)
    ensures x == y
  {
    forall i | 0 <= i < |x| ensures x[i] == y[i] {
      BitsRoundTrip(Words(x)[i], x[i]);
      BitsRoundTrip(Words(x)[i], y[i]);
    }
  }

  lemma ZeroBits()
    ensures OfBits(0) == Zero
  {
  }

  class Processor {
    const registers: array<bv32>
    const memory: array<bv32>
    var loadReg: nat
    var loadValue: bv32

    ghost predicate Valid()
      reads this, registers
    {
      registers.Length == 32 && registers[0] == 0 && loadReg < 32 && registers != memory
    }

    /** The registers as words. */
    ghost function Snapshot(): Cpu
      requires Valid()
      reads this, registers
    {
      ZeroBits();
      RawCpu(Words(registers[..]), loadReg, OfBits(loadValue))
    }

    ghost function Cells(): Memory
      reads this, memory
    {
      Words(memory[..])
    }

    constructor (memoryWords: nat)
      ensures Valid() && fresh(registers) && fresh(memory) && memory.Length == memoryWords
      ensures forall r :: 0 <= r < 32 ==> Current(Snapshot(), r) == Zero
    {
      registers := new bv32[32](_ => 0);
      memory := new bv32[memoryWords](_ => 0);
      loadReg := 0;
      loadValue := 0;
      new;
      ZeroBits();
    }

    method Delayed(nextReg: nat, nextValue: bv32)
      requires Valid() && nextReg < 32
      modifies this, registers
      ensures Valid() && Snapshot() == DelayedLoad(old(Snapshot()), nextReg, OfBits(nextValue))
    {
      ZeroBits();
      WordsUpdate(registers[..], loadReg, loadValue);
      WordsUpdate(registers[..][loadReg := loadValue], 0, 0);
      registers[loadReg] := loadValue;
      loadReg := nextReg;
      loadValue := nextValue;
      registers[0] := 0;
    }

    /** If the instruction's read of memory is a page fault, the handler first lets the pending load arrive. */
    method HandleFault(fault: bool)
      requires Valid()
      modifies this, registers
      ensures Valid() && Snapshot() == Between(old(Snapshot()), fault)
    {
      if fault {
        ZeroBits();
        Delayed(0, 0);
      }
    }

    /** The register as it will be when the pending load has arrived. */
    method Forwarded(rt: nat) returns (value: bv32)
      requires Valid() && rt < 32
      ensures OfBits(value) == Current(Snapshot(), rt)
    {
      value := if loadReg == rt then loadValue else registers[rt];
    }

    method LoadLeft(rt: nat, addr: nat, fault: bool)
      requires Valid() && rt < 32 && addr < 4 * memory.Length
      modifies this, registers
      ensures Valid() && Snapshot() == Lwl(Between(old(Snapshot()), fault), old(Cells()), rt, addr)
    {
      HandleFault(fault);
      var value := memory[addr / 4];
      var next := Forwarded(rt);
      MasksJoinLow(next, value, 3 - addr % 4);
      Delayed(rt, MasksLow(next, value, 3 - addr % 4));
    }

    method LoadRight(rt: nat, addr: nat, fault: bool)
      requires Valid() && rt < 32 && addr < 4 * memory.Length
      modifies this, registers
      ensures Valid() && Snapshot() == Lwr(Between(old(Snapshot()), fault), old(Cells()), rt, addr)
    {
      HandleFault(fault);
      var value := memory[addr / 4];
      var next := Forwarded(rt);
      MasksJoinHigh(next, value, addr % 4);
      Delayed(rt, MasksHigh(next, value, addr % 4));
    }

    method StoreLeft(rt: nat, addr: nat, fault: bool)
      requires Valid() && rt < 32 && addr < 4 * memory.Length
      modifies this, registers, memory
      ensures Valid() && Snapshot() == Flush(Between(old(Snapshot()), fault))
      ensures Cells() == Swl(old(Cells()), Between(old(Snapshot()), fault).regs[rt], addr)
    {
      HandleFault(fault);
      var value := MasksHigh(memory[addr / 4], registers[rt], 3 - addr % 4);
      MasksJoinHigh(memory[addr / 4], registers[rt], 3 - addr % 4);
      WordsUpdate(memory[..], addr / 4, value);
      memory[addr / 4] := value;
      ZeroBits();
      Delayed(0, 0);
    }

    method StoreRight(rt: nat, addr: nat, fault: bool)
      requires Valid() && rt < 32 && addr < 4 * memory.Length
      modifies this, registers, memory
      ensures Valid() && Snapshot() == Flush(Between(old(Snapshot()), fault))
      ensures Cells() == Swr(old(Cells()), Between(old(Snapshot()), fault).regs[rt], addr)
    {
      HandleFault(fault);
      var value := MasksLow(memory[addr / 4], registers[rt], addr % 4);
      MasksJoinLow(memory[addr / 4], registers[rt], addr % 4);
      WordsUpdate(memory[..], addr / 4, value);
      memory[addr / 4] := value;
      ZeroBits();
      Delayed(0, 0);
    }
  }
}
