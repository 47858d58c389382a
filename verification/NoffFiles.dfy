/** Program files (code/userprog/noff.h, code/userprog/addrspace.cc:106-146): a header of thirteen integers says
    where the program's segments are, in the file and in virtual memory. */
module NoffFiles {
  import opened Base
  import opened Disks

  const PageSize := 128
  const NumPhysPages := 128

  const NoffMagic: Int32 := 0xbad_fad
  const NoffSize := 52
  const UserStackSize := 1024

  /** A segment of the program: where it is in virtual memory and in the file. */
  datatype Segment = Segment(virtualAddr: Int32, size: Int32, inFileAddr: Int32)

  datatype Program = Program(code: Segment, data: Segment, readOnlyData: Segment)

  datatype Noff = Noff(noffMagic: Int32, program: Program, uninitData: Segment)

  /** The header as thirteen integers, in the order of the fields of struct noffHeader. */
  function NoffInts(h: Noff): (xs: seq<Int32>)
    ensures |xs| == 13
  {
    var code, data, ro, un := h.program.code, h.program.data, h.program.readOnlyData, h.uninitData;
    [h.noffMagic, code.virtualAddr, code.inFileAddr, code.size, data.virtualAddr, data.inFileAddr, data.size,
     ro.virtualAddr, ro.inFileAddr, ro.size, un.virtualAddr, un.inFileAddr, un.size]
  }

  function SegmentAt(xs: seq<Int32>, i: nat): Segment
    requires i + 3 <= |xs|
  {
    Segment(xs[i], xs[i + 2], xs[i + 1])
  }

  function NoffOf(xs: seq<Int32>): Noff
    requires |xs| == 13
  {
    Noff(xs[0], Program(SegmentAt(xs, 1), SegmentAt(xs, 4), SegmentAt(xs, 7)), SegmentAt(xs, 10))
  }

  function EncodeNoff(h: Noff): (bytes: seq<Byte>)
    ensures |bytes| == NoffSize
  {
    EncodeInts(NoffInts(h))
  }

  function DecodeNoff(file: seq<Byte>): Noff
    requires |file| >= NoffSize
  {
    NoffOf(DecodeInts(file, 13))
  }

  /** Load reads the header that the linker wrote, whatever follows it. */
  lemma NoffRoundTrip(h: Noff, rest: seq<Byte>)
    ensures DecodeNoff(EncodeNoff(h) + rest) == h
  {
    NoffFields(h);
    NoffDecoded(NoffInts(h), rest);
  }

  lemma NoffDecoded(xs: seq<Int32>, rest: seq<Byte>)
    requires |xs| == 13
    ensures NoffOf(DecodeInts(EncodeInts(xs) + rest, 13)) == NoffOf(xs)
  {
    IntsRoundTrip(xs);
    DecodePrefix(EncodeInts(xs), rest, 13);
  }

  lemma NoffFields(h: Noff)
    ensures NoffOf(NoffInts(h)) == h
  {
  }

  lemma DecodePrefix(bytes: seq<Byte>, rest: seq<Byte>, n: nat)
    requires 4 * n <= |bytes|
    ensures DecodeInts(bytes + rest, n) == DecodeInts(bytes, n)
  {
  }

  /** The size of the address space: segments and stack, in unsigned arithmetic, rounded up to pages. */
  function SpaceSize(h: Noff): nat {
    (h.program.code.size + h.program.readOnlyData.size + h.program.data.size + h.uninitData.size + UserStackSize) % 0x1_0000_0000
  }

  function NumPages(h: Noff): nat {
    SpaceSize(h) / PageSize + if SpaceSize(h) % PageSize > 0 then 1 else 0
  }

  /** A segment lies within the addresses a page table covers. */
  predicate SegmentFits(s: Segment) {
    s.size <= 0 || (0 <= s.virtualAddr && s.virtualAddr + s.size <= NumPhysPages * PageSize)
  }

  predicate ProgramFits(p: Program) {
    SegmentFits(p.code) && SegmentFits(p.data) && SegmentFits(p.readOnlyData)
  }

  /** The two ASSERTs of Load hold. */
  predicate MeetsAsserts(file: seq<Byte>) {
    |file| >= NoffSize && DecodeNoff(file).noffMagic == NoffMagic && NumPages(DecodeNoff(file)) <= NumPhysPages
  }

  /** Load gets through: its ASSERTs hold, and its page-table accesses are within the table. */
  predicate Loadable(file: seq<Byte>) {
    MeetsAsserts(file) && ProgramFits(DecodeNoff(file).program)
  }

  /** Where the fields are in the file: the order of struct noffHeader, four bytes each. */
  lemma NoffLayout(file: seq<Byte>)
    requires |file| >= NoffSize
    ensures var h := DecodeNoff(file); var p := h.program;
      && IntAt(file, 0, h.noffMagic)
      && IntAt(file, 4, p.code.virtualAddr) && IntAt(file, 8, p.code.inFileAddr) && IntAt(file, 12, p.code.size)
      && IntAt(file, 16, p.data.virtualAddr) && IntAt(file, 20, p.data.inFileAddr) && IntAt(file, 24, p.data.size)
      && IntAt(file, 28, p.readOnlyData.virtualAddr) && IntAt(file, 32, p.readOnlyData.inFileAddr) && IntAt(file, 36, p.readOnlyData.size)
      && IntAt(file, 40, h.uninitData.virtualAddr) && IntAt(file, 44, h.uninitData.inFileAddr) && IntAt(file, 48, h.uninitData.size)
  {
    forall i | 0 <= i < 13 ensures IntAt(file, 4 * i, DecodeInts(file, 13)[i]) {
      DecodedLayout(file, 13, i);
    }
    assert forall i :: 0 <= i < 13 ==> IntAt(file, 4 * i, DecodeInts(file, 13)[i]);
  }

  /** The sum of the sizes of the four segments and the stack. */
  function SumOfSizes(h: Noff): int {
    h.program.code.size + h.program.data.size + h.program.readOnlyData.size + h.uninitData.size + 1024
  }

  /** The pages cover that many bytes, and not a page more. */
  lemma PagesCover(h: Noff)
    ensures SumOfSizes(h) % 0x1_0000_0000 <= NumPages(h) * 128 < SumOfSizes(h) % 0x1_0000_0000 + 128
  {
  }

  /** Exactly which files can be loaded. */
  lemma LoadableIff(file: seq<Byte>)
    requires |file| >= NoffSize
    ensures var h := DecodeNoff(file);
      Loadable(file) <==>
        && h.noffMagic == 0xbadfad && SumOfSizes(h) % 0x1_0000_0000 <= 128 * 128
        && forall s :: s in {h.program.code, h.program.data, h.program.readOnlyData} && s.size > 0 ==>
             0 <= s.virtualAddr && s.virtualAddr + s.size <= 128 * 128
  {
    PagesCover(DecodeNoff(file));
  }

  /** What a linker must see to. */
  lemma LinkedIsLoadable(h: Noff, rest: seq<Byte>)
    requires h.noffMagic == NoffMagic && NumPages(h) <= NumPhysPages && ProgramFits(h.program)
    ensures Loadable(EncodeNoff(h) + rest) && DecodeNoff(EncodeNoff(h) + rest) == h
  {
    NoffRoundTrip(h, rest);
  }

  lemma LowByte(b0: Byte, b1: Byte, b2: Byte, b3: Byte)
    requires IntOf(b0, b1, b2, b3) == NoffMagic
    ensures b0 == 0xad
  {
  }

  /** The magic number is gone once its first byte has changed. */
  lemma MagicByte(file: seq<Byte>)
    requires |file| >= NoffSize && DecodeNoff(file).noffMagic == NoffMagic
    ensures file[0] == 0xad
  {
    assert DecodeInts(file, 13)[0] == IntOf(file[4 * 0], file[4 * 0 + 1], file[4 * 0 + 2], file[4 * 0 + 3]);
    LowByte(file[0], file[1], file[2], file[3]);
  }
}
