/** Programs with pages that keep and that lose what they hold (module PageLoss): files as the linker writes them,
    with a header of 52 bytes. */
module SamplePrograms {
  import opened Base
  import opened Disks
  import opened NoffFiles
  import opened VirtualMemory
  import opened PageSurvival
  import opened PageLoss

  function Zeros(n: nat): seq<Byte> {
    seq<Byte>(n, _ => 0)
  }

  const NoSegment := Segment(0, 0, 0)

  /** Some code behind the header, and data at its own address in the file. */
  const DataProgram := Program(Segment(0, 64, 52), Segment(256, 128, 256), NoSegment)
  const DataHeader := Noff(NoffMagic, DataProgram, Segment(384, 11584, 0))

  /** One page of code behind the header. */
  const CodeProgram := Program(Segment(0, 128, 52), NoSegment, NoSegment)
  const CodeHeader := Noff(NoffMagic, CodeProgram, Segment(128, 11648, 0))

  function DataFile(): (file: seq<Byte>)
    ensures |file| == 384
  {
    EncodeNoff(DataHeader) + Zeros(332)
  }

  function CodeFile(): (file: seq<Byte>)
    ensures |file| == 180
  {
    EncodeNoff(CodeHeader) + Zeros(128)
  }

  /** With the uninitialized data and the stack, each has an address space of 100 pages. */
  function DataSpace(file: File): Space {
    Space(file, DataProgram, 100)
  }

  function CodeSpace(file: File): Space {
    Space(file, CodeProgram, 100)
  }

  lemma {:induction false} Linked(files: map<File, seq<Byte>>, file: File, h: Noff, rest: seq<Byte>)
    requires h.noffMagic == NoffMagic && NumPages(h) <= NumPhysPages && ProgramFits(h.program)
    requires file in files && files[file] == EncodeNoff(h) + rest
    ensures Describes(files, Space(file, h.program, NumPages(h)))
  {
    LinkedIsLoadable(h, rest);
  }

  lemma {:induction false} HundredPages()
    ensures NumPages(DataHeader) == 100 && ProgramFits(DataProgram) && NumPages(CodeHeader) == 100 && ProgramFits(CodeProgram)
  {
    assert SpaceSize(DataHeader) == 12800 && SpaceSize(CodeHeader) == 12800;
  }

  lemma {:induction false} DataIsLinked(files: map<File, seq<Byte>>, file: File)
    requires file in files && files[file] == DataFile()
    ensures Describes(files, DataSpace(file))
  {
    HundredPages();
    Linked(files, file, DataHeader, Zeros(332));
  }

  lemma {:induction false} CodeIsLinked(files: map<File, seq<Byte>>, file: File)
    requires file in files && files[file] == CodeFile()
    ensures Describes(files, CodeSpace(file))
  {
    HundredPages();
    Linked(files, file, CodeHeader, Zeros(128));
  }

  lemma {:induction false} TotalOfTwo(a: Space, b: Space)
    ensures Total([a, b]) == a.numPages + b.numPages
  {
    assert [a, b][..1] == [a];
    assert [a][..0] == [];
    assert Total([a]) == Total([]) + a.numPages;
  }

  /** Both programs in files of their own, and one of them twice. */
  ghost predicate Beside(spaces: seq<Space>, files: map<File, seq<Byte>>) {
    spaces == [DataSpace(0), CodeSpace(1)] && files == map[0 := DataFile(), 1 := CodeFile()]
  }

  ghost predicate Twice(spaces: seq<Space>, files: map<File, seq<Byte>>) {
    spaces == [DataSpace(0), DataSpace(0)] && files == map[0 := DataFile()]
  }

  lemma {:induction false} TwoPrograms(spaces: seq<Space>, files: map<File, seq<Byte>>)
    requires |spaces| == 2 && Describes(files, spaces[0]) && Describes(files, spaces[1])
    ensures Programs(spaces, files)
  {
  }

  lemma {:induction false} BesidePrograms(spaces: seq<Space>, files: map<File, seq<Byte>>)
    requires Beside(spaces, files)
    ensures Programs(spaces, files) && Total(spaces) > NumPhysPages
  {
    assert Total(spaces) == 200 by {
      TotalOfTwo(spaces[0], spaces[1]);
    }
    assert Programs(spaces, files) by {
      DataIsLinked(files, 0);
      CodeIsLinked(files, 1);
      TwoPrograms(spaces, files);
    }
  }

  lemma {:induction false} TwicePrograms(spaces: seq<Space>, files: map<File, seq<Byte>>)
    requires Twice(spaces, files)
    ensures Programs(spaces, files) && Total(spaces) > NumPhysPages
  {
    assert Total(spaces) == 200 by {
      TotalOfTwo(spaces[0], spaces[1]);
    }
    assert Programs(spaces, files) by {
      DataIsLinked(files, 0);
      TwoPrograms(spaces, files);
    }
  }

  lemma {:induction false} DataPageMapped()
    ensures MappedInPlace(DataProgram, 384, 2) && Mapped(DataProgram, 384, 2) && SegmentsApart(DataProgram, 2)
  {
  }

  /** The data page of a program that is loaded beside another program keeps its contents. */
  lemma {:induction false} DataPageIsKept(spaces: seq<Space>, files: map<File, seq<Byte>>)
    requires Beside(spaces, files)
    ensures Programs(spaces, files) && Keeps(spaces, files, Page(0, 2))
  {
    BesidePrograms(spaces, files);
    DataPageMapped();
    UndisturbedInPlace(spaces, Page(0, 2), 384);
    assert Undisturbed(spaces, Page(0, 2));
    ReadSafeIff(spaces, files, Page(0, 2));
    KeepsIff(spaces, files, Page(0, 2));
  }

  /** If the program is loaded twice, each address space can lose that page to the other. */
  lemma {:induction false} SharedFileIsLost(spaces: seq<Space>, files: map<File, seq<Byte>>)
    requires Twice(spaces, files)
    ensures Programs(spaces, files) && !Keeps(spaces, files, Page(0, 2))
  {
    TwicePrograms(spaces, files);
    DataPageMapped();
    UndisturbedInPlace(spaces, Page(0, 2), 384);
    assert spaces[1].file == spaces[0].file;
    KeepsIff(spaces, files, Page(0, 2));
  }

  /** The code page of the other program is filled from where that program's next page is written back. */
  lemma {:induction false} CodePageIsLost(spaces: seq<Space>, files: map<File, seq<Byte>>)
    requires Beside(spaces, files)
    ensures Programs(spaces, files) && !KeepsUnwritten(spaces, files, Page(1, 0))
  {
    BesidePrograms(spaces, files);
    assert FileOffset(CodeProgram, 100) == Some(152) && InPage(0, 100) && InPage(1, 152);
    assert !Elsewhere(CodeProgram, 0, 1);
    assert Accessible(spaces, Page(1, 1));
    assert !Undisturbed(spaces, Page(1, 0));
    KeepsUnwrittenIff(spaces, files, Page(1, 0));
  }

  /** A page of the stack is in no segment. */
  lemma {:induction false} StackPageIsLost(spaces: seq<Space>, files: map<File, seq<Byte>>)
    requires Beside(spaces, files)
    ensures Programs(spaces, files) && !KeepsUnwritten(spaces, files, Page(0, 99))
  {
    BesidePrograms(spaces, files);
    assert InPage(99, 99 * PageSize) && FileOffset(DataProgram, 99 * PageSize) == None;
    KeepsUnwrittenIff(spaces, files, Page(0, 99));
  }
}
