/** What the header reader recovers from a written ELF file. */
module ElfRoundTrip {
  import opened Arith
  import opened Bytes
  import opened Files
  import opened Pages
  import opened Struct
  import opened Wrappers
  import opened Elf

  /** The image builder: a header file, then header and payload concatenated. */
  method BuildElf(payload: seq<byte>, dest: int, is64: bool) returns (target: seq<byte>)
    ensures target == HeaderBytes(dest, |payload|, is64) + payload
  {
    var hd := new OutputFile();
    CreateElfHeader(hd, dest, |payload|, is64);
    var sourceElf := ConcatFiles([hd.data, payload]);
    FlattenCons(payload, []);
    FlattenCons(hd.data, [payload]);
    target := ConcatFiles([sourceElf]);
    FlattenCons(sourceElf, []);
  }

  function WordLimit(is64: bool): nat {
    if is64 then Pow256(8) else Pow256(4)
  }

  lemma {:induction false} EhdrCodes(dest: int, is64: bool)
    ensures Codes(EhdrFields(dest, is64)) == if is64 then EHDR64 else EHDR32
  {
    var fs := EhdrFields(dest, is64);
    assert Codes(IdentFields(is64)) == [Raw(16)];
    assert Codes(TailFields()) == Times(U16, 3);
    MiddleCodes(dest, is64);
    assert Codes(fs) == Codes(IdentFields(is64)) + Codes(MiddleFields(dest, is64)) + Codes(TailFields());
    EhdrLayout(is64);
  }

  /** The struct formats, cut behind the identification and before the section header fields. */
  lemma {:induction false} EhdrLayout(is64: bool)
    ensures if is64 then
              EHDR64 == [Raw(16)]
                + (Times(U16, 2) + Times(U32, 1) + Times(U64, 3) + Times(U32, 1) + Times(U16, 3)) + Times(U16, 3)
            else
              EHDR32 == [Raw(16)] + (Times(U16, 2) + Times(U32, 5) + Times(U16, 3)) + Times(U16, 3)
  {
    TimesSplit(U16, 3, 3);
    if is64 {
      assert EHDR64 ==
        [Raw(16)] + (Times(U16, 2) + Times(U32, 1) + Times(U64, 3) + Times(U32, 1) + Times(U16, 3)) + Times(U16, 3);
    } else {
      assert EHDR32 == [Raw(16)] + (Times(U16, 2) + Times(U32, 5) + Times(U16, 3)) + Times(U16, 3);
    }
  }

  lemma {:induction false} TimesSplit(c: Code, m: nat, n: nat)
    ensures Times(c, m + n) == Times(c, m) + Times(c, n)
  {
  }

  lemma {:induction false} MiddleCodes(dest: int, is64: bool)
    ensures Codes(MiddleFields(dest, is64)) ==
            if is64 then Times(U16, 2) + Times(U32, 1) + Times(U64, 3) + Times(U32, 1) + Times(U16, 3)
            else Times(U16, 2) + Times(U32, 5) + Times(U16, 3)
  {
  }

  lemma {:induction false} PhdrCodes(dest: int, size: int, is64: bool)
    ensures Codes(PhdrFields(dest, size, is64)) == if is64 then PHDR64 else PHDR32
  {
  }

  lemma {:induction false} UnpackSlice(data: seq<byte>, before: seq<byte>, fs: seq<Field>, after: seq<byte>)
    requires AllPackable(fs) && data == before + PackAll(fs) + after
    ensures Unpack(Codes(fs), Slice(data, |before|, CalcSize(Codes(fs)))) == Some(SeenAll(fs))
  {
    UnpackPackAll(fs);
    assert Slice(data, |before|, |PackAll(fs)|) == PackAll(fs);
  }

  lemma {:induction false} HeaderNumbers(dest: int, is64: bool)
    ensures var h := SeenAll(EhdrFields(dest, is64));
            && NumberIn(h, 5) == (if is64 then ELF64_HDR_SIZE else ELF32_HDR_SIZE)
            && NumberIn(h, 9) == (if is64 then ELF64_PHDR_SIZE else ELF32_PHDR_SIZE)
            && NumberIn(h, 10) == 1
  {
    var fs, middle := EhdrFields(dest, is64), MiddleFields(dest, is64);
    assert fs[5] == middle[4] && fs[9] == middle[8] && fs[10] == middle[9];
    assert Pow256(2) == 65536 && Pow256(4) == 0x1_0000_0000 && Pow256(8) == 0x1_0000_0000_0000_0000;
  }

  lemma {:induction false} HeaderSizes(dest: int, size: int, is64: bool)
    requires AllPackable(EhdrFields(dest, is64)) && AllPackable(PhdrFields(dest, size, is64))
    ensures |PackAll(EhdrFields(dest, is64))| == if is64 then ELF64_HDR_SIZE else ELF32_HDR_SIZE
    ensures |PackAll(PhdrFields(dest, size, is64))| == if is64 then ELF64_PHDR_SIZE else ELF32_PHDR_SIZE
  {
    EhdrCodes(dest, is64);
    PhdrCodes(dest, size, is64);
    UnpackPackAll(EhdrFields(dest, is64));
    UnpackPackAll(PhdrFields(dest, size, is64));
    Sizes32();
    Sizes64();
  }

  lemma {:induction false} ClassSeen(dest: int, is64: bool, data: seq<byte>)
    requires AllPackable(EhdrFields(dest, is64)) && PackAll(EhdrFields(dest, is64)) <= data
    ensures |data| > ELFINFO_CLASS_INDEX
    ensures data[ELFINFO_CLASS_INDEX] == if is64 then ELFINFO_CLASS_64 else ELFINFO_CLASS_32
  {
    EhdrPacked(dest, is64);
    assert Ident(is64) <= PackAll(EhdrFields(dest, is64)) <= data;
    assert data[ELFINFO_CLASS_INDEX] == Ident(is64)[ELFINFO_CLASS_INDEX];
  }

  lemma {:induction false} EhdrUnpacked(dest: int, is64: bool, data: seq<byte>)
    requires AllPackable(EhdrFields(dest, is64)) && PackAll(EhdrFields(dest, is64)) <= data
    ensures Unpack(if is64 then EHDR64 else EHDR32, Slice(data, 0, if is64 then ELF64_HDR_SIZE else ELF32_HDR_SIZE))
         == Some(SeenAll(EhdrFields(dest, is64)))
  {
    EhdrCodes(dest, is64);
    EhdrSizes();
    UnpackFront(data, EhdrFields(dest, is64));
  }

  lemma {:induction false} EhdrSizes()
    ensures CalcSize(EHDR32) == ELF32_HDR_SIZE && CalcSize(EHDR64) == ELF64_HDR_SIZE
  {
    Sizes32();
    Sizes64();
  }

  lemma {:induction false} UnpackFront(data: seq<byte>, fs: seq<Field>)
    requires AllPackable(fs) && PackAll(fs) <= data
    ensures Unpack(Codes(fs), Slice(data, 0, CalcSize(Codes(fs)))) == Some(SeenAll(fs))
  {
    UnpackPackAll(fs);
    assert data[0..|PackAll(fs)|] == PackAll(fs);
  }

  lemma {:induction false} PhdrUnpacked(payload: seq<byte>, dest: int, is64: bool, data: seq<byte>)
    requires AllPackable(EhdrFields(dest, is64)) && AllPackable(PhdrFields(dest, |payload|, is64))
    requires data == HeaderBytes(dest, |payload|, is64) + payload
    ensures PhdrsAt(data, if is64 then ELF64_HDR_SIZE else ELF32_HDR_SIZE, 1,
                    if is64 then ELF64_PHDR_SIZE else ELF32_PHDR_SIZE, if is64 then PHDR64 else PHDR32)
         == Some([SeenAll(PhdrFields(dest, |payload|, is64))])
  {
    var ehdr, phdr := EhdrFields(dest, is64), PhdrFields(dest, |payload|, is64);
    PhdrCodes(dest, |payload|, is64);
    HeaderSizes(dest, |payload|, is64);
    Sizes32();
    Sizes64();
    UnpackSlice(data, PackAll(ehdr), phdr, payload);
    OnePhdr(data, |PackAll(ehdr)|, phdr);
  }

  lemma {:induction false} CommonUnpacks(data: seq<byte>)
    requires |data| >= ELF_HDR_COMMON_SIZE
    ensures Unpack(EHDR_COMMON, Slice(data, 0, ELF_HDR_COMMON_SIZE)).Some?
  {
    CommonSize();
  }

  /** Given both headers and the class byte, the reader returns them. */
  lemma {:induction false} ViewOf(data: seq<byte>, is64: bool, h: seq<Value>, phdrs: seq<seq<Value>>)
    requires |data| >= ELF_HDR_COMMON_SIZE
    requires data[ELFINFO_CLASS_INDEX] == if is64 then ELFINFO_CLASS_64 else ELFINFO_CLASS_32
    requires Unpack(if is64 then EHDR64 else EHDR32, Slice(data, 0, if is64 then ELF64_HDR_SIZE else ELF32_HDR_SIZE))
          == Some(h)
    requires PhdrsAt(data, NumberIn(h, 5), NumberIn(h, 10), NumberIn(h, 9), if is64 then PHDR64 else PHDR32)
          == Some(phdrs)
    ensures ElfView(data) == Some(ElfFile(h, phdrs))
  {
    CommonUnpacks(data);
  }

  /**
   * Reading a written file gives back every field of both headers: each number modulo the width
   * of its field, for any load address and payload.
   */
  lemma {:induction false} ElfReadBack(payload: seq<byte>, dest: int, is64: bool)
    ensures ElfView(HeaderBytes(dest, |payload|, is64) + payload)
         == Some(ElfFile(SeenAll(EhdrFields(dest, is64)), [SeenAll(PhdrFields(dest, |payload|, is64))]))
  {
    var data := HeaderBytes(dest, |payload|, is64) + payload;
    EhdrPacked(dest, is64);
    PhdrPacked(dest, |payload|, is64);
    HeaderSizes(dest, |payload|, is64);
    ClassSeen(dest, is64, data);
    EhdrUnpacked(dest, is64, data);
    PhdrUnpacked(payload, dest, is64, data);
    HeaderNumbers(dest, is64);
    ViewOf(data, is64, SeenAll(EhdrFields(dest, is64)), [SeenAll(PhdrFields(dest, |payload|, is64))]);
  }

  lemma {:induction false} OnePhdr(data: seq<byte>, pos: nat, fs: seq<Field>)
    requires Unpack(Codes(fs), Slice(data, pos, CalcSize(Codes(fs)))) == Some(SeenAll(fs))
    ensures PhdrsAt(data, pos, 1, CalcSize(Codes(fs)), Codes(fs)) == Some([SeenAll(fs)])
  {
    var n := CalcSize(Codes(fs));
    assert PhdrsAt(data, pos + n, 0, n, Codes(fs)) == Some([]);
    assert [SeenAll(fs)] + [] == [SeenAll(fs)];
  }

  /** p_offset and p_filesz as a loader reads them. */
  function SegmentOffset(phdr: seq<Value>, is64: bool): nat {
    NumberIn(phdr, if is64 then 2 else 1)
  }

  function SegmentSize(phdr: seq<Value>, is64: bool): nat {
    NumberIn(phdr, if is64 then 5 else 4)
  }

  lemma {:induction false} SegmentNumbers(dest: int, size: nat, is64: bool)
    ensures var phdr := SeenAll(PhdrFields(dest, size, is64));
            && SegmentOffset(phdr, is64) ==
               (if is64 then ELF64_HDR_SIZE + ELF64_PHDR_SIZE else ELF32_HDR_SIZE + ELF32_PHDR_SIZE)
            && SegmentSize(phdr, is64) == size % WordLimit(is64)
  {
    assert Pow256(4) == 0x1_0000_0000 && Pow256(8) == 0x1_0000_0000_0000_0000;
  }

  /** The segment the program header names is the payload, if and only if its size fits the field. */
  lemma {:induction false} SegmentIsPayload(payload: seq<byte>, dest: int, is64: bool)
    ensures var data := HeaderBytes(dest, |payload|, is64) + payload;
            var phdr := SeenAll(PhdrFields(dest, |payload|, is64));
            Slice(data, SegmentOffset(phdr, is64), SegmentSize(phdr, is64)) == payload
            <==> |payload| < WordLimit(is64)
  {
    var header := HeaderBytes(dest, |payload|, is64);
    EhdrPacked(dest, is64);
    PhdrPacked(dest, |payload|, is64);
    HeaderSizes(dest, |payload|, is64);
    SegmentNumbers(dest, |payload|, is64);
    SliceBehind(header, payload, WordLimit(is64));
  }

  lemma {:induction false} SliceBehind(header: seq<byte>, payload: seq<byte>, limit: nat)
    requires limit > 0
    ensures Slice(header + payload, |header|, |payload| % limit) == payload <==> |payload| < limit
  {
    var n := |payload|;
    if n < limit {
      DivModUnique(n, limit, 0, n);
      assert (header + payload)[|header|..|header| + n] == payload;
    } else {
      assert n % limit < limit <= n;
    }
  }
}
