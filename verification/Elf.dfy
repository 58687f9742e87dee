/** The ELF header writer, the file concatenation around it, and the header reader. */
module Elf {
  import opened Arith
  import opened Bytes
  import opened Files
  import opened Pages
  import opened Struct
  import opened Wrappers

  const ELF_HDR_COMMON_SIZE := 24
  const ELF32_HDR_SIZE := 52
  const ELF32_PHDR_SIZE := 32
  const ELF64_HDR_SIZE := 64
  const ELF64_PHDR_SIZE := 56
  const ELFINFO_CLASS_INDEX := 4
  const ELFINFO_CLASS_32 := 1
  const ELFINFO_CLASS_64 := 2
  const ELF_BLOCK_ALIGN := 0x1000
  const LOAD_TYPE := 1
  const MI_PBT_RWE_SEGMENT := 7
  const ELFINFO_EXEC_ETYPE := 2
  const ELFINFO_ARM_MACHINETYPE := 40
  const CHUNK := 65536

  /** '16sHHI', '16sHHIIIIIHHHHHH', 'I' * 8, '16sHHIQQQIHHHHHH' and 'IIQQQQQQ'. */
  const EHDR_COMMON: seq<Code> := [Raw(16)] + Times(U16, 2) + Times(U32, 1)
  const EHDR32: seq<Code> := [Raw(16)] + Times(U16, 2) + Times(U32, 5) + Times(U16, 6)
  const PHDR32: seq<Code> := Times(U32, 8)
  const EHDR64: seq<Code> :=
    [Raw(16)] + Times(U16, 2) + Times(U32, 1) + Times(U64, 3) + Times(U32, 1) + Times(U16, 6)
  const PHDR64: seq<Code> := Times(U32, 2) + Times(U64, 6)

  /** Byte i of an integer: a floor shift and a remainder, for negative numbers too. */
  function ByteOf(n: int, i: nat): byte {
    n / Pow256(i) % 256
  }

  function Reverse(s: seq<byte>): (r: seq<byte>)
    ensures |r| == |s| && forall i :: 0 <= i < |s| ==> r[i] == s[|s| - 1 - i]
  {
    seq(|s|, i requires 0 <= i < |s| => s[|s| - 1 - i])
  }

  /** The highest byte first, then reversed. */
  function ConvertIntToByteString(n: int, l: nat): (s: seq<byte>)
    ensures |s| == l
  {
    Reverse(seq(l, i requires 0 <= i < l => ByteOf(n, l - i - 1)))
  }

  lemma {:induction false} DivDiv(n: int, p: int)
    requires p > 0
    ensures n / 256 / p == n / (256 * p)
  {
    var q, r := n / 256, n % 256;
    var a, b := q / p, q % p;
    assert q == p * a + b;
    assert n == (256 * p) * a + (256 * b + r) by {
      assert 256 * (p * a) == (256 * p) * a;
    }
    DivModUnique(n, 256 * p, a, 256 * b + r);
  }

  /** The same byte by shifting one byte at a time. */
  function ShiftedByte(n: int, i: nat): byte
    decreases i
  {
    if i == 0 then n % 256 else ShiftedByte(n / 256, i - 1)
  }

  lemma {:induction false} ByteIsShifted(n: int, i: nat)
    ensures ByteOf(n, i) == ShiftedByte(n, i)
    decreases i
  {
    if i > 0 {
      DivDiv(n, Pow256(i - 1));
      ByteIsShifted(n / 256, i - 1);
    }
  }

  lemma {:induction false} ConvertAt(n: int, l: nat, i: nat)
    requires i < l
    ensures ConvertIntToByteString(n, l)[i] == ShiftedByte(n, i)
  {
    ByteIsShifted(n, i);
    assert l - (l - 1 - i) - 1 == i;
  }

  lemma {:induction false} ConvertStep(n: int, l: nat)
    requires l > 0
    ensures ConvertIntToByteString(n, l) == [n % 256] + ConvertIntToByteString(n / 256, l - 1)
  {
    var s, rest := ConvertIntToByteString(n, l), ConvertIntToByteString(n / 256, l - 1);
    var t := [n % 256] + rest;
    forall i | 0 <= i < l
      ensures s[i] == t[i]
    {
      ConvertAt(n, l, i);
      if i > 0 {
        ConvertAt(n / 256, l - 1, i - 1);
      }
    }
  }

  /** The encoder yields n modulo 256^l in little-endian order, for every n and l. */
  lemma {:induction false} ConvertIsLittleEndian(n: int, l: nat)
    ensures FromLittleEndian(ConvertIntToByteString(n, l)) == n % Pow256(l)
    ensures ConvertIntToByteString(n, l) == LittleEndian(n % Pow256(l), l)
    decreases l
  {
    if l > 0 {
      ConvertStep(n, l);
      ConvertIsLittleEndian(n / 256, l - 1);
      ModSplit(n, 256, Pow256(l - 1));
    }
    EncodeDecode(ConvertIntToByteString(n, l));
  }

  /** One header field as the writer encodes it: cut to its width. */
  function Wrapped(c: Code, n: int): Field
    requires !c.Raw?
  {
    Field(c, Int(n % Pow256(Size(c))))
  }

  function Ident(is64: bool): (s: seq<byte>)
    ensures |s| == 16
  {
    [0x7f, 0x45, 0x4c, 0x46, if is64 then ELFINFO_CLASS_64 else ELFINFO_CLASS_32, 1, 1] + Zeros(9)
  }

  /** The fields between the identification and the section header fields. */
  function MiddleFields(dest: int, is64: bool): (fs: seq<Field>)
    ensures |fs| == 10
  {
    var word, size := if is64 then U64 else U32, if is64 then ELF64_HDR_SIZE else ELF32_HDR_SIZE;
    [Wrapped(U16, ELFINFO_EXEC_ETYPE), Wrapped(U16, ELFINFO_ARM_MACHINETYPE), Wrapped(U32, 1),
     Wrapped(word, dest), Wrapped(word, size), Wrapped(word, 0), Wrapped(U32, 0),
     Wrapped(U16, size), Wrapped(U16, if is64 then ELF64_PHDR_SIZE else ELF32_PHDR_SIZE), Wrapped(U16, 1)]
  }

  /** The ELF header fields in file order, for either class. */
  function EhdrFields(dest: int, is64: bool): (fs: seq<Field>)
    ensures |fs| == 14
  {
    IdentFields(is64) + (MiddleFields(dest, is64) + TailFields())
  }

  function IdentFields(is64: bool): seq<Field> {
    [Field(Raw(16), Str(Ident(is64)))]
  }

  /** No section headers. */
  function TailFields(): seq<Field> {
    [Wrapped(U16, 0), Wrapped(U16, 0), Wrapped(U16, 0)]
  }

  /** The program header fields; the two classes keep the flags in different places. */
  function PhdrFields(dest: int, size: int, is64: bool): seq<Field> {
    if is64 then
      [Wrapped(U32, LOAD_TYPE), Wrapped(U32, MI_PBT_RWE_SEGMENT),
       Wrapped(U64, ELF64_HDR_SIZE + ELF64_PHDR_SIZE), Wrapped(U64, dest), Wrapped(U64, dest),
       Wrapped(U64, size), Wrapped(U64, size), Wrapped(U64, ELF_BLOCK_ALIGN)]
    else
      [Wrapped(U32, LOAD_TYPE), Wrapped(U32, ELF32_HDR_SIZE + ELF32_PHDR_SIZE),
       Wrapped(U32, dest), Wrapped(U32, dest), Wrapped(U32, size), Wrapped(U32, size),
       Wrapped(U32, MI_PBT_RWE_SEGMENT), Wrapped(U32, ELF_BLOCK_ALIGN)]
  }

  /** In native mode the format, placed at this offset, takes this much room and no padding. */
  predicate Unpadded(cs: seq<Code>, off: nat, size: nat) {
    CalcSize(cs) == size && NativeEnd(cs, off) == off + size
  }

  lemma {:induction false} TimesUnpadded(c: Code, n: nat, off: nat)
    requires !c.Raw? && off % Size(c) == 0
    ensures Unpadded(Times(c, n), off, n * Size(c))
    decreases n
  {
    if n > 0 {
      NextAligned(off, Size(c));
      TimesUnpadded(c, n - 1, off + Size(c));
      AlignedFirst(c, n, off);
      TimesSize(c, n);
      assert n * Size(c) == (n - 1) * Size(c) + Size(c);
    }
  }

  lemma {:induction false} NextAligned(off: nat, size: nat)
    requires size > 0 && off % size == 0
    ensures (off + size) % size == 0
  {
    var k := off / size;
    assert off == size * k;
    assert off + size == size * (k + 1);
    DivModUnique(off + size, size, k + 1, 0);
  }

  lemma {:induction false} AlignedFirst(c: Code, n: nat, off: nat)
    requires !c.Raw? && off % Size(c) == 0 && n > 0
    ensures NativeEnd(Times(c, n), off) == NativeEnd(Times(c, n - 1), off + Size(c))
  {
    RoundUpAligned(off, Size(c));
    assert Times(c, n)[1..] == Times(c, n - 1);
  }

  lemma {:induction false} UnpaddedConcat(xs: seq<Code>, ys: seq<Code>, off: nat, m: nat, n: nat)
    requires Unpadded(xs, off, m) && Unpadded(ys, off + m, n)
    ensures Unpadded(xs + ys, off, m + n)
  {
    CalcSizeConcat(xs, ys);
    NativeConcat(xs, ys, off);
  }

  lemma {:induction false} NativeConcat(xs: seq<Code>, ys: seq<Code>, off: nat)
    ensures NativeEnd(xs + ys, off) == NativeEnd(ys, NativeEnd(xs, off))
    decreases |xs|
  {
    if xs == [] {
      assert xs + ys == ys;
    } else {
      assert (xs + ys)[1..] == xs[1..] + ys;
      var a := Alignment(xs[0]);
      NativeConcat(xs[1..], ys, (off + a - 1) / a * a + Size(xs[0]));
    }
  }

  lemma {:induction false} IdentUnpadded()
    ensures Unpadded([Raw(16)], 0, 16)
  {
    assert [Raw(16)][1..] == [];
  }

  lemma {:induction false} EhdrTail32()
    ensures Unpadded(Times(U16, 2) + Times(U32, 5) + Times(U16, 6), 16, 36)
  {
    TimesUnpadded(U16, 2, 16);
    TimesUnpadded(U32, 5, 20);
    UnpaddedConcat(Times(U16, 2), Times(U32, 5), 16, 4, 20);
    TimesUnpadded(U16, 6, 40);
    UnpaddedConcat(Times(U16, 2) + Times(U32, 5), Times(U16, 6), 16, 24, 12);
  }

  /** The structs have the sizes the writer puts into the headers, without hidden padding. */
  lemma {:induction false} Sizes32()
    ensures Unpadded(EHDR32, 0, ELF32_HDR_SIZE) && Unpadded(PHDR32, 0, ELF32_PHDR_SIZE)
  {
    IdentUnpadded();
    EhdrTail32();
    var tail := Times(U16, 2) + Times(U32, 5) + Times(U16, 6);
    UnpaddedConcat([Raw(16)], tail, 0, 16, 36);
    assert EHDR32 == [Raw(16)] + tail;
    TimesUnpadded(U32, 8, 0);
  }

  lemma {:induction false} Ehdr64Size()
    ensures Unpadded(EHDR64, 0, ELF64_HDR_SIZE)
  {
    CommonSize();
    EhdrTail64();
    var tail := Times(U64, 3) + Times(U32, 1) + Times(U16, 6);
    UnpaddedConcat(EHDR_COMMON, tail, 0, 24, 40);
    assert EHDR64 == EHDR_COMMON + tail;
  }

  lemma {:induction false} Sizes64()
    ensures Unpadded(EHDR64, 0, ELF64_HDR_SIZE) && Unpadded(PHDR64, 0, ELF64_PHDR_SIZE)
  {
    Ehdr64Size();
    Phdr64Size();
  }

  lemma {:induction false} Phdr64Size()
    ensures Unpadded(PHDR64, 0, ELF64_PHDR_SIZE)
  {
    TimesUnpadded(U32, 2, 0);
    TimesUnpadded(U64, 6, 8);
    assert Unpadded(Times(U32, 2), 0, 8) && Unpadded(Times(U64, 6), 8, 48);
    UnpaddedConcat(Times(U32, 2), Times(U64, 6), 0, 8, 48);
  }

  lemma {:induction false} EhdrTail64()
    ensures Unpadded(Times(U64, 3) + Times(U32, 1) + Times(U16, 6), 24, 40)
  {
    TimesUnpadded(U64, 3, 24);
    TimesUnpadded(U32, 1, 48);
    UnpaddedConcat(Times(U64, 3), Times(U32, 1), 24, 24, 4);
    TimesUnpadded(U16, 6, 52);
    UnpaddedConcat(Times(U64, 3) + Times(U32, 1), Times(U16, 6), 24, 28, 12);
  }

  lemma {:induction false} CommonSize()
    ensures Unpadded(EHDR_COMMON, 0, ELF_HDR_COMMON_SIZE)
  {
    IdentUnpadded();
    TimesUnpadded(U16, 2, 16);
    UnpaddedConcat([Raw(16)], Times(U16, 2), 0, 16, 4);
    TimesUnpadded(U32, 1, 20);
    UnpaddedConcat([Raw(16)] + Times(U16, 2), Times(U32, 1), 0, 20, 4);
  }

  function Flatten(chunks: seq<seq<byte>>): seq<byte> {
    if chunks == [] then [] else chunks[0] + Flatten(chunks[1..])
  }

  lemma {:induction false} FlattenConcat(xs: seq<seq<byte>>, ys: seq<seq<byte>>)
    ensures Flatten(xs + ys) == Flatten(xs) + Flatten(ys)
  {
    if xs == [] {
      assert xs + ys == ys;
    } else {
      assert (xs + ys)[1..] == xs[1..] + ys;
      FlattenConcat(xs[1..], ys);
    }
  }

  /** Chunks that pack the fields one for one make up the packed header. */
  lemma {:induction false} FlattenPacked(fs: seq<Field>, chunks: seq<seq<byte>>)
    requires |chunks| == |fs| && AllPackable(fs)
    requires forall i :: 0 <= i < |fs| ==> chunks[i] == Pack(fs[i])
    ensures Flatten(chunks) == PackAll(fs)
  {
    if fs != [] {
      FlattenPacked(fs[1..], chunks[1..]);
    }
  }

  lemma {:induction false} WrappedPacks(c: Code, n: int)
    requires !c.Raw?
    ensures Packable(Wrapped(c, n))
    ensures Pack(Wrapped(c, n)) == ConvertIntToByteString(n, Size(c))
  {
    ConvertIsLittleEndian(n, Size(c));
  }

  lemma {:induction false} ZeroPacks(l: nat)
    ensures LittleEndian(0, l) == Zeros(l)
  {
    if l > 0 {
      ZeroPacks(l - 1);
      assert Zeros(l) == [0] + Zeros(l - 1);
    }
  }

  /** A number below 256 is its byte and zeros. */
  lemma {:induction false} SmallPacks(c: Code, n: byte)
    requires !c.Raw?
    ensures Packable(Wrapped(c, n)) && Pack(Wrapped(c, n)) == [n] + Zeros(Size(c) - 1)
  {
    var p := Pow256(Size(c) - 1);
    NonNegative(256, p - 1);
    assert Pow256(Size(c)) == 256 * p;
    DivModUnique(n, 256 * p, 0, n);
    ZeroPacks(Size(c) - 1);
  }

  method WriteChunks(f: OutputFile, chunks: seq<seq<byte>>)
    modifies f
    ensures f.data == old(f.data) + Flatten(chunks)
    decreases |chunks|
  {
    if chunks == [] {
      return;
    }
    ghost var start := f.data;
    f.Write(chunks[0]);
    WriteChunks(f, chunks[1..]);
    Associative(start, chunks[0], Flatten(chunks[1..]));
  }

  const IDENT_TAIL: seq<seq<byte>> := [[1], [1], Zeros(9)]

  lemma {:induction false} FlattenCons(chunk: seq<byte>, chunks: seq<seq<byte>>)
    ensures Flatten([chunk] + chunks) == chunk + Flatten(chunks)
  {
    assert ([chunk] + chunks)[1..] == chunks;
  }

  lemma {:induction false} IdentChunks(c: byte)
    ensures Flatten([[0x7f], [0x45], [0x4c], [0x46], [c]] + IDENT_TAIL) == [0x7f, 0x45, 0x4c, 0x46, c, 1, 1] + Zeros(9)
  {
    FlattenCons(Zeros(9), []);
    FlattenCons([1], [Zeros(9)]);
    FlattenCons([1], [[1], Zeros(9)]);
    FlattenCons([c], []);
    FlattenCons([0x46], [[c]]);
    FlattenCons([0x4c], [[0x46], [c]]);
    FlattenCons([0x45], [[0x4c], [0x46], [c]]);
    FlattenCons([0x7f], [[0x45], [0x4c], [0x46], [c]]);
    FlattenConcat([[0x7f], [0x45], [0x4c], [0x46], [c]], IDENT_TAIL);
  }

  function MiddleChunks(dest: int, is64: bool): (chunks: seq<seq<byte>>)
    ensures |chunks| == 10
  {
    var width, size := if is64 then 8 else 4, if is64 then ELF64_HDR_SIZE else ELF32_HDR_SIZE;
    [[2, 0], [40, 0], [1, 0, 0, 0],
     ConvertIntToByteString(dest, width), ConvertIntToByteString(size, width), ConvertIntToByteString(0, width),
     Zeros(4), ConvertIntToByteString(size, 2),
     ConvertIntToByteString(if is64 then ELF64_PHDR_SIZE else ELF32_PHDR_SIZE, 2), [1, 0]]
  }

  lemma {:induction false} HalfPacks(n: byte)
    ensures Packable(Wrapped(U16, n)) && Pack(Wrapped(U16, n)) == [n, 0]
  {
    SmallPacks(U16, n);
    assert [n] + Zeros(1) == [n, 0];
  }

  lemma {:induction false} WordPacks(n: byte)
    ensures Packable(Wrapped(U32, n)) && Pack(Wrapped(U32, n)) == [n, 0, 0, 0]
  {
    SmallPacks(U32, n);
    assert [n] + Zeros(3) == [n, 0, 0, 0];
  }

  lemma {:induction false} LiteralChunks(dest: int, is64: bool, i: nat)
    requires i in {0, 1, 2, 6, 9}
    ensures Packable(MiddleFields(dest, is64)[i])
    ensures MiddleChunks(dest, is64)[i] == Pack(MiddleFields(dest, is64)[i])
  {
    var word := i == 2 || i == 6;
    var n := if i == 0 then ELFINFO_EXEC_ETYPE else if i == 1 then ELFINFO_ARM_MACHINETYPE else if i == 6 then 0 else 1;
    assert MiddleFields(dest, is64)[i] == Wrapped(if word then U32 else U16, n);
    assert MiddleChunks(dest, is64)[i] == if word then [n, 0, 0, 0] else [n, 0];
    if word {
      WordPacks(n);
    } else {
      HalfPacks(n);
    }
  }

  lemma {:induction false} ConvertedChunks(dest: int, is64: bool, i: nat)
    requires i in {3, 4, 5, 7, 8}
    ensures Packable(MiddleFields(dest, is64)[i])
    ensures MiddleChunks(dest, is64)[i] == Pack(MiddleFields(dest, is64)[i])
  {
    var word, size := if is64 then U64 else U32, if is64 then ELF64_HDR_SIZE else ELF32_HDR_SIZE;
    var c := if i <= 5 then word else U16;
    var n := if i == 3 then dest else if i == 4 || i == 7 then size else if i == 5 then 0
             else if is64 then ELF64_PHDR_SIZE else ELF32_PHDR_SIZE;
    assert MiddleFields(dest, is64)[i] == Wrapped(c, n);
    assert MiddleChunks(dest, is64)[i] == ConvertIntToByteString(n, Size(c));
    WrappedPacks(c, n);
  }

  lemma {:induction false} MiddlePacked(dest: int, is64: bool)
    ensures AllPackable(MiddleFields(dest, is64))
    ensures Flatten(MiddleChunks(dest, is64)) == PackAll(MiddleFields(dest, is64))
  {
    forall i | 0 <= i < 10
      ensures Packable(MiddleFields(dest, is64)[i])
      ensures MiddleChunks(dest, is64)[i] == Pack(MiddleFields(dest, is64)[i])
    {
      if i in {0, 1, 2, 6, 9} {
        LiteralChunks(dest, is64, i);
      } else {
        ConvertedChunks(dest, is64, i);
      }
    }
    FlattenPacked(MiddleFields(dest, is64), MiddleChunks(dest, is64));
  }

  lemma {:induction false} TailPacked()
    ensures AllPackable(TailFields()) && PackAll(TailFields()) == Zeros(6)
  {
    HalfPacks(0);
    var zero: seq<byte> := [0, 0];
    FlattenPacked(TailFields(), [zero, zero, zero]);
    FlattenCons(zero, []);
    FlattenCons(zero, [zero]);
    FlattenCons(zero, [zero, zero]);
  }

  lemma {:induction false} EhdrPacked(dest: int, is64: bool)
    ensures AllPackable(EhdrFields(dest, is64))
    ensures PackAll(EhdrFields(dest, is64)) == Ident(is64) + (Flatten(MiddleChunks(dest, is64)) + Zeros(6))
  {
    var ident, middle, tail := IdentFields(is64), MiddleFields(dest, is64), TailFields();
    MiddlePacked(dest, is64);
    TailPacked();
    PackAllConcat(middle, tail);
    PackAllConcat(ident, middle + tail);
    assert ident[1..] == [];
    assert PackAll(ident) == Pack(ident[0]) + PackAll([]);
  }

  function PhdrChunks(dest: int, size: int, is64: bool): seq<seq<byte>> {
    if is64 then
      [ConvertIntToByteString(LOAD_TYPE, 4), ConvertIntToByteString(MI_PBT_RWE_SEGMENT, 4),
       ConvertIntToByteString(ELF64_HDR_SIZE + ELF64_PHDR_SIZE, 8), ConvertIntToByteString(dest, 8),
       ConvertIntToByteString(dest, 8), ConvertIntToByteString(size, 8), ConvertIntToByteString(size, 8),
       ConvertIntToByteString(ELF_BLOCK_ALIGN, 8)]
    else
      [ConvertIntToByteString(LOAD_TYPE, 4), ConvertIntToByteString(ELF32_HDR_SIZE + ELF32_PHDR_SIZE, 4),
       ConvertIntToByteString(dest, 4), ConvertIntToByteString(dest, 4), ConvertIntToByteString(size, 4),
       ConvertIntToByteString(size, 4), ConvertIntToByteString(MI_PBT_RWE_SEGMENT, 4),
       ConvertIntToByteString(ELF_BLOCK_ALIGN, 4)]
  }

  lemma {:induction false} PhdrPacked(dest: int, size: int, is64: bool)
    ensures AllPackable(PhdrFields(dest, size, is64))
    ensures Flatten(PhdrChunks(dest, size, is64)) == PackAll(PhdrFields(dest, size, is64))
  {
    forall i | 0 <= i < 8
      ensures Packable(PhdrFields(dest, size, is64)[i])
      ensures PhdrChunks(dest, size, is64)[i] == Pack(PhdrFields(dest, size, is64)[i])
    {
      PhdrPacks(dest, size, is64, i);
    }
    FlattenPacked(PhdrFields(dest, size, is64), PhdrChunks(dest, size, is64));
  }

  /** The number program header field i holds before it is cut to its width. */
  function PhdrNumber(dest: int, size: int, is64: bool, i: nat): int {
    if i == 0 then LOAD_TYPE
    else if i == (if is64 then 1 else 6) then MI_PBT_RWE_SEGMENT
    else if i == (if is64 then 2 else 1) then
      if is64 then ELF64_HDR_SIZE + ELF64_PHDR_SIZE else ELF32_HDR_SIZE + ELF32_PHDR_SIZE
    else if i == 7 then ELF_BLOCK_ALIGN
    else if i <= (if is64 then 4 else 3) then dest
    else size
  }

  /** Each program header field packs to what the writer emits for it. */
  lemma {:induction false} PhdrPacks(dest: int, size: int, is64: bool, i: nat)
    requires i < 8
    ensures Packable(PhdrFields(dest, size, is64)[i])
    ensures PhdrChunks(dest, size, is64)[i] == Pack(PhdrFields(dest, size, is64)[i])
  {
    var c, n := if is64 && i >= 2 then U64 else U32, PhdrNumber(dest, size, is64, i);
    assert PhdrFields(dest, size, is64)[i] == Wrapped(c, n);
    assert PhdrChunks(dest, size, is64)[i] == ConvertIntToByteString(n, Size(c));
    WrappedPacks(c, n);
  }

  /** ELF header and program header as packed structs. */
  function HeaderBytes(dest: int, size: int, is64: bool): seq<byte> {
    EhdrPacked(dest, is64);
    PhdrPacked(dest, size, is64);
    PackAll(EhdrFields(dest, is64)) + PackAll(PhdrFields(dest, size, is64))
  }

  method WriteEhdr(f: OutputFile, dest: int, is64: bool)
    requires f.data == []
    modifies f
    ensures AllPackable(EhdrFields(dest, is64)) && f.data == PackAll(EhdrFields(dest, is64))
  {
    if is64 {
      WriteChunks(f, [[0x7f], [0x45], [0x4c], [0x46], [ELFINFO_CLASS_64]] + [[1], [1], Zeros(9)]);
      IdentChunks(ELFINFO_CLASS_64);
      WriteChunks(f,
        [[2, 0], [40, 0], [1, 0, 0, 0],
         ConvertIntToByteString(dest, 8), ConvertIntToByteString(ELF64_HDR_SIZE, 8), ConvertIntToByteString(0, 8),
         Zeros(4), ConvertIntToByteString(ELF64_HDR_SIZE, 2), ConvertIntToByteString(ELF64_PHDR_SIZE, 2), [1, 0]]);
    } else {
      WriteChunks(f, [[0x7f], [0x45], [0x4c], [0x46], [ELFINFO_CLASS_32]] + [[1], [1], Zeros(9)]);
      IdentChunks(ELFINFO_CLASS_32);
      WriteChunks(f,
        [[2, 0], [40, 0], [1, 0, 0, 0],
         ConvertIntToByteString(dest, 4), ConvertIntToByteString(ELF32_HDR_SIZE, 4), ConvertIntToByteString(0, 4),
         Zeros(4), ConvertIntToByteString(ELF32_HDR_SIZE, 2), ConvertIntToByteString(ELF32_PHDR_SIZE, 2), [1, 0]]);
    }
    assert f.data == Ident(is64) + Flatten(MiddleChunks(dest, is64));
    f.Write(Zeros(6));
    EhdrPacked(dest, is64);
    assert (Ident(is64) + Flatten(MiddleChunks(dest, is64))) + Zeros(6)
        == Ident(is64) + (Flatten(MiddleChunks(dest, is64)) + Zeros(6));
  }

  method CreateElfHeader(f: OutputFile, dest: int, size: nat, is64: bool)
    requires f.data == []
    modifies f
    ensures f.data == HeaderBytes(dest, size, is64)
  {
    WriteEhdr(f, dest, is64);
    PhdrPacked(dest, size, is64);
    WriteChunks(f, PhdrChunks(dest, size, is64));
  }

  /** Copies the sources in order, in chunks. */
  method ConcatFiles(sources: seq<seq<byte>>) returns (target: seq<byte>)
    ensures target == Flatten(sources)
  {
    target := [];
    for k := 0 to |sources|
      invariant target + Flatten(sources[k..]) == Flatten(sources)
    {
      ghost var before, source := target, sources[k];
      var pos := 0;
      while true
        invariant 0 <= pos <= |source| && target == before + source[..pos]
        decreases |source| - pos
      {
        var binData := Slice(sources[k], pos, if pos + CHUNK <= |sources[k]| then CHUNK else |sources[k]| - pos);
        if binData == [] {
          break;
        }
        target := target + binData;
        assert source[..pos] + binData == source[..pos + |binData|];
        pos := pos + |binData|;
      }
      assert target == before + source;
      assert sources[k..][1..] == sources[k + 1..];
      Associative(before, source, Flatten(sources[k + 1..]));
    }
  }

  datatype ElfFile = ElfFile(header: seq<Value>, programHeaders: seq<seq<Value>>)

  /** Program headers read one after another; None for struct.error. */
  function PhdrsAt(data: seq<byte>, pos: nat, count: nat, entry: nat, format: seq<Code>): Option<seq<seq<Value>>>
    decreases count
  {
    if count == 0 then Some([])
    else
      match Unpack(format, Slice(data, pos, entry))
      case None => None
      case Some(first) => Prefixed([first], PhdrsAt(data, pos + entry, count - 1, entry, format))
  }

  function Prefixed(front: seq<seq<Value>>, rest: Option<seq<seq<Value>>>): Option<seq<seq<Value>>> {
    match rest
    case None => None
    case Some(phdrs) => Some(front + phdrs)
  }

  lemma {:induction false} PrefixedUnits(front: seq<seq<Value>>, rest: Option<seq<seq<Value>>>)
    ensures Prefixed([], rest) == rest && Prefixed(front, Some([])) == Some(front)
  {
    assert front + [] == front;
    if rest.Some? {
      assert [] + rest.value == rest.value;
    }
  }

  lemma {:induction false} PrefixedTwice(front: seq<seq<Value>>, next: seq<seq<Value>>, rest: Option<seq<seq<Value>>>)
    ensures Prefixed(front + next, rest) == Prefixed(front, Prefixed(next, rest))
  {
    if rest.Some? {
      assert (front + next) + rest.value == front + (next + rest.value);
    }
  }

  function NumberIn(values: seq<Value>, i: nat): nat {
    if i < |values| then Number(values[i]) else 0
  }

  /** What the headers of a file say, for its own class byte. */
  function ElfView(data: seq<byte>): Option<ElfFile> {
    if Unpack(EHDR_COMMON, Slice(data, 0, ELF_HDR_COMMON_SIZE)).None? || |data| <= ELFINFO_CLASS_INDEX then None
    else
      var is64 := data[ELFINFO_CLASS_INDEX] == ELFINFO_CLASS_64;
      match Unpack(if is64 then EHDR64 else EHDR32, Slice(data, 0, if is64 then ELF64_HDR_SIZE else ELF32_HDR_SIZE))
      case None => None
      case Some(h) =>
        match PhdrsAt(data, NumberIn(h, 5), NumberIn(h, 10), NumberIn(h, 9), if is64 then PHDR64 else PHDR32)
        case None => None
        case Some(phdrs) => Some(ElfFile(h, phdrs))
  }

  /** The loop over the program headers. */
  method ReadProgramHeaders(data: seq<byte>, start: nat, count: nat, phdrSize: nat, is64: bool)
    returns (r: Option<seq<seq<Value>>>)
    ensures r == PhdrsAt(data, start, count, phdrSize, if is64 then PHDR64 else PHDR32)
  {
    var phdrTable := [];
    var filePos: nat := start;
    var format := if is64 then PHDR64 else PHDR32;
    ghost var all := PhdrsAt(data, start, count, phdrSize, format);
    PrefixedUnits([], all);
    for i := 0 to count
      invariant all == Prefixed(phdrTable, PhdrsAt(data, filePos, count - i, phdrSize, format))
    {
      var phdr := Unpack(format, Slice(data, filePos, phdrSize));
      if phdr.None? {
        return None;
      }
      PrefixedTwice(phdrTable, [phdr.value], PhdrsAt(data, filePos + phdrSize, count - i - 1, phdrSize, format));
      phdrTable := phdrTable + [phdr.value];
      filePos := filePos + phdrSize;
    }
    PrefixedUnits(phdrTable, all);
    return Some(phdrTable);
  }

  /** Reads the class from the identification, then the header, then its program headers. */
  method PreprocessElfFile(data: seq<byte>) returns (r: Option<ElfFile>)
    ensures r == ElfView(data)
  {
    var common := Unpack(EHDR_COMMON, Slice(data, 0, ELF_HDR_COMMON_SIZE));
    if common.None? || |data| <= ELFINFO_CLASS_INDEX {
      return None;
    }
    var is64 := data[ELFINFO_CLASS_INDEX] == ELFINFO_CLASS_64;
    var header := Unpack(if is64 then EHDR64 else EHDR32,
                         Slice(data, 0, if is64 then ELF64_HDR_SIZE else ELF32_HDR_SIZE));
    if header.None? {
      return None;
    }
    var h := header.value;
    var phdrTable := ReadProgramHeaders(data, NumberIn(h, 5), NumberIn(h, 10), NumberIn(h, 9), is64);
    r := if phdrTable.None? then None else Some(ElfFile(h, phdrTable.value));
  }
}
