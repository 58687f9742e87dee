/** What a built ELF file says, value by value in the order of the structs. */
module ElfValues {
  import opened Bytes
  import opened Pages
  import opened Struct
  import opened Wrappers
  import opened Elf
  import opened ElfRoundTrip

  lemma {:induction false} Limits()
    ensures Pow256(2) == 0x1_0000 && Pow256(4) == 0x1_0000_0000 && Pow256(8) == 0x1_0000_0000_0000_0000
  {
  }

  lemma {:induction false} IdentSaid(is64: bool)
    ensures Ident(is64) == [0x7f] + Ascii("ELF") + [if is64 then 2 else 1, 1, 1] + Zeros(9)
  {
    assert Ascii("ELF") == [0x45, 0x4c, 0x46];
  }

  lemma {:induction false} IdentSeen(is64: bool)
    ensures SeenAll(IdentFields(is64)) == [Str([0x7f] + Ascii("ELF") + [if is64 then 2 else 1, 1, 1] + Zeros(9))]
  {
    IdentSaid(is64);
    assert Fit(Ident(is64), 16) == Ident(is64);
  }

  /** The numbers between identification and section header fields. */
  lemma {:induction false} MiddleIn(dest: int, is64: bool, h: seq<Value>)
    requires h == SeenAll(MiddleFields(dest, is64))
    ensures |h| == 10
    ensures h[0] == Int(2) && h[1] == Int(40) && h[2] == Int(1)
    ensures h[3] == Int(if is64 then dest % 0x1_0000_0000_0000_0000 else dest % 0x1_0000_0000)
    ensures h[4] == Int(if is64 then 64 else 52)
    ensures h[5] == Int(0) && h[6] == Int(0)
    ensures h[7] == Int(if is64 then 64 else 52)
    ensures h[8] == Int(if is64 then 56 else 32)
    ensures h[9] == Int(1)
  {
    Limits();
  }

  lemma {:induction false} TailSeen()
    ensures SeenAll(TailFields()) == [Int(0), Int(0), Int(0)]
  {
    Limits();
  }

  lemma {:induction false} EhdrShape(dest: int, is64: bool)
    ensures SeenAll(EhdrFields(dest, is64)) ==
      SeenAll(IdentFields(is64)) + SeenAll(MiddleFields(dest, is64)) + SeenAll(TailFields())
  {
  }

  lemma {:induction false} Phdr64In(dest: int, size: nat, p: seq<Value>)
    requires p == SeenAll(PhdrFields(dest, size, true))
    ensures |p| == 8
    ensures p[0] == Int(1) && p[1] == Int(7) && p[2] == Int(120)
    ensures p[3] == p[4] == Int(dest % 0x1_0000_0000_0000_0000)
    ensures p[5] == p[6] == Int(size % 0x1_0000_0000_0000_0000)
    ensures p[7] == Int(0x1000)
  {
    Limits();
  }

  lemma {:induction false} Phdr32In(dest: int, size: nat, p: seq<Value>)
    requires p == SeenAll(PhdrFields(dest, size, false))
    ensures |p| == 8
    ensures p[0] == Int(1) && p[1] == Int(84)
    ensures p[2] == p[3] == Int(dest % 0x1_0000_0000)
    ensures p[4] == p[5] == Int(size % 0x1_0000_0000)
    ensures p[6] == Int(7) && p[7] == Int(0x1000)
  {
    Limits();
  }

  /**
   * The ELF header of a built file, from e_ident to e_shstrndx: an executable for ARM that starts
   * at the load address, with one program header right behind.
   */
  lemma {:induction false} EhdrSays(payload: seq<byte>, dest: int, is64: bool) returns (h: seq<Value>)
    ensures |h| == 14
    ensures h[0] == Str([0x7f] + Ascii("ELF") + [if is64 then 2 else 1, 1, 1] + Zeros(9))
    ensures h[1] == Int(2) && h[2] == Int(40) && h[3] == Int(1)
    ensures h[4] == Int(if is64 then dest % 0x1_0000_0000_0000_0000 else dest % 0x1_0000_0000)
    ensures h[5] == Int(if is64 then 64 else 52)
    ensures h[6] == Int(0) && h[7] == Int(0)
    ensures h[8] == Int(if is64 then 64 else 52)
    ensures h[9] == Int(if is64 then 56 else 32)
    ensures h[10] == Int(1)
    ensures h[11] == h[12] == h[13] == Int(0)
    ensures var view := ElfView(HeaderBytes(dest, |payload|, is64) + payload);
            view.Some? && view.value.header == h
  {
    ElfReadBack(payload, dest, is64);
    h := EhdrIn(dest, is64);
  }

  lemma {:induction false} EhdrIn(dest: int, is64: bool) returns (h: seq<Value>)
    ensures |h| == 14
    ensures h[0] == Str([0x7f] + Ascii("ELF") + [if is64 then 2 else 1, 1, 1] + Zeros(9))
    ensures h[1] == Int(2) && h[2] == Int(40) && h[3] == Int(1)
    ensures h[4] == Int(if is64 then dest % 0x1_0000_0000_0000_0000 else dest % 0x1_0000_0000)
    ensures h[5] == Int(if is64 then 64 else 52)
    ensures h[6] == Int(0) && h[7] == Int(0)
    ensures h[8] == Int(if is64 then 64 else 52)
    ensures h[9] == Int(if is64 then 56 else 32)
    ensures h[10] == Int(1)
    ensures h[11] == h[12] == h[13] == Int(0)
    ensures h == SeenAll(EhdrFields(dest, is64))
  {
    var ident, middle := SeenAll(IdentFields(is64)), SeenAll(MiddleFields(dest, is64));
    EhdrShape(dest, is64);
    IdentSeen(is64);
    MiddleIn(dest, is64, middle);
    TailSeen();
    h := ident + middle + [Int(0), Int(0), Int(0)];
  }

  /**
   * The one program header of a built file: a loadable segment behind both headers, readable,
   * writable and executable, at the load address and of the payload's size, in either class.
   */
  lemma {:induction false} PhdrSays(payload: seq<byte>, dest: int, is64: bool) returns (p: seq<Value>)
    ensures |p| == 8
    ensures p[0] == Int(1)
    ensures p[if is64 then 1 else 6] == Int(7)
    ensures p[if is64 then 2 else 1] == Int(if is64 then 120 else 84)
    ensures is64 ==> p[3] == p[4] == Int(dest % 0x1_0000_0000_0000_0000)
    ensures is64 ==> p[5] == p[6] == Int(|payload| % 0x1_0000_0000_0000_0000)
    ensures !is64 ==> p[2] == p[3] == Int(dest % 0x1_0000_0000)
    ensures !is64 ==> p[4] == p[5] == Int(|payload| % 0x1_0000_0000)
    ensures p[7] == Int(0x1000)
    ensures var view := ElfView(HeaderBytes(dest, |payload|, is64) + payload);
            view.Some? && view.value.programHeaders == [p]
  {
    ElfReadBack(payload, dest, is64);
    p := SeenAll(PhdrFields(dest, |payload|, is64));
    if is64 {
      Phdr64In(dest, |payload|, p);
    } else {
      Phdr32In(dest, |payload|, p);
    }
  }

  /** Entry k of a table of program headers. */
  function EntryAt(data: seq<byte>, pos: nat, k: nat, entry: nat, format: seq<Code>): Option<seq<Value>>
    decreases k
  {
    if k == 0 then Unpack(format, Slice(data, pos, entry)) else EntryAt(data, pos + entry, k - 1, entry, format)
  }

  lemma {:induction false} OneMore(k: nat, entry: nat)
    requires k > 0
    ensures k * entry == entry + (k - 1) * entry
  {
  }

  lemma {:induction false} EntryOffset(data: seq<byte>, pos: nat, k: nat, entry: nat, format: seq<Code>, at: nat)
    requires at == pos + k * entry
    ensures EntryAt(data, pos, k, entry, format) == Unpack(format, Slice(data, at, entry))
    decreases k
  {
    if k > 0 {
      OneMore(k, entry);
      EntryOffset(data, pos + entry, k - 1, entry, format, at);
    }
  }

  lemma {:induction false} PhdrsStep(data: seq<byte>, pos: nat, count: nat, entry: nat, format: seq<Code>,
                                     phdrs: seq<seq<Value>>)
    requires count > 0 && PhdrsAt(data, pos, count, entry, format) == Some(phdrs)
    ensures phdrs != [] && Unpack(format, Slice(data, pos, entry)) == Some(phdrs[0])
    ensures PhdrsAt(data, pos + entry, count - 1, entry, format) == Some(phdrs[1..])
  {
    var rest := PhdrsAt(data, pos + entry, count - 1, entry, format);
    assert rest.Some? && phdrs[1..] == rest.value;
  }

  /** A reader that succeeds returns all entries, and entry k is the one at its offset in the table. */
  lemma {:induction false} PhdrFound(data: seq<byte>, pos: nat, count: nat, entry: nat, format: seq<Code>,
                                     phdrs: seq<seq<Value>>, k: nat)
    requires PhdrsAt(data, pos, count, entry, format) == Some(phdrs) && k < count
    ensures k < |phdrs| && EntryAt(data, pos, k, entry, format) == Some(phdrs[k])
    decreases count
  {
    PhdrsStep(data, pos, count, entry, format, phdrs);
    if k > 0 {
      PhdrFound(data, pos + entry, count - 1, entry, format, phdrs[1..], k - 1);
    }
  }

  lemma {:induction false} PhdrCount(data: seq<byte>, pos: nat, count: nat, entry: nat, format: seq<Code>,
                                     phdrs: seq<seq<Value>>)
    requires PhdrsAt(data, pos, count, entry, format) == Some(phdrs)
    ensures |phdrs| == count
    decreases count
  {
    if count > 0 {
      PhdrsStep(data, pos, count, entry, format, phdrs);
      PhdrCount(data, pos + entry, count - 1, entry, format, phdrs[1..]);
    }
  }

  /** A reader that fails met an entry that does not unpack. */
  lemma {:induction false} PhdrMissing(data: seq<byte>, pos: nat, count: nat, entry: nat, format: seq<Code>)
    returns (k: nat)
    requires PhdrsAt(data, pos, count, entry, format).None?
    ensures k < count && EntryAt(data, pos, k, entry, format).None?
    decreases count
  {
    k := 0;
    if EntryAt(data, pos, 0, entry, format).Some? {
      var j := PhdrMissing(data, pos + entry, count - 1, entry, format);
      k := j + 1;
    }
  }

  /**
   * Any file the reader accepts: class byte 2 selects the 64-bit structs and any other the 32-bit
   * ones; the header stands at the front, and its e_phoff, e_phentsize and e_phnum place the table.
   */
  lemma {:induction false} ViewExactly(data: seq<byte>, f: ElfFile)
    requires ElfView(data) == Some(f)
    ensures |data| > 4 && |f.header| == 14
    ensures var is64 := data[4] == 2;
            && Unpack(if is64 then EHDR64 else EHDR32, Slice(data, 0, if is64 then 64 else 52)) == Some(f.header)
            && PhdrsAt(data, Number(f.header[5]), Number(f.header[10]), Number(f.header[9]),
                       if is64 then PHDR64 else PHDR32) == Some(f.programHeaders)
  {
  }

  /** Program header k of an accepted file is the one at position e_phoff plus k times e_phentsize. */
  lemma {:induction false} PhdrExactly(data: seq<byte>, f: ElfFile, off: nat, entry: nat, k: nat, pos: nat)
    requires ElfView(data) == Some(f) && |f.header| == 14
    requires off == Number(f.header[5]) && entry == Number(f.header[9]) && pos == off + k * entry
    ensures |data| > 4 && |f.programHeaders| == Number(f.header[10])
    ensures k < |f.programHeaders| ==>
      Unpack(if data[4] == 2 then PHDR64 else PHDR32, Slice(data, pos, entry)) == Some(f.programHeaders[k])
  {
    ViewExactly(data, f);
    var format, count := if data[4] == 2 then PHDR64 else PHDR32, Number(f.header[10]);
    PhdrCount(data, off, count, entry, format, f.programHeaders);
    if k < count {
      PhdrFound(data, off, count, entry, format, f.programHeaders, k);
      EntryOffset(data, off, k, entry, format, pos);
    }
  }
}
