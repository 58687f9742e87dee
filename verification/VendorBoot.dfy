/** The vendor boot image writer. */
module VendorBoot {
  import opened Arith
  import opened Bytes
  import opened Files
  import opened Pages
  import opened Struct
  import opened Wrappers
  import opened BootImage
  import opened BootReader
  import opened VendorTable

  const VENDOR_BOOT_MAGIC: seq<byte> := [86, 78, 68, 82, 66, 79, 79, 84]  // VNDRBOOT
  const VENDOR_BOOT_ARGS_SIZE := 2048
  const VENDOR_BOOT_IMAGE_HEADER_V3_SIZE := 2112
  const VENDOR_BOOT_IMAGE_HEADER_V4_SIZE := 2128

  /** Parsed arguments; before version 4 `vendorRamdisk` is the only ramdisk. */
  datatype VendorArgs = VendorArgs(
    headerVersion: int, pagesize: nat, base: int,
    kernelOffset: int, ramdiskOffset: int, tagsOffset: int, dtbOffset: int,
    vendorCmdline: seq<byte>, board: seq<byte>,
    vendorRamdisk: InputFile?, dtb: InputFile?, bootconfig: InputFile?)

  predicate VendorFilesReady(a: VendorArgs)
    reads a.vendorRamdisk, a.dtb, a.bootconfig
  {
    && (a.vendorRamdisk != null ==> a.vendorRamdisk.pos == 0)
    && (a.dtb != null ==> a.dtb.pos == 0)
    && (a.bootconfig != null ==> a.bootconfig.pos == 0)
    && Different(a.vendorRamdisk, a.dtb) && Different(a.vendorRamdisk, a.bootconfig)
    && Different(a.dtb, a.bootconfig)
  }

  function VendorCommon(a: VendorArgs, entries: seq<Entry>): (fs: seq<Field>)
    ensures |fs| == 12
  {
    [Field(Raw(8), Str(VENDOR_BOOT_MAGIC)),
     Num(a.headerVersion),
     Num(a.pagesize),
     Num(a.base + a.kernelOffset),
     Num(a.base + a.ramdiskOffset),
     Num(if a.headerVersion > 3 then TotalSize(entries) else FileSize(a.vendorRamdisk)),
     Field(Raw(VENDOR_BOOT_ARGS_SIZE), Str(a.vendorCmdline)),
     Num(a.base + a.tagsOffset),
     Field(Raw(BOOT_NAME_SIZE), Str(a.board)),
     Num(if a.headerVersion > 3 then VENDOR_BOOT_IMAGE_HEADER_V4_SIZE else VENDOR_BOOT_IMAGE_HEADER_V3_SIZE),
     Num(FileSize(a.dtb)),
     Field(U64, Int(a.base + a.dtbOffset))]
  }

  function VendorExtra(a: VendorArgs, entries: seq<Entry>): seq<Field> {
    if a.headerVersion > 3 then
      [Num(|entries| * VENDOR_RAMDISK_TABLE_ENTRY_V4_SIZE),
       Num(|entries|),
       Num(VENDOR_RAMDISK_TABLE_ENTRY_V4_SIZE),
       Num(FileSize(a.bootconfig))]
    else []
  }

  function VendorFields(a: VendorArgs, entries: seq<Entry>): seq<Field> {
    VendorCommon(a, entries) + VendorExtra(a, entries)
  }

  /** One table record: size, offset, type, name and the 16 board id words. */
  function EntryFields(e: Entry): (fs: seq<Field>)
    ensures |fs| == 4 + |e.boardId|
  {
    [Num(e.size), Num(e.offset), Num(e.ramdiskType), Field(Raw(VENDOR_RAMDISK_NAME_SIZE), Str(e.name))]
    + seq(|e.boardId|, i requires 0 <= i < |e.boardId| => Num(e.boardId[i]))
  }

  predicate EntriesPackable(entries: seq<Entry>) {
    forall i :: 0 <= i < |entries| ==> AllPackable(EntryFields(entries[i]))
  }

  /** The first k records of the table section. */
  function TableBefore(entries: seq<Entry>, k: nat): seq<byte>
    requires EntriesPackable(entries) && k <= |entries|
  {
    if k == 0 then [] else TableBefore(entries, k - 1) + PackAll(EntryFields(entries[k - 1]))
  }

  function Table(entries: seq<Entry>): seq<byte>
    requires EntriesPackable(entries)
  {
    TableBefore(entries, |entries|)
  }

  function VendorSections(a: VendorArgs, entries: seq<Entry>, disk: Disk): seq<seq<byte>>
    requires a.headerVersion > 3 ==> OnDisk(entries, disk) && EntriesPackable(entries)
  {
    if a.headerVersion > 3 then
      [Ramdisks(entries, disk), Content(a.dtb), Table(entries), Content(a.bootconfig)]
    else
      [Content(a.vendorRamdisk), Content(a.dtb)]
  }

  function VendorHeaderOutcome(a: VendorArgs, entries: seq<Entry>): Outcome<Error> {
    if FileSize(a.dtb) == 0 then Fail(EmptyDtb)
    else if AllPackable(VendorFields(a, entries)) then Pass
    else Fail(StructError)
  }

  function VendorOutcome(a: VendorArgs, entries: seq<Entry>): Outcome<Error> {
    if a.headerVersion !in {3, 4} then Fail(VendorVersion)
    else if a.headerVersion == 3 && a.vendorRamdisk == null then Fail(VendorRamdiskMissing)
    else if VendorHeaderOutcome(a, entries).Fail? then VendorHeaderOutcome(a, entries)
    else if a.headerVersion == 4 && !EntriesPackable(entries) then Fail(StructError)
    else Pass
  }

  function VendorImage(a: VendorArgs, entries: seq<Entry>, disk: Disk): seq<byte>
    requires a.pagesize > 0 && VendorOutcome(a, entries).Pass?
    requires a.headerVersion > 3 ==> OnDisk(entries, disk)
  {
    AppendAll(PadTo(PackAll(VendorFields(a, entries)), a.pagesize), VendorSections(a, entries, disk), a.pagesize)
  }

  method WriteVendorBootHeader(a: VendorArgs, entries: seq<Entry>, output: OutputFile) returns (r: Outcome<Error>)
    requires PageSizeChoice(a.pagesize) && output.data == []
    modifies output
    ensures r == VendorHeaderOutcome(a, entries)
    ensures r.Pass? ==> output.data == PadTo(PackAll(VendorFields(a, entries)), a.pagesize)
  {
    if FileSize(a.dtb) == 0 {
      return Fail(EmptyDtb);
    }
    var fields := VendorHeaderFields(a, entries);
    :- WriteFields(output, fields);
    ChoicesArePowers(a.pagesize);
    PadFile(output, a.pagesize);
    return Pass;
  }

  /** The values in the order they are written. */
  method VendorHeaderFields(a: VendorArgs, entries: seq<Entry>) returns (fields: seq<Field>)
    ensures fields == VendorFields(a, entries)
  {
    var vendorRamdiskSize, headerSize := FileSize(a.vendorRamdisk), VENDOR_BOOT_IMAGE_HEADER_V3_SIZE;
    if a.headerVersion > 3 {
      vendorRamdiskSize, headerSize := TotalSize(entries), VENDOR_BOOT_IMAGE_HEADER_V4_SIZE;
    }
    fields :=
      [Field(Raw(8), Str(VENDOR_BOOT_MAGIC)), Num(a.headerVersion), Num(a.pagesize),
       Num(a.base + a.kernelOffset), Num(a.base + a.ramdiskOffset), Num(vendorRamdiskSize),
       Field(Raw(VENDOR_BOOT_ARGS_SIZE), Str(a.vendorCmdline)), Num(a.base + a.tagsOffset),
       Field(Raw(BOOT_NAME_SIZE), Str(a.board)), Num(headerSize),
       Num(FileSize(a.dtb)), Field(U64, Int(a.base + a.dtbOffset))];
    assert fields == VendorCommon(a, entries);
    if a.headerVersion > 3 {
      fields := fields +
        [Num(|entries| * VENDOR_RAMDISK_TABLE_ENTRY_V4_SIZE), Num(|entries|),
         Num(VENDOR_RAMDISK_TABLE_ENTRY_V4_SIZE), Num(FileSize(a.bootconfig))];
    }
  }

  method WriteRamdisksPadded(entries: seq<Entry>, disk: Disk, fout: OutputFile, alignment: nat)
    requires OnDisk(entries, disk) && IsPowerOfTwo(alignment)
    modifies fout
    ensures fout.data == PadTo(old(fout.data) + Ramdisks(entries, disk), alignment)
  {
    ghost var start := fout.data;
    for k := 0 to |entries|
      invariant fout.data == start + RamdisksBefore(entries, disk, k)
    {
      Associative(start, RamdisksBefore(entries, disk, k), disk[entries[k].path]);
      fout.Write(disk[entries[k].path]);
    }
    PadFile(fout, alignment);
  }

  method WriteEntriesPadded(entries: seq<Entry>, fout: OutputFile, alignment: nat) returns (r: Outcome<Error>)
    requires IsPowerOfTwo(alignment)
    modifies fout
    ensures r == if EntriesPackable(entries) then Pass else Fail(StructError)
    ensures r.Pass? ==> fout.data == PadTo(old(fout.data) + Table(entries), alignment)
  {
    ghost var start := fout.data;
    ghost var table := [];
    for k := 0 to |entries|
      invariant forall i :: 0 <= i < k ==> AllPackable(EntryFields(entries[i]))
      invariant fout.data == start + table
      invariant EntriesPackable(entries) ==> table == TableBefore(entries, k)
    {
      :- WriteFields(fout, EntryFields(entries[k]));
      Associative(start, table, PackAll(EntryFields(entries[k])));
      table := table + PackAll(EntryFields(entries[k]));
    }
    PadFile(fout, alignment);
    return Pass;
  }

  method WriteV3Data(a: VendorArgs, output: OutputFile)
    requires PageSizeChoice(a.pagesize) && |output.data| % a.pagesize == 0 && VendorFilesReady(a)
    modifies output, a.vendorRamdisk, a.dtb
    ensures output.data == AppendAll(old(output.data), [Content(a.vendorRamdisk), Content(a.dtb)], a.pagesize)
  {
    ChoicesArePowers(a.pagesize);
    ghost var start := output.data;
    WritePaddedFile(output, a.vendorRamdisk, a.pagesize, start, []);
    assert [] + [Content(a.vendorRamdisk)] == [Content(a.vendorRamdisk)];
    WritePaddedFile(output, a.dtb, a.pagesize, start, [Content(a.vendorRamdisk)]);
    assert [Content(a.vendorRamdisk)] + [Content(a.dtb)] == [Content(a.vendorRamdisk), Content(a.dtb)];
  }

  method WriteRamdisksAndDtb(a: VendorArgs, entries: seq<Entry>, disk: Disk, output: OutputFile)
    requires PageSizeChoice(a.pagesize) && |output.data| % a.pagesize == 0
    requires VendorFilesReady(a) && OnDisk(entries, disk)
    modifies output, a.dtb
    ensures output.data == AppendAll(old(output.data), [Ramdisks(entries, disk), Content(a.dtb)], a.pagesize)
  {
    ChoicesArePowers(a.pagesize);
    ghost var start, ramdisks := output.data, Ramdisks(entries, disk);
    AppendNext(start, [], ramdisks, a.pagesize);
    WriteRamdisksPadded(entries, disk, output, a.pagesize);
    assert [] + [ramdisks] == [ramdisks];
    WritePaddedFile(output, a.dtb, a.pagesize, start, [ramdisks]);
    assert [ramdisks] + [Content(a.dtb)] == [ramdisks, Content(a.dtb)];
  }

  method WriteTableAndConfig(a: VendorArgs, entries: seq<Entry>, output: OutputFile,
                             ghost start: seq<byte>, ghost done: seq<seq<byte>>)
    returns (r: Outcome<Error>)
    requires PageSizeChoice(a.pagesize) && |start| % a.pagesize == 0
    requires a.bootconfig != null ==> a.bootconfig.pos == 0
    requires output.data == AppendAll(start, done, a.pagesize)
    modifies output, a.bootconfig
    ensures r == if EntriesPackable(entries) then Pass else Fail(StructError)
    ensures r.Pass? ==>
      output.data == AppendAll(start, done + [Table(entries)] + [Content(a.bootconfig)], a.pagesize)
  {
    ChoicesArePowers(a.pagesize);
    :- WriteEntriesPadded(entries, output, a.pagesize);
    AppendNext(start, done, Table(entries), a.pagesize);
    WritePaddedFile(output, a.bootconfig, a.pagesize, start, done + [Table(entries)]);
    return Pass;
  }

  method WriteVendorBootData(a: VendorArgs, builder: VendorRamdiskTableBuilder, disk: Disk, output: OutputFile)
    returns (r: Outcome<Error>)
    requires PageSizeChoice(a.pagesize) && |output.data| % a.pagesize == 0
    requires VendorFilesReady(a) && builder.Valid(disk) && 3 <= a.headerVersion <= 4
    modifies output, a.vendorRamdisk, a.dtb, a.bootconfig
    ensures r == if a.headerVersion == 4 && !EntriesPackable(builder.entries) then Fail(StructError) else Pass
    ensures r.Pass? ==>
      output.data == AppendAll(old(output.data), VendorSections(a, builder.entries, disk), a.pagesize)
  {
    if a.headerVersion > 3 {
      ghost var start, entries := output.data, builder.entries;
      ghost var done := [Ramdisks(entries, disk), Content(a.dtb)];
      WriteRamdisksAndDtb(a, builder.entries, disk, output);
      r := WriteTableAndConfig(a, builder.entries, output, start, done);
      assert r.Pass? ==>
        VendorSections(a, entries, disk) == done + [Table(entries)] + [Content(a.bootconfig)];
    } else {
      WriteV3Data(a, output);
      r := Pass;
    }
  }

  /** The vendor boot part of main. */
  method WriteVendorBoot(a: VendorArgs, builder: VendorRamdiskTableBuilder, disk: Disk, output: OutputFile)
    returns (r: Outcome<Error>)
    requires PageSizeChoice(a.pagesize) && output.data == []
    requires VendorFilesReady(a) && builder.Valid(disk)
    modifies output, a.vendorRamdisk, a.dtb, a.bootconfig
    ensures r == VendorOutcome(a, builder.entries)
    ensures r.Pass? ==> output.data == VendorImage(a, builder.entries, disk)
  {
    if a.headerVersion !in {3, 4} {
      return Fail(VendorVersion);
    }
    if a.headerVersion == 3 && a.vendorRamdisk == null {
      return Fail(VendorRamdiskMissing);
    }
    :- WriteVendorBootHeader(a, builder.entries, output);
    RoundUpBounds(|PackAll(VendorFields(a, builder.entries))|, a.pagesize);
    r := WriteVendorBootData(a, builder, disk, output);
  }
}
