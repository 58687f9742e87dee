/** What a written vendor boot image says, value by value in the order of the C struct. */
module VendorValues {
  import opened Bytes
  import opened Files
  import opened Pages
  import opened Struct
  import opened Wrappers
  import opened BootImage
  import opened BootValues
  import opened VendorTable
  import opened VendorBoot
  import opened VendorReader

  /** What a loader gets from the image of an accepted run. */
  function LoadedVendor(a: VendorArgs, entries: seq<Entry>, disk: Disk): VendorParsed
    requires a.pagesize > 0 && VendorOutcome(a, entries).Pass?
    requires a.headerVersion > 3 ==> TableOk(entries, disk)
  {
    VendorRoundTrip(a, entries, disk);
    ReadVendorBoot(VendorImage(a, entries, disk)).value
  }

  lemma {:induction false} VendorMagicSeen()
    ensures Seen(Field(Raw(8), Str(VENDOR_BOOT_MAGIC))) == Str(Ascii("VNDRBOOT"))
  {
    assert VENDOR_BOOT_MAGIC == Ascii("VNDRBOOT");
  }

  lemma {:induction false} CommonIn(a: VendorArgs, entries: seq<Entry>, h: seq<Value>)
    requires 3 <= a.headerVersion <= 4 && h == SeenAll(VendorFields(a, entries))
    ensures |h| == (if a.headerVersion == 3 then 12 else 16)
    ensures h[0] == Str(Ascii("VNDRBOOT"))
    ensures h[1] == Int(a.headerVersion)
    ensures h[2] == Int(a.pagesize)
    ensures h[3] == Int(a.base + a.kernelOffset)
    ensures h[4] == Int(a.base + a.ramdiskOffset)
    ensures h[5] == Int(if a.headerVersion == 3 then FileSize(a.vendorRamdisk) else TotalSize(entries))
    ensures h[6] == Str(Fit(a.vendorCmdline, 2048))
    ensures h[7] == Int(a.base + a.tagsOffset)
    ensures h[8] == Str(Fit(a.board, 16))
    ensures h[9] == Int(if a.headerVersion == 3 then 2112 else 2128)
    ensures h[10] == Int(FileSize(a.dtb))
    ensures h[11] == Int(a.base + a.dtbOffset)
  {
    SeenConcat(VendorCommon(a, entries), VendorExtra(a, entries));
    VendorMagicSeen();
  }

  lemma {:induction false} ExtraIn(a: VendorArgs, entries: seq<Entry>, h: seq<Value>)
    requires a.headerVersion == 4 && h == SeenAll(VendorFields(a, entries))
    ensures |h| == 16
    ensures h[12] == Int(108 * |entries|)
    ensures h[13] == Int(|entries|)
    ensures h[14] == Int(108)
    ensures h[15] == Int(FileSize(a.bootconfig))
  {
    SeenConcat(VendorCommon(a, entries), VendorExtra(a, entries));
  }

  /** The vendor header as a loader reads it from the image. */
  lemma {:induction false} VendorHeaderSays(a: VendorArgs, entries: seq<Entry>, disk: Disk) returns (h: seq<Value>)
    requires a.pagesize > 0 && VendorOutcome(a, entries).Pass?
    requires a.headerVersion > 3 ==> TableOk(entries, disk)
    ensures |h| == (if a.headerVersion == 3 then 12 else 16)
    ensures h[0] == Str(Ascii("VNDRBOOT"))
    ensures h[1] == Int(a.headerVersion)
    ensures h[2] == Int(a.pagesize)
    ensures h[3] == Int(a.base + a.kernelOffset)
    ensures h[4] == Int(a.base + a.ramdiskOffset)
    ensures h[5] == Int(if a.headerVersion == 3 then FileSize(a.vendorRamdisk) else TotalSize(entries))
    ensures h[6] == Str(Fit(a.vendorCmdline, 2048))
    ensures h[7] == Int(a.base + a.tagsOffset)
    ensures h[8] == Str(Fit(a.board, 16))
    ensures h[9] == Int(if a.headerVersion == 3 then 2112 else 2128)
    ensures h[10] == Int(FileSize(a.dtb))
    ensures h[11] == Int(a.base + a.dtbOffset)
    ensures a.headerVersion == 4 ==> h[12] == Int(108 * |entries|) && h[13] == Int(|entries|)
    ensures a.headerVersion == 4 ==> h[14] == Int(108) && h[15] == Int(FileSize(a.bootconfig))
    ensures h == LoadedVendor(a, entries, disk).header
  {
    VendorRoundTrip(a, entries, disk);
    h := LoadedVendor(a, entries, disk).header;
    CommonIn(a, entries, h);
    if a.headerVersion == 4 {
      ExtraIn(a, entries, h);
    }
  }

  /** The sections as a loader cuts them out of the image. */
  lemma {:induction false} VendorSectionsSay(a: VendorArgs, entries: seq<Entry>, disk: Disk)
    requires a.pagesize > 0 && VendorOutcome(a, entries).Pass?
    requires a.headerVersion > 3 ==> TableOk(entries, disk)
    ensures var s := LoadedVendor(a, entries, disk).sections;
            if a.headerVersion == 3 then s == [Content(a.vendorRamdisk), Content(a.dtb)]
            else |s| == 4 && s[1] == Content(a.dtb) && s[3] == Content(a.bootconfig)
                 && |s[0]| == TotalSize(entries) && |s[2]| == 108 * |entries|
  {
    VendorRoundTrip(a, entries, disk);
    if a.headerVersion == 4 {
      RamdisksLength(entries, disk, |entries|);
      TableLength(entries, |entries|);
    }
  }

  lemma {:induction false} RecordIn(e: Entry, record: seq<Value>)
    requires record == SeenAll(EntryFields(e)) && BoardIdOk(e.boardId)
    ensures |record| == 20
    ensures record[0] == Int(e.size) && record[1] == Int(e.offset) && record[2] == Int(e.ramdiskType)
    ensures record[3] == Str(Fit(e.name, 32))
    ensures forall j :: 0 <= j < 16 ==> record[4 + j] == Int(e.boardId[j])
  {
    forall j | 0 <= j < 16
      ensures record[4 + j] == Int(e.boardId[j])
    {
      assert EntryFields(e)[4 + j] == Num(e.boardId[j]);
    }
  }

  /** Record k of a written version 4 image, value by value, with the ramdisk it leads to. */
  lemma {:induction false} RecordSays(a: VendorArgs, entries: seq<Entry>, disk: Disk, k: nat)
    requires a.pagesize > 0 && a.headerVersion > 3 && VendorOutcome(a, entries).Pass?
    requires TableOk(entries, disk) && k < |entries|
    ensures var found := ReadRamdisk(LoadedVendor(a, entries, disk).sections, k);
            && found.Some?
            && var (ramdisk, record) := found.value;
            && ramdisk == disk[entries[k].path]
            && |record| == 20
            && record[0] == Int(|ramdisk|)
            && record[1] == Int(SizeBefore(entries, k))
            && record[2] == Int(entries[k].ramdiskType)
            && record[3] == Str(Fit(entries[k].name, 32))
            && (forall j :: 0 <= j < 16 ==> record[4 + j] == Int(entries[k].boardId[j]))
  {
    RamdiskRecovered(a, entries, disk, k);
    RecordIn(entries[k], SeenAll(EntryFields(entries[k])));
  }

  lemma {:induction false} VendorPacks(a: VendorArgs, entries: seq<Entry>)
    requires 3 <= a.headerVersion <= 4
    ensures AllPackable(VendorFields(a, entries)) <==>
      && Word(a.pagesize) && Word(a.base + a.kernelOffset) && Word(a.base + a.ramdiskOffset)
      && Word(if a.headerVersion == 3 then FileSize(a.vendorRamdisk) else TotalSize(entries))
      && Word(a.base + a.tagsOffset) && Word(FileSize(a.dtb)) && DoubleWord(a.base + a.dtbOffset)
      && (a.headerVersion == 4 ==> Word(108 * |entries|) && Word(FileSize(a.bootconfig)))
  {
    var fs, more := VendorCommon(a, entries), VendorExtra(a, entries);
    PackableConcat(fs, more);
    forall i: int
      ensures Packable(Num(i)) <==> Word(i)
    {
      Packs(i, [], 0);
    }
    Packs(a.base + a.dtbOffset, [], 0);
    if AllPackable(fs) {
      assert Packable(fs[2]) && Packable(fs[3]) && Packable(fs[4]) && Packable(fs[5]);
      assert Packable(fs[7]) && Packable(fs[10]) && Packable(fs[11]);
    }
    if a.headerVersion == 4 {
      assert AllPackable(more) <==> Packable(more[0]) && Packable(more[1]) && Packable(more[2]) && Packable(more[3]);
    }
  }

  lemma {:induction false} EntryPacks(e: Entry)
    requires BoardIdOk(e.boardId)
    ensures AllPackable(EntryFields(e)) <==> Word(e.size) && Word(e.offset) && Word(e.ramdiskType)
  {
    var fs := EntryFields(e);
    forall i: int
      ensures Packable(Num(i)) <==> Word(i)
    {
      Packs(i, [], 0);
    }
    assert Pow256(4) == 0x1_0000_0000;
    assert Packable(fs[0]) <==> Word(e.size);
    assert Packable(fs[1]) <==> Word(e.offset);
    assert Packable(fs[2]) <==> Word(e.ramdiskType);
    assert Packable(fs[3]);
    forall i | 4 <= i < |fs|
      ensures Packable(fs[i])
    {
      assert fs[i] == Num(e.boardId[i - 4]);
    }
  }

  predicate RecordsFit(entries: seq<Entry>) {
    forall k :: 0 <= k < |entries| ==>
      Word(entries[k].size) && Word(entries[k].offset) && Word(entries[k].ramdiskType)
  }

  /** For each set of arguments and each reachable table: whether the run passes, or how it fails. */
  lemma {:induction false} VendorEndsExactly(a: VendorArgs, entries: seq<Entry>)
    requires BoardIdsOk(entries)
    ensures VendorOutcome(a, entries) ==
      if a.headerVersion != 3 && a.headerVersion != 4 then Fail(VendorVersion)
      else if a.headerVersion == 3 && a.vendorRamdisk == null then Fail(VendorRamdiskMissing)
      else if a.dtb == null || a.dtb.content == [] then Fail(EmptyDtb)
      else if !Word(a.pagesize) || !Word(a.base + a.kernelOffset) || !Word(a.base + a.ramdiskOffset)
        || !Word(if a.headerVersion == 3 then FileSize(a.vendorRamdisk) else TotalSize(entries))
        || !Word(a.base + a.tagsOffset) || !Word(FileSize(a.dtb)) || !DoubleWord(a.base + a.dtbOffset)
        || (a.headerVersion == 4 && !(Word(108 * |entries|) && Word(FileSize(a.bootconfig))))
        || (a.headerVersion == 4 && !RecordsFit(entries))
      then Fail(StructError)
      else Pass
  {
    if 3 <= a.headerVersion <= 4 {
      VendorPacks(a, entries);
    }
    forall k | 0 <= k < |entries|
      ensures AllPackable(EntryFields(entries[k])) <==>
        Word(entries[k].size) && Word(entries[k].offset) && Word(entries[k].ramdiskType)
    {
      EntryPacks(entries[k]);
    }
  }
}
