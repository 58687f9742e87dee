/** A boot loader's view of a vendor boot image, and what it recovers from a written one. */
module VendorReader {
  import opened Arith
  import opened Bytes
  import opened Files
  import opened Pages
  import opened Struct
  import opened Wrappers
  import opened BootImage
  import opened BootReader
  import opened VendorTable
  import opened VendorBoot

  /** struct vendor_boot_img_hdr_v3. */
  const VENDOR_BOOT_IMG_HDR_V3: seq<Code> :=
    [Raw(8), U32, U32, U32, U32, U32, Raw(2048), U32, Raw(16), U32, U32, U64]

  /** What version 4 adds: table size, entry number, entry size and bootconfig size. */
  const VENDOR_BOOT_IMG_HDR_V4: seq<Code> := [U32, U32, U32, U32]

  function EntryFormat(): seq<Code> {
    [U32, U32, U32, Raw(32)] + Times(U32, VENDOR_RAMDISK_TABLE_ENTRY_BOARD_ID_SIZE)
  }

  datatype VendorParsed = VendorParsed(header: seq<Value>, sections: seq<seq<byte>>)

  function VendorFormat(version: nat): seq<Code> {
    VENDOR_BOOT_IMG_HDR_V3 + (if version >= 4 then VENDOR_BOOT_IMG_HDR_V4 else [])
  }

  function VendorSizes(version: nat, h: seq<Value>): seq<nat>
    requires |h| == |VendorFormat(version)|
  {
    [Number(h[5]), Number(h[10])] + (if version >= 4 then [Number(h[12]), Number(h[15])] else [])
  }

  /** The header may take more than one page; the sections follow it page by page. */
  function ReadSections(img: seq<byte>, version: nat): Option<VendorParsed> {
    var format := VendorFormat(version);
    if |img| < CalcSize(format) then None
    else
      var h := UnpackAll(format, img[..CalcSize(format)]);
      var p := Number(h[2]);
      if p == 0 then None
      else Some(VendorParsed(h, Extract(img, RoundUp(CalcSize(format), p), VendorSizes(version, h), p)))
  }

  function ReadVendorBoot(img: seq<byte>): Option<VendorParsed> {
    var n := CalcSize(VENDOR_BOOT_IMG_HDR_V3);
    if |img| < n then None
    else ReadSections(img, Number(UnpackAll(VENDOR_BOOT_IMG_HDR_V3, img[..n])[1]))
  }

  /** A record of the table, by its index. */
  function ReadEntry(table: seq<byte>, k: nat): Option<seq<Value>> {
    Unpack(EntryFormat(), Slice(table, k * VENDOR_RAMDISK_TABLE_ENTRY_V4_SIZE, VENDOR_RAMDISK_TABLE_ENTRY_V4_SIZE))
  }

  /** The bytes of ramdisk k and its record, from the first section and the table. */
  function ReadRamdisk(sections: seq<seq<byte>>, k: nat): Option<(seq<byte>, seq<Value>)> {
    if |sections| < 4 then None
    else
      match ReadEntry(sections[2], k)
      case None => None
      case Some(record) =>
        if |record| < 2 then None
        else Some((Slice(sections[0], Number(record[1]), Number(record[0])), record))
  }

  lemma {:induction false} VendorV3Size()
    ensures CalcSize(VENDOR_BOOT_IMG_HDR_V3) == VENDOR_BOOT_IMAGE_HEADER_V3_SIZE
  {
    SuffixSizes(VENDOR_BOOT_IMG_HDR_V3);
  }

  /** The loader's structs have the sizes the writer records. */
  lemma {:induction false} VendorHeaderSize(version: nat)
    requires 3 <= version <= 4
    ensures CalcSize(VendorFormat(version)) ==
            if version == 4 then VENDOR_BOOT_IMAGE_HEADER_V4_SIZE else VENDOR_BOOT_IMAGE_HEADER_V3_SIZE
  {
    VendorV3Size();
    var extra := if version >= 4 then VENDOR_BOOT_IMG_HDR_V4 else [];
    SuffixSizes(VENDOR_BOOT_IMG_HDR_V4);
    CalcSizeConcat(VENDOR_BOOT_IMG_HDR_V3, extra);
  }

  lemma {:induction false} EntrySize()
    ensures CalcSize(EntryFormat()) == VENDOR_RAMDISK_TABLE_ENTRY_V4_SIZE
  {
    var head := [U32, U32, U32, Raw(32)];
    SuffixSizes(head);
    TimesSize(U32, 16);
    CalcSizeConcat(head, Times(U32, VENDOR_RAMDISK_TABLE_ENTRY_BOARD_ID_SIZE));
  }

  lemma {:induction false} EntryRoundTrip(e: Entry)
    requires BoardIdOk(e.boardId) && AllPackable(EntryFields(e))
    ensures |PackAll(EntryFields(e))| == VENDOR_RAMDISK_TABLE_ENTRY_V4_SIZE
    ensures Unpack(EntryFormat(), PackAll(EntryFields(e))) == Some(SeenAll(EntryFields(e)))
  {
    assert Codes(EntryFields(e)) == EntryFormat();
    UnpackPackAll(EntryFields(e));
    EntrySize();
  }

  lemma {:induction false} TableLength(entries: seq<Entry>, k: nat)
    requires EntriesPackable(entries) && BoardIdsOk(entries) && k <= |entries|
    ensures |TableBefore(entries, k)| == k * VENDOR_RAMDISK_TABLE_ENTRY_V4_SIZE
  {
    if k > 0 {
      TableLength(entries, k - 1);
      EntryRoundTrip(entries[k - 1]);
    }
  }

  /** Cutting the table into records gives back the entries. */
  lemma {:induction false} EntryRead(entries: seq<Entry>, k: nat, m: nat)
    requires EntriesPackable(entries) && BoardIdsOk(entries) && k < m <= |entries|
    ensures ReadEntry(TableBefore(entries, m), k) == Some(SeenAll(EntryFields(entries[k])))
    decreases m
  {
    TableLength(entries, m - 1);
    EntryRoundTrip(entries[m - 1]);
    var lo, size := k * VENDOR_RAMDISK_TABLE_ENTRY_V4_SIZE, VENDOR_RAMDISK_TABLE_ENTRY_V4_SIZE;
    var front, last := TableBefore(entries, m - 1), PackAll(EntryFields(entries[m - 1]));
    if k < m - 1 {
      EntryRead(entries, k, m - 1);
      SliceFront(front, last, lo, size);
    } else {
      SliceBack(front, last);
    }
  }

  lemma {:induction false} SliceFront(front: seq<byte>, last: seq<byte>, lo: nat, size: nat)
    requires lo + size <= |front|
    ensures Slice(front + last, lo, size) == Slice(front, lo, size)
  {
  }

  lemma {:induction false} SliceBack(front: seq<byte>, last: seq<byte>)
    ensures Slice(front + last, |front|, |last|) == last
  {
  }

  lemma {:induction false} VendorCodes(a: VendorArgs, entries: seq<Entry>)
    requires 3 <= a.headerVersion <= 4
    ensures Codes(VendorCommon(a, entries)) == VENDOR_BOOT_IMG_HDR_V3
    ensures Codes(VendorFields(a, entries)) == VendorFormat(a.headerVersion)
  {
    assert Codes(VendorFields(a, entries)) == Codes(VendorCommon(a, entries)) + Codes(VendorExtra(a, entries));
  }

  lemma {:induction false} VendorVersionRead(a: VendorArgs, entries: seq<Entry>, img: seq<byte>)
    requires 3 <= a.headerVersion <= 4 && AllPackable(VendorFields(a, entries))
    requires PackAll(VendorFields(a, entries)) <= img
    ensures ReadVendorBoot(img) == ReadSections(img, a.headerVersion)
  {
    var xs, ys := VendorCommon(a, entries), VendorExtra(a, entries);
    FrontPackable(xs, ys);
    PackAllConcat(xs, ys);
    VendorCodes(a, entries);
    HeaderSeen(img, xs, VENDOR_BOOT_IMG_HDR_V3);
    assert SeenAll(xs)[1] == Seen(xs[1]);
  }

  lemma {:induction false} FrontPackable(xs: seq<Field>, ys: seq<Field>)
    requires AllPackable(xs + ys)
    ensures AllPackable(xs) && AllPackable(ys)
  {
    assert forall i :: 0 <= i < |xs| ==> (xs + ys)[i] == xs[i];
    assert forall i :: 0 <= i < |ys| ==> (xs + ys)[|xs| + i] == ys[i];
  }

  lemma {:induction false} VendorSizesMatch(a: VendorArgs, entries: seq<Entry>, disk: Disk)
    requires 3 <= a.headerVersion <= 4
    requires a.headerVersion > 3 ==> TableOk(entries, disk) && EntriesPackable(entries)
    ensures Sizes(VendorSections(a, entries, disk))
         == VendorSizes(a.headerVersion, SeenAll(VendorFields(a, entries)))
    ensures Number(SeenAll(VendorFields(a, entries))[2]) == a.pagesize
  {
    var fs := VendorFields(a, entries);
    var xs := VendorCommon(a, entries);
    assert fs[2] == xs[2] && fs[5] == xs[5] && fs[10] == xs[10];
    if a.headerVersion > 3 {
      assert fs[12] == VendorExtra(a, entries)[0] && fs[15] == VendorExtra(a, entries)[3];
      RamdisksLength(entries, disk, |entries|);
      TableLength(entries, |entries|);
    }
  }

  /** Given the header values, the sections are cut where they were written. */
  lemma {:induction false} VendorCuts(a: VendorArgs, h: seq<Value>, sections: seq<seq<byte>>, img: seq<byte>)
    requires 3 <= a.headerVersion <= 4 && a.pagesize > 0
    requires CalcSize(VendorFormat(a.headerVersion)) <= |img| && |h| == |VendorFormat(a.headerVersion)|
    requires UnpackAll(VendorFormat(a.headerVersion), img[..CalcSize(VendorFormat(a.headerVersion))]) == h
    requires Number(h[2]) == a.pagesize
    requires Extract(img, RoundUp(CalcSize(VendorFormat(a.headerVersion)), a.pagesize),
                     VendorSizes(a.headerVersion, h), a.pagesize) == sections
    ensures ReadSections(img, a.headerVersion) == Some(VendorParsed(h, sections))
  {
  }

  lemma {:induction false} VendorSectionsFound(fs: seq<Field>, sections: seq<seq<byte>>, p: nat, img: seq<byte>)
    requires p > 0 && AllPackable(fs) && img == AppendAll(PadTo(PackAll(fs), p), sections, p)
    ensures PackAll(fs) <= img
    ensures Extract(img, RoundUp(CalcSize(Codes(fs)), p), Sizes(sections), p) == sections
  {
    var header := PadTo(PackAll(fs), p);
    assert PackAll(fs) <= header <= img;
    UnpackPackAll(fs);
    RoundUpBounds(|PackAll(fs)|, p);
    ExtractAppendAll(header, sections, p);
  }

  /** Vendor boot round trip: header fields and every section, for any ramdisk table. */
  lemma {:induction false} VendorRoundTrip(a: VendorArgs, entries: seq<Entry>, disk: Disk)
    requires a.pagesize > 0 && VendorOutcome(a, entries).Pass?
    requires a.headerVersion > 3 ==> TableOk(entries, disk)
    ensures ReadVendorBoot(VendorImage(a, entries, disk))
         == Some(VendorParsed(SeenAll(VendorFields(a, entries)), VendorSections(a, entries, disk)))
  {
    var fs, sections := VendorFields(a, entries), VendorSections(a, entries, disk);
    var img := VendorImage(a, entries, disk);
    VendorSectionsFound(fs, sections, a.pagesize, img);
    VendorVersionRead(a, entries, img);
    VendorCodes(a, entries);
    HeaderSeen(img, fs, VendorFormat(a.headerVersion));
    VendorSizesMatch(a, entries, disk);
    VendorCuts(a, SeenAll(fs), sections, img);
  }

  lemma {:induction false} EntryNumbers(e: Entry)
    ensures Number(SeenAll(EntryFields(e))[0]) == e.size
    ensures Number(SeenAll(EntryFields(e))[1]) == e.offset
  {
    assert EntryFields(e)[0] == Num(e.size) && EntryFields(e)[1] == Num(e.offset);
  }

  lemma {:induction false} RecordLeads(sections: seq<seq<byte>>, k: nat, record: seq<Value>, ramdisk: seq<byte>)
    requires |sections| == 4 && |record| >= 2 && ReadEntry(sections[2], k) == Some(record)
    requires Slice(sections[0], Number(record[1]), Number(record[0])) == ramdisk
    ensures ReadRamdisk(sections, k) == Some((ramdisk, record))
  {
  }

  /** Record k of the table section leads to ramdisk k, whole, and carries its fields. */
  lemma {:induction false} RamdiskInSections(a: VendorArgs, entries: seq<Entry>, disk: Disk, k: nat)
    requires a.headerVersion > 3 && TableOk(entries, disk) && EntriesPackable(entries) && k < |entries|
    ensures ReadRamdisk(VendorSections(a, entries, disk), k)
         == Some((disk[entries[k].path], SeenAll(EntryFields(entries[k]))))
  {
    EntryRead(entries, k, |entries|);
    RamdiskAt(entries, disk, k);
    EntryNumbers(entries[k]);
    RecordLeads(VendorSections(a, entries, disk), k, SeenAll(EntryFields(entries[k])), disk[entries[k].path]);
  }

  /** From a written image of version 4, record k leads the loader to ramdisk k. */
  lemma {:induction false} RamdiskRecovered(a: VendorArgs, entries: seq<Entry>, disk: Disk, k: nat)
    requires a.pagesize > 0 && a.headerVersion > 3 && VendorOutcome(a, entries).Pass?
    requires TableOk(entries, disk) && k < |entries|
    ensures var parsed := ReadVendorBoot(VendorImage(a, entries, disk));
            && parsed.Some?
            && ReadRamdisk(parsed.value.sections, k)
               == Some((disk[entries[k].path], SeenAll(EntryFields(entries[k]))))
  {
    VendorRoundTrip(a, entries, disk);
    RamdiskInSections(a, entries, disk, k);
  }
}
