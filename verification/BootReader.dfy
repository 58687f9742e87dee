/** A boot loader's view of a boot image, and what it recovers from a written one. */
module BootReader {
  import opened Arith
  import opened Bytes
  import opened Files
  import opened ImageId
  import opened Pages
  import opened Struct
  import opened Wrappers
  import opened BootImage

  /** struct boot_img_hdr_v0; the id words are read as raw bytes. */
  const BOOT_IMG_HDR_V0: seq<Code> :=
    [Raw(8)] + Times(U32, 10) + [Raw(16), Raw(512), Raw(32), Raw(1024)]

  const BOOT_IMG_HDR_V1: seq<Code> := [U32, U64, U32]

  const BOOT_IMG_HDR_V2: seq<Code> := [U32, U64]

  const BOOT_IMG_HDR_V3: seq<Code> := [Raw(8)] + Times(U32, 9) + [Raw(1536)]

  /** Version 4 adds the size of the signature section. */
  const BOOT_IMG_HDR_V4: seq<Code> := [U32]

  function V3Format(version: nat): seq<Code> {
    BOOT_IMG_HDR_V3 + (if version >= 4 then BOOT_IMG_HDR_V4 else [])
  }

  function Extension(version: nat): seq<Code> {
    if version == 0 then []
    else if version == 1 then BOOT_IMG_HDR_V1
    else BOOT_IMG_HDR_V1 + BOOT_IMG_HDR_V2
  }

  function LegacyFormat(version: nat): seq<Code> {
    BOOT_IMG_HDR_V0 + Extension(version)
  }

  datatype Parsed = Parsed(
    header: seq<Value>, kernel: seq<byte>, ramdisk: seq<byte>, second: seq<byte>,
    recoveryDtbo: seq<byte>, dtb: seq<byte>, signature: seq<byte>)

  /** Sections follow the header in order; the recovery DTBO is found by its recorded offset. */
  function ReadLegacy(img: seq<byte>, version: nat): Option<Parsed> {
    var format := LegacyFormat(version);
    var n := CalcSize(format);
    if |img| < n then None
    else
      var h := UnpackAll(format, img[..n]);
      var p := Number(h[8]);
      if p == 0 then None
      else
        var sizes := [Number(h[1]), Number(h[3]), Number(h[5])]
          + (if version >= 1 then [Number(h[15])] else [])
          + (if version >= 2 then [Number(h[18])] else []);
        var sections := Extract(img, RoundUp(n, p), sizes, p);
        Some(Parsed(h, sections[0], sections[1], sections[2],
          if version >= 1 then Slice(img, Number(h[16]), Number(h[15])) else [],
          if version >= 2 then sections[4] else [],
          []))
  }

  function V3Sizes(version: nat, h: seq<Value>): seq<nat>
    requires |h| == |V3Format(version)|
  {
    [Number(h[1]), Number(h[2])] + (if version >= 4 then [Number(h[11])] else [])
  }

  /** From version 3 on the page size is fixed; kernel, ramdisk and in version 4 a signature are left. */
  function ReadV3(img: seq<byte>, version: nat): Option<Parsed> {
    var format := V3Format(version);
    var p := BOOT_IMAGE_HEADER_V3_PAGESIZE;
    if |img| < CalcSize(format) then None
    else
      var h := UnpackAll(format, img[..CalcSize(format)]);
      var sections := Extract(img, RoundUp(CalcSize(format), p), V3Sizes(version, h), p);
      Some(Parsed(h, sections[0], sections[1], [], [], [], if version >= 4 then sections[2] else []))
  }

  /** Both header layouts keep the version at byte 40. */
  function ReadBootImage(img: seq<byte>): Option<Parsed> {
    if |img| < 44 then None
    else
      var version := FromLittleEndian(img[40..44]);
      if version >= 3 then ReadV3(img, version) else ReadLegacy(img, version)
  }

  /** The version stands behind the magic and eight words, in both layouts. */
  lemma {:induction false} VersionOffset(rest: seq<Code>)
    ensures var cs := [Raw(8)] + Times(U32, 8) + rest;
            CalcSize(cs) == 40 + CalcSize(rest) && CalcSize(cs) - CalcSize(cs[9..]) == 40
  {
    var front := [Raw(8)] + Times(U32, 8);
    SingleSize(Raw(8));
    TimesSize(U32, 8);
    CalcSizeConcat([Raw(8)], Times(U32, 8));
    CalcSizeExtend(front, rest, 9);
  }

  lemma {:induction false} V0Sizes()
    ensures CalcSize(BOOT_IMG_HDR_V0) == 1632
    ensures CalcSize(BOOT_IMG_HDR_V0) - CalcSize(BOOT_IMG_HDR_V0[9..]) == 40
  {
    var strings := [Raw(16), Raw(512), Raw(32), Raw(1024)];
    VersionOffset(Times(U32, 2) + strings);
    TimesSize(U32, 2);
    SuffixSizes(strings);
    CalcSizeConcat(Times(U32, 2), strings);
    assert BOOT_IMG_HDR_V0 == [Raw(8)] + Times(U32, 8) + (Times(U32, 2) + strings);
  }

  lemma {:induction false} ExtensionSizes()
    ensures CalcSize(BOOT_IMG_HDR_V1) == 16 && CalcSize(BOOT_IMG_HDR_V2) == 12
  {
    SuffixSizes(BOOT_IMG_HDR_V1);
    SuffixSizes(BOOT_IMG_HDR_V2);
  }

  /** The structs of the boot loader have the sizes the writer records, and fit in any page. */
  lemma {:induction false} LegacySizes(version: nat)
    requires version <= 2
    ensures CalcSize(LegacyFormat(version)) ==
            if version == 0 then 1632 else if version == 1 then BOOT_IMAGE_HEADER_V1_SIZE
            else BOOT_IMAGE_HEADER_V2_SIZE
    ensures CalcSize(LegacyFormat(version)) - CalcSize(LegacyFormat(version)[9..]) == 40
  {
    V0Sizes();
    ExtensionSizes();
    CalcSizeConcat(BOOT_IMG_HDR_V1, BOOT_IMG_HDR_V2);
    CalcSizeExtend(BOOT_IMG_HDR_V0, Extension(version), 9);
  }

  /** The sizes recorded for versions 3 and 4. */
  lemma {:induction false} V3FormatSizes(version: nat)
    requires 3 <= version <= 4
    ensures CalcSize(V3Format(version)) ==
            if version == 4 then BOOT_IMAGE_HEADER_V4_SIZE else BOOT_IMAGE_HEADER_V3_SIZE
    ensures CalcSize(V3Format(version)) - CalcSize(V3Format(version)[9..]) == 40
  {
    V3StructSize();
    SingleSize(U32);
    CalcSizeExtend(BOOT_IMG_HDR_V3, if version >= 4 then BOOT_IMG_HDR_V4 else [], 9);
  }

  lemma {:induction false} V3StructSize()
    ensures CalcSize(BOOT_IMG_HDR_V3) == BOOT_IMAGE_HEADER_V3_SIZE
    ensures CalcSize(BOOT_IMG_HDR_V3) - CalcSize(BOOT_IMG_HDR_V3[9..]) == 40
  {
    VersionOffset(Times(U32, 1) + [Raw(1536)]);
    TimesSize(U32, 1);
    SingleSize(Raw(1536));
    CalcSizeConcat(Times(U32, 1), [Raw(1536)]);
    assert BOOT_IMG_HDR_V3 == [Raw(8)] + Times(U32, 8) + (Times(U32, 1) + [Raw(1536)]);
  }

  /** A reader that unpacks a format from the front sees the fields written there. */
  lemma {:induction false} HeaderSeen(img: seq<byte>, fs: seq<Field>, format: seq<Code>)
    requires AllPackable(fs) && PackAll(fs) <= img && Codes(fs) == format
    ensures CalcSize(format) <= |img|
    ensures UnpackAll(format, img[..CalcSize(format)]) == SeenAll(fs)
  {
    UnpackPackAll(fs);
    assert img[..CalcSize(format)] == PackAll(fs);
  }

  lemma {:induction false} VersionSeen(img: seq<byte>, fs: seq<Field>, version: nat)
    requires AllPackable(fs) && PackAll(fs) <= img
    requires |fs| > 9 && fs[9] == Num(version)
    requires CalcSize(Codes(fs)) - CalcSize(Codes(fs)[9..]) == 40
    ensures |img| >= 44 && FromLittleEndian(img[40..44]) == version
  {
    FieldAt(fs, 9, 40);
    assert img[40..44] == PackAll(fs)[40..44];
    DecodeFits(version, 4);
  }

  lemma {:induction false} LegacyCodes(a: BootArgs, digest: seq<byte>)
    requires a.pagesize > 0 && 0 <= a.headerVersion <= 2
    ensures Codes(LegacyFields(a, digest)) == LegacyFormat(a.headerVersion)
  {
    var fs := FieldsBeforeDtb(a, digest);
    assert Codes(HeadFields(a) + TailFields(a, digest)) == BOOT_IMG_HDR_V0;
    assert Codes(V2Fields(a)) == if a.headerVersion == 2 then BOOT_IMG_HDR_V2 else [];
    assert Codes(V1Fields(a)) == if a.headerVersion > 0 then BOOT_IMG_HDR_V1 else [];
    assert Codes(fs) == Codes(HeadFields(a) + TailFields(a, digest)) + Codes(V1Fields(a));
    assert Codes(LegacyFields(a, digest)) == Codes(fs) + Codes(V2Fields(a));
  }

  lemma {:induction false} LegacyPackable(a: BootArgs, digest: seq<byte>)
    requires a.pagesize > 0 && LegacyOutcome(a, digest).Pass?
    ensures AllPackable(LegacyFields(a, digest)) && a.headerVersion >= 0
  {
    assert FieldsBeforeDtb(a, digest)[9] == Num(a.headerVersion);
  }

  lemma {:induction false} ThreeSections(p: nat, k: nat, r: nat, s: nat)
    requires p > 0
    ensures OffsetAfter(p, [k, r, s], p) == p + RoundUp(k, p) + RoundUp(r, p) + RoundUp(s, p)
  {
    DivModUnique(p, p, 1, 0);
    RoundUpShift(p, k, p);
    var o1 := p + RoundUp(k, p);
    RoundUpBounds(p + k, p);
    RoundUpShift(o1, r, p);
    var o2 := o1 + RoundUp(r, p);
    RoundUpBounds(o1 + r, p);
    RoundUpShift(o2, s, p);
    assert [k, r, s][1..] == [r, s];
    assert [r, s][1..] == [s];
    assert OffsetAfter(p, [k, r, s], p) == OffsetAfter(o1, [r, s], p);
    assert OffsetAfter(o1, [r, s], p) == OffsetAfter(o2, [s], p);
    assert [s][1..] == [];
  }

  /** The header is one page, so pages counted behind it give the real position. */
  lemma {:induction false} DtboOffsetIsReal(a: BootArgs)
    requires a.pagesize > 0
    ensures GetRecoveryDtboOffset(a) == OffsetAfter(a.pagesize, Sizes(Sections(a)[..3]), a.pagesize)
  {
    var p := a.pagesize;
    var k, r, s := FileSize(a.kernel), FileSize(a.ramdisk), FileSize(a.second);
    var parts := [Content(a.kernel), Content(a.ramdisk), Content(a.second)];
    assert Sections(a)[..3] == parts;
    assert Sizes(parts) == [k, r, s];
    ThreeSections(p, k, r, s);
    Distribute(p, GetNumberOfPages(k, p), GetNumberOfPages(r, p), GetNumberOfPages(s, p));
  }

  lemma {:induction false} Distribute(p: int, x: int, y: int, z: int)
    ensures p * (1 + x + y + z) == p + x * p + y * p + z * p
  {
  }

  /** What the reader should find: the header fields, and the parts this version stores. */
  function Written(a: BootArgs, sha1: seq<byte> -> seq<byte>): Parsed
    requires a.pagesize > 0
  {
    Parsed(
      SeenAll(HeaderFields(a, sha1)),
      Content(a.kernel), Content(a.ramdisk), Content(a.second),
      if 1 <= a.headerVersion <= 2 then Content(a.recoveryDtbo) else [],
      if a.headerVersion == 2 then Content(a.dtb) else [],
      StoredSignature(a))
  }

  /** The signature section is as long as its size word says: the block and its padding. */
  function StoredSignature(a: BootArgs): seq<byte> {
    if a.headerVersion >= 4 then PadTo(SignatureBlock(a), BOOT_IMAGE_V4_SIGNATURE_SIZE) else []
  }

  lemma {:induction false} V3Codes(a: BootArgs)
    requires 3 <= a.headerVersion
    ensures Codes(V3Fields(a)) == V3Format(a.headerVersion)
    ensures V3Fields(a)[9] == Num(a.headerVersion)
  {
    assert Codes(V3Common(a)) == BOOT_IMG_HDR_V3;
    assert Codes(V3Fields(a)) == Codes(V3Common(a)) + Codes(V3Extra(a));
  }

  lemma {:induction false} V3Header(a: BootArgs)
    requires 3 <= a.headerVersion <= 4 && AllPackable(V3Fields(a))
    ensures RoundUp(CalcSize(V3Format(a.headerVersion)), BOOT_IMAGE_HEADER_V3_PAGESIZE) == BOOT_IMAGE_HEADER_V3_PAGESIZE
    ensures |PackAll(V3Fields(a))| == CalcSize(V3Format(a.headerVersion))
  {
    UnpackPackAll(V3Fields(a));
    V3Codes(a);
    V3FormatSizes(a.headerVersion);
    OnePage(CalcSize(V3Format(a.headerVersion)), BOOT_IMAGE_HEADER_V3_PAGESIZE);
  }

  lemma {:induction false} LegacyHeaderLength(a: BootArgs, digest: seq<byte>)
    requires PageSizeChoice(a.pagesize) && LegacyOutcome(a, digest).Pass? && 0 <= a.headerVersion <= 2
    ensures AllPackable(LegacyFields(a, digest))
    ensures |PackAll(LegacyFields(a, digest))| == CalcSize(LegacyFormat(a.headerVersion))
    ensures RoundUp(CalcSize(LegacyFormat(a.headerVersion)), a.pagesize) == a.pagesize
  {
    LegacyPackable(a, digest);
    LegacyCodes(a, digest);
    UnpackPackAll(LegacyFields(a, digest));
    LegacySizes(a.headerVersion);
    OnePage(CalcSize(LegacyFormat(a.headerVersion)), a.pagesize);
  }

  /** The header values that place the sections are the arguments' page size and sizes. */
  predicate NumbersMatch(h: seq<Value>, a: BootArgs)
    requires a.pagesize > 0
  {
    && |h| == 15 + (if a.headerVersion >= 1 then 3 else 0) + (if a.headerVersion >= 2 then 2 else 0)
    && Number(h[8]) == a.pagesize
    && Number(h[1]) == FileSize(a.kernel) && Number(h[3]) == FileSize(a.ramdisk)
    && Number(h[5]) == FileSize(a.second)
    && (a.headerVersion >= 1 ==> Number(h[15]) == FileSize(a.recoveryDtbo))
    && (a.headerVersion >= 1 ==>
          Number(h[16]) == if a.recoveryDtbo != null then GetRecoveryDtboOffset(a) else 0)
    && (a.headerVersion >= 2 ==> Number(h[18]) == FileSize(a.dtb))
  }

  lemma {:induction false} LegacyNumbers(a: BootArgs, digest: seq<byte>)
    requires a.pagesize > 0 && 0 <= a.headerVersion <= 2
    ensures NumbersMatch(SeenAll(LegacyFields(a, digest)), a)
  {
    var fs := LegacyFields(a, digest);
    var before := FieldsBeforeDtb(a, digest);
    assert forall i :: 0 <= i < |before| ==> fs[i] == before[i];
    assert before[8] == Num(a.pagesize) && before[1] == Num(FileSize(a.kernel));
    assert before[3] == Num(FileSize(a.ramdisk)) && before[5] == Num(FileSize(a.second));
    if a.headerVersion >= 1 {
      assert before[15] == V1Fields(a)[0] && before[16] == V1Fields(a)[1];
      if a.headerVersion >= 2 {
        assert fs[18] == V2Fields(a)[0];
      }
    }
  }

  function LegacySectionSizes(a: BootArgs): seq<nat> {
    [FileSize(a.kernel), FileSize(a.ramdisk), FileSize(a.second)]
    + (if a.headerVersion >= 1 then [FileSize(a.recoveryDtbo)] else [])
    + (if a.headerVersion >= 2 then [FileSize(a.dtb)] else [])
  }

  lemma {:induction false} LegacySectionSizesMatch(a: BootArgs)
    requires 0 <= a.headerVersion <= 2
    ensures Sizes(Sections(a)) == LegacySectionSizes(a)
  {
  }

  predicate DtboAtRecordedOffset(a: BootArgs, img: seq<byte>)
    requires a.pagesize > 0
  {
    Slice(img, GetRecoveryDtboOffset(a), FileSize(a.recoveryDtbo)) == Content(a.recoveryDtbo)
  }

  /** Given the header values, the reader cuts where the sizes say. */
  lemma {:induction false} LegacyCuts(a: BootArgs, h: seq<Value>, img: seq<byte>)
    requires a.pagesize > 0 && 0 <= a.headerVersion <= 2 && NumbersMatch(h, a)
    requires CalcSize(LegacyFormat(a.headerVersion)) <= |img|
    requires UnpackAll(LegacyFormat(a.headerVersion), img[..CalcSize(LegacyFormat(a.headerVersion))]) == h
    requires RoundUp(CalcSize(LegacyFormat(a.headerVersion)), a.pagesize) == a.pagesize
    requires Extract(img, a.pagesize, LegacySectionSizes(a), a.pagesize) == Sections(a)
    requires a.headerVersion >= 1 ==> DtboAtRecordedOffset(a, img)
    ensures ReadLegacy(img, a.headerVersion) ==
      Some(Parsed(h, Content(a.kernel), Content(a.ramdisk), Content(a.second),
        if a.headerVersion >= 1 then Content(a.recoveryDtbo) else [],
        if a.headerVersion == 2 then Content(a.dtb) else [], []))
  {
  }

  lemma {:induction false} LegacyHeaderRead(a: BootArgs, digest: seq<byte>, img: seq<byte>)
    requires PageSizeChoice(a.pagesize) && LegacyOutcome(a, digest).Pass? && 0 <= a.headerVersion <= 2
    requires AllPackable(LegacyFields(a, digest)) && PackAll(LegacyFields(a, digest)) <= img
    ensures ReadBootImage(img) == ReadLegacy(img, a.headerVersion)
    ensures CalcSize(LegacyFormat(a.headerVersion)) <= |img|
    ensures UnpackAll(LegacyFormat(a.headerVersion), img[..CalcSize(LegacyFormat(a.headerVersion))])
         == SeenAll(LegacyFields(a, digest))
  {
    var fs := LegacyFields(a, digest);
    LegacyCodes(a, digest);
    LegacySizes(a.headerVersion);
    assert fs[9] == FieldsBeforeDtb(a, digest)[9] == Num(a.headerVersion);
    VersionSeen(img, fs, a.headerVersion);
    HeaderSeen(img, fs, LegacyFormat(a.headerVersion));
  }

  /** Kernel to DTB are cut in order. */
  lemma {:induction false} LegacySectionsFound(a: BootArgs, header: seq<byte>, img: seq<byte>)
    requires PageSizeChoice(a.pagesize) && 0 <= a.headerVersion <= 2
    requires |header| == a.pagesize && img == AppendAll(header, Sections(a), a.pagesize)
    ensures Extract(img, a.pagesize, LegacySectionSizes(a), a.pagesize) == Sections(a)
  {
    OnePage(a.pagesize, a.pagesize);
    ExtractAppendAll(header, Sections(a), a.pagesize);
    LegacySectionSizesMatch(a);
  }

  /** The recovery DTBO is the section behind kernel, ramdisk and second. */
  lemma {:induction false} DtboFoundAt(a: BootArgs, header: seq<byte>, img: seq<byte>, off: nat)
    requires a.pagesize > 0 && 1 <= a.headerVersion <= 2 && |header| % a.pagesize == 0
    requires img == AppendAll(header, Sections(a), a.pagesize)
    requires off == OffsetAfter(|header|, Sizes(Sections(a)[..3]), a.pagesize)
    ensures Slice(img, off, FileSize(a.recoveryDtbo)) == Content(a.recoveryDtbo)
  {
    var xs, ys := Sections(a)[..3], Sections(a)[3..];
    assert Sections(a) == xs + ys;
    SectionAt(header, xs, ys, a.pagesize);
    assert ys[0] == Content(a.recoveryDtbo);
  }

  lemma {:induction false} DtboFound(a: BootArgs, header: seq<byte>, img: seq<byte>)
    requires a.pagesize > 0 && 1 <= a.headerVersion <= 2
    requires |header| == a.pagesize && img == AppendAll(header, Sections(a), a.pagesize)
    ensures DtboAtRecordedOffset(a, img)
  {
    OnePage(a.pagesize, a.pagesize);
    var off := OffsetAfter(|header|, Sizes(Sections(a)[..3]), a.pagesize);
    DtboFoundAt(a, header, img, off);
    DtboOffsetIsReal(a);
  }

  lemma {:induction false} LegacyRead(a: BootArgs, digest: seq<byte>, header: seq<byte>, img: seq<byte>)
    requires PageSizeChoice(a.pagesize) && LegacyOutcome(a, digest).Pass? && 0 <= a.headerVersion <= 2
    requires AllPackable(LegacyFields(a, digest))
    requires header == PadTo(PackAll(LegacyFields(a, digest)), a.pagesize)
    requires img == AppendAll(header, Sections(a), a.pagesize)
    ensures ReadBootImage(img) ==
      Some(Parsed(SeenAll(LegacyFields(a, digest)), Content(a.kernel), Content(a.ramdisk), Content(a.second),
        if a.headerVersion >= 1 then Content(a.recoveryDtbo) else [],
        if a.headerVersion == 2 then Content(a.dtb) else [], []))
  {
    LegacyHeaderLength(a, digest);
    LegacyHeaderRead(a, digest, img);
    LegacyNumbers(a, digest);
    LegacySectionsFound(a, header, img);
    if a.headerVersion >= 1 {
      DtboFound(a, header, img);
    }
    LegacyCuts(a, SeenAll(LegacyFields(a, digest)), img);
  }

  /** Kernel, ramdisk and the signature block; there is no second stage. */
  function V3Parts(a: BootArgs): seq<seq<byte>> {
    [Content(a.kernel), Content(a.ramdisk)] + (if a.headerVersion >= 4 then [SignatureBlock(a)] else [])
  }

  lemma {:induction false} SecondAbsent(a: BootArgs, header: seq<byte>, p: nat)
    requires a.headerVersion >= 3 && a.second == null && p > 0 && |header| % p == 0
    ensures AppendAll(header, Sections(a), p) == AppendAll(header, V3Parts(a), p)
  {
    var front: seq<seq<byte>> := [Content(a.kernel), Content(a.ramdisk)];
    var rest := if a.headerVersion >= 4 then [SignatureBlock(a)] else [];
    assert Sections(a) == (front + [[]]) + rest;
    AppendAllConcat(header, front + [[]], rest, p);
    AppendNext(header, front, [], p);
    AppendEmpty(AppendAll(header, front, p), p);
    AppendAllConcat(header, front, rest, p);
  }

  function V3StoredSizes(a: BootArgs): seq<nat> {
    [FileSize(a.kernel), FileSize(a.ramdisk)]
    + (if a.headerVersion >= 4 then [BOOT_IMAGE_V4_SIGNATURE_SIZE] else [])
  }

  function V3Stored(a: BootArgs): seq<seq<byte>> {
    [Content(a.kernel), Content(a.ramdisk)] + (if a.headerVersion >= 4 then [StoredSignature(a)] else [])
  }

  lemma {:induction false} V3SectionsFound(a: BootArgs, header: seq<byte>, img: seq<byte>)
    requires a.headerVersion >= 3 && a.second == null && |header| == BOOT_IMAGE_HEADER_V3_PAGESIZE
    requires SignatureFits(a) && img == AppendAll(header, Sections(a), BOOT_IMAGE_HEADER_V3_PAGESIZE)
    ensures Extract(img, BOOT_IMAGE_HEADER_V3_PAGESIZE, V3StoredSizes(a), BOOT_IMAGE_HEADER_V3_PAGESIZE) == V3Stored(a)
  {
    V3PartsFound(a, header, BOOT_IMAGE_HEADER_V3_PAGESIZE);
  }

  /** The same for any page size that holds the signature block. */
  lemma {:induction false} V3PartsFound(a: BootArgs, header: seq<byte>, p: nat)
    requires a.headerVersion >= 3 && a.second == null && p > 0 && |header| == p
    requires a.headerVersion >= 4 ==> |SignatureBlock(a)| <= p
    ensures var sizes := [FileSize(a.kernel), FileSize(a.ramdisk)] + (if a.headerVersion >= 4 then [p] else []);
            var stored := [Content(a.kernel), Content(a.ramdisk)]
                          + (if a.headerVersion >= 4 then [PadTo(SignatureBlock(a), p)] else []);
            Extract(AppendAll(header, Sections(a), p), p, sizes, p) == stored
  {
    var front := [Content(a.kernel), Content(a.ramdisk)];
    OnePage(p, p);
    SecondAbsent(a, header, p);
    PartsFound(header, front, if a.headerVersion >= 4 then [SignatureBlock(a)] else [], p);
    assert Sizes(front) == [FileSize(a.kernel), FileSize(a.ramdisk)];
  }

  lemma {:induction false} PartsFound(header: seq<byte>, front: seq<seq<byte>>, blocks: seq<seq<byte>>, p: nat)
    requires p > 0 && |header| % p == 0
    requires |blocks| <= 1 && forall block <- blocks :: |block| <= p
    ensures Extract(AppendAll(header, front + blocks, p), |header|,
                    Sizes(front) + (if blocks == [] then [] else [p]), p)
         == front + (if blocks == [] then [] else [PadTo(blocks[0], p)])
  {
    if blocks == [] {
      ExtractAppendAll(header, front, p);
      assert front + blocks == front && Sizes(front) + [] == Sizes(front);
    } else {
      LastPage(header, front, blocks[0], p);
      assert blocks == [blocks[0]];
    }
  }

  lemma {:induction false} V3Read(a: BootArgs, header: seq<byte>, img: seq<byte>)
    requires 3 <= a.headerVersion <= 4 && AllPackable(V3Fields(a)) && a.second == null && SignatureFits(a)
    requires header == PadTo(PackAll(V3Fields(a)), BOOT_IMAGE_HEADER_V3_PAGESIZE)
    requires img == AppendAll(header, Sections(a), BOOT_IMAGE_HEADER_V3_PAGESIZE)
    ensures ReadBootImage(img) ==
      Some(Parsed(SeenAll(V3Fields(a)), Content(a.kernel), Content(a.ramdisk), [], [], [], StoredSignature(a)))
  {
    V3Header(a);
    V3Codes(a);
    V3FormatSizes(a.headerVersion);
    assert PackAll(V3Fields(a)) <= header <= img;
    VersionSeen(img, V3Fields(a), a.headerVersion);
    HeaderSeen(img, V3Fields(a), V3Format(a.headerVersion));
    V3SectionsFound(a, header, img);
    V3Numbers(a);
    V3Cuts(a, SeenAll(V3Fields(a)), img);
  }

  lemma {:induction false} V3Numbers(a: BootArgs)
    requires 3 <= a.headerVersion
    ensures |SeenAll(V3Fields(a))| == |V3Format(a.headerVersion)|
    ensures V3Sizes(a.headerVersion, SeenAll(V3Fields(a))) == V3StoredSizes(a)
  {
    var fs := V3Fields(a);
    assert fs[1] == V3Common(a)[1] && fs[2] == V3Common(a)[2];
    assert a.headerVersion >= 4 ==> fs[11] == V3Extra(a)[0];
  }

  lemma {:induction false} V3Cuts(a: BootArgs, h: seq<Value>, img: seq<byte>)
    requires 3 <= a.headerVersion && |h| == |V3Format(a.headerVersion)|
    requires CalcSize(V3Format(a.headerVersion)) <= |img|
    requires UnpackAll(V3Format(a.headerVersion), img[..CalcSize(V3Format(a.headerVersion))]) == h
    requires RoundUp(CalcSize(V3Format(a.headerVersion)), BOOT_IMAGE_HEADER_V3_PAGESIZE)
          == BOOT_IMAGE_HEADER_V3_PAGESIZE
    requires V3Sizes(a.headerVersion, h) == V3StoredSizes(a)
    requires Extract(img, BOOT_IMAGE_HEADER_V3_PAGESIZE, V3StoredSizes(a), BOOT_IMAGE_HEADER_V3_PAGESIZE) == V3Stored(a)
    ensures ReadV3(img, a.headerVersion) ==
      Some(Parsed(h, Content(a.kernel), Content(a.ramdisk), [], [], [], StoredSignature(a)))
  {
  }

  /** Boot image round trip: the reader recovers the header and every stored part, in any version. */
  lemma {:induction false} BootRoundTrip(a: BootArgs, sha1: seq<byte> -> seq<byte>)
    requires PageSizeChoice(a.pagesize) && BootOutcome(a, sha1).Pass?
    ensures ReadBootImage(Image(a, sha1)) == Some(Written(a, sha1))
  {
    if a.headerVersion >= 3 {
      V3Read(a, Header(a, sha1), Image(a, sha1));
    } else {
      var digest := sha1(Transcript(HashedParts(a)));
      LegacyPackable(a, digest);
      LegacyRead(a, digest, Header(a, sha1), Image(a, sha1));
    }
  }

  /** Behind a one-page header, the recorded offset is the length of the image so far. */
  lemma {:induction false} OffsetIsLength(a: BootArgs, header: seq<byte>, parts: seq<seq<byte>>, off: nat)
    requires a.pagesize > 0 && |header| == a.pagesize
    requires off == OffsetAfter(a.pagesize, Sizes(parts), a.pagesize)
    ensures off == |AppendAll(header, parts, a.pagesize)|
  {
    OnePage(a.pagesize, a.pagesize);
    ExtractAppendAll(header, parts, a.pagesize);
  }

  /** The recorded offset is the output position at which the recovery DTBO is written. */
  lemma {:induction false} RecordedOffsetIsReal(a: BootArgs, header: seq<byte>)
    requires a.pagesize > 0 && |header| == a.pagesize
    ensures GetRecoveryDtboOffset(a)
         == |AppendAll(header, [Content(a.kernel), Content(a.ramdisk), Content(a.second)], a.pagesize)|
  {
    var parts := [Content(a.kernel), Content(a.ramdisk), Content(a.second)];
    assert Sections(a)[..3] == parts;
    DtboOffsetIsReal(a);
    OffsetIsLength(a, header, parts, OffsetAfter(a.pagesize, Sizes(parts), a.pagesize));
  }

  /** With any page size on offer the header of versions 0 to 2 is one page. */
  lemma {:induction false} HeaderIsOnePage(a: BootArgs, sha1: seq<byte> -> seq<byte>)
    requires PageSizeChoice(a.pagesize) && a.headerVersion <= 2 && HeaderOutcome(a, sha1).Pass?
    ensures |Header(a, sha1)| == a.pagesize
  {
    var digest := sha1(Transcript(HashedParts(a)));
    LegacyPackable(a, digest);
    LegacyHeaderLength(a, digest);
  }

  /** Two accepted legacy images of one version with the same hashed stream hold the same files. */
  lemma {:induction false} SameStreamSameParts(a: BootArgs, b: BootArgs, sha1: seq<byte> -> seq<byte>)
    requires a.pagesize > 0 && b.pagesize > 0 && a.headerVersion == b.headerVersion <= 2
    requires HeaderOutcome(a, sha1).Pass? && HeaderOutcome(b, sha1).Pass?
    requires Transcript(HashedParts(a)) == Transcript(HashedParts(b))
    ensures Content(a.kernel) == Content(b.kernel) && Content(a.ramdisk) == Content(b.ramdisk)
    ensures Content(a.second) == Content(b.second)
    ensures a.headerVersion >= 1 ==> Content(a.recoveryDtbo) == Content(b.recoveryDtbo)
    ensures a.headerVersion == 2 ==> Content(a.dtb) == Content(b.dtb)
  {
    AcceptedIsHashable(a, sha1);
    AcceptedIsHashable(b, sha1);
    TranscriptInjective(HashedParts(a), HashedParts(b));
    SamePartsSameFiles(a, b);
  }

  lemma {:induction false} AcceptedIsHashable(a: BootArgs, sha1: seq<byte> -> seq<byte>)
    requires a.pagesize > 0 && a.headerVersion <= 2 && HeaderOutcome(a, sha1).Pass?
    ensures AllFit(HashedParts(a))
  {
    if !AllFit(HashedParts(a)) {
      UnhashableIsUnpackable(a, sha1(Transcript(HashedParts(a))));
    }
  }

  lemma {:induction false} SamePartsSameFiles(a: BootArgs, b: BootArgs)
    requires a.headerVersion == b.headerVersion <= 2 && HashedParts(a) == HashedParts(b)
    ensures Content(a.kernel) == Content(b.kernel) && Content(a.ramdisk) == Content(b.ramdisk)
    ensures Content(a.second) == Content(b.second)
    ensures a.headerVersion >= 1 ==> Content(a.recoveryDtbo) == Content(b.recoveryDtbo)
    ensures a.headerVersion == 2 ==> Content(a.dtb) == Content(b.dtb)
  {
    var ps, qs := HashedParts(a), HashedParts(b);
    assert ps[0] == qs[0] && ps[1] == qs[1] && ps[2] == qs[2];
    assert a.headerVersion >= 1 ==> ps[3] == qs[3];
    assert a.headerVersion == 2 ==> ps[4] == qs[4];
  }
}
