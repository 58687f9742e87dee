/** What a written boot image says, value by value in the order of the C structs. */
module BootValues {
  import opened Bytes
  import opened Files
  import opened ImageId
  import opened OsVersion
  import opened Pages
  import opened Struct
  import opened Wrappers
  import opened BootImage
  import opened BootReader

  /** What a loader gets from the image of an accepted run. */
  function Loaded(a: BootArgs, sha1: seq<byte> -> seq<byte>): Parsed
    requires PageSizeChoice(a.pagesize) && BootOutcome(a, sha1).Pass?
  {
    BootRoundTrip(a, sha1);
    ReadBootImage(Image(a, sha1)).value
  }

  lemma {:induction false} LoadedIsWritten(a: BootArgs, sha1: seq<byte> -> seq<byte>)
    requires PageSizeChoice(a.pagesize) && BootOutcome(a, sha1).Pass?
    ensures Loaded(a, sha1) == Written(a, sha1) && a.headerVersion >= 0
  {
    BootRoundTrip(a, sha1);
    if a.headerVersion < 3 {
      LegacyPackable(a, sha1(Transcript(HashedParts(a))));
    }
  }

  lemma {:induction false} MagicSeen()
    ensures Seen(Field(Raw(8), Str(BOOT_MAGIC))) == Str(Ascii("ANDROID!"))
  {
    assert BOOT_MAGIC == Ascii("ANDROID!");
  }

  lemma {:induction false} SeenConcat(xs: seq<Field>, ys: seq<Field>)
    ensures SeenAll(xs + ys) == SeenAll(xs) + SeenAll(ys)
  {
  }

  /** The words up to the second stage's. */
  lemma {:induction false} PlacesSaid(a: BootArgs)
    ensures var h := SeenAll(HeadFields(a));
            && h[0] == Str(Ascii("ANDROID!"))
            && h[1] == Int(FileSize(a.kernel))
            && h[2] == Int(a.base + a.kernelOffset)
            && h[3] == Int(FileSize(a.ramdisk))
            && h[4] == Int(if a.ramdisk == null || a.ramdisk.content == [] then 0 else a.base + a.ramdiskOffset)
            && h[5] == Int(FileSize(a.second))
            && h[6] == Int(if a.second == null || a.second.content == [] then 0 else a.base + a.secondOffset)
  {
    MagicSeen();
  }

  lemma {:induction false} SettingsSaid(a: BootArgs)
    ensures var h := SeenAll(HeadFields(a));
            && h[7] == Int(a.base + a.tagsOffset)
            && h[8] == Int(a.pagesize)
            && h[9] == Int(a.headerVersion)
            && h[10] == Int(HeaderWord(a.osVersion, a.osPatchLevel))
            && h[11] == Str(Fit(a.board, 16))
            && h[12] == Str(Fit(a.cmdline, 512))
  {
  }

  lemma {:induction false} LegacyShape(a: BootArgs, digest: seq<byte>)
    requires a.pagesize > 0
    ensures SeenAll(LegacyFields(a, digest)) ==
      SeenAll(HeadFields(a)) + SeenAll(TailFields(a, digest)) + SeenAll(V1Fields(a)) + SeenAll(V2Fields(a))
  {
    SeenConcat(FieldsBeforeDtb(a, digest), V2Fields(a));
    SeenConcat(HeadFields(a), TailFields(a, digest) + V1Fields(a));
    SeenConcat(TailFields(a, digest), V1Fields(a));
  }

  /** The first thirteen values of struct boot_img_hdr_v0, as a loader reads them from the image. */
  lemma {:induction false} LegacyHeaderSays(a: BootArgs, sha1: seq<byte> -> seq<byte>) returns (h: seq<Value>)
    requires PageSizeChoice(a.pagesize) && BootOutcome(a, sha1).Pass? && a.headerVersion <= 2
    ensures |h| >= 15
    ensures h[0] == Str(Ascii("ANDROID!"))
    ensures h[1] == Int(FileSize(a.kernel))
    ensures h[2] == Int(a.base + a.kernelOffset)
    ensures h[3] == Int(FileSize(a.ramdisk))
    ensures h[4] == Int(if a.ramdisk == null || a.ramdisk.content == [] then 0 else a.base + a.ramdiskOffset)
    ensures h[5] == Int(FileSize(a.second))
    ensures h[6] == Int(if a.second == null || a.second.content == [] then 0 else a.base + a.secondOffset)
    ensures h[7] == Int(a.base + a.tagsOffset)
    ensures h[8] == Int(a.pagesize)
    ensures h[9] == Int(a.headerVersion)
    ensures h[10] == Int(HeaderWord(a.osVersion, a.osPatchLevel))
    ensures h[11] == Str(Fit(a.board, 16))
    ensures h[12] == Str(Fit(a.cmdline, 512))
    ensures h == Loaded(a, sha1).header
  {
    LoadedIsWritten(a, sha1);
    h := Loaded(a, sha1).header;
    LegacyShape(a, sha1(Transcript(HashedParts(a))));
    PlacesSaid(a);
    SettingsSaid(a);
  }

  /** The id of the hashed parts; behind it stands the rest of the command line. */
  lemma {:induction false} IdSays(a: BootArgs, sha1: seq<byte> -> seq<byte>) returns (h: seq<Value>)
    requires PageSizeChoice(a.pagesize) && BootOutcome(a, sha1).Pass? && a.headerVersion <= 2
    ensures |h| >= 15
    ensures h[13] == Str(Fit(sha1(Transcript(HashedParts(a))), 32))
    ensures h[14] == Str(Fit(a.extraCmdline, 1024))
    ensures h == Loaded(a, sha1).header
  {
    LoadedIsWritten(a, sha1);
    h := Loaded(a, sha1).header;
    LegacyShape(a, sha1(Transcript(HashedParts(a))));
    IdSaid(a, sha1(Transcript(HashedParts(a))));
  }

  lemma {:induction false} IdSaid(a: BootArgs, digest: seq<byte>)
    ensures SeenAll(TailFields(a, digest)) == [Str(Fit(digest, 32)), Str(Fit(a.extraCmdline, 1024))]
  {
  }

  /** The words versions 1 and 2 append. */
  lemma {:induction false} ExtensionSays(a: BootArgs, sha1: seq<byte> -> seq<byte>) returns (h: seq<Value>)
    requires PageSizeChoice(a.pagesize) && BootOutcome(a, sha1).Pass? && a.headerVersion <= 2
    ensures var v, p := a.headerVersion, a.pagesize;
            && |h| == (if v == 0 then 15 else if v == 1 then 18 else 20)
            && (v >= 1 ==>
                  && h[15] == Int(FileSize(a.recoveryDtbo))
                  && h[16] == Int(if a.recoveryDtbo == null then 0 else
                       p + RoundUp(FileSize(a.kernel), p) + RoundUp(FileSize(a.ramdisk), p)
                       + RoundUp(FileSize(a.second), p))
                  && h[17] == Int(if v == 1 then 1648 else 1660))
            && (v == 2 ==> h[18] == Int(FileSize(a.dtb)) && h[19] == Int(a.base + a.dtbOffset))
    ensures h == Loaded(a, sha1).header
  {
    LoadedIsWritten(a, sha1);
    h := Loaded(a, sha1).header;
    ExtensionIn(a, sha1(Transcript(HashedParts(a))), h);
  }

  lemma {:induction false} ExtensionIn(a: BootArgs, digest: seq<byte>, h: seq<Value>)
    requires a.pagesize > 0 && 0 <= a.headerVersion <= 2 && h == SeenAll(LegacyFields(a, digest))
    ensures var v, p := a.headerVersion, a.pagesize;
            && |h| == (if v == 0 then 15 else if v == 1 then 18 else 20)
            && (v >= 1 ==>
                  && h[15] == Int(FileSize(a.recoveryDtbo))
                  && h[16] == Int(if a.recoveryDtbo == null then 0 else
                       p + RoundUp(FileSize(a.kernel), p) + RoundUp(FileSize(a.ramdisk), p)
                       + RoundUp(FileSize(a.second), p))
                  && h[17] == Int(if v == 1 then 1648 else 1660))
            && (v == 2 ==> h[18] == Int(FileSize(a.dtb)) && h[19] == Int(a.base + a.dtbOffset))
  {
    LegacyShape(a, digest);
    V1Said(a);
    V2Said(a);
  }

  lemma {:induction false} V1Said(a: BootArgs)
    requires a.pagesize > 0
    ensures var h, v, p := SeenAll(V1Fields(a)), a.headerVersion, a.pagesize;
            && |h| == (if v >= 1 then 3 else 0)
            && (v >= 1 ==>
                  && h[0] == Int(FileSize(a.recoveryDtbo))
                  && h[1] == Int(if a.recoveryDtbo == null then 0 else
                       p + RoundUp(FileSize(a.kernel), p) + RoundUp(FileSize(a.ramdisk), p)
                       + RoundUp(FileSize(a.second), p))
                  && h[2] == Int(if v == 1 then 1648 else 1660))
  {
    OffsetSaid(a);
  }

  lemma {:induction false} V2Said(a: BootArgs)
    ensures SeenAll(V2Fields(a)) ==
            if a.headerVersion >= 2 then [Int(FileSize(a.dtb)), Int(a.base + a.dtbOffset)] else []
  {
  }

  /** The parts hashed are the contents of the files that the version stores, in file order. */
  lemma {:induction false} FilesHashed(a: BootArgs)
    requires 0 <= a.headerVersion <= 2
    ensures HashedParts(a) == Contents(
      if a.headerVersion == 0 then [a.kernel, a.ramdisk, a.second]
      else if a.headerVersion == 1 then [a.kernel, a.ramdisk, a.second, a.recoveryDtbo]
      else [a.kernel, a.ramdisk, a.second, a.recoveryDtbo, a.dtb])
  {
  }

  lemma {:induction false} OffsetSaid(a: BootArgs)
    requires a.pagesize > 0
    ensures var p := a.pagesize;
            GetRecoveryDtboOffset(a) == p + RoundUp(FileSize(a.kernel), p) + RoundUp(FileSize(a.ramdisk), p)
                                          + RoundUp(FileSize(a.second), p)
  {
    var p := a.pagesize;
    Distribute(p, GetNumberOfPages(FileSize(a.kernel), p), GetNumberOfPages(FileSize(a.ramdisk), p),
               GetNumberOfPages(FileSize(a.second), p));
  }

  lemma {:induction false} V3Said(a: BootArgs)
    requires 3 <= a.headerVersion <= 4
    ensures var h := SeenAll(V3Fields(a));
            && |h| == (if a.headerVersion == 3 then 11 else 12)
            && h[0] == Str(Ascii("ANDROID!"))
            && h[1] == Int(FileSize(a.kernel))
            && h[2] == Int(FileSize(a.ramdisk))
            && h[3] == Int(HeaderWord(a.osVersion, a.osPatchLevel))
            && h[4] == Int(if a.headerVersion == 3 then 1580 else 1584)
            && h[5] == h[6] == h[7] == h[8] == Int(0)
            && h[9] == Int(a.headerVersion)
            && h[10] == Str(Fit(a.cmdline, 1536))
            && (a.headerVersion == 4 ==> h[11] == Int(4096))
  {
    SeenConcat(V3Common(a), V3Extra(a));
    MagicSeen();
  }

  lemma {:induction false} PagePadded(block: seq<byte>, p: nat)
    requires p > 0 && |block| <= p
    ensures PadTo(block, p) == if block == [] then [] else Fit(block, p)
  {
    if block == [] {
      RoundUpAligned(0, p);
    } else {
      OnePage(|block|, p);
    }
  }

  lemma {:induction false} SignatureSaid(a: BootArgs)
    requires a.headerVersion == 4 && SignatureFits(a)
    ensures StoredSignature(a) ==
            match a.signature
            case None => Zeros(4096)
            case Some(vbmeta) => if vbmeta == [] then [] else Fit(vbmeta, 4096)
  {
    PagePadded(SignatureBlock(a), BOOT_IMAGE_V4_SIGNATURE_SIZE);
  }

  /** The values of versions 3 and 4, and the signature section of version 4. */
  lemma {:induction false} V3HeaderSays(a: BootArgs, sha1: seq<byte> -> seq<byte>) returns (h: seq<Value>)
    requires PageSizeChoice(a.pagesize) && BootOutcome(a, sha1).Pass? && a.headerVersion >= 3
    ensures |h| == (if a.headerVersion == 3 then 11 else 12)
    ensures h[0] == Str(Ascii("ANDROID!"))
    ensures h[1] == Int(FileSize(a.kernel))
    ensures h[2] == Int(FileSize(a.ramdisk))
    ensures h[3] == Int(HeaderWord(a.osVersion, a.osPatchLevel))
    ensures h[4] == Int(if a.headerVersion == 3 then 1580 else 1584)
    ensures h[5] == h[6] == h[7] == h[8] == Int(0)
    ensures h[9] == Int(a.headerVersion)
    ensures h[10] == Str(Fit(a.cmdline, 1536))
    ensures a.headerVersion == 4 ==> h[11] == Int(4096)
    ensures h == Loaded(a, sha1).header
  {
    LoadedIsWritten(a, sha1);
    h := Loaded(a, sha1).header;
    V3Said(a);
  }

  /** The signature section of version 4: zeros without a key, else the block filled up with zeros. */
  lemma {:induction false} SignatureSays(a: BootArgs, sha1: seq<byte> -> seq<byte>)
    requires PageSizeChoice(a.pagesize) && BootOutcome(a, sha1).Pass? && a.headerVersion >= 4
    ensures Loaded(a, sha1).signature ==
            match a.signature
            case None => Zeros(4096)
            case Some(vbmeta) => if vbmeta == [] then [] else Fit(vbmeta, 4096)
  {
    LoadedIsWritten(a, sha1);
    SignatureSaid(a);
  }

  lemma {:induction false} PackableConcat(xs: seq<Field>, ys: seq<Field>)
    ensures AllPackable(xs + ys) <==> AllPackable(xs) && AllPackable(ys)
  {
    var all := xs + ys;
    assert forall i :: 0 <= i < |xs| ==> all[i] == xs[i];
    assert forall i :: 0 <= i < |ys| ==> all[|xs| + i] == ys[i];
  }

  predicate Word(n: int) {
    0 <= n < 0x1_0000_0000
  }

  predicate DoubleWord(n: int) {
    0 <= n < 0x1_0000_0000_0000_0000
  }

  lemma {:induction false} Packs(i: int, b: seq<byte>, n: nat)
    ensures Packable(Num(i)) <==> Word(i)
    ensures Packable(Field(U64, Int(i))) <==> DoubleWord(i)
    ensures Packable(Field(Raw(n), Str(b)))
  {
    assert Pow256(4) == 0x1_0000_0000 && Pow256(8) == 0x1_0000_0000_0000_0000;
  }

  /** The legacy values up to the board name fit their 32-bit words. */
  predicate HeadFits(a: BootArgs) {
    && Word(FileSize(a.kernel)) && Word(FileSize(a.ramdisk)) && Word(FileSize(a.second))
    && Word(a.base + a.kernelOffset) && Word(a.base + a.tagsOffset)
    && (FileSize(a.ramdisk) > 0 ==> Word(a.base + a.ramdiskOffset))
    && (FileSize(a.second) > 0 ==> Word(a.base + a.secondOffset))
    && Word(a.pagesize) && Word(a.headerVersion) && Word(HeaderWord(a.osVersion, a.osPatchLevel))
  }

  /** The recovery DTBO's size and position fit, where they are recorded. */
  predicate DtboFits(a: BootArgs)
    requires a.pagesize > 0
  {
    a.headerVersion > 0 ==>
      && Word(FileSize(a.recoveryDtbo))
      && (a.recoveryDtbo != null ==> DoubleWord(GetRecoveryDtboOffset(a)))
  }

  lemma {:induction false} HeadPacks(a: BootArgs)
    ensures AllPackable(HeadFields(a)) <==> HeadFits(a)
  {
    var fs := HeadFields(a);
    forall i: int
      ensures Packable(Num(i)) <==> Word(i)
    {
      Packs(i, [], 0);
    }
    if AllPackable(fs) {
      assert Packable(fs[1]) && Packable(fs[2]) && Packable(fs[3]) && Packable(fs[4]) && Packable(fs[5]);
      assert Packable(fs[6]) && Packable(fs[7]) && Packable(fs[8]) && Packable(fs[9]) && Packable(fs[10]);
    }
  }

  lemma {:induction false} DtboPacks(a: BootArgs)
    requires a.pagesize > 0
    ensures AllPackable(V1Fields(a)) <==> DtboFits(a)
  {
    var fs := V1Fields(a);
    if a.headerVersion > 0 {
      Packs(FileSize(a.recoveryDtbo), [], 0);
      Packs(if a.recoveryDtbo != null then GetRecoveryDtboOffset(a) else 0, [], 0);
      Packs(if a.headerVersion == 1 then BOOT_IMAGE_HEADER_V1_SIZE else BOOT_IMAGE_HEADER_V2_SIZE, [], 0);
      assert AllPackable(fs) <==> Packable(fs[0]) && Packable(fs[1]) && Packable(fs[2]);
    }
  }

  lemma {:induction false} DtbPacks(a: BootArgs)
    ensures AllPackable(V2Fields(a)) <==>
      (a.headerVersion > 1 ==> Word(FileSize(a.dtb)) && DoubleWord(a.base + a.dtbOffset))
  {
    var fs := V2Fields(a);
    if a.headerVersion > 1 {
      Packs(FileSize(a.dtb), [], 0);
      Packs(a.base + a.dtbOffset, [], 0);
      assert AllPackable(fs) <==> Packable(fs[0]) && Packable(fs[1]);
    }
  }

  lemma {:induction false} V3Packs(a: BootArgs)
    requires 3 <= a.headerVersion <= 4
    ensures AllPackable(V3Fields(a)) <==>
      Word(FileSize(a.kernel)) && Word(FileSize(a.ramdisk)) && Word(HeaderWord(a.osVersion, a.osPatchLevel))
  {
    var fs, more := V3Common(a), V3Extra(a);
    PackableConcat(fs, more);
    forall i: int
      ensures Packable(Num(i)) <==> Word(i)
    {
      Packs(i, [], 0);
    }
    if AllPackable(fs) {
      assert Packable(fs[1]) && Packable(fs[2]) && Packable(fs[3]);
    }
  }

  lemma {:induction false} LegacyPacks(a: BootArgs, digest: seq<byte>)
    requires a.pagesize > 0
    ensures AllPackable(FieldsBeforeDtb(a, digest)) <==> HeadFits(a) && DtboFits(a)
  {
    PackableConcat(HeadFields(a), TailFields(a, digest) + V1Fields(a));
    PackableConcat(TailFields(a, digest), V1Fields(a));
    HeadPacks(a);
    DtboPacks(a);
  }

  /** For each set of arguments: whether the run passes, or which failure it ends with. */
  lemma {:induction false} BootEndsExactly(a: BootArgs, sha1: seq<byte> -> seq<byte>)
    requires a.pagesize > 0
    ensures a.headerVersion > 2 && a.second != null ==> BootOutcome(a, sha1) == Fail(SecondNotAllowed)
    ensures a.headerVersion > 4 && a.second == null ==> BootOutcome(a, sha1) == Fail(UnsupportedVersion)
    ensures a.headerVersion in {3, 4} && a.second == null ==>
      var fits := Word(FileSize(a.kernel)) && Word(FileSize(a.ramdisk))
                  && Word(HeaderWord(a.osVersion, a.osPatchLevel));
      var tooLong := a.headerVersion == 4 && a.signature.Some? && |a.signature.value| > 4096;
      BootOutcome(a, sha1) == if !fits then Fail(StructError) else if tooLong then Fail(SignatureTooLong) else Pass
    ensures a.headerVersion <= 2 ==>
      var emptyDtb := a.headerVersion == 2 && (a.dtb == null || a.dtb.content == []);
      var dtbFits := a.headerVersion == 2 ==> Word(FileSize(a.dtb)) && DoubleWord(a.base + a.dtbOffset);
      BootOutcome(a, sha1) ==
        if !HeadFits(a) || !DtboFits(a) then Fail(StructError)
        else if emptyDtb then Fail(EmptyDtb)
        else if !dtbFits then Fail(StructError)
        else Pass
  {
    if a.headerVersion <= 2 {
      LegacyPacks(a, sha1(Transcript(HashedParts(a))));
      DtbPacks(a);
    } else if a.headerVersion <= 4 {
      V3Packs(a);
    }
  }
}
