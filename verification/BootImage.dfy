/** The boot image writer: header, section data and the order of its failures. */
module BootImage {
  import opened Bits
  import opened Bytes
  import opened Files
  import opened ImageId
  import opened OsVersion
  import opened Pages
  import opened Struct
  import opened Wrappers

  const BOOT_MAGIC: seq<byte> := [65, 78, 68, 82, 79, 73, 68, 33]  // ANDROID!
  const BOOT_MAGIC_SIZE := 8
  const BOOT_NAME_SIZE := 16
  const BOOT_ARGS_SIZE := 512
  const BOOT_EXTRA_ARGS_SIZE := 1024
  const BOOT_IMAGE_HEADER_V1_SIZE := 1648
  const BOOT_IMAGE_HEADER_V2_SIZE := 1660
  const BOOT_IMAGE_HEADER_V3_SIZE := 1580
  const BOOT_IMAGE_HEADER_V3_PAGESIZE := 4096
  const BOOT_IMAGE_HEADER_V4_SIZE := 1584
  const BOOT_IMAGE_V4_SIGNATURE_SIZE := 4096

  datatype Error =
    | StructError
    | UnsupportedVersion
    | EmptyDtb
    | SecondNotAllowed
    | SignatureTooLong
    | VendorVersion
    | VendorRamdiskMissing

  /** The parsed arguments. `signature` is the block avbtool produced, None without a signing key. */
  datatype BootArgs = BootArgs(
    kernel: InputFile?, ramdisk: InputFile?, second: InputFile?,
    recoveryDtbo: InputFile?, dtb: InputFile?,
    headerVersion: int, pagesize: nat,
    base: int, kernelOffset: int, ramdiskOffset: int, secondOffset: int,
    tagsOffset: int, dtbOffset: int,
    osVersion: nat, osPatchLevel: nat,
    board: seq<byte>, cmdline: seq<byte>, extraCmdline: seq<byte>,
    signature: Option<seq<byte>>)

  /** The page sizes the command line offers. */
  predicate PageSizeChoice(p: nat) {
    p in {2048, 4096, 8192, 16384}
  }

  predicate FilesReady(a: BootArgs)
    reads a.kernel, a.ramdisk, a.second, a.recoveryDtbo, a.dtb
  {
    && (a.kernel != null ==> a.kernel.pos == 0)
    && (a.ramdisk != null ==> a.ramdisk.pos == 0)
    && (a.second != null ==> a.second.pos == 0)
    && (a.recoveryDtbo != null ==> a.recoveryDtbo.pos == 0)
    && (a.dtb != null ==> a.dtb.pos == 0)
  }

  predicate Different(f: InputFile?, g: InputFile?) {
    f == null || f != g
  }

  /** Each argument was opened on its own. */
  predicate FilesDistinct(a: BootArgs) {
    && Different(a.kernel, a.ramdisk) && Different(a.kernel, a.second)
    && Different(a.kernel, a.recoveryDtbo) && Different(a.kernel, a.dtb)
    && Different(a.ramdisk, a.second) && Different(a.ramdisk, a.recoveryDtbo)
    && Different(a.ramdisk, a.dtb) && Different(a.second, a.recoveryDtbo)
    && Different(a.second, a.dtb) && Different(a.recoveryDtbo, a.dtb)
  }

  function GetNumberOfPages(imageSize: nat, pageSize: nat): nat
    requires pageSize > 0
  {
    (imageSize + pageSize - 1) / pageSize
  }

  function GetRecoveryDtboOffset(a: BootArgs): nat
    requires a.pagesize > 0
  {
    var pages: nat := 1 + GetNumberOfPages(FileSize(a.kernel), a.pagesize)
                      + GetNumberOfPages(FileSize(a.ramdisk), a.pagesize)
                      + GetNumberOfPages(FileSize(a.second), a.pagesize);
    ProductIsNat(a.pagesize, pages);
    a.pagesize * pages
  }

  lemma {:induction false} ProductIsNat(x: nat, y: nat)
    ensures x * y >= 0
  {
  }

  function Num(i: int): Field {
    Field(U32, Int(i))
  }

  /** The fields every version below 3 has before the id, in file order. */
  function HeadFields(a: BootArgs): (fs: seq<Field>)
    ensures |fs| == 13
  {
    [Field(Raw(BOOT_MAGIC_SIZE), Str(BOOT_MAGIC)),
     Num(FileSize(a.kernel)),
     Num(a.base + a.kernelOffset),
     Num(FileSize(a.ramdisk)),
     Num(if FileSize(a.ramdisk) > 0 then a.base + a.ramdiskOffset else 0),
     Num(FileSize(a.second)),
     Num(if FileSize(a.second) > 0 then a.base + a.secondOffset else 0),
     Num(a.base + a.tagsOffset),
     Num(a.pagesize),
     Num(a.headerVersion),
     Num(HeaderWord(a.osVersion, a.osPatchLevel)),
     Field(Raw(BOOT_NAME_SIZE), Str(a.board)),
     Field(Raw(BOOT_ARGS_SIZE), Str(a.cmdline))]
  }

  function TailFields(a: BootArgs, digest: seq<byte>): (fs: seq<Field>)
    ensures |fs| == 2
  {
    [Field(Raw(32), Str(digest)), Field(Raw(BOOT_EXTRA_ARGS_SIZE), Str(a.extraCmdline))]
  }

  function V1Fields(a: BootArgs): seq<Field>
    requires a.pagesize > 0
  {
    if a.headerVersion > 0 then
      [Num(FileSize(a.recoveryDtbo)),
       Field(U64, Int(if a.recoveryDtbo != null then GetRecoveryDtboOffset(a) else 0)),
       Num(if a.headerVersion == 1 then BOOT_IMAGE_HEADER_V1_SIZE else BOOT_IMAGE_HEADER_V2_SIZE)]
    else []
  }

  function V2Fields(a: BootArgs): seq<Field> {
    if a.headerVersion > 1 then
      [Num(FileSize(a.dtb)), Field(U64, Int(a.base + a.dtbOffset))]
    else []
  }

  /** Everything written before the check for an empty DTB. */
  function FieldsBeforeDtb(a: BootArgs, digest: seq<byte>): seq<Field>
    requires a.pagesize > 0
  {
    HeadFields(a) + (TailFields(a, digest) + V1Fields(a))
  }

  function LegacyFields(a: BootArgs, digest: seq<byte>): seq<Field>
    requires a.pagesize > 0
  {
    FieldsBeforeDtb(a, digest) + V2Fields(a)
  }

  function V3Common(a: BootArgs): (fs: seq<Field>)
    ensures |fs| == 11
  {
    [Field(Raw(BOOT_MAGIC_SIZE), Str(BOOT_MAGIC)),
     Num(FileSize(a.kernel)),
     Num(FileSize(a.ramdisk)),
     Num(HeaderWord(a.osVersion, a.osPatchLevel)),
     Num(if a.headerVersion > 3 then BOOT_IMAGE_HEADER_V4_SIZE else BOOT_IMAGE_HEADER_V3_SIZE),
     Num(0), Num(0), Num(0), Num(0),
     Num(a.headerVersion),
     Field(Raw(BOOT_ARGS_SIZE + BOOT_EXTRA_ARGS_SIZE), Str(a.cmdline))]
  }

  function V3Extra(a: BootArgs): seq<Field> {
    if a.headerVersion >= 4 then [Num(BOOT_IMAGE_V4_SIGNATURE_SIZE)] else []
  }

  function V3Fields(a: BootArgs): seq<Field> {
    V3Common(a) + V3Extra(a)
  }

  /** The files whose contents the id covers, in hashing order. */
  function HashedParts(a: BootArgs): seq<seq<byte>> {
    [Content(a.kernel), Content(a.ramdisk), Content(a.second)]
    + (if a.headerVersion > 0 then [Content(a.recoveryDtbo)] else [])
    + (if a.headerVersion > 1 then [Content(a.dtb)] else [])
  }

  function HeaderFields(a: BootArgs, sha1: seq<byte> -> seq<byte>): seq<Field>
    requires a.pagesize > 0
  {
    if a.headerVersion in {3, 4} then V3Fields(a)
    else LegacyFields(a, sha1(Transcript(HashedParts(a))))
  }

  function LegacyOutcome(a: BootArgs, digest: seq<byte>): Outcome<Error>
    requires a.pagesize > 0
  {
    if !AllPackable(FieldsBeforeDtb(a, digest)) then Fail(StructError)
    else if a.headerVersion == 2 && FileSize(a.dtb) == 0 then Fail(EmptyDtb)
    else if !AllPackable(V2Fields(a)) then Fail(StructError)
    else Pass
  }

  function HeaderOutcome(a: BootArgs, sha1: seq<byte> -> seq<byte>): Outcome<Error>
    requires a.pagesize > 0
  {
    if a.headerVersion > 4 then Fail(UnsupportedVersion)
    else if a.headerVersion in {3, 4} then
      if AllPackable(V3Fields(a)) then Pass else Fail(StructError)
    else LegacyOutcome(a, sha1(Transcript(HashedParts(a))))
  }

  function DataPageSize(a: BootArgs): nat {
    if a.headerVersion > 2 then BOOT_IMAGE_HEADER_V3_PAGESIZE else a.pagesize
  }

  function SignatureBlock(a: BootArgs): seq<byte> {
    match a.signature
    case None => Zeros(BOOT_IMAGE_V4_SIGNATURE_SIZE)
    case Some(vbmeta) => vbmeta
  }

  /** The sections behind the header, in file order. */
  function Sections(a: BootArgs): seq<seq<byte>> {
    [Content(a.kernel), Content(a.ramdisk), Content(a.second)]
    + (if 0 < a.headerVersion < 3 then [Content(a.recoveryDtbo)] else [])
    + (if a.headerVersion == 2 then [Content(a.dtb)] else [])
    + (if a.headerVersion >= 4 then [SignatureBlock(a)] else [])
  }

  predicate SignatureFits(a: BootArgs) {
    a.headerVersion >= 4 && a.signature.Some? ==> |a.signature.value| <= BOOT_IMAGE_V4_SIGNATURE_SIZE
  }

  function BootOutcome(a: BootArgs, sha1: seq<byte> -> seq<byte>): Outcome<Error>
    requires a.pagesize > 0
  {
    if a.second != null && a.headerVersion > 2 then Fail(SecondNotAllowed)
    else if HeaderOutcome(a, sha1).Fail? then HeaderOutcome(a, sha1)
    else if !SignatureFits(a) then Fail(SignatureTooLong)
    else Pass
  }

  function Header(a: BootArgs, sha1: seq<byte> -> seq<byte>): seq<byte>
    requires PageSizeChoice(a.pagesize) && HeaderOutcome(a, sha1).Pass?
  {
    PadTo(PackAll(HeaderFields(a, sha1)), DataPageSize(a))
  }

  /** The image that an accepted run leaves in the output file. */
  function Image(a: BootArgs, sha1: seq<byte> -> seq<byte>): seq<byte>
    requires PageSizeChoice(a.pagesize) && HeaderOutcome(a, sha1).Pass?
  {
    AppendAll(Header(a, sha1), Sections(a), DataPageSize(a))
  }

  lemma {:induction false} ChoicesArePowers(p: nat)
    requires PageSizeChoice(p)
    ensures IsPowerOfTwo(p)
  {
    assert Pow2(5) == 32;
    assert Pow2(8) == 256;
    assert Pow2(11) == 2048;
    assert Pow2(12) == 4096;
    assert Pow2(13) == 8192;
    assert Pow2(14) == 16384;
  }

  /** Packs and writes one field after another; pack raises at the first value out of range. */
  method WriteFields(f: OutputFile, fields: seq<Field>) returns (r: Outcome<Error>)
    modifies f
    ensures r == if AllPackable(fields) then Pass else Fail(StructError)
    ensures r.Pass? ==> f.data == old(f.data) + PackAll(fields)
    decreases |fields|
  {
    if fields == [] {
      return Pass;
    }
    if !Packable(fields[0]) {
      return Fail(StructError);
    }
    var packed := Pack(fields[0]);
    AllPackableCons(fields);
    ghost var start := f.data;
    f.Write(packed);
    r := WriteFields(f, fields[1..]);
    if r.Pass? {
      Associative(start, packed, PackAll(fields[1..]));
    }
  }

  lemma {:induction false} AllPackableCons(fields: seq<Field>)
    requires fields != []
    ensures AllPackable(fields) <==> Packable(fields[0]) && AllPackable(fields[1..])
  {
    assert forall i :: 1 <= i < |fields| ==> fields[i] == fields[1..][i - 1];
  }

  method WriteHeaderV3AndAbove(a: BootArgs, output: OutputFile) returns (r: Outcome<Error>)
    requires output.data == []
    modifies output
    ensures r == if AllPackable(V3Fields(a)) then Pass else Fail(StructError)
    ensures r.Pass? ==> output.data == PadTo(PackAll(V3Fields(a)), BOOT_IMAGE_HEADER_V3_PAGESIZE)
  {
    var headerSize := BOOT_IMAGE_HEADER_V3_SIZE;
    if a.headerVersion > 3 {
      headerSize := BOOT_IMAGE_HEADER_V4_SIZE;
    }
    var fields :=
      [Field(Raw(BOOT_MAGIC_SIZE), Str(BOOT_MAGIC)),
       Num(FileSize(a.kernel)), Num(FileSize(a.ramdisk)),
       Num(HeaderWord(a.osVersion, a.osPatchLevel)), Num(headerSize),
       Num(0), Num(0), Num(0), Num(0), Num(a.headerVersion),
       Field(Raw(BOOT_ARGS_SIZE + BOOT_EXTRA_ARGS_SIZE), Str(a.cmdline))];
    if a.headerVersion >= 4 {
      fields := fields + [Num(BOOT_IMAGE_V4_SIGNATURE_SIZE)];
    }
    assert fields == V3Fields(a);
    :- WriteFields(output, fields);
    ChoicesArePowers(BOOT_IMAGE_HEADER_V3_PAGESIZE);
    PadFile(output, BOOT_IMAGE_HEADER_V3_PAGESIZE);
    return Pass;
  }

  /** The order in which write_header feeds the hash. */
  method HashFiles(a: BootArgs) returns (ok: bool, sha: Sha1)
    requires FilesReady(a) && a.headerVersion <= 2
    modifies a.kernel, a.ramdisk, a.second, a.recoveryDtbo, a.dtb
    ensures FilesReady(a) && fresh(sha)
    ensures ok <==> AllFit(HashedParts(a))
    ensures ok ==> sha.fed == Transcript(HashedParts(a))
  {
    sha := new Sha1();
    var files := HashedFiles(a);
    ok := UpdateShaAll(sha, files);
  }

  method HashedFiles(a: BootArgs) returns (files: seq<InputFile?>)
    ensures Contents(files) == HashedParts(a)
    ensures forall f :: f in files ==> f in [a.kernel, a.ramdisk, a.second, a.recoveryDtbo, a.dtb]
  {
    files := [a.kernel, a.ramdisk, a.second];
    if a.headerVersion > 0 {
      files := files + [a.recoveryDtbo];
    }
    if a.headerVersion > 1 {
      files := files + [a.dtb];
    }
    assert Contents(files) == HashedParts(a);
  }

  /** A part too long to hash is also too long for its size field. */
  lemma {:induction false} UnhashableIsUnpackable(a: BootArgs, digest: seq<byte>)
    requires a.pagesize > 0 && a.headerVersion <= 2
    requires !AllFit(HashedParts(a))
    ensures LegacyOutcome(a, digest) == Fail(StructError)
  {
    var fs := FieldsBeforeDtb(a, digest);
    var i :| 0 <= i < |HashedParts(a)| && !SizeFits(HashedParts(a)[i]);
    assert fs[1] == Num(FileSize(a.kernel)) && fs[3] == Num(FileSize(a.ramdisk));
    assert fs[5] == Num(FileSize(a.second));
    if i == 3 {
      assert fs[15] == Num(FileSize(a.recoveryDtbo));
    } else if i == 4 {
      assert V2Fields(a)[0] == Num(FileSize(a.dtb));
    }
  }

  /** The fields before the id. */
  method WriteLegacyHead(a: BootArgs, output: OutputFile) returns (r: Outcome<Error>)
    requires output.data == []
    modifies output
    ensures r == if AllPackable(HeadFields(a)) then Pass else Fail(StructError)
    ensures r.Pass? ==> output.data == PackAll(HeadFields(a))
  {
    var ramdiskLoadAddress := if FileSize(a.ramdisk) > 0 then a.base + a.ramdiskOffset else 0;
    var secondLoadAddress := if FileSize(a.second) > 0 then a.base + a.secondOffset else 0;
    var fields :=
      [Field(Raw(BOOT_MAGIC_SIZE), Str(BOOT_MAGIC)),
       Num(FileSize(a.kernel)), Num(a.base + a.kernelOffset),
       Num(FileSize(a.ramdisk)), Num(ramdiskLoadAddress),
       Num(FileSize(a.second)), Num(secondLoadAddress),
       Num(a.base + a.tagsOffset), Num(a.pagesize), Num(a.headerVersion),
       Num(HeaderWord(a.osVersion, a.osPatchLevel)),
       Field(Raw(BOOT_NAME_SIZE), Str(a.board)),
       Field(Raw(BOOT_ARGS_SIZE), Str(a.cmdline))];
    assert fields == HeadFields(a);
    r := WriteFields(output, fields);
  }

  /** The id, the rest of the command line and the version 1 fields. */
  method WriteLegacyTail(a: BootArgs, digest: seq<byte>, output: OutputFile) returns (r: Outcome<Error>)
    requires a.pagesize > 0 && a.headerVersion <= 2
    requires AllPackable(HeadFields(a)) && output.data == PackAll(HeadFields(a))
    modifies output
    ensures r == if AllPackable(FieldsBeforeDtb(a, digest)) then Pass else Fail(StructError)
    ensures r.Pass? ==> output.data == PackAll(FieldsBeforeDtb(a, digest))
  {
    var fields := [Field(Raw(32), Str(digest)), Field(Raw(BOOT_EXTRA_ARGS_SIZE), Str(a.extraCmdline))];
    if a.headerVersion > 0 {
      if a.recoveryDtbo != null {
        fields := fields + [Num(FileSize(a.recoveryDtbo)), Field(U64, Int(GetRecoveryDtboOffset(a)))];
      } else {
        fields := fields + [Num(0), Field(U64, Int(0))];
      }
    }
    if a.headerVersion == 1 {
      fields := fields + [Num(BOOT_IMAGE_HEADER_V1_SIZE)];
    } else if a.headerVersion == 2 {
      fields := fields + [Num(BOOT_IMAGE_HEADER_V2_SIZE)];
    }
    assert fields == TailFields(a, digest) + V1Fields(a);
    r := WriteFields(output, fields);
    ghost var fs := FieldsBeforeDtb(a, digest);
    assert fs == HeadFields(a) + fields;
    if r.Pass? {
      PackAllConcat(HeadFields(a), fields);
    } else {
      var i :| 0 <= i < |fields| && !Packable(fields[i]);
      assert fs[13 + i] == fields[i];
    }
  }

  method WriteLegacyHeader(a: BootArgs, sha1: seq<byte> -> seq<byte>, output: OutputFile) returns (r: Outcome<Error>)
    requires PageSizeChoice(a.pagesize) && a.headerVersion <= 2
    requires FilesReady(a) && output.data == []
    modifies output, a.kernel, a.ramdisk, a.second, a.recoveryDtbo, a.dtb
    ensures FilesReady(a)
    ensures r == LegacyOutcome(a, sha1(Transcript(HashedParts(a))))
    ensures r.Pass? ==>
      output.data == PadTo(PackAll(LegacyFields(a, sha1(Transcript(HashedParts(a))))), a.pagesize)
  {
    ghost var digest := sha1(Transcript(HashedParts(a)));
    r := WriteLegacyHead(a, output);
    if r.Fail? {
      HeadFailure(a, digest);
      return;
    }
    var ok, sha := HashFiles(a);
    if !ok {
      UnhashableIsUnpackable(a, digest);
      return Fail(StructError);
    }
    r := WriteLegacyTail(a, sha1(sha.fed), output);
    if r.Fail? {
      return;
    }
    r := WriteDtbFields(a, output, FieldsBeforeDtb(a, digest));
  }

  lemma {:induction false} HeadFailure(a: BootArgs, digest: seq<byte>)
    requires a.pagesize > 0 && !AllPackable(HeadFields(a))
    ensures !AllPackable(FieldsBeforeDtb(a, digest))
  {
    var i :| 0 <= i < |HeadFields(a)| && !Packable(HeadFields(a)[i]);
    assert FieldsBeforeDtb(a, digest)[i] == HeadFields(a)[i];
  }

  /** The version 2 fields, refused when the DTB is empty, and the padding of the header. */
  method WriteDtbFields(a: BootArgs, output: OutputFile, ghost before: seq<Field>) returns (r: Outcome<Error>)
    requires PageSizeChoice(a.pagesize) && a.headerVersion <= 2
    requires AllPackable(before) && output.data == PackAll(before)
    modifies output
    ensures r ==
            if a.headerVersion == 2 && FileSize(a.dtb) == 0 then Fail(EmptyDtb)
            else if AllPackable(V2Fields(a)) then Pass
            else Fail(StructError)
    ensures r.Pass? ==> AllPackable(before + V2Fields(a))
    ensures r.Pass? ==> output.data == PadTo(PackAll(before + V2Fields(a)), a.pagesize)
  {
    if a.headerVersion > 1 {
      if FileSize(a.dtb) == 0 {
        return Fail(EmptyDtb);
      }
      r := WriteFields(output, [Num(FileSize(a.dtb)), Field(U64, Int(a.base + a.dtbOffset))]);
      if r.Fail? {
        return;
      }
      PackAllConcat(before, V2Fields(a));
    } else {
      assert before + V2Fields(a) == before;
    }
    ChoicesArePowers(a.pagesize);
    PadFile(output, a.pagesize);
    return Pass;
  }

  method WriteHeader(a: BootArgs, sha1: seq<byte> -> seq<byte>, output: OutputFile) returns (r: Outcome<Error>)
    requires PageSizeChoice(a.pagesize) && FilesReady(a) && output.data == []
    modifies output, a.kernel, a.ramdisk, a.second, a.recoveryDtbo, a.dtb
    ensures FilesReady(a)
    ensures r == HeaderOutcome(a, sha1)
    ensures r.Pass? ==> output.data == Header(a, sha1)
  {
    if a.headerVersion > 4 {
      return Fail(UnsupportedVersion);
    }
    if a.headerVersion in {3, 4} {
      r := WriteHeaderV3AndAbove(a, output);
    } else {
      r := WriteLegacyHeader(a, sha1, output);
    }
  }

  /** Zeros without a signing key; otherwise avbtool's block, refused when it is too long. */
  method AddBootImageSignature(a: BootArgs, output: OutputFile, pagesize: nat,
                               ghost start: seq<byte>, ghost done: seq<seq<byte>>)
    returns (r: Outcome<Error>)
    requires IsPowerOfTwo(pagesize) && |start| % pagesize == 0
    requires output.data == AppendAll(start, done, pagesize)
    modifies output
    ensures r == if a.signature.Some? && |a.signature.value| > BOOT_IMAGE_V4_SIGNATURE_SIZE
                 then Fail(SignatureTooLong) else Pass
    ensures r.Pass? ==> output.data == AppendAll(start, done + [SignatureBlock(a)], pagesize)
  {
    AppendNext(start, done, SignatureBlock(a), pagesize);
    if a.signature.None? {
      output.Write(Zeros(BOOT_IMAGE_V4_SIGNATURE_SIZE));
      PadFile(output, pagesize);
      return Pass;
    }
    if |a.signature.value| > BOOT_IMAGE_V4_SIGNATURE_SIZE {
      return Fail(SignatureTooLong);
    }
    output.Write(a.signature.value);
    PadFile(output, pagesize);
    return Pass;
  }

  /** The sections of every version. */
  method WriteCommonData(a: BootArgs, output: OutputFile, pagesize: nat)
    requires IsPowerOfTwo(pagesize) && |output.data| % pagesize == 0
    requires FilesReady(a) && FilesDistinct(a)
    modifies output, a.kernel, a.ramdisk, a.second
    ensures output.data ==
            AppendAll(old(output.data), [Content(a.kernel), Content(a.ramdisk), Content(a.second)], pagesize)
  {
    ghost var start := output.data;
    WritePaddedFile(output, a.kernel, pagesize, start, []);
    WritePaddedFile(output, a.ramdisk, pagesize, start, [Content(a.kernel)]);
    WritePaddedFile(output, a.second, pagesize, start, [Content(a.kernel), Content(a.ramdisk)]);
  }

  method WriteData(a: BootArgs, output: OutputFile, pagesize: nat) returns (r: Outcome<Error>)
    requires IsPowerOfTwo(pagesize) && |output.data| % pagesize == 0
    requires FilesReady(a) && FilesDistinct(a)
    modifies output, a.kernel, a.ramdisk, a.second, a.recoveryDtbo, a.dtb
    ensures r == if SignatureFits(a) then Pass else Fail(SignatureTooLong)
    ensures r.Pass? ==> output.data == AppendAll(old(output.data), Sections(a), pagesize)
  {
    ghost var start := output.data;
    ghost var all := Sections(a);
    ghost var done := [Content(a.kernel), Content(a.ramdisk), Content(a.second)];
    WriteCommonData(a, output, pagesize);
    if 0 < a.headerVersion < 3 {
      WritePaddedFile(output, a.recoveryDtbo, pagesize, start, done);
      done := done + [Content(a.recoveryDtbo)];
    }
    if a.headerVersion == 2 {
      WritePaddedFile(output, a.dtb, pagesize, start, done);
      done := done + [Content(a.dtb)];
    }
    r := Pass;
    if a.headerVersion >= 4 {
      r := AddBootImageSignature(a, output, pagesize, start, done);
      done := done + [SignatureBlock(a)];
    }
    assert done == all;
  }

  lemma {:induction false} HeaderAligned(a: BootArgs, sha1: seq<byte> -> seq<byte>)
    requires PageSizeChoice(a.pagesize) && HeaderOutcome(a, sha1).Pass?
    ensures IsPowerOfTwo(DataPageSize(a)) && |Header(a, sha1)| % DataPageSize(a) == 0
  {
    ChoicesArePowers(DataPageSize(a));
    RoundUpBounds(|PackAll(HeaderFields(a, sha1))|, DataPageSize(a));
  }

  /** The boot image part of main. */
  method WriteBootImage(a: BootArgs, sha1: seq<byte> -> seq<byte>, output: OutputFile) returns (r: Outcome<Error>)
    requires PageSizeChoice(a.pagesize) && output.data == []
    requires FilesReady(a) && FilesDistinct(a)
    modifies output, a.kernel, a.ramdisk, a.second, a.recoveryDtbo, a.dtb
    ensures r == BootOutcome(a, sha1)
    ensures r.Pass? ==> output.data == Image(a, sha1)
  {
    if a.second != null && a.headerVersion > 2 {
      return Fail(SecondNotAllowed);
    }
    :- WriteHeader(a, sha1, output);
    var pagesize := a.pagesize;
    if a.headerVersion > 2 {
      pagesize := BOOT_IMAGE_HEADER_V3_PAGESIZE;
    }
    HeaderAligned(a, sha1);
    r := WriteData(a, output, pagesize);
  }
}
