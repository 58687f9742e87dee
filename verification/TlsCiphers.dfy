/** The cipher list builder: table lookup, then measure, allocate and fill. */
module TlsCiphers {
  import opened Bytes
  import opened Strings
  import opened Wrappers

  /** A name that a colon-separated list can hold. */
  predicate PlainName(name: string) {
    ':' !in name && name != ""
  }

  type CipherName = s: string | PlainName(s) witness "A"

  datatype Mapping = Mapping(iana: uint16, name: CipherName)

  datatype Status = Success | InvalidParameter | Unsupported | OutOfResources

  const UINTN_LIMIT := 0x1_0000_0000_0000_0000
  const POINTER_SIZE := 8
  const SEGMENT_LENGTH := 79

  /** IANA cipher suite numbers and OpenSSL names, sorted by number. */
  const TABLE: seq<Mapping> := TABLE_FRONT + TABLE_MIDDLE + (TABLE_BACK + TABLE_END)

  const TABLE_FRONT: seq<Mapping> :=
    [Mapping(0x0001, "NULL-MD5"),
     Mapping(0x0002, "NULL-SHA"),
     Mapping(0x0004, "RC4-MD5"),
     Mapping(0x0005, "RC4-SHA"),
     Mapping(0x000A, "DES-CBC3-SHA"),
     Mapping(0x0016, "DHE-RSA-DES-CBC3-SHA"),
     Mapping(0x002F, "AES128-SHA"),
     Mapping(0x0030, "DH-DSS-AES128-SHA"),
     Mapping(0x0031, "DH-RSA-AES128-SHA")]

  const TABLE_MIDDLE: seq<Mapping> :=
    [Mapping(0x0033, "DHE-RSA-AES128-SHA"),
     Mapping(0x0035, "AES256-SHA"),
     Mapping(0x0036, "DH-DSS-AES256-SHA"),
     Mapping(0x0037, "DH-RSA-AES256-SHA"),
     Mapping(0x0039, "DHE-RSA-AES256-SHA"),
     Mapping(0x003B, "NULL-SHA256"),
     Mapping(0x003C, "AES128-SHA256"),
     Mapping(0x003D, "AES256-SHA256"),
     Mapping(0x003E, "DH-DSS-AES128-SHA256")]

  const TABLE_BACK: seq<Mapping> :=
    [Mapping(0x003F, "DH-RSA-AES128-SHA256"),
     Mapping(0x0067, "DHE-RSA-AES128-SHA256"),
     Mapping(0x0068, "DH-DSS-AES256-SHA256"),
     Mapping(0x0069, "DH-RSA-AES256-SHA256"),
     Mapping(0x006B, "DHE-RSA-AES256-SHA256")]

  const TABLE_END: seq<Mapping> :=
    [Mapping(0x009F, "DHE-RSA-AES256-GCM-SHA384"),
     Mapping(0xC02B, "ECDHE-ECDSA-AES128-GCM-SHA256"),
     Mapping(0xC02C, "ECDHE-ECDSA-AES256-GCM-SHA384"),
     Mapping(0xC030, "ECDHE-RSA-AES256-GCM-SHA384")]

  predicate StrictlySorted(table: seq<Mapping>) {
    forall i, j :: 0 <= i < j < |table| ==> table[i].iana < table[j].iana
  }

  lemma {:induction false} SortedConcat(front: seq<Mapping>, back: seq<Mapping>)
    requires StrictlySorted(front) && StrictlySorted(back)
    requires front != [] && back != [] && front[|front| - 1].iana < back[0].iana
    ensures StrictlySorted(front + back)
  {
    var all := front + back;
    forall i, j | 0 <= i < j < |all|
      ensures all[i].iana < all[j].iana
    {
      if i < |front| <= j {
        assert front[i].iana <= front[|front| - 1].iana < back[0].iana <= back[j - |front|].iana;
      }
    }
  }

  lemma {:induction false} TableIsSorted()
    ensures StrictlySorted(TABLE)
  {
    SortedConcat(TABLE_FRONT, TABLE_MIDDLE);
    BackIsSorted();
    SortedConcat(TABLE_FRONT + TABLE_MIDDLE, TABLE_BACK + TABLE_END);
  }

  lemma {:induction false} BackIsSorted()
    ensures StrictlySorted(TABLE_BACK + TABLE_END)
  {
    SortedConcat(TABLE_BACK, TABLE_END);
  }

  /** The mapping with the given number, if there is one. */
  function Lookup(table: seq<Mapping>, id: uint16): Option<Mapping> {
    if table == [] then None
    else if table[0].iana == id then Some(table[0])
    else Lookup(table[1..], id)
  }

  lemma {:induction false} LookupFound(table: seq<Mapping>, k: nat)
    requires StrictlySorted(table) && k < |table|
    ensures Lookup(table, table[k].iana) == Some(table[k])
  {
    if k > 0 {
      LookupFound(table[1..], k - 1);
    }
  }

  lemma {:induction false} LookupMissing(table: seq<Mapping>, id: uint16)
    requires forall i :: 0 <= i < |table| ==> table[i].iana != id
    ensures Lookup(table, id) == None
  {
    if table != [] {
      LookupMissing(table[1..], id);
    }
  }

  /** Binary search: on a strictly sorted table it finds the number if and only if it is there. */
  method TlsGetCipherMapping(table: seq<Mapping>, cipherId: uint16) returns (r: Option<Mapping>)
    requires StrictlySorted(table)
    ensures r == Lookup(table, cipherId)
    ensures r.Some? ==> r.value in table && r.value.iana == cipherId
    ensures r.None? <==> forall i :: 0 <= i < |table| ==> table[i].iana != cipherId
  {
    var left, right := 0, |table| - 1;
    while right >= left
      invariant 0 <= left <= |table| && -1 <= right < |table|
      invariant forall i :: 0 <= i < left ==> table[i].iana < cipherId
      invariant forall i :: right < i < |table| ==> cipherId < table[i].iana
    {
      var middle := (left + right) / 2;
      if cipherId == table[middle].iana {
        LookupFound(table, middle);
        return Some(table[middle]);
      }
      if cipherId < table[middle].iana {
        right := middle - 1;
      } else {
        left := middle + 1;
      }
    }
    LookupMissing(table, cipherId);
    return None;
  }

  /** The names of the ids that can be mapped, in the caller's order. */
  function MappedNames(table: seq<Mapping>, ids: seq<uint16>): seq<CipherName> {
    if ids == [] then []
    else
      var front := MappedNames(table, ids[..|ids| - 1]);
      match Lookup(table, ids[|ids| - 1])
      case None => front
      case Some(m) => front + [m.name]
  }

  /** The colon-separated list handed to OpenSSL. */
  function CipherString(table: seq<Mapping>, ids: seq<uint16>): string {
    Join(MappedNames(table, ids), ':')
  }

  lemma {:induction false} MappedTake(table: seq<Mapping>, ids: seq<uint16>, k: nat)
    requires k < |ids|
    ensures MappedNames(table, ids[..k + 1]) ==
            match Lookup(table, ids[k])
            case None => MappedNames(table, ids[..k])
            case Some(m) => MappedNames(table, ids[..k]) + [m.name]
  {
    assert ids[..k + 1][..k] == ids[..k];
  }

  /** The list OpenSSL parses back: every mapped name, in preference order, duplicates kept. */
  lemma {:induction false} CipherStringParses(ids: seq<uint16>)
    requires MappedNames(TABLE, ids) != []
    ensures Split(CipherString(TABLE, ids), ':') == MappedNames(TABLE, ids)
  {
    SplitJoin(MappedNames(TABLE, ids), ':');
  }

  /** SafeUintnAdd, with None for EFI_BUFFER_TOO_SMALL. */
  function SafeUintnAdd(a: nat, b: nat): Option<nat> {
    if a + b < UINTN_LIMIT then Some(a + b) else None
  }

  lemma {:induction false} StringGrows(table: seq<Mapping>, ids: seq<uint16>, k: nat)
    requires k <= |ids|
    ensures |CipherString(table, ids[..k])| <= |CipherString(table, ids)|
    ensures |MappedNames(table, ids[..k])| <= |MappedNames(table, ids)|
    decreases |ids| - k
  {
    if k < |ids| {
      StringStep(table, ids, k);
      StringGrows(table, ids, k + 1);
    } else {
      assert ids[..k] == ids;
    }
  }

  lemma {:induction false} StringStep(table: seq<Mapping>, ids: seq<uint16>, k: nat)
    requires k < |ids|
    ensures match Lookup(table, ids[k])
            case None => MappedNames(table, ids[..k + 1]) == MappedNames(table, ids[..k])
            case Some(m) =>
              && MappedNames(table, ids[..k + 1]) == MappedNames(table, ids[..k]) + [m.name]
              && |CipherString(table, ids[..k + 1])| == |CipherString(table, ids[..k])| + |m.name|
                 + (if MappedNames(table, ids[..k]) == [] then 0 else 1)
  {
    MappedTake(table, ids, k);
    var names := MappedNames(table, ids[..k]);
    match Lookup(table, ids[k])
    case None =>
    case Some(m) => JoinAppend(names, m.name, ':');
  }

  /** Adds a name's length, with a colon before it unless it is the first; None on overflow. */
  method AddName(size: nat, count: nat, length: nat) returns (r: Option<nat>)
    ensures var total := size + (if count > 0 then 1 else 0) + length;
            r == if total < UINTN_LIMIT then Some(total) else None
  {
    var colon := Some(size);
    if count > 0 {
      colon := SafeUintnAdd(size, 1);
    }
    if colon.None? {
      return None;
    }
    r := SafeUintnAdd(colon.value, length);
  }

  function NamesOf(mappings: seq<Mapping>): (names: seq<CipherName>)
    ensures |names| == |mappings|
  {
    seq(|mappings|, i requires 0 <= i < |mappings| => mappings[i].name)
  }

  method Record(mapped: array<Mapping>, count: nat, mapping: Mapping)
    requires count < mapped.Length
    modifies mapped
    ensures NamesOf(mapped[..count + 1]) == old(NamesOf(mapped[..count])) + [mapping.name]
  {
    mapped[count] := mapping;
    assert mapped[..count] == old(mapped[..count]);
    assert mapped[..count + 1] == mapped[..count] + [mapping];
  }

  /** The first pass over the first ids: the names recorded, their number and their joined length. */
  ghost predicate Measured(table: seq<Mapping>, ids: seq<uint16>, k: nat, recorded: seq<CipherName>,
                           count: nat, size: nat)
    requires k <= |ids|
  {
    && recorded == MappedNames(table, ids[..k]) && count == |recorded|
    && size == |CipherString(table, ids[..k])| < UINTN_LIMIT
  }

  lemma {:induction false} MeasuredNext(table: seq<Mapping>, ids: seq<uint16>, k: nat, recorded: seq<CipherName>,
                                        count: nat, size: nat)
    requires k < |ids| && Measured(table, ids, k, recorded, count, size)
    ensures match Lookup(table, ids[k])
            case None => Measured(table, ids, k + 1, recorded, count, size)
            case Some(m) =>
              var total := size + (if count > 0 then 1 else 0) + |m.name|;
              && (total < UINTN_LIMIT ==> Measured(table, ids, k + 1, recorded + [m.name], count + 1, total))
              && (total >= UINTN_LIMIT ==> |CipherString(table, ids)| >= UINTN_LIMIT)
  {
    StringStep(table, ids, k);
    StringGrows(table, ids, k + 1);
  }

  /** First pass: records the mappings and adds up the string's length, failing on overflow. */
  method MeasureCiphers(table: seq<Mapping>, ids: seq<uint16>, mapped: array<Mapping>)
    returns (ok: bool, count: nat, size: nat)
    requires StrictlySorted(table) && mapped.Length == |ids|
    modifies mapped
    ensures ok <==> |CipherString(table, ids)| < UINTN_LIMIT
    ensures ok ==> count == |MappedNames(table, ids)| <= mapped.Length && size == |CipherString(table, ids)|
    ensures ok ==> NamesOf(mapped[..count]) == MappedNames(table, ids)
  {
    ok, count, size := true, 0, 0;
    for index := 0 to |ids|
      invariant ok && count <= index && Measured(table, ids, index, NamesOf(mapped[..count]), count, size)
    {
      ok, count, size := MeasureOne(table, ids[index], mapped, count, size, ids, index);
      if !ok {
        return;
      }
    }
    assert ids[..|ids|] == ids;
  }

  /** One id of the first pass: skipped, recorded, or too much. */
  method MeasureOne(table: seq<Mapping>, id: uint16, mapped: array<Mapping>, count: nat, size: nat,
                    ghost ids: seq<uint16>, ghost k: nat)
    returns (ok: bool, count': nat, size': nat)
    requires StrictlySorted(table) && k < |ids| && id == ids[k] && count < mapped.Length
    requires Measured(table, ids, k, NamesOf(mapped[..count]), count, size)
    modifies mapped
    ensures ok ==> count' <= count + 1 && Measured(table, ids, k + 1, NamesOf(mapped[..count']), count', size')
    ensures !ok ==> |CipherString(table, ids)| >= UINTN_LIMIT
  {
    MeasuredNext(table, ids, k, NamesOf(mapped[..count]), count, size);
    var mapping := TlsGetCipherMapping(table, id);
    if mapping.None? {
      return true, count, size;
    }
    var grown := AddName(size, count, |mapping.value.name|);
    if grown.None? {
      return false, 0, 0;
    }
    Record(mapped, count, mapping.value);
    return true, count + 1, grown.value;
  }

  /** Writes text at a position; everything before it stays. */
  method CopyMem(buffer: array<char>, position: nat, text: string)
    requires position + |text| <= buffer.Length
    modifies buffer
    ensures buffer[..position + |text|] == old(buffer[..position]) + text
  {
    forall i | 0 <= i < |text| {
      buffer[position + i] := text[i];
    }
    assert buffer[..position] == old(buffer[..position]);
    assert buffer[position..position + |text|] == text;
    assert buffer[..position + |text|] == buffer[..position] + buffer[position..position + |text|];
  }

  /** Second pass: writes the names with colons between them and a final NUL. */
  method FillCiphers(mapped: array<Mapping>, count: nat, buffer: array<char>, ghost names: seq<CipherName>)
    requires 0 < count == |names| <= mapped.Length
    requires NamesOf(mapped[..count]) == names
    requires buffer.Length == |Join(names, ':')| + 1
    modifies buffer
    ensures buffer[..] == Join(names, ':') + ['\0']
  {
    var position := 0;
    for index := 0 to count
      invariant position == |Join(names[..index], ':')| <= buffer.Length - 1
      invariant buffer[..position] == Join(names[..index], ':')
    {
      JoinPrefix(names, index, ':');
      if index > 0 {
        CopyMem(buffer, position, ":");
        position := position + 1;
      }
      CopyMem(buffer, position, mapped[index].name);
      position := position + |mapped[index].name|;
    }
    assert names[..count] == names;
    CopyMem(buffer, position, "\0");
    assert buffer[..position + 1] == buffer[..];
  }

  /** Logs the string in segments; the last may be shorter. */
  method LogSegments(text: string) returns (segments: seq<string>)
    ensures Concat(segments) == text
    ensures forall i :: 0 <= i < |segments| ==> 0 < |segments[i]| <= 79
    ensures forall i :: 0 <= i < |segments| - 1 ==> |segments[i]| == 79
  {
    segments := [];
    var position := 0;
    while position < |text|
      invariant 0 <= position <= |text| && Concat(segments) == text[..position]
      invariant forall i :: 0 <= i < |segments| ==> 0 < |segments[i]| <= SEGMENT_LENGTH
      invariant forall i :: 0 <= i < |segments| - 1 ==> |segments[i]| == SEGMENT_LENGTH
      invariant segments != [] && position < |text| ==> |segments[|segments| - 1]| == SEGMENT_LENGTH
    {
      var length := |text| - position;
      if length > SEGMENT_LENGTH {
        length := SEGMENT_LENGTH;
      }
      ghost var before := segments;
      segments := segments + [text[position..position + length]];
      assert segments[..|segments| - 1] == before;
      position := position + length;
    }
    assert text[..position] == text;
  }

  /** The status of the whole call, given what the allocator and OpenSSL answer. */
  function CipherStatus(table: seq<Mapping>, ids: seq<uint16>, allocMapped: bool, allocString: bool,
                        setCipherList: string -> int): Status
  {
    if |ids| * POINTER_SIZE >= UINTN_LIMIT || !allocMapped then OutOfResources
    else if MappedNames(table, ids) == [] then Unsupported
    else if |CipherString(table, ids)| + 1 >= UINTN_LIMIT || !allocString then OutOfResources
    else if setCipherList(CipherString(table, ids)) <= 0 then Unsupported
    else Success
  }

  /** No number of the list stands in the table. */
  predicate NoneKnown(table: seq<Mapping>, ids: seq<uint16>) {
    forall i, k :: 0 <= i < |ids| && 0 <= k < |table| ==> table[k].iana != ids[i]
  }

  lemma {:induction false} NothingMapped(table: seq<Mapping>, ids: seq<uint16>)
    requires StrictlySorted(table)
    ensures MappedNames(table, ids) == [] <==> NoneKnown(table, ids)
  {
    if ids != [] {
      var front, last := ids[..|ids| - 1], ids[|ids| - 1];
      NothingMapped(table, front);
      if k :| 0 <= k < |table| && table[k].iana == last {
        LookupFound(table, k);
      } else {
        LookupMissing(table, last);
        assert forall i :: 0 <= i < |front| ==> front[i] == ids[i];
      }
    }
  }

  /** The three answers of the call, and exactly when it gives them. */
  lemma {:induction false} CipherStatusExactly(table: seq<Mapping>, ids: seq<uint16>, allocMapped: bool,
                                               allocString: bool, setCipherList: string -> int)
    requires StrictlySorted(table)
    ensures var status, text := CipherStatus(table, ids, allocMapped, allocString, setCipherList),
                                CipherString(table, ids);
            var started, filled := |ids| * 8 < UINTN_LIMIT && allocMapped, |text| + 1 < UINTN_LIMIT && allocString;
            && (status == Success <==> started && !NoneKnown(table, ids) && filled && setCipherList(text) > 0)
            && (status == Unsupported <==>
                  started && (NoneKnown(table, ids) || (filled && setCipherList(text) <= 0)))
            && status in {Success, Unsupported, OutOfResources}
  {
    NothingMapped(table, ids);
  }

  /**
   * Returns the status, the C string handed to OpenSSL if the call got that far, and the
   * segments logged for it.
   */
  method TlsSetCipherList(table: seq<Mapping>, sslReady: bool, cipherId: array?<uint16>, cipherNum: nat,
                          allocMapped: bool, allocString: bool, setCipherList: string -> int)
    returns (status: Status, passed: Option<string>, log: seq<string>)
    requires StrictlySorted(table)
    requires cipherId != null ==> cipherNum <= cipherId.Length
    ensures !sslReady || cipherId == null ==> status == InvalidParameter && passed == None
    ensures sslReady && cipherId != null ==>
      status == CipherStatus(table, cipherId[..cipherNum], allocMapped, allocString, setCipherList)
    ensures passed.Some? <==>
      && sslReady && cipherId != null && cipherNum * POINTER_SIZE < UINTN_LIMIT && allocMapped
      && MappedNames(table, cipherId[..cipherNum]) != []
      && |CipherString(table, cipherId[..cipherNum])| + 1 < UINTN_LIMIT && allocString
    ensures passed.Some? ==>
      && passed.value == CipherString(table, cipherId[..cipherNum]) + ['\0']
      && Concat(log) == CipherString(table, cipherId[..cipherNum])
    ensures status == Success ==> passed.Some?
  {
    log, passed := [], None;
    if !sslReady || cipherId == null {
      return InvalidParameter, None, [];
    }
    if cipherNum * POINTER_SIZE >= UINTN_LIMIT || !allocMapped {
      return OutOfResources, None, [];
    }
    ghost var ids := cipherId[..cipherNum];
    ghost var names := MappedNames(table, ids);
    var mapped := new Mapping[cipherNum](_ => Mapping(0, "A"));
    var ok, count, size := MeasureCiphers(table, cipherId[..cipherNum], mapped);
    if !ok {
      assert names != [];
      return OutOfResources, None, [];
    }
    if count == 0 {
      return Unsupported, None, [];
    }
    var total := SafeUintnAdd(size, 1);
    if total.None? || !allocString {
      return OutOfResources, None, [];
    }
    var buffer := new char[total.value](_ => '\0');
    FillCiphers(mapped, count, buffer, names);
    var text := buffer[..total.value - 1];
    assert text == CipherString(table, ids);
    log := LogSegments(text);
    passed := Some(buffer[..]);
    status := if setCipherList(text) <= 0 then Unsupported else Success;
  }
}
