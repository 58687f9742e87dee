/** The vendor ramdisk table of vendor boot images from version 4 on. */
module VendorTable {
  import opened Bytes
  import opened Files
  import opened Pages
  import opened Struct
  import opened Wrappers
  import opened BootImage

  const VENDOR_RAMDISK_TYPE_PLATFORM := 1
  const VENDOR_RAMDISK_NAME_SIZE := 32
  const VENDOR_RAMDISK_TABLE_ENTRY_BOARD_ID_SIZE := 16
  const VENDOR_RAMDISK_TABLE_ENTRY_V4_SIZE := 108
  const DEFAULT_NAME: seq<byte> := [100, 101, 102, 97, 117, 108, 116]  // default

  datatype VendorError =
    | BannedName
    | DuplicatedName
    | BoardIdRange
    | BoardIdSize
    | FileNotFound

  /** The file system, unchanged while the tool runs. */
  type Disk = map<string, seq<byte>>

  datatype Entry = Entry(
    path: string, size: nat, offset: nat, ramdiskType: int, name: seq<byte>, boardId: seq<nat>)

  /** bytes.rstrip(b'\x00'). */
  function StripNulls(name: seq<byte>): seq<byte> {
    if name != [] && name[|name| - 1] == 0 then StripNulls(name[..|name| - 1]) else name
  }

  /** Exactly the zeros at the end go. */
  lemma {:induction false} StripsExactly(name: seq<byte>)
    ensures var s := StripNulls(name);
            && s <= name && (s != [] ==> s[|s| - 1] != 0)
            && forall i :: |s| <= i < |name| ==> name[i] == 0
  {
    if name != [] && name[|name| - 1] == 0 {
      StripsExactly(name[..|name| - 1]);
    }
  }

  /** Total size of the first k ramdisks. */
  function SizeBefore(entries: seq<Entry>, k: nat): nat
    requires k <= |entries|
  {
    if k == 0 then 0 else SizeBefore(entries, k - 1) + entries[k - 1].size
  }

  /** The first k ramdisks one after another. */
  function RamdisksBefore(entries: seq<Entry>, disk: Disk, k: nat): seq<byte>
    requires k <= |entries| && OnDisk(entries, disk)
  {
    if k == 0 then [] else RamdisksBefore(entries, disk, k - 1) + disk[entries[k - 1].path]
  }

  function TotalSize(entries: seq<Entry>): nat {
    SizeBefore(entries, |entries|)
  }

  function Ramdisks(entries: seq<Entry>, disk: Disk): seq<byte>
    requires OnDisk(entries, disk)
  {
    RamdisksBefore(entries, disk, |entries|)
  }

  predicate OnDisk(entries: seq<Entry>, disk: Disk) {
    forall i :: 0 <= i < |entries| ==> entries[i].path in disk && |disk[entries[i].path]| == entries[i].size
  }

  predicate OffsetsOk(entries: seq<Entry>) {
    forall i :: 0 <= i < |entries| ==> entries[i].offset == SizeBefore(entries, i)
  }

  predicate NamesOk(entries: seq<Entry>) {
    && (forall i :: 0 <= i < |entries| ==> StripNulls(entries[i].name) != DEFAULT_NAME)
    && (forall i, j :: 0 <= i < j < |entries| ==> StripNulls(entries[i].name) != StripNulls(entries[j].name))
  }

  predicate BoardIdsOk(entries: seq<Entry>) {
    forall i :: 0 <= i < |entries| ==> BoardIdOk(entries[i].boardId)
  }

  /** What every reachable table keeps. */
  predicate TableOk(entries: seq<Entry>, disk: Disk) {
    OnDisk(entries, disk) && OffsetsOk(entries) && NamesOk(entries) && BoardIdsOk(entries)
  }

  predicate BoardIdOk(boardId: seq<nat>) {
    |boardId| == VENDOR_RAMDISK_TABLE_ENTRY_BOARD_ID_SIZE
    && forall i :: 0 <= i < |boardId| ==> boardId[i] < Pow256(4)
  }

  class VendorRamdiskTableBuilder {
    var entries: seq<Entry>
    var ramdiskTotalSize: nat
    var ramdiskNames: set<seq<byte>>

    ghost predicate Valid(disk: Disk)
      reads this
    {
      && TableOk(entries, disk)
      && ramdiskTotalSize == TotalSize(entries)
      && forall i :: 0 <= i < |entries| ==> StripNulls(entries[i].name) in ramdiskNames
    }

    constructor ()
      ensures entries == [] && ramdiskTotalSize == 0 && ramdiskNames == {}
      ensures forall disk :: Valid(disk)
    {
      entries := [];
      ramdiskTotalSize := 0;
      ramdiskNames := {};
    }

    /**
     * Appends an entry, or raises. The name is recorded before the board id and the file are
     * looked at, so it stays taken when one of them is refused.
     */
    method AddEntry(disk: Disk, path: string, ramdiskType: int, name: seq<byte>, boardId: Option<seq<int>>)
      returns (r: Outcome<VendorError>)
      requires Valid(disk)
      modifies this
      ensures Valid(disk)
      ensures r == AddOutcome(disk, old(ramdiskNames), path, name, boardId)
      ensures r.Pass? ==>
        entries == old(entries)
          + [Entry(path, |disk[path]|, old(ramdiskTotalSize), ramdiskType, name, BoardIds(boardId))]
      ensures r.Pass? ==> ramdiskTotalSize == old(ramdiskTotalSize) + |disk[path]|
      ensures r.Fail? ==> entries == old(entries) && ramdiskTotalSize == old(ramdiskTotalSize)
      ensures ramdiskNames ==
        if r.Fail? && r.error in {BannedName, DuplicatedName} then old(ramdiskNames)
        else old(ramdiskNames) + {StripNulls(name)}
    {
      var stripped := StripNulls(name);
      if stripped == DEFAULT_NAME {
        return Fail(BannedName);
      }
      if stripped in ramdiskNames {
        return Fail(DuplicatedName);
      }
      ramdiskNames := ramdiskNames + {stripped};
      if boardId.Some? && exists i :: 0 <= i < |boardId.value| && !(0 <= boardId.value[i] < Pow256(4)) {
        return Fail(BoardIdRange);
      }
      var ids := BoardIds(boardId);
      if |ids| != VENDOR_RAMDISK_TABLE_ENTRY_BOARD_ID_SIZE {
        return Fail(BoardIdSize);
      }
      if path !in disk {
        return Fail(FileNotFound);
      }
      Append(disk, Entry(path, |disk[path]|, ramdiskTotalSize, ramdiskType, name, ids));
      return Pass;
    }

    method Append(ghost disk: Disk, entry: Entry)
      requires TableOk(entries, disk) && ramdiskTotalSize == TotalSize(entries)
      requires entry.path in disk && entry.size == |disk[entry.path]| && entry.offset == ramdiskTotalSize
      requires StripNulls(entry.name) != DEFAULT_NAME && BoardIdOk(entry.boardId)
      requires forall i :: 0 <= i < |entries| ==> StripNulls(entries[i].name) != StripNulls(entry.name)
      modifies this`entries, this`ramdiskTotalSize
      ensures entries == old(entries) + [entry] && ramdiskTotalSize == old(ramdiskTotalSize) + entry.size
      ensures TableOk(entries, disk) && ramdiskTotalSize == TotalSize(entries)
    {
      TableGrows(entries, entry, disk);
      entries := entries + [entry];
      ramdiskTotalSize := ramdiskTotalSize + entry.size;
    }
  }

  /** array.array('I', ...) of the given ids, zeros when none are given. */
  function BoardIds(boardId: Option<seq<int>>): (ids: seq<nat>)
    ensures boardId.None? ==> BoardIdOk(ids) && forall i :: 0 <= i < |ids| ==> ids[i] == 0
    ensures boardId.Some? ==> |ids| == |boardId.value|
    ensures boardId.Some? ==>
      forall i :: 0 <= i < |ids| && boardId.value[i] >= 0 ==> ids[i] == boardId.value[i]
  {
    match boardId
    case None => seq(VENDOR_RAMDISK_TABLE_ENTRY_BOARD_ID_SIZE, _ => 0)
    case Some(ids) => seq(|ids|, i requires 0 <= i < |ids| => if ids[i] < 0 then 0 else ids[i])
  }

  function AddOutcome(disk: Disk, names: set<seq<byte>>, path: string, name: seq<byte>, boardId: Option<seq<int>>)
    : Outcome<VendorError>
  {
    if StripNulls(name) == DEFAULT_NAME then Fail(BannedName)
    else if StripNulls(name) in names then Fail(DuplicatedName)
    else if boardId.Some? && exists i :: 0 <= i < |boardId.value| && !(0 <= boardId.value[i] < Pow256(4))
      then Fail(BoardIdRange)
    else if |BoardIds(boardId)| != VENDOR_RAMDISK_TABLE_ENTRY_BOARD_ID_SIZE then Fail(BoardIdSize)
    else if path !in disk then Fail(FileNotFound)
    else Pass
  }

  lemma {:induction false} BannedNameIs()
    ensures DEFAULT_NAME == Ascii("default")
  {
  }

  /** The exceptions of add_entry, and exactly when each is raised. */
  lemma {:induction false} AddEndsExactly(disk: Disk, names: set<seq<byte>>, path: string, name: seq<byte>,
                                          boardId: Option<seq<int>>)
    ensures var r, stripped := AddOutcome(disk, names, path, name, boardId), StripNulls(name);
            var inRange := boardId.Some? ==>
              forall i :: 0 <= i < |boardId.value| ==> 0 <= boardId.value[i] < 0x1_0000_0000;
            var sixteen := boardId.Some? ==> |boardId.value| == 16;
            && (r == Fail(BannedName) <==> stripped == Ascii("default"))
            && (r == Fail(DuplicatedName) <==> stripped != Ascii("default") && stripped in names)
            && (stripped != Ascii("default") && stripped !in names ==>
                  && (r == Fail(BoardIdRange) <==> !inRange)
                  && (r == Fail(BoardIdSize) <==> inRange && !sixteen)
                  && (r == Fail(FileNotFound) <==> inRange && sixteen && path !in disk)
                  && (r == Pass <==> inRange && sixteen && path in disk))
  {
    BannedNameIs();
    assert Pow256(4) == 0x1_0000_0000;
  }

  lemma {:induction false} SizeBeforeStays(entries: seq<Entry>, e: Entry, k: nat)
    requires k <= |entries|
    ensures SizeBefore(entries + [e], k) == SizeBefore(entries, k)
  {
    if k > 0 {
      SizeBeforeStays(entries, e, k - 1);
    }
  }

  lemma {:induction false} OffsetsGrow(entries: seq<Entry>, e: Entry)
    requires OffsetsOk(entries) && e.offset == TotalSize(entries)
    ensures OffsetsOk(entries + [e])
    ensures TotalSize(entries + [e]) == TotalSize(entries) + e.size
  {
    var es := entries + [e];
    forall i | 0 <= i < |es|
      ensures es[i].offset == SizeBefore(es, i)
    {
      SizeBeforeStays(entries, e, i);
    }
    SizeBeforeStays(entries, e, |entries|);
  }

  lemma {:induction false} NamesGrow(entries: seq<Entry>, e: Entry)
    requires NamesOk(entries) && StripNulls(e.name) != DEFAULT_NAME
    requires forall i :: 0 <= i < |entries| ==> StripNulls(entries[i].name) != StripNulls(e.name)
    ensures NamesOk(entries + [e])
  {
    var es := entries + [e];
    assert forall i :: 0 <= i < |entries| ==> es[i] == entries[i];
  }

  lemma {:induction false} TableGrows(entries: seq<Entry>, e: Entry, disk: Disk)
    requires TableOk(entries, disk)
    requires e.path in disk && e.size == |disk[e.path]| && e.offset == TotalSize(entries)
    requires StripNulls(e.name) != DEFAULT_NAME && BoardIdOk(e.boardId)
    requires forall i :: 0 <= i < |entries| ==> StripNulls(entries[i].name) != StripNulls(e.name)
    ensures TableOk(entries + [e], disk)
    ensures TotalSize(entries + [e]) == TotalSize(entries) + e.size
  {
    OffsetsGrow(entries, e);
    NamesGrow(entries, e);
    assert OnDisk(entries + [e], disk);
    assert BoardIdsOk(entries + [e]);
  }

  lemma {:induction false} RamdisksLength(entries: seq<Entry>, disk: Disk, k: nat)
    requires k <= |entries| && OnDisk(entries, disk)
    ensures |RamdisksBefore(entries, disk, k)| == SizeBefore(entries, k)
  {
    if k > 0 {
      RamdisksLength(entries, disk, k - 1);
    }
  }

  /** Within the first m ramdisks, ramdisk k is the slice its prefix sum and size name. */
  lemma {:induction false} RamdiskBefore(entries: seq<Entry>, disk: Disk, k: nat, m: nat)
    requires OnDisk(entries, disk) && k < m <= |entries|
    ensures SizeBefore(entries, k) + entries[k].size <= |RamdisksBefore(entries, disk, m)|
    ensures RamdisksBefore(entries, disk, m)[SizeBefore(entries, k)..SizeBefore(entries, k) + entries[k].size]
         == disk[entries[k].path]
    decreases m
  {
    RamdisksLength(entries, disk, m - 1);
    var front := RamdisksBefore(entries, disk, m - 1);
    var all := RamdisksBefore(entries, disk, m);
    assert all == front + disk[entries[m - 1].path];
    if k < m - 1 {
      RamdiskBefore(entries, disk, k, m - 1);
      var lo := SizeBefore(entries, k);
      assert all[lo..lo + entries[k].size] == front[lo..lo + entries[k].size];
    }
  }

  /** The ramdisk of an entry is the slice of the first section that its offset and size name. */
  lemma {:induction false} RamdiskAt(entries: seq<Entry>, disk: Disk, k: nat)
    requires TableOk(entries, disk) && k < |entries|
    ensures Slice(Ramdisks(entries, disk), entries[k].offset, entries[k].size) == disk[entries[k].path]
  {
    RamdiskBefore(entries, disk, k, |entries|);
  }

  /** One vendor_ramdisk_fragment option group. */
  datatype Group = Group(path: string, ramdiskType: int, name: seq<byte>, boardId: seq<int>)

  /** What one call of add_entry asks for. */
  datatype Request = Request(path: string, ramdiskType: int, name: seq<byte>, boardId: Option<seq<int>>)

  /** The default ramdisk, unnamed and for every board, and then the groups. */
  function Requests(vendorRamdisk: Option<string>, groups: seq<Group>): seq<Request> {
    (if vendorRamdisk.Some? then [Request(vendorRamdisk.value, VENDOR_RAMDISK_TYPE_PLATFORM, [], None)] else [])
    + seq(|groups|, i requires 0 <= i < |groups| => GroupRequest(groups[i]))
  }

  function GroupRequest(g: Group): Request {
    Request(g.path, g.ramdiskType, g.name, Some(g.boardId))
  }

  /** A request that can be met, whatever the others are. */
  predicate Sound(disk: Disk, request: Request) {
    && StripNulls(request.name) != DEFAULT_NAME
    && request.path in disk
    && (request.boardId.Some? ==>
          && |request.boardId.value| == VENDOR_RAMDISK_TABLE_ENTRY_BOARD_ID_SIZE
          && forall i :: 0 <= i < |request.boardId.value| ==> 0 <= request.boardId.value[i] < Pow256(4))
  }

  /** The first n requests can be met one by one and differ in their names. */
  predicate Acceptable(disk: Disk, requests: seq<Request>, n: nat)
    requires n <= |requests|
  {
    && (forall i :: 0 <= i < n ==> Sound(disk, requests[i]))
    && (forall i, j :: 0 <= i < j < n ==> StripNulls(requests[i].name) != StripNulls(requests[j].name))
  }

  function NamesBefore(requests: seq<Request>, n: nat): set<seq<byte>>
    requires n <= |requests|
  {
    if n == 0 then {} else NamesBefore(requests, n - 1) + {StripNulls(requests[n - 1].name)}
  }

  lemma {:induction false} TakenExactly(requests: seq<Request>, n: nat, name: seq<byte>)
    requires n <= |requests|
    ensures name in NamesBefore(requests, n) <==> exists i :: 0 <= i < n && StripNulls(requests[i].name) == name
  {
    if n > 0 {
      TakenExactly(requests, n - 1, name);
    }
  }

  /** How the n-th request ends when those before it were met. */
  function RequestOutcome(disk: Disk, requests: seq<Request>, n: nat): Outcome<VendorError>
    requires n < |requests|
  {
    var r := requests[n];
    AddOutcome(disk, NamesBefore(requests, n), r.path, r.name, r.boardId)
  }

  predicate Answers(disk: Disk, entry: Entry, request: Request) {
    && entry.path == request.path && entry.path in disk && entry.size == |disk[entry.path]|
    && entry.ramdiskType == request.ramdiskType && entry.name == request.name
    && entry.boardId == BoardIds(request.boardId)
  }

  /** The entries answer the first requests, one for one. */
  predicate AllAnswer(disk: Disk, entries: seq<Entry>, requests: seq<Request>) {
    |entries| <= |requests| && forall i :: 0 <= i < |entries| ==> Answers(disk, entries[i], requests[i])
  }

  /** Each of the first n requests was met when its turn came. */
  predicate Met(disk: Disk, requests: seq<Request>, n: nat)
    requires n <= |requests|
  {
    n == 0 || (Met(disk, requests, n - 1) && RequestOutcome(disk, requests, n - 1).Pass?)
  }

  function EntryOf(disk: Disk, request: Request, offset: nat): Entry {
    Entry(request.path, if request.path in disk then |disk[request.path]| else 0, offset,
          request.ramdiskType, request.name, BoardIds(request.boardId))
  }

  function EntriesOf(disk: Disk, requests: seq<Request>, n: nat): (entries: seq<Entry>)
    requires n <= |requests|
    ensures |entries| == n
  {
    if n == 0 then []
    else
      var front := EntriesOf(disk, requests, n - 1);
      front + [EntryOf(disk, requests[n - 1], TotalSize(front))]
  }

  /** The table of the first n requests, with their names taken. */
  ghost predicate Collected(builder: VendorRamdiskTableBuilder, disk: Disk, requests: seq<Request>, n: nat)
    requires n <= |requests|
    reads builder
  {
    && builder.Valid(disk) && Met(disk, requests, n)
    && builder.ramdiskNames == NamesBefore(requests, n)
    && builder.entries == EntriesOf(disk, requests, n)
  }

  /** Requests are met one by one exactly when all are sound and no name occurs twice. */
  lemma {:induction false} MetExactly(disk: Disk, requests: seq<Request>, n: nat)
    requires n <= |requests|
    ensures Met(disk, requests, n) <==> Acceptable(disk, requests, n)
  {
    if n > 0 {
      MetExactly(disk, requests, n - 1);
      AcceptableStep(disk, requests, n - 1);
      assert RequestOutcome(disk, requests, n - 1).Pass? <==>
        Sound(disk, requests[n - 1]) && StripNulls(requests[n - 1].name) !in NamesBefore(requests, n - 1);
    }
  }

  lemma {:induction false} AcceptableStep(disk: Disk, requests: seq<Request>, n: nat)
    requires n < |requests|
    ensures Acceptable(disk, requests, n + 1) <==>
      && Acceptable(disk, requests, n) && Sound(disk, requests[n])
      && StripNulls(requests[n].name) !in NamesBefore(requests, n)
  {
    TakenExactly(requests, n, StripNulls(requests[n].name));
  }

  lemma {:induction false} EntriesAnswer(disk: Disk, requests: seq<Request>, n: nat)
    requires n <= |requests| && Met(disk, requests, n)
    ensures AllAnswer(disk, EntriesOf(disk, requests, n), requests)
  {
    if n > 0 {
      EntriesAnswer(disk, requests, n - 1);
      var front := EntriesOf(disk, requests, n - 1);
      AnswerGrows(disk, front, EntryOf(disk, requests[n - 1], TotalSize(front)), requests);
    }
  }

  lemma {:induction false} AnswerGrows(disk: Disk, entries: seq<Entry>, e: Entry, requests: seq<Request>)
    requires |entries| < |requests| && AllAnswer(disk, entries, requests)
    requires Answers(disk, e, requests[|entries|])
    ensures AllAnswer(disk, entries + [e], requests)
  {
  }

  method Collect(builder: VendorRamdiskTableBuilder, disk: Disk, request: Request,
                 ghost requests: seq<Request>, ghost n: nat)
    returns (r: Outcome<VendorError>)
    requires n < |requests| && request == requests[n] && Collected(builder, disk, requests, n)
    modifies builder
    ensures r == RequestOutcome(disk, requests, n)
    ensures r.Pass? ==> Collected(builder, disk, requests, n + 1)
    ensures r.Fail? ==> builder.Valid(disk) && builder.entries == old(builder.entries)
  {
    r := builder.AddEntry(disk, request.path, request.ramdiskType, request.name, request.boardId);
  }

  /**
   * How the collection ends: it passes exactly when all requests can be met, and fails with the
   * first that cannot; the entries answer the requests met, one for one.
   */
  predicate Parsed(disk: Disk, requests: seq<Request>, r: Outcome<VendorError>, entries: seq<Entry>) {
    && AllAnswer(disk, entries, requests)
    && (r.Pass? <==> Acceptable(disk, requests, |requests|))
    && (r.Pass? <==> |entries| == |requests|)
    && (r.Fail? ==> r == RequestOutcome(disk, requests, |entries|))
  }

  /** Stopping behind the last request, or at one that is not met, ends the collection. */
  lemma {:induction false} StopsThere(disk: Disk, requests: seq<Request>, r: Outcome<VendorError>, entries: seq<Entry>)
    requires |entries| <= |requests| && Met(disk, requests, |entries|)
    requires entries == EntriesOf(disk, requests, |entries|)
    requires if r.Pass? then |entries| == |requests|
             else |entries| < |requests| && r == RequestOutcome(disk, requests, |entries|)
    ensures Parsed(disk, requests, r, entries)
  {
    EntriesAnswer(disk, requests, |entries|);
    MetExactly(disk, requests, |entries|);
    if r.Fail? {
      MetExactly(disk, requests, |entries| + 1);
    }
  }

  lemma {:induction false} RequestOfGroup(vendorRamdisk: Option<string>, groups: seq<Group>, k: nat)
    requires k < |groups|
    ensures var requests := Requests(vendorRamdisk, groups);
            requests[|requests| - |groups| + k] == GroupRequest(groups[k])
  {
  }

  /** One option group, behind the default ramdisk, if there is one, and the groups before it. */
  method CollectGroup(builder: VendorRamdiskTableBuilder, disk: Disk, groups: seq<Group>, k: nat,
                      ghost vendorRamdisk: Option<string>, ghost n: nat)
    returns (r: Outcome<VendorError>)
    requires k < |groups| && n == |Requests(vendorRamdisk, groups)| - |groups| + k
    requires Collected(builder, disk, Requests(vendorRamdisk, groups), n)
    modifies builder
    ensures r.Pass? ==> Collected(builder, disk, Requests(vendorRamdisk, groups), n + 1)
    ensures r.Fail? ==> builder.Valid(disk) && Parsed(disk, Requests(vendorRamdisk, groups), r, builder.entries)
  {
    ghost var requests := Requests(vendorRamdisk, groups);
    RequestOfGroup(vendorRamdisk, groups, k);
    r := Collect(builder, disk, GroupRequest(groups[k]), requests, n);
    if r.Fail? {
      StopsThere(disk, requests, r, builder.entries);
    }
  }

  /** The option groups in order, up to the first that cannot be met. */
  method CollectGroups(builder: VendorRamdiskTableBuilder, disk: Disk, groups: seq<Group>,
                       ghost vendorRamdisk: Option<string>)
    returns (r: Outcome<VendorError>)
    requires var requests := Requests(vendorRamdisk, groups);
             Collected(builder, disk, requests, |requests| - |groups|)
    modifies builder
    ensures var requests := Requests(vendorRamdisk, groups);
            if r.Pass? then Collected(builder, disk, requests, |requests|)
            else builder.Valid(disk) && Parsed(disk, requests, r, builder.entries)
  {
    ghost var requests := Requests(vendorRamdisk, groups);
    ghost var n := |requests| - |groups|;
    for k := 0 to |groups|
      invariant n == |requests| - |groups| + k && Collected(builder, disk, requests, n)
    {
      r := CollectGroup(builder, disk, groups, k, vendorRamdisk, n);
      if r.Fail? {
        return;
      }
      n := n + 1;
    }
    r := Pass;
  }

  /** Collects the default ramdisk and the option groups in order, up to the first exception. */
  method ParseVendorRamdiskArgs(disk: Disk, vendorRamdisk: Option<string>, groups: seq<Group>)
    returns (r: Outcome<VendorError>, builder: VendorRamdiskTableBuilder)
    ensures fresh(builder) && builder.Valid(disk)
    ensures Parsed(disk, Requests(vendorRamdisk, groups), r, builder.entries)
  {
    builder := new VendorRamdiskTableBuilder();
    ghost var requests := Requests(vendorRamdisk, groups);
    if vendorRamdisk.Some? {
      var request := Request(vendorRamdisk.value, VENDOR_RAMDISK_TYPE_PLATFORM, [], None);
      r := Collect(builder, disk, request, requests, 0);
      if r.Fail? {
        StopsThere(disk, requests, r, builder.entries);
        return;
      }
    }
    r := CollectGroups(builder, disk, groups, vendorRamdisk);
    if r.Pass? {
      StopsThere(disk, requests, r, builder.entries);
    }
  }

  /** The default ramdisk of a collection that passes: the first entry, unnamed, for every board. */
  lemma {:induction false} DefaultEntrySays(disk: Disk, path: string, groups: seq<Group>,
                                            r: Outcome<VendorError>, entries: seq<Entry>)
    requires Parsed(disk, Requests(Some(path), groups), r, entries) && r.Pass?
    ensures |entries| == 1 + |groups|
    ensures entries[0].path == path && path in disk && entries[0].size == |disk[path]|
    ensures entries[0].ramdiskType == 1 && entries[0].name == []
    ensures |entries[0].boardId| == 16 && forall j :: 0 <= j < 16 ==> entries[0].boardId[j] == 0
  {
    assert Answers(disk, entries[0], Requests(Some(path), groups)[0]);
  }

  /** Each group's entry, behind that of the default ramdisk, if one was given. */
  lemma {:induction false} GroupEntrySays(disk: Disk, vendorRamdisk: Option<string>, groups: seq<Group>,
                                          r: Outcome<VendorError>, entries: seq<Entry>, k: nat) returns (e: Entry)
    requires Parsed(disk, Requests(vendorRamdisk, groups), r, entries) && r.Pass? && k < |groups|
    ensures |entries| == (if vendorRamdisk.Some? then 1 else 0) + |groups|
    ensures e == entries[if vendorRamdisk.Some? then 1 + k else k]
    ensures e.path == groups[k].path && e.path in disk && e.size == |disk[e.path]|
    ensures e.ramdiskType == groups[k].ramdiskType && e.name == groups[k].name && e.boardId == groups[k].boardId
  {
    var requests, i := Requests(vendorRamdisk, groups), if vendorRamdisk.Some? then 1 + k else k;
    RequestOfGroup(vendorRamdisk, groups, k);
    e := entries[i];
    assert Answers(disk, e, requests[i]) && Sound(disk, requests[i]);
    SameIds(groups[k].boardId);
  }

  lemma {:induction false} SameIds(ids: seq<int>)
    requires forall i :: 0 <= i < |ids| ==> ids[i] >= 0
    ensures BoardIds(Some(ids)) == ids
  {
  }
}
