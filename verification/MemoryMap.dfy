/** From the platform memory map to the MMU table and the two HOB lists. */
module MemoryMap {
  import opened Wrappers

  const MAX_ARM_MEMORY_REGION_DESCRIPTOR_COUNT := 128

  /** MaxMem stands for every other value of the enumeration. */
  datatype HobOption = NoHob | AddMem | AddDev | HobOnlyNoCacheSetting | AllocOnly | MaxMem

  datatype ResourceType = SystemMemory | OtherResource(code: nat)

  datatype MemoryType = RuntimeServicesData | OtherMemory(kind: nat)

  datatype Descriptor = Descriptor(
    address: nat, length: nat, hobOption: HobOption,
    resourceType: ResourceType, resourceAttribute: nat, memoryType: MemoryType, armAttributes: nat)

  datatype Region = Region(physicalBase: nat, virtualBase: nat, length: nat, attributes: nat)

  datatype ResourceHob = ResourceHob(resourceType: ResourceType, attribute: nat, address: nat, length: nat)

  datatype AllocationHob = AllocationHob(address: nat, length: nat, memoryType: MemoryType)

  const TERMINATOR := Region(0, 0, 0, 0)

  /** Whether the MMU table gets the entry: everything but the one option without cache setting. */
  predicate Mapped(d: Descriptor) {
    d.hobOption != HobOnlyNoCacheSetting
  }

  /** Whether a resource HOB is built: a HOB option is set and it is not allocation only. */
  predicate Resource(d: Descriptor) {
    d.hobOption in {AddMem, AddDev, HobOnlyNoCacheSetting}
  }

  /** Whether an allocation HOB is built: a HOB option is set, for system memory or runtime data. */
  predicate Allocation(d: Descriptor) {
    d.hobOption in {AddMem, AddDev, HobOnlyNoCacheSetting, AllocOnly}
    && (d.resourceType == SystemMemory || d.memoryType == RuntimeServicesData)
  }

  /** What each option asks for. */
  lemma {:induction false} OptionsExactly(d: Descriptor)
    ensures var special := d.resourceType == SystemMemory || d.memoryType == RuntimeServicesData;
            match d.hobOption
            case NoHob => Mapped(d) && !Resource(d) && !Allocation(d)
            case MaxMem => Mapped(d) && !Resource(d) && !Allocation(d)
            case AddMem => Mapped(d) && Resource(d) && (Allocation(d) <==> special)
            case AddDev => Mapped(d) && Resource(d) && (Allocation(d) <==> special)
            case AllocOnly => Mapped(d) && !Resource(d) && (Allocation(d) <==> special)
            case HobOnlyNoCacheSetting => !Mapped(d) && Resource(d) && (Allocation(d) <==> special)
  {
  }

  /** The descriptors with the property, in order. */
  function Select(ds: seq<Descriptor>, p: Descriptor -> bool): (chosen: seq<Descriptor>)
    ensures |chosen| <= |ds|
  {
    if ds == [] then []
    else
      var front, last := Select(ds[..|ds| - 1], p), ds[|ds| - 1];
      if p(last) then front + [last] else front
  }

  function Regions(ds: seq<Descriptor>): (rs: seq<Region>)
    ensures |rs| == |ds|
  {
    seq(|ds|, i requires 0 <= i < |ds| => Region(ds[i].address, ds[i].address, ds[i].length, ds[i].armAttributes))
  }

  function Resources(ds: seq<Descriptor>): (hs: seq<ResourceHob>)
    ensures |hs| == |ds|
  {
    seq(|ds|, i requires 0 <= i < |ds| =>
      ResourceHob(ds[i].resourceType, ds[i].resourceAttribute, ds[i].address, ds[i].length))
  }

  function Allocations(ds: seq<Descriptor>): (hs: seq<AllocationHob>)
    ensures |hs| == |ds|
  {
    seq(|ds|, i requires 0 <= i < |ds| => AllocationHob(ds[i].address, ds[i].length, ds[i].memoryType))
  }

  /** A HOB and a table entry carry their descriptor's values, field by field. */
  lemma {:induction false} FieldsCarried(ds: seq<Descriptor>, i: nat)
    requires i < |ds|
    ensures var r, a, m, d := Resources(ds)[i], Allocations(ds)[i], Regions(ds)[i], ds[i];
            && r.address == a.address == m.physicalBase == m.virtualBase == d.address
            && r.length == a.length == m.length == d.length
            && r.resourceType == d.resourceType && r.attribute == d.resourceAttribute
            && a.memoryType == d.memoryType && m.attributes == d.armAttributes
  {
  }

  lemma {:induction false} SelectTake(ds: seq<Descriptor>, p: Descriptor -> bool, k: nat)
    requires k < |ds|
    ensures Select(ds[..k + 1], p) == Select(ds[..k], p) + (if p(ds[k]) then [ds[k]] else [])
  {
    assert ds[..k + 1][..k] == ds[..k];
    assert Select(ds[..k], p) + [] == Select(ds[..k], p);
  }

  lemma {:induction false} SelectGrows(ds: seq<Descriptor>, p: Descriptor -> bool, k: nat)
    requires k <= |ds|
    ensures |Select(ds[..k], p)| <= |Select(ds, p)|
    decreases |ds| - k
  {
    if k < |ds| {
      SelectTake(ds, p, k);
      SelectGrows(ds, p, k + 1);
    } else {
      assert ds[..k] == ds;
    }
  }

  /** The HOB lists built so far. */
  class HobList {
    var resources: seq<ResourceHob>
    var allocations: seq<AllocationHob>

    constructor ()
      ensures resources == [] && allocations == []
    {
      resources, allocations := [], [];
    }
  }

  method AddHob(d: Descriptor, hobs: HobList)
    modifies hobs
    ensures hobs.resources == old(hobs.resources) +
      (if d.hobOption != AllocOnly
       then [ResourceHob(d.resourceType, d.resourceAttribute, d.address, d.length)] else [])
    ensures hobs.allocations == old(hobs.allocations) +
      (if d.resourceType == SystemMemory || d.memoryType == RuntimeServicesData
       then [AllocationHob(d.address, d.length, d.memoryType)] else [])
  {
    if d.hobOption != AllocOnly {
      hobs.resources := hobs.resources + [ResourceHob(d.resourceType, d.resourceAttribute, d.address, d.length)];
    }
    if d.resourceType == SystemMemory || d.memoryType == RuntimeServicesData {
      hobs.allocations := hobs.allocations + [AllocationHob(d.address, d.length, d.memoryType)];
    }
  }

  /** One step of the switch: HOBs for the options that ask for them. */
  method HobStep(d: Descriptor, hobs: HobList, ghost ds: seq<Descriptor>, ghost k: nat)
    requires k < |ds| && ds[k] == d
    requires hobs.resources == Resources(Select(ds[..k], Resource))
    requires hobs.allocations == Allocations(Select(ds[..k], Allocation))
    modifies hobs
    ensures hobs.resources == Resources(Select(ds[..k + 1], Resource))
    ensures hobs.allocations == Allocations(Select(ds[..k + 1], Allocation))
  {
    SelectTake(ds, Resource, k);
    SelectTake(ds, Allocation, k);
    match d.hobOption
    case AddMem | AddDev | HobOnlyNoCacheSetting | AllocOnly =>
      AddHob(d, hobs);
    case NoHob | MaxMem =>
  }

  method Store(table: array<Region>, index: nat, region: Region)
    requires index < table.Length
    modifies table
    ensures table[..index + 1] == old(table[..index]) + [region]
  {
    table[index] := region;
  }

  /** The regions so far, with the next descriptor's unless it is left out. */
  lemma {:induction false} RegionsStep(ds: seq<Descriptor>, k: nat)
    requires k < |ds|
    ensures var d, before := ds[k], Regions(Select(ds[..k], Mapped));
            Regions(Select(ds[..k + 1], Mapped)) ==
            if d.hobOption == HobOnlyNoCacheSetting then before
            else before + [Region(d.address, d.address, d.length, d.armAttributes)]
    ensures |Regions(Select(ds[..k + 1], Mapped))| <= |Regions(Select(ds, Mapped))|
  {
    SelectTake(ds, Mapped, k);
    SelectGrows(ds, Mapped, k + 1);
  }

  /**
   * Scans the descriptors before the first of length zero. Completes if and only if the mapped
   * ones and the terminator fit the table; otherwise an assertion of the source stops it.
   */
  method MemoryPeim(memoryMap: seq<Descriptor>, table: array<Region>, hobs: HobList, ghost n: nat)
    returns (completed: bool)
    requires n < |memoryMap| && memoryMap[n].length == 0
    requires forall i :: 0 <= i < n ==> memoryMap[i].length != 0
    requires table.Length == MAX_ARM_MEMORY_REGION_DESCRIPTOR_COUNT
    requires hobs.resources == [] && hobs.allocations == []
    modifies table, hobs
    ensures var mapped := Regions(Select(memoryMap[..n], Mapped));
            && (completed <==> |mapped| < table.Length)
            && (completed ==> table[..|mapped|] == mapped && table[|mapped|] == Region(0, 0, 0, 0))
    ensures completed ==> hobs.resources == Resources(Select(memoryMap[..n], Resource))
    ensures completed ==> hobs.allocations == Allocations(Select(memoryMap[..n], Allocation))
  {
    var position, index := 0, 0;
    ghost var ds := memoryMap[..n];
    while memoryMap[position].length != 0
      invariant 0 <= position <= n && 0 <= index <= table.Length
      invariant table[..index] == Regions(Select(ds[..position], Mapped))
      invariant hobs.resources == Resources(Select(ds[..position], Resource))
      invariant hobs.allocations == Allocations(Select(ds[..position], Allocation))
      decreases n - position
    {
      var d := memoryMap[position];
      HobStep(d, hobs, ds, position);
      RegionsStep(ds, position);
      position := position + 1;
      if d.hobOption == HobOnlyNoCacheSetting {
        continue;
      }
      if index >= table.Length {
        return false;
      }
      Store(table, index, Region(d.address, d.address, d.length, d.armAttributes));
      index := index + 1;
    }
    assert ds[..position] == ds;
    if index >= table.Length {
      return false;
    }
    Store(table, index, TERMINATOR);
    assert table[..index + 1][..index] == table[..index];
    return true;
  }

  predicate Disjoint(aBase: nat, aLength: nat, bBase: nat, bLength: nat) {
    aBase + aLength <= bBase || bBase + bLength <= aBase
  }

  /** Two regions that are not empty are disjoint exactly when no address lies in both. */
  lemma {:induction false} DisjointExactly(aBase: nat, aLength: nat, bBase: nat, bLength: nat)
    requires aLength > 0 && bLength > 0
    ensures Disjoint(aBase, aLength, bBase, bLength) <==>
      forall x {:trigger Inside(x, aBase, aLength)} ::
        !(Inside(x, aBase, aLength) && Inside(x, bBase, bLength))
  {
    var x := if aBase < bBase then bBase else aBase;
    assert !Disjoint(aBase, aLength, bBase, bLength) ==> Inside(x, aBase, aLength) && Inside(x, bBase, bLength);
  }

  predicate Inside(x: int, base: nat, length: nat) {
    base <= x < base + length
  }

  predicate AllDisjoint(ds: seq<Descriptor>) {
    forall i, j :: 0 <= i < j < |ds| ==> Disjoint(ds[i].address, ds[i].length, ds[j].address, ds[j].length)
  }

  /** A selection keeps every property of pairs, here disjointness, and of members. */
  lemma {:induction false} SelectKeeps(ds: seq<Descriptor>, p: Descriptor -> bool)
    ensures forall i :: 0 <= i < |Select(ds, p)| ==> Select(ds, p)[i] in ds && p(Select(ds, p)[i])
    ensures AllDisjoint(ds) ==> AllDisjoint(Select(ds, p))
  {
    if ds != [] {
      var front, last := ds[..|ds| - 1], ds[|ds| - 1];
      SelectKeeps(front, p);
      forall i | 0 <= i < |Select(front, p)| && AllDisjoint(ds)
        ensures Disjoint(Select(front, p)[i].address, Select(front, p)[i].length, last.address, last.length)
      {
        var k :| 0 <= k < |front| && front[k] == Select(front, p)[i];
        assert ds[k] == front[k];
      }
    }
  }

  /** The regions a reader finds before the first of length zero. */
  function UntilTerminator(table: seq<Region>): seq<Region> {
    if table == [] || table[0].length == 0 then [] else [table[0]] + UntilTerminator(table[1..])
  }

  lemma {:induction false} TerminatorFound(regions: seq<Region>, rest: seq<Region>)
    requires forall i :: 0 <= i < |regions| ==> regions[i].length != 0
    requires rest != [] && rest[0].length == 0
    ensures UntilTerminator(regions + rest) == regions
  {
    if regions == [] {
      assert regions + rest == rest;
    } else {
      assert (regions + rest)[1..] == regions[1..] + rest;
      TerminatorFound(regions[1..], rest);
    }
  }

  /**
   * A table that holds the mapped regions and the terminator, whatever follows, reads back as
   * exactly those regions, identity mapped, and disjoint if the map's regions are.
   */
  lemma {:induction false} TableReadsBack(ds: seq<Descriptor>, table: seq<Region>)
    requires forall i :: 0 <= i < |ds| ==> ds[i].length != 0
    requires |Select(ds, Mapped)| < |table|
    requires table[..|Select(ds, Mapped)|] == Regions(Select(ds, Mapped)) && table[|Select(ds, Mapped)|] == TERMINATOR
    ensures UntilTerminator(table) == Regions(Select(ds, Mapped))
    ensures forall i :: 0 <= i < |UntilTerminator(table)| ==>
      UntilTerminator(table)[i].physicalBase == UntilTerminator(table)[i].virtualBase
    ensures AllDisjoint(ds) ==>
      forall i, j :: 0 <= i < j < |UntilTerminator(table)| ==>
        Disjoint(UntilTerminator(table)[i].physicalBase, UntilTerminator(table)[i].length,
                 UntilTerminator(table)[j].physicalBase, UntilTerminator(table)[j].length)
  {
    var chosen := Select(ds, Mapped);
    SelectKeeps(ds, Mapped);
    var regions, rest := Regions(chosen), table[|chosen|..];
    assert table == regions + rest;
    TerminatorFound(regions, rest);
  }
}
