/** The walk over an SMBIOS string set. */
module Smbios {
  import opened Bytes
  import opened Wrappers

  /** A string the set can hold: not empty and without NUL. */
  predicate Storable(s: seq<byte>) {
    s != [] && 0 !in s
  }

  predicate AllStorable(strings: seq<seq<byte>>) {
    forall i :: 0 <= i < |strings| ==> Storable(strings[i])
  }

  /** The first k strings, each with its NUL. */
  function Front(strings: seq<seq<byte>>, k: nat): seq<byte>
    requires k <= |strings|
  {
    if k == 0 then [] else Front(strings, k - 1) + strings[k - 1] + [0]
  }

  /** A string set as section 6.1.3 of DSP0134 lays it out; an empty set is two NULs. */
  function StringSet(strings: seq<seq<byte>>): seq<byte> {
    if strings == [] then [0, 0] else Front(strings, |strings|) + [0]
  }

  /** Where string k starts, with its bytes and its NUL. */
  lemma {:induction false} StringAt(strings: seq<seq<byte>>, k: nat, n: nat)
    requires k < n <= |strings|
    ensures var start, size := |Front(strings, k)|, |strings[k]|;
            && start + size < |Front(strings, n)|
            && (forall i {:trigger strings[k][i]} :: 0 <= i < size ==> Front(strings, n)[start + i] == strings[k][i])
            && Front(strings, n)[start + size] == 0
            && |Front(strings, k + 1)| == start + size + 1
  {
    if k < n - 1 {
      StringAt(strings, k, n - 1);
    }
  }

  /** The bytes of the set at string k: the string without a NUL in it, then its NUL. */
  lemma {:induction false} StringInSet(strings: seq<seq<byte>>, k: nat)
    requires k < |strings| && Storable(strings[k])
    ensures var memory, start, end := StringSet(strings), |Front(strings, k)|, |Front(strings, k)| + |strings[k]|;
            && end < |memory| && memory[start..end] == strings[k] && memory[end] == 0
            && (forall i :: start <= i < end ==> memory[i] != 0)
  {
    var memory, start, end := StringSet(strings), |Front(strings, k)|, |Front(strings, k)| + |strings[k]|;
    BytesInSet(strings, k);
    SliceIs(memory, start, strings[k]);
  }

  lemma {:induction false} BytesInSet(strings: seq<seq<byte>>, k: nat)
    requires k < |strings|
    ensures var memory, start, size := StringSet(strings), |Front(strings, k)|, |strings[k]|;
            && start + size < |memory| && memory[start + size] == 0
            && (forall i {:trigger strings[k][i]} :: 0 <= i < size ==> memory[start + i] == strings[k][i])
  {
    StringAt(strings, k, |strings|);
  }

  lemma {:induction false} SliceIs(memory: seq<byte>, start: nat, part: seq<byte>)
    requires start + |part| <= |memory| && 0 !in part
    requires forall i {:trigger part[i]} :: 0 <= i < |part| ==> memory[start + i] == part[i]
    ensures memory[start..start + |part|] == part
    ensures forall i :: start <= i < start + |part| ==> memory[i] != 0
  {
    forall i | start <= i < start + |part|
      ensures memory[i] != 0
    {
      assert memory[start + (i - start)] == part[i - start] && part[i - start] in part;
    }
  }

  /** Behind a string's NUL stands the next string, or the final NUL after the last one. */
  lemma {:induction false} StringFollows(strings: seq<seq<byte>>, k: nat)
    requires k < |strings| && AllStorable(strings)
    ensures var memory, next := StringSet(strings), |Front(strings, k + 1)|;
            && next == |Front(strings, k)| + |strings[k]| + 1 < |memory|
            && (memory[next] == 0 <==> k + 1 == |strings|)
  {
    StringAt(strings, k, |strings|);
    if k + 1 < |strings| {
      StringAt(strings, k + 1, |strings|);
      assert strings[k + 1][0] in strings[k + 1];
    }
  }

  /** AsciiStrSize: the length up to and including the next NUL, which must exist. */
  method AsciiStrSize(memory: seq<byte>, start: nat, ghost end: nat) returns (size: nat)
    requires start <= end < |memory| && memory[end] == 0
    requires forall i :: start <= i < end ==> memory[i] != 0
    ensures size == end + 1 - start
  {
    size := 0;
    while memory[start + size] != 0
      invariant start + size <= end
      decreases end - start - size
    {
      size := size + 1;
    }
    size := size + 1;
  }

  /**
   * The walk on any well-formed set: it stops, it reads no byte behind the terminator, and it
   * returns the string with this number, counted from one, or None for EFI_NOT_FOUND; 0 asks for none.
   */
  method GetOptionalStringByIndex(memory: seq<byte>, index: byte, ghost strings: seq<seq<byte>>)
    returns (r: Option<seq<byte>>)
    requires AllStorable(strings) && memory == StringSet(strings)
    ensures index == 0 ==> r == Some([])
    ensures 1 <= index <= |strings| ==> r == Some(strings[index - 1])
    ensures index > |strings| ==> r == None
  {
    if index == 0 {
      return Some([]);
    }
    var left: int := index;
    var start, size := 0, 0;
    ghost var k := 0;
    while true
      invariant left == index - k && left > 0
      invariant k == 0 || k < |strings|
      invariant start + size == |Front(strings, k)|
      decreases left
    {
      left := left - 1;
      start := start + size;
      if strings != [] {
        StringInSet(strings, k);
        StringFollows(strings, k);
      }
      size := AsciiStrSize(memory, start, if strings == [] then 0 else start + |strings[k]|);
      if !(memory[start + size] != 0 && left != 0) {
        break;
      }
      k := k + 1;
    }
    if left != 0 || size == 1 {
      r := None;
    } else {
      r := Some(memory[start..start + size - 1]);
    }
  }
}
