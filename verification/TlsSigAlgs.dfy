/** The signature algorithm list builder: a measuring pass, then a filling pass that must match it. */
module TlsSigAlgs {
  import opened Bytes
  import opened Strings
  import opened Wrappers
  import opened TlsCiphers

  /** Names by hash algorithm number; none stands at 0. */
  const HASHES: seq<string> := ["", "MD5", "SHA1", "SHA224", "SHA256", "SHA384", "SHA512"]

  /** Names by signature algorithm number; anonymous stands at 0. */
  const SIGNATURES: seq<string> := ["", "RSA", "DSA", "ECDSA"]

  /** One (hash, signature) pair, as section 7.4.1.4.1 of RFC 5246 numbers them. */
  datatype Pair = Pair(hash: byte, signature: byte)

  predicate Named(p: Pair) {
    0 < p.hash < |HASHES| && 0 < p.signature < |SIGNATURES|
  }

  predicate AllNamed(pairs: seq<Pair>) {
    forall i :: 0 <= i < |pairs| ==> Named(pairs[i])
  }

  /** The pairs behind the length byte. */
  function Pairs(data: seq<byte>): (pairs: seq<Pair>)
    requires |data| % 2 == 1
    ensures |pairs| == |data| / 2
  {
    seq(|data| / 2, i requires 0 <= i < |data| / 2 => Pair(data[2 * i + 1], data[2 * i + 2]))
  }

  function Item(p: Pair): string
    requires Named(p)
  {
    HASHES[p.hash] + "+" + SIGNATURES[p.signature]
  }

  function Items(pairs: seq<Pair>): (items: seq<string>)
    requires AllNamed(pairs)
    ensures |items| == |pairs|
  {
    seq(|pairs|, i requires 0 <= i < |pairs| => Item(pairs[i]))
  }

  /** What OpenSSL is handed. */
  function AlgoString(pairs: seq<Pair>): string
    requires AllNamed(pairs)
  {
    Join(Items(pairs), ':')
  }

  predicate Accepted(data: seq<byte>) {
    |data| >= 3 && |data| % 2 == 1 && data[0] == |data| - 1 && AllNamed(Pairs(data))
  }

  /** HashAlgorithm of section 7.4.1.4.1 of RFC 5246, by name; 0 is none. */
  function HashAlgorithm(name: string): nat {
    if name == "MD5" then 1
    else if name == "SHA1" then 2
    else if name == "SHA224" then 3
    else if name == "SHA256" then 4
    else if name == "SHA384" then 5
    else if name == "SHA512" then 6
    else 0
  }

  /** SignatureAlgorithm of the same section; 0 is anonymous. */
  function SignatureAlgorithm(name: string): nat {
    if name == "RSA" then 1 else if name == "DSA" then 2 else if name == "ECDSA" then 3 else 0
  }

  function ParseItem(item: string): (nat, nat) {
    var parts := Split(item, '+');
    if |parts| != 2 then (0, 0) else (HashAlgorithm(parts[0]), SignatureAlgorithm(parts[1]))
  }

  /** The (hash, signature) numbers read back from the string. */
  function Parse(text: string): seq<(nat, nat)> {
    var items := Split(text, ':');
    seq(|items|, i requires 0 <= i < |items| => ParseItem(items[i]))
  }

  lemma {:induction false} HashName(h: nat)
    requires 0 < h < |HASHES|
    ensures ':' !in HASHES[h] && '+' !in HASHES[h]
    ensures HashAlgorithm(HASHES[h]) == h
  {
  }

  lemma {:induction false} SignatureName(s: nat)
    requires 0 < s < |SIGNATURES|
    ensures ':' !in SIGNATURES[s] && '+' !in SIGNATURES[s]
    ensures SignatureAlgorithm(SIGNATURES[s]) == s
  {
  }

  lemma {:induction false} ItemParses(p: Pair)
    requires Named(p)
    ensures ParseItem(Item(p)) == (p.hash, p.signature) && ':' !in Item(p)
  {
    HashName(p.hash);
    SignatureName(p.signature);
    SplitPlain(HASHES[p.hash], '+');
    SplitAppend(HASHES[p.hash], SIGNATURES[p.signature], '+');
    assert "+" == ['+'];
  }

  /** Parsing the string returns the original pairs. */
  lemma {:induction false} AlgoStringParses(pairs: seq<Pair>)
    requires pairs != [] && AllNamed(pairs)
    ensures Parse(AlgoString(pairs)) ==
      seq(|pairs|, i requires 0 <= i < |pairs| => (pairs[i].hash as nat, pairs[i].signature as nat))
  {
    forall i | 0 <= i < |pairs|
      ensures ParseItem(Items(pairs)[i]) == (pairs[i].hash, pairs[i].signature) && ':' !in Items(pairs)[i]
    {
      ItemParses(pairs[i]);
    }
    SplitJoin(Items(pairs), ':');
  }

  /** The items so far, each with the separator that follows it. */
  function Terminated(pairs: seq<Pair>, k: nat): (s: string)
    requires AllNamed(pairs) && k <= |pairs|
  {
    if k == 0 then "" else Terminated(pairs, k - 1) + Item(pairs[k - 1]) + ":"
  }

  lemma {:induction false} TerminatedIsJoin(pairs: seq<Pair>, k: nat)
    requires AllNamed(pairs) && 0 < k <= |pairs|
    ensures Terminated(pairs, k) == Join(Items(pairs)[..k], ':') + ":"
  {
    var items := Items(pairs);
    JoinPrefix(items, k - 1, ':');
    if k > 1 {
      TerminatedIsJoin(pairs, k - 1);
    }
  }

  lemma {:induction false} TerminatedGrows(pairs: seq<Pair>, k: nat)
    requires AllNamed(pairs) && k <= |pairs|
    ensures |Terminated(pairs, k)| <= |Terminated(pairs, |pairs|)|
    decreases |pairs| - k
  {
    if k < |pairs| {
      TerminatedGrows(pairs, k + 1);
    }
  }

  lemma {:induction false} TerminatedStep(pairs: seq<Pair>, k: nat)
    requires AllNamed(pairs) && k < |pairs|
    ensures Terminated(pairs, k + 1) == Terminated(pairs, k) + Item(pairs[k]) + ":"
    ensures |Terminated(pairs, k)| + |Item(pairs[k])| + 1 <= |Terminated(pairs, |pairs|)|
  {
    TerminatedGrows(pairs, k + 1);
  }

  lemma {:induction false} PairAt(data: seq<byte>, k: nat)
    requires |data| % 2 == 1 && k < |data| / 2
    ensures Pairs(data)[k] == Pair(data[1 + 2 * k], data[1 + 2 * k + 1])
  {
  }

  /** First pass: rejects unknown algorithms and adds up the bytes needed. */
  method MeasureAlgos(data: seq<byte>) returns (ok: bool, size: nat)
    requires |data| >= 3 && |data| % 2 == 1 && data[0] == |data| - 1
    ensures ok <==> AllNamed(Pairs(data))
    ensures ok ==> size == |Terminated(Pairs(data), |Pairs(data)|)| > 0
  {
    ghost var pairs := Pairs(data);
    var index := 0;
    size := 0;
    while index < data[0]
      invariant 0 <= index <= data[0] && index % 2 == 0
      invariant forall i :: 0 <= i < index / 2 ==> Named(pairs[i])
      invariant AllNamed(pairs) ==> size == |Terminated(pairs, index / 2)|
      invariant index > 0 ==> size > 0
    {
      PairAt(data, index / 2);
      var hash, signature := data[1 + index], data[1 + index + 1];
      if hash >= |HASHES| || hash == 0 {
        return false, 0;
      }
      size := size + |HASHES[hash]| + 1;
      if signature >= |SIGNATURES| || signature == 0 {
        return false, 0;
      }
      size := size + |SIGNATURES[signature]| + 1;
      index := index + 2;
    }
    ok := true;
  }

  /** Writes one pair at a position and returns the position behind it. */
  method WritePair(buffer: array<char>, start: nat, pair: Pair) returns (position: nat)
    requires Named(pair) && start + |Item(pair)| + 1 <= buffer.Length
    modifies buffer
    ensures position == start + |Item(pair)| + 1
    ensures buffer[..position] == old(buffer[..start]) + Item(pair) + ":"
  {
    var hash, signature := HASHES[pair.hash], SIGNATURES[pair.signature];
    position := start;
    CopyMem(buffer, position, hash);
    position := position + |hash|;
    CopyMem(buffer, position, "+");
    position := position + 1;
    CopyMem(buffer, position, signature);
    position := position + |signature|;
    CopyMem(buffer, position, ":");
    position := position + 1;
  }

  /** Second pass: writes hash, plus, signature and colon for every pair; the last colon becomes NUL. */
  method FillAlgos(data: seq<byte>, buffer: array<char>)
    requires Accepted(data) && buffer.Length == |Terminated(Pairs(data), |Pairs(data)|)|
    modifies buffer
    ensures buffer[..] == AlgoString(Pairs(data)) + ['\0']
  {
    ghost var pairs := Pairs(data);
    ghost var k := 0;
    var position, index := 0, 0;
    while index < data[0]
      invariant 0 <= k <= |pairs| && index == 2 * k
      invariant position == |Terminated(pairs, k)| <= buffer.Length
      invariant buffer[..position] == Terminated(pairs, k)
    {
      PairAt(data, k);
      TerminatedStep(pairs, k);
      position := WritePair(buffer, position, Pair(data[1 + index], data[1 + index + 1]));
      index, k := index + 2, k + 1;
    }
    LastColon(pairs);
    assert buffer[..] == buffer[..position] == AlgoString(pairs) + ":";
    Terminate(buffer, position - 1, AlgoString(pairs));
  }

  /** Overwrites the last separator. */
  method Terminate(buffer: array<char>, last: nat, ghost text: string)
    requires buffer.Length == last + 1 && buffer[..] == text + ":"
    modifies buffer
    ensures buffer[..] == text + ['\0']
  {
    buffer[last] := '\0';
    assert buffer[..last] == old(buffer[..])[..last] == text;
  }

  lemma {:induction false} LastColon(pairs: seq<Pair>)
    requires AllNamed(pairs) && pairs != []
    ensures Terminated(pairs, |pairs|) == AlgoString(pairs) + ":"
  {
    TerminatedIsJoin(pairs, |pairs|);
    assert Items(pairs)[..|pairs|] == Items(pairs);
  }

  /** The status of the whole call, given what the allocator and OpenSSL answer. */
  function AlgoStatus(data: seq<byte>, alloc: bool, setSigalgs: string -> int): Status {
    if !Accepted(data) then InvalidParameter
    else if !alloc then OutOfResources
    else if setSigalgs(AlgoString(Pairs(data))) < 1 then InvalidParameter
    else Success
  }

  /** The lists accepted: a length byte that fits, then hash numbers 1 to 6 and signature numbers 1 to 3. */
  lemma {:induction false} AcceptedExactly(data: seq<byte>)
    ensures Accepted(data) <==>
      && |data| >= 3 && |data| % 2 == 1 && data[0] == |data| - 1
      && forall i :: 1 <= i < |data| ==> 1 <= data[i] <= if i % 2 == 1 then 6 else 3
  {
    if |data| >= 3 && |data| % 2 == 1 {
      var pairs := Pairs(data);
      if AllNamed(pairs) {
        forall i | 1 <= i < |data|
          ensures 1 <= data[i] <= if i % 2 == 1 then 6 else 3
        {
          assert Named(pairs[(i - 1) / 2]);
        }
      }
      if forall i :: 1 <= i < |data| ==> 1 <= data[i] <= if i % 2 == 1 then 6 else 3 {
        forall k | 0 <= k < |pairs|
          ensures Named(pairs[k])
        {
          assert (2 * k + 1) % 2 == 1 && (2 * k + 2) % 2 == 0;
          assert pairs[k] == Pair(data[2 * k + 1], data[2 * k + 2]);
        }
      }
    }
  }

  /** The three answers of the call, and exactly when it gives them. */
  lemma {:induction false} AlgoStatusExactly(data: seq<byte>, alloc: bool, setSigalgs: string -> int)
    ensures var status := AlgoStatus(data, alloc, setSigalgs);
            && (status == Success <==> Accepted(data) && alloc && setSigalgs(AlgoString(Pairs(data))) > 0)
            && (status == OutOfResources <==> Accepted(data) && !alloc)
            && status in {Success, OutOfResources, InvalidParameter}
  {
  }

  /** `data` is the memory behind the pointer, None for NULL. */
  method TlsSetSignatureAlgoList(sslReady: bool, data: Option<seq<byte>>, alloc: bool, setSigalgs: string -> int)
    returns (status: Status, passed: Option<string>)
    ensures !sslReady || data.None? ==> status == InvalidParameter && passed == None
    ensures sslReady && data.Some? ==> status == AlgoStatus(data.value, alloc, setSigalgs)
    ensures passed.Some? <==> sslReady && data.Some? && Accepted(data.value) && alloc
    ensures passed.Some? ==> passed.value == AlgoString(Pairs(data.value)) + ['\0']
    ensures status == Success ==> passed.Some?
    ensures status != Unsupported
  {
    passed := None;
    if !sslReady || data.None? || |data.value| < 3 || |data.value| % 2 == 0 || data.value[0] != |data.value| - 1 {
      return InvalidParameter, None;
    }
    var ok, size := MeasureAlgos(data.value);
    if !ok {
      return InvalidParameter, None;
    }
    if size == 0 {
      assert false;
    }
    if !alloc {
      return OutOfResources, None;
    }
    var buffer := new char[size](_ => '\0');
    FillAlgos(data.value, buffer);
    passed := Some(buffer[..]);
    var text := buffer[..size - 1];
    assert text == AlgoString(Pairs(data.value));
    status := if setSigalgs(text) < 1 then InvalidParameter else Success;
  }
}
