/** Python's struct module, for the codes the two tools use. */
module Struct {
  import opened Bytes
  import opened Wrappers

  /** 'H', 'I', 'Q' and 'Ns'. */
  datatype Code = U16 | U32 | U64 | Raw(n: nat)

  datatype Value = Int(i: int) | Str(b: seq<byte>)

  /** A number as a reader uses it, 0 for a string. */
  function Number(v: Value): nat {
    if v.Int? && v.i >= 0 then v.i else 0
  }

  datatype Field = Field(code: Code, value: Value)

  function Size(c: Code): nat {
    match c
    case U16 => 2
    case U32 => 4
    case U64 => 8
    case Raw(n) => n
  }

  /** Alignment of a code in native mode, the mode a format without a prefix selects. */
  function Alignment(c: Code): nat {
    if c.Raw? then 1 else Size(c)
  }

  /** Whether pack accepts the value, or raises struct.error. */
  predicate Packable(f: Field) {
    match f
    case Field(Raw(_), Str(_)) => true
    case Field(Raw(_), Int(_)) => false
    case Field(_, Str(_)) => false
    case Field(c, Int(i)) => 0 <= i < Pow256(Size(c))
  }

  /** 'Ns' truncates a longer string and pads a shorter one with zeros. */
  function Fit(b: seq<byte>, n: nat): (r: seq<byte>)
    ensures |r| == n
  {
    if |b| >= n then b[..n] else b + Zeros(n - |b|)
  }

  lemma {:induction false} FitExactly(b: seq<byte>, n: nat)
    ensures forall i :: 0 <= i < n ==> Fit(b, n)[i] == if i < |b| then b[i] else 0
  {
  }

  function Pack(f: Field): (s: seq<byte>)
    requires Packable(f)
    ensures |s| == Size(f.code)
  {
    match f.value
    case Int(i) => LittleEndian(i, Size(f.code))
    case Str(b) => Fit(b, f.code.n)
  }

  /** The value a reader sees: a string comes back cut or padded to its field. */
  function Seen(f: Field): Value {
    if f.code.Raw? && f.value.Str? then Str(Fit(f.value.b, f.code.n)) else f.value
  }

  predicate AllPackable(fs: seq<Field>) {
    forall i :: 0 <= i < |fs| ==> Packable(fs[i])
  }

  function PackAll(fs: seq<Field>): (s: seq<byte>)
    requires AllPackable(fs)
  {
    if fs == [] then [] else Pack(fs[0]) + PackAll(fs[1..])
  }

  function Codes(fs: seq<Field>): (cs: seq<Code>)
    ensures |cs| == |fs| && forall i :: 0 <= i < |fs| ==> cs[i] == fs[i].code
  {
    seq(|fs|, i requires 0 <= i < |fs| => fs[i].code)
  }

  function SeenAll(fs: seq<Field>): (vs: seq<Value>)
    ensures |vs| == |fs| && forall i :: 0 <= i < |fs| ==> vs[i] == Seen(fs[i])
  {
    seq(|fs|, i requires 0 <= i < |fs| => Seen(fs[i]))
  }

  function CalcSize(cs: seq<Code>): nat {
    if cs == [] then 0 else Size(cs[0]) + CalcSize(cs[1..])
  }

  /** Size in native mode from offset `off`: each code is first aligned. */
  function NativeEnd(cs: seq<Code>, off: nat): nat
    decreases |cs|
  {
    if cs == [] then off
    else
      var a := Alignment(cs[0]);
      var start := (off + a - 1) / a * a;
      NativeEnd(cs[1..], start + Size(cs[0]))
  }

  function UnpackOne(c: Code, s: seq<byte>): Value
    requires |s| == Size(c)
  {
    if c.Raw? then Str(s) else Int(FromLittleEndian(s))
  }

  function UnpackAll(cs: seq<Code>, s: seq<byte>): (vs: seq<Value>)
    requires |s| == CalcSize(cs)
    ensures |vs| == |cs|
  {
    if cs == [] then []
    else [UnpackOne(cs[0], s[..Size(cs[0])])] + UnpackAll(cs[1..], s[Size(cs[0])..])
  }

  /** unpack raises struct.error unless the string has exactly the format's size. */
  function Unpack(cs: seq<Code>, s: seq<byte>): Option<seq<Value>> {
    if |s| == CalcSize(cs) then Some(UnpackAll(cs, s)) else None
  }

  lemma {:induction false} UnpackPack(f: Field)
    requires Packable(f)
    ensures UnpackOne(f.code, Pack(f)) == Seen(f)
  {
    if f.value.Int? {
      DecodeFits(f.value.i, Size(f.code));
    }
  }

  /** What was packed field by field is what unpack sees. */
  lemma {:induction false} UnpackPackAll(fs: seq<Field>)
    requires AllPackable(fs)
    ensures |PackAll(fs)| == CalcSize(Codes(fs))
    ensures Unpack(Codes(fs), PackAll(fs)) == Some(SeenAll(fs))
  {
    if fs != [] {
      UnpackPack(fs[0]);
      UnpackPackAll(fs[1..]);
      assert SeenAll(fs) == [Seen(fs[0])] + SeenAll(fs[1..]);
      var s := PackAll(fs);
      assert s[..Size(fs[0].code)] == Pack(fs[0]);
      assert s[Size(fs[0].code)..] == PackAll(fs[1..]);
      assert Codes(fs)[1..] == Codes(fs[1..]);
    }
  }

  lemma {:induction false} PackAllConcat(xs: seq<Field>, ys: seq<Field>)
    requires AllPackable(xs) && AllPackable(ys)
    ensures AllPackable(xs + ys)
    ensures PackAll(xs + ys) == PackAll(xs) + PackAll(ys)
  {
    if xs == [] {
      assert xs + ys == ys;
    } else {
      assert (xs + ys)[1..] == xs[1..] + ys;
      PackAllConcat(xs[1..], ys);
    }
  }

  lemma {:induction false} CalcSizeConcat(xs: seq<Code>, ys: seq<Code>)
    ensures CalcSize(xs + ys) == CalcSize(xs) + CalcSize(ys)
  {
    if xs == [] {
      assert xs + ys == ys;
    } else {
      assert (xs + ys)[1..] == xs[1..] + ys;
      CalcSizeConcat(xs[1..], ys);
    }
  }

  /** 'I' * n and the like. */
  function Times(c: Code, n: nat): (cs: seq<Code>)
    ensures |cs| == n
  {
    seq(n, _ => c)
  }

  lemma {:induction false} TimesSize(c: Code, n: nat)
    ensures CalcSize(Times(c, n)) == n * Size(c)
  {
    if n > 0 {
      TimesSize(c, n - 1);
      assert Times(c, n)[1..] == Times(c, n - 1);
      assert n * Size(c) == (n - 1) * Size(c) + Size(c);
    }
  }

  lemma {:induction false} SingleSize(c: Code)
    ensures CalcSize([c]) == Size(c)
  {
    assert [c][1..] == [];
  }

  /** What stands behind a format does not move the fields inside it. */
  lemma {:induction false} CalcSizeExtend(xs: seq<Code>, ys: seq<Code>, k: nat)
    requires k <= |xs|
    ensures CalcSize(xs + ys) == CalcSize(xs) + CalcSize(ys)
    ensures CalcSize(xs + ys) - CalcSize((xs + ys)[k..]) == CalcSize(xs) - CalcSize(xs[k..])
  {
    CalcSizeConcat(xs, ys);
    CalcSizeConcat(xs[k..], ys);
    assert (xs + ys)[k..] == xs[k..] + ys;
  }

  /** Sizes add up code by code, from the front. */
  lemma {:induction false} SuffixSizes(cs: seq<Code>)
    ensures forall k :: 0 <= k < |cs| ==> CalcSize(cs[k..]) == Size(cs[k]) + CalcSize(cs[k + 1..])
    ensures CalcSize(cs[|cs|..]) == 0 && CalcSize(cs[0..]) == CalcSize(cs)
  {
    assert cs[0..] == cs;
    forall k | 0 <= k < |cs|
      ensures CalcSize(cs[k..]) == Size(cs[k]) + CalcSize(cs[k + 1..])
    {
      assert cs[k..][1..] == cs[k + 1..];
    }
  }

  lemma {:induction false} PackAllSplit(fs: seq<Field>, k: nat)
    requires AllPackable(fs) && k <= |fs|
    ensures PackAll(fs) == PackAll(fs[..k]) + PackAll(fs[k..])
    ensures |PackAll(fs[..k])| == CalcSize(Codes(fs)) - CalcSize(Codes(fs)[k..])
  {
    assert fs == fs[..k] + fs[k..];
    PackAllConcat(fs[..k], fs[k..]);
    assert Codes(fs) == Codes(fs[..k]) + Codes(fs[k..]);
    CalcSizeConcat(Codes(fs[..k]), Codes(fs[k..]));
    assert Codes(fs)[k..] == Codes(fs[k..]);
    UnpackPackAll(fs[..k]);
  }

  /** Field k stands behind the fields before it, at their total size. */
  lemma {:induction false} FieldAt(fs: seq<Field>, k: nat, off: nat)
    requires AllPackable(fs) && k < |fs|
    requires off == CalcSize(Codes(fs)) - CalcSize(Codes(fs)[k..])
    ensures off + Size(fs[k].code) <= |PackAll(fs)|
    ensures PackAll(fs)[off..off + Size(fs[k].code)] == Pack(fs[k])
  {
    PackAllSplit(fs, k);
    FirstPacked(fs[k..]);
    MiddleSlice(PackAll(fs[..k]), Pack(fs[k]), PackAll(fs[k..][1..]));
  }

  lemma {:induction false} FirstPacked(fs: seq<Field>)
    requires AllPackable(fs) && fs != []
    ensures PackAll(fs) == Pack(fs[0]) + PackAll(fs[1..])
  {
  }

  lemma {:induction false} MiddleSlice(before: seq<byte>, middle: seq<byte>, after: seq<byte>)
    ensures (before + (middle + after))[|before|..|before| + |middle|] == middle
  {
  }
}
