/** Page-aligned layout: sections appended one after another, each padded to a page. */
module Pages {
  import opened Arith
  import opened Bytes
  import opened Bits

  predicate IsPowerOfTwo(p: nat) {
    exists k: nat | k <= p :: Pow2(k) == p
  }

  /** The smallest multiple of p that is at least n. */
  function RoundUp(n: nat, p: nat): (r: nat)
    requires p > 0
  {
    (n + p - 1) / p * p
  }

  function PadTo(s: seq<byte>, p: nat): (r: seq<byte>)
    requires p > 0
    ensures |r| == RoundUp(|s|, p) && s <= r
  {
    RoundUpBounds(|s|, p);
    s + Zeros(RoundUp(|s|, p) - |s|)
  }

  /** The image after the given sections have been appended, each padded. */
  function AppendAll(acc: seq<byte>, sections: seq<seq<byte>>, p: nat): (r: seq<byte>)
    requires p > 0
    ensures acc <= r
    decreases |sections|
  {
    if sections == [] then acc else AppendAll(PadTo(acc + sections[0], p), sections[1..], p)
  }

  function Sizes(sections: seq<seq<byte>>): (sizes: seq<nat>)
    ensures |sizes| == |sections|
    ensures forall i :: 0 <= i < |sizes| ==> sizes[i] == |sections[i]|
  {
    seq(|sections|, i requires 0 <= i < |sections| => |sections[i]|)
  }

  /** Where the section after those of the given sizes starts. */
  function OffsetAfter(off: nat, sizes: seq<nat>, p: nat): nat
    requires p > 0
    decreases |sizes|
  {
    if sizes == [] then off else OffsetAfter(RoundUp(off + sizes[0], p), sizes[1..], p)
  }

  /** A reader's view: cut the sections out by their sizes and page rounding alone. */
  function Extract(img: seq<byte>, off: nat, sizes: seq<nat>, p: nat): (sections: seq<seq<byte>>)
    requires p > 0
    ensures |sections| == |sizes|
    decreases |sizes|
  {
    if sizes == [] then []
    else [Slice(img, off, sizes[0])] + Extract(img, RoundUp(off + sizes[0], p), sizes[1..], p)
  }

  /** The bytes at the offset, fewer when the image ends early. */
  function Slice(img: seq<byte>, off: nat, size: nat): seq<byte> {
    if off + size <= |img| then img[off..off + size]
    else if off <= |img| then img[off..]
    else []
  }

  /** What padding adds is zeros. */
  lemma {:induction false} PadToZeros(s: seq<byte>, p: nat)
    requires p > 0
    ensures PadTo(s, p) == s + Zeros(|PadTo(s, p)| - |s|)
    ensures forall i :: |s| <= i < |PadTo(s, p)| ==> PadTo(s, p)[i] == 0
  {
  }

  lemma {:induction false} RoundUpBounds(n: nat, p: nat)
    requires p > 0
    ensures n <= RoundUp(n, p) < n + p
    ensures RoundUp(n, p) % p == 0
  {
    var q := (n + p - 1) / p;
    assert n + p - 1 == p * q + (n + p - 1) % p;
    assert p * q == q * p;
    DivModUnique(q * p, p, q, 0);
  }

  lemma {:induction false} OnePage(n: nat, p: nat)
    requires 0 < n <= p
    ensures RoundUp(n, p) == p && p % p == 0
  {
    DivModUnique(n + p - 1, p, 1, n - 1);
    DivModUnique(p, p, 1, 0);
  }

  lemma {:induction false} RoundUpAligned(n: nat, p: nat)
    requires p > 0 && n % p == 0
    ensures RoundUp(n, p) == n
  {
    var q := n / p;
    assert n == p * q == q * p;
    DivModUnique(n + p - 1, p, q, p - 1);
  }

  /** The distance to the next boundary, as a remainder. */
  lemma {:induction false} RoundUpDistance(n: nat, p: nat)
    requires p > 0
    ensures RoundUp(n, p) - n == (p - n % p) % p
  {
    var q, r := n / p, n % p;
    assert n == p * q + r;
    if r == 0 {
      DivModUnique(p, p, 1, 0);
      RoundUpAligned(n, p);
    } else {
      DivModUnique(p - r, p, 0, p - r);
      assert p * (q + 1) == p * q + p;
      DivModUnique(n + p - 1, p, q + 1, r - 1);
      assert (q + 1) * p == p * (q + 1);
    }
  }

  lemma {:induction false} RoundUpShift(m: nat, n: nat, p: nat)
    requires p > 0 && m % p == 0
    ensures RoundUp(m + n, p) == m + RoundUp(n, p)
  {
    var q, k := m / p, (n + p - 1) / p;
    assert m == p * q;
    assert p * (q + k) == p * q + p * k;
    DivModUnique(m + n + p - 1, p, q + k, (n + p - 1) % p);
    assert (q + k) * p == q * p + k * p;
  }

  /** Extraction inverts appending, and every section starts on a page boundary. */
  lemma {:induction false} ExtractAppendAll(acc: seq<byte>, sections: seq<seq<byte>>, p: nat)
    requires p > 0 && |acc| % p == 0
    ensures Extract(AppendAll(acc, sections, p), |acc|, Sizes(sections), p) == sections
    ensures |AppendAll(acc, sections, p)| == OffsetAfter(|acc|, Sizes(sections), p)
    ensures forall i :: 0 <= i <= |sections| ==>
      OffsetAfter(|acc|, Sizes(sections)[..i], p) % p == 0
    decreases |sections|
  {
    if sections != [] {
      var sizes := Sizes(sections);
      var next := PadTo(acc + sections[0], p);
      RoundUpBounds(|acc + sections[0]|, p);
      ExtractAppendAll(next, sections[1..], p);
      assert sizes[1..] == Sizes(sections[1..]);
      var img := AppendAll(acc, sections, p);
      assert acc + sections[0] <= next <= img;
      assert img[|acc|..|acc| + sizes[0]] == sections[0];
      forall i | 0 <= i <= |sections|
        ensures OffsetAfter(|acc|, sizes[..i], p) % p == 0
      {
        if i > 0 {
          assert sizes[..i][1..] == sizes[1..][..i - 1];
        }
      }
    }
  }

  lemma {:induction false} AppendAllConcat(acc: seq<byte>, xs: seq<seq<byte>>, ys: seq<seq<byte>>, p: nat)
    requires p > 0
    ensures AppendAll(acc, xs + ys, p) == AppendAll(AppendAll(acc, xs, p), ys, p)
    decreases |xs|
  {
    if xs == [] {
      assert xs + ys == ys;
    } else {
      assert (xs + ys)[1..] == xs[1..] + ys;
      AppendAllConcat(PadTo(acc + xs[0], p), xs[1..], ys, p);
    }
  }

  /** A section that is absent or empty leaves an aligned image as it is. */
  lemma {:induction false} AppendEmpty(acc: seq<byte>, p: nat)
    requires p > 0 && |acc| % p == 0
    ensures AppendAll(acc, [[]], p) == acc
  {
    assert acc + [] == acc;
    RoundUpAligned(|acc|, p);
  }

  lemma {:induction false} AppendNext(start: seq<byte>, done: seq<seq<byte>>, section: seq<byte>, p: nat)
    requires p > 0 && |start| % p == 0
    ensures var before := AppendAll(start, done, p);
            && AppendAll(start, done + [section], p) == PadTo(before + section, p)
            && AppendAll(start, done + [section], p) == AppendAll(before, [section], p)
            && |before| % p == 0
  {
    var before := AppendAll(start, done, p);
    AppendAllConcat(start, done, [section], p);
    assert [section][1..] == [];
    assert AppendAll(before, [section], p) == AppendAll(PadTo(before + section, p), [], p);
    ExtractAppendAll(start, done, p);
    assert Sizes(done)[..|done|] == Sizes(done);
  }

  /** A reader that stops early sees the first sections of one that does not. */
  lemma {:induction false} ExtractFront(img: seq<byte>, off: nat, sizes: seq<nat>, front: seq<nat>, p: nat)
    requires p > 0 && front <= sizes
    ensures Extract(img, off, front, p) == Extract(img, off, sizes, p)[..|front|]
    decreases |front|
  {
    if front != [] {
      ExtractFront(img, RoundUp(off + sizes[0], p), sizes[1..], front[1..], p);
    }
  }

  /** A reader may stop anywhere and go on from the offset reached. */
  lemma {:induction false} ExtractConcat(img: seq<byte>, off: nat, xs: seq<nat>, ys: seq<nat>, p: nat)
    requires p > 0
    ensures Extract(img, off, xs + ys, p) == Extract(img, off, xs, p) + Extract(img, OffsetAfter(off, xs, p), ys, p)
    decreases |xs|
  {
    if xs == [] {
      assert xs + ys == ys;
    } else {
      assert (xs + ys)[1..] == xs[1..] + ys;
      ExtractConcat(img, RoundUp(off + xs[0], p), xs[1..], ys, p);
    }
  }

  /** A last section of at most a page, read as a whole page, comes with its padding. */
  lemma {:induction false} LastPage(start: seq<byte>, done: seq<seq<byte>>, section: seq<byte>, p: nat)
    requires p > 0 && |start| % p == 0 && |section| <= p
    ensures Extract(AppendAll(start, done + [section], p), |start|, Sizes(done) + [p], p) == done + [PadTo(section, p)]
  {
    var before, img := AppendAll(start, done, p), AppendAll(start, done + [section], p);
    AppendNext(start, done, section, p);
    ExtractAppendAll(start, done, p);
    ExtractConcat(img, |start|, Sizes(done), [p], p);
    ExtractAppendAll(start, done + [section], p);
    ExtractFront(img, |start|, Sizes(done + [section]), Sizes(done), p);
    assert Sizes(done + [section])[..|done|] == Sizes(done);
    assert (done + [section])[..|done|] == done;
    PaddedBehind(before, section, p);
    assert [p][1..] == [];
  }

  lemma {:induction false} PaddedBehind(before: seq<byte>, section: seq<byte>, p: nat)
    requires p > 0 && |before| % p == 0 && |section| <= p
    ensures Slice(PadTo(before + section, p), |before|, p) == PadTo(section, p)
  {
    RoundUpShift(|before|, |section|, p);
    if section == [] {
      RoundUpAligned(0, p);
    } else {
      OnePage(|section|, p);
    }
    assert PadTo(before + section, p) == before + PadTo(section, p);
  }

  /** A section lies at the offset computed from the sizes of those before it. */
  lemma {:induction false} SectionAt(start: seq<byte>, before: seq<seq<byte>>, rest: seq<seq<byte>>, p: nat)
    requires p > 0 && |start| % p == 0 && rest != []
    ensures Slice(AppendAll(start, before + rest, p), OffsetAfter(|start|, Sizes(before), p), |rest[0]|) == rest[0]
  {
    AppendAllConcat(start, before, rest, p);
    ExtractAppendAll(start, before, p);
    assert Sizes(before)[..|before|] == Sizes(before);
    var mid := AppendAll(start, before, p);
    ExtractAppendAll(mid, rest, p);
    assert Extract(AppendAll(mid, rest, p), |mid|, Sizes(rest), p)[0] == rest[0];
  }
}
