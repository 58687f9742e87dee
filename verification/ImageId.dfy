/** The byte stream from which a boot image's id is hashed. */
module ImageId {
  import opened Bytes
  import opened Struct
  import opened Files
  import opened Wrappers

  /** A SHA-1 object, as the bytes it has been fed. */
  class Sha1 {
    var fed: seq<byte>

    constructor ()
      ensures fed == []
    {
      fed := [];
    }
  }

  predicate SizeFits(content: seq<byte>) {
    |content| < Pow256(4)
  }

  /** One hashed part: its content, then its size in four bytes. */
  function Part(content: seq<byte>): seq<byte> {
    content + LittleEndian(|content|, 4)
  }

  function Transcript(parts: seq<seq<byte>>): seq<byte> {
    if parts == [] then [] else Transcript(parts[..|parts| - 1]) + Part(parts[|parts| - 1])
  }

  lemma {:induction false} TranscriptAppend(parts: seq<seq<byte>>, part: seq<byte>)
    ensures Transcript(parts + [part]) == Transcript(parts) + Part(part)
  {
    assert (parts + [part])[..|parts|] == parts;
  }

  lemma {:induction false} TranscriptTake(parts: seq<seq<byte>>, k: nat)
    requires k < |parts|
    ensures Transcript(parts[..k + 1]) == Transcript(parts[..k]) + Part(parts[k])
  {
    assert parts[..k + 1] == parts[..k] + [parts[k]];
    TranscriptAppend(parts[..k], parts[k]);
  }

  /** Feeds one file and leaves it rewound; pack raises when the size needs more than 32 bits. */
  method UpdateSha(sha: Sha1, f: InputFile?) returns (ok: bool)
    requires f != null ==> f.pos == 0
    modifies sha, f
    ensures ok <==> SizeFits(Content(f))
    ensures ok ==> sha.fed == old(sha.fed) + Part(Content(f))
    ensures f != null ==> f.pos == 0
  {
    if f != null {
      var data := f.Read();
      sha.fed := sha.fed + data;
      f.Rewind();
      var size := Field(U32, Int(FileSize(f)));
      if !Packable(size) {
        return false;
      }
      sha.fed := sha.fed + Pack(size);
    } else {
      var none := Field(U32, Int(0));
      sha.fed := sha.fed + Pack(none);
    }
    ok := true;
    assert sha.fed == old(sha.fed) + Part(Content(f));
  }

  predicate AllFit(parts: seq<seq<byte>>) {
    forall i :: 0 <= i < |parts| ==> SizeFits(parts[i])
  }

  function Contents(files: seq<InputFile?>): (cs: seq<seq<byte>>)
    ensures |cs| == |files|
    ensures forall i :: 0 <= i < |files| ==> cs[i] == Content(files[i])
  {
    seq(|files|, i requires 0 <= i < |files| => Content(files[i]))
  }

  /** Feeds one file after another, the same file possibly more than once. */
  method UpdateShaAll(sha: Sha1, files: seq<InputFile?>) returns (ok: bool)
    requires forall f: InputFile :: f in files ==> f.pos == 0
    requires sha.fed == []
    modifies sha, set f: InputFile | f in files
    ensures forall f: InputFile :: f in files ==> f.pos == 0
    ensures ok <==> AllFit(Contents(files))
    ensures ok ==> sha.fed == Transcript(Contents(files))
  {
    ghost var parts := Contents(files);
    for k := 0 to |files|
      invariant forall f: InputFile :: f in files ==> f.pos == 0
      invariant forall i :: 0 <= i < k ==> SizeFits(parts[i])
      invariant sha.fed == Transcript(parts[..k])
    {
      TranscriptTake(parts, k);
      assert files[k] in files;
      ok := UpdateSha(sha, files[k]);
      if !ok {
        return;
      }
    }
    assert parts[..|files|] == parts;
    ok := true;
  }

  /** The content of the last part, read off the end of the stream: its size, then that many bytes. */
  function LastContent(stream: seq<byte>): seq<byte> {
    if |stream| < 4 then []
    else
      var size := FromLittleEndian(stream[|stream| - 4..]);
      if size + 4 > |stream| then [] else stream[|stream| - 4 - size..|stream| - 4]
  }

  lemma {:induction false} LastPart(before: seq<byte>, content: seq<byte>)
    requires SizeFits(content)
    ensures LastContent(before + Part(content)) == content
  {
    var s := before + Part(content);
    assert s[|s| - 4..] == LittleEndian(|content|, 4);
    DecodeFits(|content|, 4);
  }

  /** Two inputs with as many parts and the same stream have the same parts. */
  lemma {:induction false} TranscriptInjective(ps: seq<seq<byte>>, qs: seq<seq<byte>>)
    requires |ps| == |qs|
    requires forall i :: 0 <= i < |ps| ==> SizeFits(ps[i]) && SizeFits(qs[i])
    requires Transcript(ps) == Transcript(qs)
    ensures ps == qs
  {
    if ps != [] {
      var n := |ps| - 1;
      var before, before' := Transcript(ps[..n]), Transcript(qs[..n]);
      assert before + Part(ps[n]) == before' + Part(qs[n]);
      LastPart(before, ps[n]);
      LastPart(before', qs[n]);
      assert ps[n] == qs[n];
      SameTail(before, before', Part(ps[n]));
      TranscriptInjective(ps[..n], qs[..n]);
    }
  }

  lemma {:induction false} SameTail(xs: seq<byte>, ys: seq<byte>, tail: seq<byte>)
    requires xs + tail == ys + tail
    ensures xs == ys
  {
    assert xs == (xs + tail)[..|xs|];
    assert ys == (ys + tail)[..|ys|];
  }
}
