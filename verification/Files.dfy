/** Open files as the image tool uses them, and its padding helpers. */
module Files {
  import opened Arith
  import opened Bytes
  import opened Bits
  import opened Pages

  class InputFile {
    const content: seq<byte>
    var pos: nat

    constructor (bytes: seq<byte>)
      ensures content == bytes && pos == 0
    {
      content := bytes;
      pos := 0;
    }

    method Read() returns (data: seq<byte>)
      modifies this
      ensures data == if old(pos) <= |content| then content[old(pos)..] else []
      ensures pos == if old(pos) <= |content| then |content| else old(pos)
    {
      data := if pos <= |content| then content[pos..] else [];
      pos := if pos <= |content| then |content| else pos;
    }

    method Rewind()
      modifies this
      ensures pos == 0
    {
      pos := 0;
    }
  }

  /** A file opened for writing; every write appends, so its position is its length. */
  class OutputFile {
    var data: seq<byte>

    constructor ()
      ensures data == []
    {
      data := [];
    }

    method Write(bytes: seq<byte>)
      modifies this
      ensures data == old(data) + bytes
    {
      data := data + bytes;
    }
  }

  function Content(f: InputFile?): seq<byte> {
    if f == null then [] else f.content
  }

  function FileSize(f: InputFile?): nat {
    |Content(f)|
  }

  /** The amount pad_file computes with masks is the distance to the next page. */
  lemma {:induction false} PadAmount(n: nat, p: nat)
    requires IsPowerOfTwo(p)
    ensures And(p - And(n, p - 1), p - 1) == RoundUp(n, p) - n
  {
    var k: nat :| k <= p && Pow2(k) == p;
    MaskIsMod(n, k);
    MaskIsMod(p - n % p, k);
    RoundUpDistance(n, p);
  }

  method PadFile(f: OutputFile, padding: nat)
    requires IsPowerOfTwo(padding)
    modifies f
    ensures f.data == PadTo(old(f.data), padding)
  {
    PadAmount(|f.data|, padding);
    var pad := And(padding - And(|f.data|, padding - 1), padding - 1);
    f.Write(Zeros(pad));
  }

  /** An absent file writes nothing; a present one is written from its start and padded. */
  method WritePaddedFile(fOut: OutputFile, fIn: InputFile?, padding: nat,
                         ghost start: seq<byte>, ghost done: seq<seq<byte>>)
    requires IsPowerOfTwo(padding) && |start| % padding == 0
    requires fIn != null ==> fIn.pos == 0
    requires fOut.data == AppendAll(start, done, padding)
    modifies fOut, fIn
    ensures fOut.data == AppendAll(start, done + [Content(fIn)], padding)
  {
    AppendNext(start, done, Content(fIn), padding);
    if fIn == null {
      AppendEmpty(fOut.data, padding);
      return;
    }
    var data := fIn.Read();
    fOut.Write(data);
    PadFile(fOut, padding);
  }
}
