/** The kernel command line of header versions 0 to 2, split over two fields. */
module CommandLine {
  import opened Bytes
  import opened Struct
  import opened Wrappers
  import opened BootImage

  /** The encoded argument with its terminator, or None for the argument error. */
  function AsciizBytes(bufsize: nat, arg: seq<byte>): Option<seq<byte>> {
    var encoded := arg + [0];
    if |encoded| > bufsize then None else Some(encoded)
  }

  /** What parse_cmdline stores as cmdline and extra_cmdline. */
  function Split(cmdline: seq<byte>): (seq<byte>, seq<byte>) {
    var cut := BOOT_ARGS_SIZE - 1;
    if |cmdline| <= cut then (cmdline + [0], [])
    else (cmdline[..cut] + [0], cmdline[cut..])
  }

  /** The bytes before the first NUL. */
  function CString(field: seq<byte>): (s: seq<byte>)
    ensures 0 !in s
  {
    if field == [] || field[0] == 0 then [] else [field[0]] + CString(field[1..])
  }

  lemma {:induction false} CStringStops(text: seq<byte>, rest: seq<byte>)
    requires 0 !in text && rest != [] && rest[0] == 0
    ensures CString(text + rest) == text
  {
    if text == [] {
      assert text + rest == rest;
    } else {
      assert (text + rest)[1..] == text[1..] + rest;
      CStringStops(text[1..], rest);
    }
  }

  /** A NUL-free text with its terminator survives being padded into a field it fits. */
  lemma {:induction false} FieldHoldsText(text: seq<byte>, more: seq<byte>, size: nat)
    requires 0 !in text && more != [] && more[0] == 0 && |text + more| <= size
    ensures CString(Fit(text + more, size)) == text && 0 in Fit(text + more, size)
  {
    var tail := more + Zeros(size - |text + more|);
    assert Fit(text + more, size) == text + tail;
    CStringStops(text, tail);
    assert (text + tail)[|text|] == 0;
  }

  lemma {:induction false} EmptyField(size: nat)
    requires size > 0
    ensures CString(Fit([], size)) == [] && 0 in Fit([], size)
  {
    assert Fit([], size)[0] == 0;
  }

  /**
   * Every accepted argument fits both fields, and joining the two C strings gives it back
   * exactly when it holds no NUL.
   */
  lemma {:induction false} SplitRoundTrip(arg: seq<byte>)
    requires AsciizBytes(BOOT_ARGS_SIZE + BOOT_EXTRA_ARGS_SIZE - 1, arg).Some?
    ensures var (cmdline, extra) := Split(arg + [0]);
            && |cmdline| <= BOOT_ARGS_SIZE && |extra| <= BOOT_EXTRA_ARGS_SIZE
            && (CString(Fit(cmdline, BOOT_ARGS_SIZE)) + CString(Fit(extra, BOOT_EXTRA_ARGS_SIZE)) == arg
                <==> 0 !in arg)
            && (0 !in arg ==> 0 in Fit(cmdline, BOOT_ARGS_SIZE) && 0 in Fit(extra, BOOT_EXTRA_ARGS_SIZE))
  {
    var (cmdline, extra) := Split(arg + [0]);
    var cut := BOOT_ARGS_SIZE - 1;
    if 0 in arg {
      assert CString(Fit(cmdline, BOOT_ARGS_SIZE)) + CString(Fit(extra, BOOT_EXTRA_ARGS_SIZE)) != arg;
    } else if |arg| < cut {
      assert cmdline == arg + [0, 0];
      FieldHoldsText(arg, [0, 0], BOOT_ARGS_SIZE);
      EmptyField(BOOT_EXTRA_ARGS_SIZE);
    } else {
      assert cmdline == arg[..cut] + [0] && extra == arg[cut..] + [0];
      FieldHoldsText(arg[..cut], [0], BOOT_ARGS_SIZE);
      FieldHoldsText(arg[cut..], [0], BOOT_EXTRA_ARGS_SIZE);
      assert arg == arg[..cut] + arg[cut..];
    }
  }

  /** The cut: the first field holds the first 511 bytes, the second what is left. */
  lemma {:induction false} SplitExactly(arg: seq<byte>)
    requires AsciizBytes(BOOT_ARGS_SIZE + BOOT_EXTRA_ARGS_SIZE - 1, arg).Some? && 0 !in arg
    ensures var (cmdline, extra) := Split(arg + [0]);
            if |arg| < 511 then
              CString(Fit(cmdline, 512)) == arg && CString(Fit(extra, 1024)) == []
            else
              CString(Fit(cmdline, 512)) == arg[..511] && CString(Fit(extra, 1024)) == arg[511..]
  {
    var (cmdline, extra) := Split(arg + [0]);
    if |arg| < 511 {
      assert cmdline == arg + [0, 0];
      FieldHoldsText(arg, [0, 0], BOOT_ARGS_SIZE);
      EmptyField(BOOT_EXTRA_ARGS_SIZE);
    } else {
      assert cmdline == arg[..511] + [0] && extra == arg[511..] + [0];
      FieldHoldsText(arg[..511], [0], BOOT_ARGS_SIZE);
      FieldHoldsText(arg[511..], [0], BOOT_EXTRA_ARGS_SIZE);
    }
  }

  /** The argument is refused exactly when it and its NUL exceed the buffer. */
  lemma {:induction false} AsciizExactly(bufsize: nat, arg: seq<byte>)
    ensures AsciizBytes(bufsize, arg) == if |arg| < bufsize then Some(arg + [0]) else None
  {
  }
}
