/** The packed operating system version and patch level. */
module OsVersion {
  import opened Arith
  import opened Bits

  /** parse_os_version on the numbers a.b.c. */
  function VersionNumber(a: nat, b: nat, c: nat): nat {
    Or(Or(a * Pow2(14), b * Pow2(7)), c)
  }

  /** parse_os_patch_level on the date 2000 + y, m. */
  function PatchLevel(y: nat, m: nat): nat {
    Or(y * Pow2(4), m)
  }

  function HeaderWord(version: nat, patch: nat): nat {
    Or(version * Pow2(11), patch)
  }

  /** Bits low to low + width - 1, as the boot loader's header comment numbers them. */
  function BitField(word: nat, low: nat, width: nat): nat {
    word / Pow2(low) % Pow2(width)
  }

  lemma {:induction false} Powers()
    ensures Pow2(4) == 16 && Pow2(7) == 128 && Pow2(10) == 1024
    ensures Pow2(11) == 2048 && Pow2(14) == 16384 && Pow2(17) == 131072
    ensures Pow2(18) == 262144 && Pow2(21) == 2097152 && Pow2(25) == 33554432
  {
    assert Pow2(2) == 4;
    assert Pow2(4) == 16;
    assert Pow2(7) == 128;
    assert Pow2(9) == 512;
    assert Pow2(11) == 2048;
    assert Pow2(14) == 16384;
    assert Pow2(16) == 65536;
    assert Pow2(18) == 262144;
    assert Pow2(20) == 1048576;
    assert Pow2(22) == 4194304;
    assert Pow2(24) == 16777216;
  }

  lemma {:induction false} WordIsSum(a: nat, b: nat, c: nat, y: nat, m: nat)
    requires a < 128 && b < 128 && c < 128 && y < 128 && m <= 15
    ensures HeaderWord(VersionNumber(a, b, c), PatchLevel(y, m))
         == 33554432 * a + 262144 * b + 2048 * c + 16 * y + m
  {
    Powers();
    OrDisjoint(a, b * 128, 14);
    var ab := a * 128 + b;
    assert ab * 128 == a * 16384 + b * 128;
    OrDisjoint(ab, c, 7);
    OrDisjoint(y, m, 4);
    OrDisjoint(VersionNumber(a, b, c), PatchLevel(y, m), 11);
  }

  /** Every field of its width, the default 0 included, is read back from its bits in a 32-bit word. */
  lemma {:induction false} FieldsRecovered(a: nat, b: nat, c: nat, y: nat, m: nat)
    requires a < 128 && b < 128 && c < 128 && y < 128 && m <= 15
    ensures var w := HeaderWord(VersionNumber(a, b, c), PatchLevel(y, m));
            && w < 0x1_0000_0000
            && BitField(w, 25, 7) == a && BitField(w, 18, 7) == b && BitField(w, 11, 7) == c
            && BitField(w, 4, 7) == y && BitField(w, 0, 4) == m
  {
    WordIsSum(a, b, c, y, m);
    Powers();
    var w := HeaderWord(VersionNumber(a, b, c), PatchLevel(y, m));
    Digit(w, 33554432, 128, 0, a, 262144 * b + 2048 * c + 16 * y + m);
    Digit(w, 262144, 128, a, b, 2048 * c + 16 * y + m);
    Digit(w, 2048, 128, a * 128 + b, c, 16 * y + m);
    Digit(w, 16, 128, a * 16384 + b * 128 + c, y, m);
    assert BitField(w, 0, 4) == m by {
      DivModUnique(w, 1, w, 0);
      DivModUnique(w, 16, 2097152 * a + 16384 * b + 128 * c + y, m);
    }
  }

  /** A digit in a mixed-radix sum is what division and remainder give. */
  lemma {:induction false} Digit(w: nat, d: nat, e: nat, hi: nat, v: nat, lo: nat)
    requires 0 < d && v < e && lo < d && w == d * (e * hi + v) + lo
    ensures w / d % e == v
  {
    DivModUnique(w, d, e * hi + v, lo);
    DivModUnique(e * hi + v, e, hi, v);
  }
}
