/** Keys of the symbol tables: C strings that differ only in the case of ASCII letters are one key. */
module HashKeys {
  import opened Bytes
  import opened SqlText

  /** Up to case, i is the first place where the strings, with their terminators, may differ. */
  predicate AgreeBefore(zLeft: Text, zRight: Text, i: nat) {
    i <= |zLeft| && i <= |zRight| && Fold(zLeft)[..i] == Fold(zRight)[..i]
  }

  /** sqlite3StrICmp */
  method StrICmp(zLeft: Text, zRight: Text) returns (c: int)
    ensures c == 0 <==> Fold(zLeft) == Fold(zRight)
    ensures c != 0 ==> exists i :: AgreeBefore(zLeft, zRight, i) && c == ToLower(At(zLeft, i)) - ToLower(At(zRight, i))
  {
    var i := 0;
    while true
      invariant AgreeBefore(zLeft, zRight, i)
      decreases |zLeft| - i
    {
      var a, b := At(zLeft, i), At(zRight, i);
      if a == b {
        if a == 0 {
          assert Fold(zLeft)[..i] == Fold(zLeft) && Fold(zRight)[..i] == Fold(zRight);
          return 0;
        }
      } else {
        c := ToLower(a) - ToLower(b);
        if c != 0 {
          return;
        }
      }
      i := i + 1;
    }
  }

  /** 0xdf & c: the bit that tells the cases of a letter apart is dropped. */
  function Masked(c: byte): byte {
    if c % 64 >= 32 then c - 32 else c
  }

  /** One turn of strHash's loop, on 32-bit words. */
  function Mix(h: nat, c: byte): (r: nat)
    ensures r < 0x1_0000_0000
  {
    ((h + Masked(c)) * 0x9e37_79b1) % 0x1_0000_0000
  }

  function StrHash(z: seq<byte>): (h: nat)
    ensures h < 0x1_0000_0000
  {
    if z == [] then 0 else Mix(StrHash(z[..|z| - 1]), z[|z| - 1])
  }

  /** strHash */
  method ComputeHash(z: Text) returns (h: nat)
    ensures h == StrHash(z)
  {
    hide Mix;
    h := 0;
    var i := 0;
    while At(z, i) != 0
      invariant i <= |z| && h == StrHash(z[..i])
      decreases |z| - i
    {
      assert z[..i + 1][..i] == z[..i];
      h := Mix(h, z[i]);
      i := i + 1;
    }
    assert z[..i] == z;
  }

  /** Keys equal up to case have one hash. */
  lemma {:induction false} FoldedHash(a: seq<byte>, b: seq<byte>)
    requires Fold(a) == Fold(b)
    ensures StrHash(a) == StrHash(b)
  {
    hide Mix;
    if a != [] {
      var n := |a| - 1;
      assert Fold(a[..n]) == Fold(a)[..n] == Fold(b)[..n] == Fold(b[..n]);
      FoldedHash(a[..n], b[..n]);
      assert Fold(a)[n] == Fold(b)[n];
      MaskedCase(StrHash(a[..n]), a[n], b[n]);
    }
  }

  lemma MaskedCase(h: nat, a: byte, b: byte)
    requires ToLower(a) == ToLower(b)
    ensures Mix(h, a) == Mix(h, b)
  {
    assert Masked(a) == Masked(b);
  }

  /** Keys that differ in the last byte only, in more than the bit for the case, have different hashes. */
  lemma LastByteTells(z: seq<byte>, a: byte, b: byte)
    requires a != b && a != b + 0x20 && b != a + 0x20
    ensures StrHash(z + [a]) != StrHash(z + [b])
  {
    hide Mix;
    assert (z + [a])[..|z|] == z == (z + [b])[..|z|];
    MixTells(StrHash(z), a, b);
  }

  lemma MixTells(h: nat, a: byte, b: byte)
    requires Masked(a) != Masked(b)
    ensures Mix(h, a) != Mix(h, b)
  {
    var x, y := (h + Masked(a)) * 0x9e37_79b1, (h + Masked(b)) * 0x9e37_79b1;
    if x % 0x1_0000_0000 == y % 0x1_0000_0000 {
      OddMultiple(Masked(a) - Masked(b), x / 0x1_0000_0000 - y / 0x1_0000_0000);
    }
  }

  /** The multiplier is odd: 0x0e8b2f51 is its inverse. */
  lemma OddMultiple(d: int, t: int)
    requires d * 0x9e37_79b1 == t * 0x1_0000_0000 && -256 < d < 256
    ensures d == 0
  {
    var e := t * 0x0e8b_2f51 - d * 150801925;
    assert d == e * 0x1_0000_0000;
  }
}
