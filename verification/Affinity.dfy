/** Column affinity from a declared type name: one pass with a rolling hash of the last four bytes. */
module Affinities {
  import opened Bytes
  import opened SqlText

  datatype Affinity = BLOB | TEXT | NUMERIC | INTEGER | REAL

  const INT_NAME: seq<byte> := [0x69, 0x6e, 0x74]
  const CHAR_NAME: seq<byte> := [0x63, 0x68, 0x61, 0x72]
  const CLOB_NAME: seq<byte> := [0x63, 0x6c, 0x6f, 0x62]
  const TEXT_NAME: seq<byte> := [0x74, 0x65, 0x78, 0x74]
  const BLOB_NAME: seq<byte> := [0x62, 0x6c, 0x6f, 0x62]
  const REAL_NAME: seq<byte> := [0x72, 0x65, 0x61, 0x6c]
  const FLOA_NAME: seq<byte> := [0x66, 0x6c, 0x6f, 0x61]
  const DOUB_NAME: seq<byte> := [0x64, 0x6f, 0x75, 0x62]

  /** The bytes of z that end before index e are name, but for case. */
  predicate EndsAt(z: seq<byte>, e: nat, name: seq<byte>)
    requires e <= |z|
  {
    |name| <= e && forall i :: 0 <= i < |name| ==> ToLower(z[e - |name| + i]) == name[i]
  }

  /** name occurs in z, but for case. */
  ghost predicate Occurs(z: seq<byte>, name: seq<byte>) {
    exists e :: 0 <= e <= |z| && EndsAt(z, e, name)
  }

  /** The table of substrings: those toward the top take priority, wherever they occur. */
  ghost function AffinityOf(z: seq<byte>): Affinity {
    if Occurs(z, INT_NAME) then INTEGER
    else if Occurs(z, CHAR_NAME) || Occurs(z, CLOB_NAME) || Occurs(z, TEXT_NAME) then TEXT
    else if Occurs(z, BLOB_NAME) then BLOB
    else if Occurs(z, REAL_NAME) || Occurs(z, FLOA_NAME) || Occurs(z, DOUB_NAME) then REAL
    else NUMERIC
  }

  /** Four bytes as a 32-bit number */
  function Word(a: byte, b: byte, c: byte, d: byte): nat {
    a * 0x100_0000 + b * 0x1_0000 + c * 0x100 + d
  }

  /** The lower-case byte k places before index e, or zero before the start */
  function Back(z: seq<byte>, e: nat, k: nat): byte
    requires e <= |z| && k > 0
  {
    if k <= e then ToLower(z[e - k]) else 0
  }

  /** The rolling hash at index e */
  function HashAt(z: seq<byte>, e: nat): nat
    requires e <= |z|
  {
    Word(Back(z, e, 4), Back(z, e, 3), Back(z, e, 2), Back(z, e, 1))
  }

  /** A hash is the word of a four-letter name exactly where the name ends. */
  lemma HashIsName(z: Text, e: nat, name: seq<byte>)
    requires e <= |z| && |name| == 4 && 0 !in name
    ensures HashAt(z, e) == Word(name[0], name[1], name[2], name[3]) <==> EndsAt(z, e, name)
  {
    assert e < 4 ==> Back(z, e, 4) == 0;
    assert Back(z, e, 4) == name[0] && Back(z, e, 3) == name[1] && Back(z, e, 2) == name[2] && Back(z, e, 1) == name[3]
      <==> EndsAt(z, e, name);
  }

  lemma LowBytes(a: byte, b: byte, c: byte, d: byte)
    ensures Word(a, b, c, d) % 0x100_0000 == Word(0, b, c, d)
    ensures Word(a, b, c, d) < 0x1_0000_0000
  {
  }

  /** Its three low bytes are those of a three-letter name exactly where the name ends. */
  lemma LowHashIsName(z: Text, e: nat, name: seq<byte>)
    requires e <= |z| && |name| == 3 && 0 !in name
    ensures HashAt(z, e) % 0x100_0000 == Word(0, name[0], name[1], name[2]) <==> EndsAt(z, e, name)
  {
    LowBytes(Back(z, e, 4), Back(z, e, 3), Back(z, e, 2), Back(z, e, 1));
    assert e < 3 ==> Back(z, e, 3) == 0;
    assert Back(z, e, 3) == name[0] && Back(z, e, 2) == name[1] && Back(z, e, 1) == name[2] <==> EndsAt(z, e, name);
  }

  /** One byte more either completes a name or leaves things as they were. */
  lemma OccursStep(z: seq<byte>, e: nat, name: seq<byte>)
    requires e < |z|
    ensures Occurs(z[..e + 1], name) <==> Occurs(z[..e], name) || EndsAt(z, e + 1, name)
  {
    forall k | 0 <= k <= e ensures EndsAt(z[..e + 1], k, name) <==> EndsAt(z[..e], k, name) {}
    assert EndsAt(z[..e + 1], e + 1, name) <==> EndsAt(z, e + 1, name);
    if Occurs(z[..e + 1], name) {
      var k :| 0 <= k <= e + 1 && EndsAt(z[..e + 1], k, name);
      assert k <= e ==> EndsAt(z[..e], k, name);
    }
    if Occurs(z[..e], name) {
      var k :| 0 <= k <= e && EndsAt(z[..e], k, name);
      assert EndsAt(z[..e + 1], k, name);
    }
  }

  lemma OccursBefore(z: seq<byte>, e: nat, name: seq<byte>)
    requires e <= |z| && Occurs(z[..e], name)
    ensures Occurs(z, name)
  {
    var k :| 0 <= k <= e && EndsAt(z[..e], k, name);
    assert EndsAt(z, k, name);
  }

  /** sqlite3AffinityType, when no size estimate is asked for */
  method AffinityType(zIn: Text) returns (aff: Affinity)
    ensures aff == AffinityOf(zIn)
  {
    hide HashAt;
    hide Occurs;
    hide ToLower;
    var h: nat := 0;
    aff := NUMERIC;
    var i := 0;
    NothingYet(zIn);
    while At(zIn, i) != 0
      invariant i <= |zIn| && h == HashAt(zIn, i)
      invariant aff == AffinityOf(zIn[..i]) && !Occurs(zIn[..i], INT_NAME)
      decreases |zIn| - i
    {
      var x := zIn[i];
      h := (h % 0x100_0000) * 0x100 + ToLower(x);
      RollHash(zIn, i);
      i := i + 1;
      NamesStep(zIn, i - 1);
      if h == 0x6368_6172 {
        aff := TEXT;
      } else if h == 0x636c_6f62 {
        aff := TEXT;
      } else if h == 0x7465_7874 {
        aff := TEXT;
      } else if h == 0x626c_6f62 && (aff == NUMERIC || aff == REAL) {
        aff := BLOB;
      } else if h == 0x7265_616c && aff == NUMERIC {
        aff := REAL;
      } else if h == 0x666c_6f61 && aff == NUMERIC {
        aff := REAL;
      } else if h == 0x646f_7562 && aff == NUMERIC {
        aff := REAL;
      } else if h % 0x100_0000 == 0x69_6e74 {
        OccursBefore(zIn, i, INT_NAME);
        return INTEGER;
      }
    }
    assert zIn[..i] == zIn;
  }

  lemma NothingYet(z: Text)
    ensures HashAt(z, 0) == 0 && AffinityOf(z[..0]) == NUMERIC && !Occurs(z[..0], INT_NAME)
  {
    hide Occurs;
    NotInNothing(z[..0], INT_NAME);
    NotInNothing(z[..0], CHAR_NAME);
    NotInNothing(z[..0], CLOB_NAME);
    NotInNothing(z[..0], TEXT_NAME);
    NotInNothing(z[..0], BLOB_NAME);
    NotInNothing(z[..0], REAL_NAME);
    NotInNothing(z[..0], FLOA_NAME);
    NotInNothing(z[..0], DOUB_NAME);
  }

  lemma NotInNothing(z: seq<byte>, name: seq<byte>)
    requires z == [] && name != []
    ensures !Occurs(z, name)
  {
  }

  /** Shifting a byte in keeps the hash that of the last four bytes. */
  lemma RollHash(z: Text, e: nat)
    requires e < |z|
    ensures HashAt(z, e + 1) == (HashAt(z, e) % 0x100_0000) * 0x100 + ToLower(z[e])
  {
    LowBytes(Back(z, e, 4), Back(z, e, 3), Back(z, e, 2), Back(z, e, 1));
  }

  /** What the hash after byte e says about every name of the table. */
  lemma NamesStep(z: Text, e: nat)
    requires e < |z|
    ensures var h := HashAt(z, e + 1);
      && (Occurs(z[..e + 1], CHAR_NAME) <==> Occurs(z[..e], CHAR_NAME) || h == 0x6368_6172)
      && (Occurs(z[..e + 1], CLOB_NAME) <==> Occurs(z[..e], CLOB_NAME) || h == 0x636c_6f62)
      && (Occurs(z[..e + 1], TEXT_NAME) <==> Occurs(z[..e], TEXT_NAME) || h == 0x7465_7874)
      && (Occurs(z[..e + 1], BLOB_NAME) <==> Occurs(z[..e], BLOB_NAME) || h == 0x626c_6f62)
      && (Occurs(z[..e + 1], REAL_NAME) <==> Occurs(z[..e], REAL_NAME) || h == 0x7265_616c)
      && (Occurs(z[..e + 1], FLOA_NAME) <==> Occurs(z[..e], FLOA_NAME) || h == 0x666c_6f61)
      && (Occurs(z[..e + 1], DOUB_NAME) <==> Occurs(z[..e], DOUB_NAME) || h == 0x646f_7562)
      && (Occurs(z[..e + 1], INT_NAME) <==> Occurs(z[..e], INT_NAME) || h % 0x100_0000 == 0x69_6e74)
  {
    NameStep(z, e, CHAR_NAME);
    NameStep(z, e, CLOB_NAME);
    NameStep(z, e, TEXT_NAME);
    NameStep(z, e, BLOB_NAME);
    NameStep(z, e, REAL_NAME);
    NameStep(z, e, FLOA_NAME);
    NameStep(z, e, DOUB_NAME);
    OccursStep(z, e, INT_NAME);
    LowHashIsName(z, e + 1, INT_NAME);
  }

  lemma NameStep(z: Text, e: nat, name: seq<byte>)
    requires e < |z| && |name| == 4 && 0 !in name
    ensures Occurs(z[..e + 1], name) <==> Occurs(z[..e], name) || HashAt(z, e + 1) == Word(name[0], name[1], name[2], name[3])
  {
    OccursStep(z, e, name);
    HashIsName(z, e + 1, name);
  }

  /** The letters of a name stand somewhere in z, in either case. */
  ghost predicate Contains(z: seq<byte>, lower: string, upper: string)
    requires |lower| == |upper|
  {
    exists e :: SpelledBefore(z, e, lower, upper)
  }

  ghost predicate SpelledBefore(z: seq<byte>, e: nat, lower: string, upper: string)
    requires |lower| == |upper|
  {
    |lower| <= e <= |z| && Spelled(z[e - |lower|..e], lower, upper)
  }

  lemma OccursSpelled(z: seq<byte>, name: Text, lower: string, upper: string)
    requires |name| == |lower| == |upper|
    requires forall k :: 0 <= k < |name| ==>
      'a' <= lower[k] <= 'z' && name[k] == lower[k] as int && upper[k] as int == lower[k] as int - 0x20
    ensures Occurs(z, name) <==> Contains(z, lower, upper)
  {
    hide Spelled;
    hide Fold;
    hide EndsAt;
    forall e: nat | e <= |z|
      ensures EndsAt(z, e, name) <==> SpelledBefore(z, e, lower, upper)
    {
      if EndsAt(z, e, name) {
        EndsLate(z, e, name);
      }
      if |name| <= e {
        FoldSpelled(z[e - |name|..e], name, lower, upper);
        EndsAsFolded(z, e, name);
      }
    }
    if Contains(z, lower, upper) {
      var e: nat :| SpelledBefore(z, e, lower, upper);
      assert EndsAt(z, e, name);
    }
  }

  lemma EndsLate(z: seq<byte>, e: nat, name: seq<byte>)
    requires e <= |z| && EndsAt(z, e, name)
    ensures |name| <= e
  {
  }

  lemma EndsAsFolded(z: seq<byte>, e: nat, name: seq<byte>)
    requires |name| <= e <= |z|
    ensures EndsAt(z, e, name) <==> Fold(z[e - |name|..e]) == name
  {
    var end := z[e - |name|..e];
    assert forall i :: 0 <= i < |name| ==> Fold(end)[i] == ToLower(z[e - |name| + i]);
  }

  /** The table in letters: INT anywhere makes INTEGER; else CHAR, CLOB or TEXT makes TEXT; else BLOB; else
      REAL, FLOA or DOUB makes REAL; anything else is NUMERIC. */
  lemma AffinityInLetters(z: seq<byte>)
    ensures var isInt := Contains(z, "int", "INT");
      var isText := Contains(z, "char", "CHAR") || Contains(z, "clob", "CLOB") || Contains(z, "text", "TEXT");
      var isBlob := Contains(z, "blob", "BLOB");
      var isReal := Contains(z, "real", "REAL") || Contains(z, "floa", "FLOA") || Contains(z, "doub", "DOUB");
      && (AffinityOf(z) == INTEGER <==> isInt)
      && (AffinityOf(z) == TEXT <==> isText && !isInt)
      && (AffinityOf(z) == BLOB <==> isBlob && !isText && !isInt)
      && (AffinityOf(z) == REAL <==> isReal && !isBlob && !isText && !isInt)
      && (AffinityOf(z) == NUMERIC <==> !isReal && !isBlob && !isText && !isInt)
  {
    hide Contains;
    hide Occurs;
    OccursSpelled(z, INT_NAME, "int", "INT");
    OccursSpelled(z, CHAR_NAME, "char", "CHAR");
    OccursSpelled(z, CLOB_NAME, "clob", "CLOB");
    OccursSpelled(z, TEXT_NAME, "text", "TEXT");
    OccursSpelled(z, BLOB_NAME, "blob", "BLOB");
    OccursSpelled(z, REAL_NAME, "real", "REAL");
    OccursSpelled(z, FLOA_NAME, "floa", "FLOA");
    OccursSpelled(z, DOUB_NAME, "doub", "DOUB");
  }
}
