/** Bytes of SQL text. */
module SqlText {
  import opened Bytes

  /** The text of a C string. */
  type Text = s: seq<byte> | 0 !in s

  const QUOTE: byte := 0x22
  const SPACE: byte := 0x20

  /** sqlite3IsIdChar: letters, digits, "_", "$" and everything outside ASCII */
  predicate IdChar(c: byte) {
    || 0x30 <= c <= 0x39 || 0x41 <= c <= 0x5a || 0x61 <= c <= 0x7a
    || c == 0x5f || c == 0x24 || c >= 0x80
  }

  /** A letter, a digit, "_", "$" or a byte beyond ASCII */
  ghost predicate InWord(c: byte) {
    var ch := c as char;
    'a' <= ch <= 'z' || 'A' <= ch <= 'Z' || '0' <= ch <= '9' || ch == '_' || ch == '$' || c >= 0x80
  }

  lemma WordBytes(c: byte)
    ensures IdChar(c) <==> InWord(c)
  {
  }

  /** sqlite3UpperToLower */
  function ToLower(c: byte): byte {
    if 0x41 <= c <= 0x5a then c + 0x20 else c
  }

  /** A text in lower case: what is left of it where case does not matter. */
  function Fold(z: seq<byte>): (f: seq<byte>)
    ensures |f| == |z| && forall i :: 0 <= i < |z| ==> f[i] == ToLower(z[i])
  {
    seq(|z|, i requires 0 <= i < |z| => ToLower(z[i]))
  }

  /** id is this word, its letters in either case. */
  ghost predicate Spelled(id: seq<byte>, lower: string, upper: string)
    requires |lower| == |upper|
  {
    |id| == |lower| && forall k :: 0 <= k < |id| ==> id[k] as char == lower[k] || id[k] as char == upper[k]
  }

  lemma FoldSpelled(id: seq<byte>, word: Text, lower: string, upper: string)
    requires |word| == |lower| == |upper|
    requires forall k :: 0 <= k < |word| ==>
      'a' <= lower[k] <= 'z' && word[k] == lower[k] as int && upper[k] as int == lower[k] as int - 0x20
    ensures Fold(id) == word <==> Spelled(id, lower, upper)
  {
    if |id| == |word| {
      forall k | 0 <= k < |id|
        ensures Fold(id)[k] == word[k] <==> id[k] as char == lower[k] || id[k] as char == upper[k]
      {
      }
    }
  }

  /** The upper and the lower case of one of the 26 letters */
  ghost predicate CasePair(x: byte, y: byte) {
    x as char in "ABCDEFGHIJKLMNOPQRSTUVWXYZ" && y == x + 0x20
  }

  /** The strings differ in the case of letters at most. */
  ghost predicate SameButCase(a: seq<byte>, b: seq<byte>) {
    |a| == |b| && forall k :: 0 <= k < |a| ==> a[k] == b[k] || CasePair(a[k], b[k]) || CasePair(b[k], a[k])
  }

  lemma FoldMeans(a: seq<byte>, b: seq<byte>)
    ensures Fold(a) == Fold(b) <==> SameButCase(a, b)
  {
    if |a| == |b| {
      forall k | 0 <= k < |a|
        ensures Fold(a)[k] == Fold(b)[k] <==> a[k] == b[k] || CasePair(a[k], b[k]) || CasePair(b[k], a[k])
      {
        CapitalLetters(a[k]);
        CapitalLetters(b[k]);
      }
    }
  }

  lemma CapitalLetters(x: byte)
    ensures x as char in "ABCDEFGHIJKLMNOPQRSTUVWXYZ" <==> 0x41 <= x <= 0x5a
  {
    var letters := "ABCDEFGHIJKLMNOPQRSTUVWXYZ";
    assert forall k :: 0 <= k < 26 ==> letters[k] as int == 0x41 + k;
    assert 0x41 <= x <= 0x5a ==> letters[x - 0x41] == x as char;
  }

  /** The byte at index i of a C string, whose terminator is a zero. */
  function At(s: Text, i: nat): (c: byte)
    requires i <= |s|
    ensures c == 0 <==> i == |s|
  {
    if i < |s| then s[i] else 0
  }
}
