/** sqlite3_complete: the tokens of a text, and the scan over them. */
module Completes {
  import opened Bytes
  import opened CompleteSpec
  import opened SqlText
  import opened Wrappers

  /** What a text begins with: a token of n bytes, something that is not finished, or a "--" comment that
      goes on to the end of the text. */
  datatype Lexeme = Tok(t: Token, n: nat) | Unfinished | Comment

  /** The first place from i on that holds c, or the end. */
  function Until(z: Text, i: nat, c: byte): (k: nat)
    requires i <= |z|
    ensures i <= k <= |z| && (k < |z| ==> z[k] == c)
    decreases |z| - i
  {
    if i == |z| || z[i] == c then i else Until(z, i + 1, c)
  }

  /** The first place from i on where a C comment closes, or the end. */
  function CommentClose(z: Text, i: nat): (k: nat)
    requires i <= |z|
    ensures i <= k <= |z| && (k < |z| ==> k + 1 < |z| && z[k] == 0x2a && z[k + 1] == 0x2f)
    decreases |z| - i
  {
    if i == |z| || (z[i] == 0x2a && At(z, i + 1) == 0x2f) then i else CommentClose(z, i + 1)
  }

  /** The first place from i on that no identifier character holds, or the end. */
  function IdEnd(z: Text, i: nat): (k: nat)
    requires i <= |z|
    ensures i <= k <= |z|
    decreases |z| - i
  {
    if i == |z| || !IdChar(z[i]) then i else IdEnd(z, i + 1)
  }

  lemma {:induction false} UntilIsFirst(z: Text, i: nat, c: byte)
    requires i <= |z|
    ensures c !in z[i..Until(z, i, c)]
    decreases |z| - i
  {
    if Until(z, i, c) != i {
      UntilIsFirst(z, i + 1, c);
      assert z[i..Until(z, i, c)] == [z[i]] + z[i + 1..Until(z, i + 1, c)];
    }
  }

  lemma {:induction false} CommentClosesFirst(z: Text, i: nat)
    requires i <= |z|
    ensures forall k :: i <= k < CommentClose(z, i) ==> !(z[k] == 0x2a && At(z, k + 1) == 0x2f)
    decreases |z| - i
  {
    if CommentClose(z, i) != i {
      CommentClosesFirst(z, i + 1);
    }
  }

  lemma {:induction false} IdEndIsFirst(z: Text, i: nat)
    requires i <= |z|
    ensures forall k :: i <= k < IdEnd(z, i) ==> IdChar(z[k])
    ensures IdEnd(z, i) < |z| ==> !IdChar(z[IdEnd(z, i)])
    decreases |z| - i
  {
    if IdEnd(z, i) != i {
      IdEndIsFirst(z, i + 1);
    }
  }

  const CREATE_WORD: Text := [0x63, 0x72, 0x65, 0x61, 0x74, 0x65]
  const TRIGGER_WORD: Text := [0x74, 0x72, 0x69, 0x67, 0x67, 0x65, 0x72]
  const TEMP_WORD: Text := [0x74, 0x65, 0x6d, 0x70]
  const TEMPORARY_WORD: Text := [0x74, 0x65, 0x6d, 0x70, 0x6f, 0x72, 0x61, 0x72, 0x79]
  const END_WORD: Text := [0x65, 0x6e, 0x64]
  const EXPLAIN_WORD: Text := [0x65, 0x78, 0x70, 0x6c, 0x61, 0x69, 0x6e]

  /** The token for an identifier or keyword */
  function Word(id: seq<byte>): Token {
    var w := Fold(id);
    if w == CREATE_WORD then CREATE
    else if w == TRIGGER_WORD then TRIGGER
    else if w == TEMP_WORD || w == TEMPORARY_WORD then TEMP
    else if w == END_WORD then END
    else if w == EXPLAIN_WORD then EXPLAIN
    else OTHER
  }

  predicate IsSpace(c: byte) {
    c == 0x20 || c == 0x0d || c == 0x09 || c == 0x0a || c == 0x0c
  }

  predicate IsQuote(c: byte) {
    c == 0x60 || c == 0x22 || c == 0x27
  }

  /** The closing byte of a bracketed or quoted token that c opens. */
  function Closer(c: byte): byte {
    if c == 0x5b then 0x5d else c
  }

  /** The first token of a text. */
  function Lex(z: Text): (l: Lexeme)
    requires z != []
    ensures l.Tok? ==> 0 < l.n <= |z|
  {
    var c := z[0];
    if c == 0x3b then Tok(SEMI, 1)
    else if IsSpace(c) then Tok(WS, 1)
    else if c == 0x2f then
      if At(z, 1) != 0x2a then Tok(OTHER, 1)
      else if CommentClose(z, 2) == |z| then Unfinished
      else Tok(WS, CommentClose(z, 2) + 2)
    else if c == 0x2d then
      if At(z, 1) != 0x2d then Tok(OTHER, 1)
      else if Until(z, 0, 0x0a) == |z| then Comment
      else Tok(WS, Until(z, 0, 0x0a) + 1)
    else if c == 0x5b || IsQuote(c) then
      if Until(z, 1, Closer(c)) == |z| then Unfinished
      else Tok(OTHER, Until(z, 1, Closer(c)) + 1)
    else if IdChar(c) then Tok(Word(z[..IdEnd(z, 1)]), IdEnd(z, 1))
    else Tok(OTHER, 1)
  }

  /** The tokens of a text; None where it ends within a token. */
  function Tokens(z: Text): Option<seq<Token>>
    decreases |z|
  {
    if z == [] then Some([])
    else match Lex(z)
      case Tok(t, n) =>
        (match Tokens(z[n..])
         case Some(rest) => Some([t] + rest)
         case None => None)
      case Unfinished => None
      case Comment => Some([])
  }

  /** The text is finished, and the machine stops in START from state s. */
  predicate CompleteFrom(s: State, z: Text) {
    Tokens(z).Some? && Run(s, Tokens(z).value) == START
  }

  predicate IsComplete(z: Text) {
    CompleteFrom(INVALID, z)
  }

  /** One token more. */
  lemma CompleteStep(s: State, z: Text)
    requires z != []
    ensures match Lex(z)
      case Tok(t, n) => CompleteFrom(s, z) <==> CompleteFrom(Trans(s, t), z[n..])
      case Unfinished => !CompleteFrom(s, z)
      case Comment => CompleteFrom(s, z) <==> s == START
  {
    match Lex(z) {
      case Tok(t, n) =>
        if Tokens(z[n..]).Some? {
          assert ([t] + Tokens(z[n..]).value)[1..] == Tokens(z[n..]).value;
        }
      case Unfinished =>
      case Comment =>
    }
  }

  /** sqlite3StrNICmp(z, word, |word|) == 0 for a word in lower case */
  method SameWord(z: Text, word: Text) returns (same: bool)
    requires Fold(word) == word
    ensures same <==> |word| <= |z| && Fold(z[..|word|]) == word
  {
    var k := 0;
    while k < |word|
      invariant k <= |word| && k <= |z| && forall i :: 0 <= i < k ==> ToLower(z[i]) == word[i]
      decreases |word| - k
    {
      if At(z, k) == 0 || ToLower(z[k]) != ToLower(word[k]) {
        assert Fold(word)[k] == word[k];
        assert |word| <= |z| ==> Fold(z[..|word|])[k] == ToLower(z[k]);
        return false;
      }
      assert Fold(word)[k] == word[k];
      k := k + 1;
    }
    same := true;
  }

  /** sqlite3_complete: a pointer into the text is the text that is left. */
  method Complete(zSql: Text) returns (r: bool)
    ensures r <==> IsComplete(zSql)
  {
    var state := INVALID;
    var z := zSql;
    while z != []
      invariant IsComplete(zSql) <==> CompleteFrom(state, z)
      decreases |z|
    {
      CompleteStep(state, z);
      var l := NextToken(z);
      match l {
        case Tok(t, n) =>
          state := Trans(state, t);
          z := z[n..];
        case Unfinished => return false;
        case Comment => return state == START;
      }
    }
    r := state == START;
  }

  /** The switch on the first byte. */
  method NextToken(z: Text) returns (l: Lexeme)
    requires z != []
    ensures l == Lex(z)
  {
    var c := z[0];
    if c == 0x3b {
      return Tok(SEMI, 1);
    }
    if IsSpace(c) {
      return Tok(WS, 1);
    }
    if c == 0x2f {
      if At(z, 1) != 0x2a {
        return Tok(OTHER, 1);
      }
      var k := 2;
      while k < |z| && (z[k] != 0x2a || At(z, k + 1) != 0x2f)
        invariant 2 <= k <= |z| && CommentClose(z, 2) == CommentClose(z, k)
      {
        k := k + 1;
      }
      return if k == |z| then Unfinished else Tok(WS, k + 2);
    }
    if c == 0x2d {
      if At(z, 1) != 0x2d {
        return Tok(OTHER, 1);
      }
      var k := FindByte(z, 0, 0x0a);
      return if k == |z| then Comment else Tok(WS, k + 1);
    }
    if c == 0x5b || IsQuote(c) {
      var k := FindByte(z, 1, Closer(c));
      return if k == |z| then Unfinished else Tok(OTHER, k + 1);
    }
    if IdChar(c) {
      var nId := 1;
      while nId < |z| && IdChar(z[nId])
        invariant 1 <= nId <= |z| && IdEnd(z, 1) == IdEnd(z, nId)
      {
        nId := nId + 1;
      }
      var t := Keyword(z, nId);
      return Tok(t, nId);
    }
    return Tok(OTHER, 1);
  }

  method FindByte(z: Text, i: nat, c: byte) returns (k: nat)
    requires i <= |z|
    ensures k == Until(z, i, c)
  {
    k := i;
    while k < |z| && z[k] != c
      invariant i <= k <= |z| && Until(z, i, c) == Until(z, k, c)
    {
      k := k + 1;
    }
  }

  /** The switch on the first letter of an identifier of nId bytes. */
  method Keyword(z: Text, nId: nat) returns (t: Token)
    requires 0 < nId <= |z|
    ensures t == Word(z[..nId])
  {
    hide Word;
    hide Fold;
    WordsLower();
    WordByLetter(z[..nId]);
    var same: bool;
    t := OTHER;
    if z[0] == 0x63 || z[0] == 0x43 {
      same := SameWord(z, CREATE_WORD);
      if nId == 6 && same {
        t := CREATE;
      }
    } else if z[0] == 0x74 || z[0] == 0x54 {
      same := SameWord(z, TRIGGER_WORD);
      if nId == 7 && same {
        return TRIGGER;
      }
      same := SameWord(z, TEMP_WORD);
      if nId == 4 && same {
        return TEMP;
      }
      same := SameWord(z, TEMPORARY_WORD);
      if nId == 9 && same {
        return TEMP;
      }
    } else if z[0] == 0x65 || z[0] == 0x45 {
      same := SameWord(z, END_WORD);
      if nId == 3 && same {
        return END;
      }
      same := SameWord(z, EXPLAIN_WORD);
      if nId == 7 && same {
        return EXPLAIN;
      }
    }
  }

  /** The first letter leaves only some of the keywords. */
  lemma WordByLetter(id: seq<byte>)
    requires id != []
    ensures id[0] == 0x63 || id[0] == 0x43 ==> Word(id) == if Fold(id) == CREATE_WORD then CREATE else OTHER
    ensures id[0] == 0x74 || id[0] == 0x54 ==>
      Word(id) == if Fold(id) == TRIGGER_WORD then TRIGGER
                  else if Fold(id) == TEMP_WORD || Fold(id) == TEMPORARY_WORD then TEMP else OTHER
    ensures id[0] == 0x65 || id[0] == 0x45 ==>
      Word(id) == if Fold(id) == END_WORD then END else if Fold(id) == EXPLAIN_WORD then EXPLAIN else OTHER
    ensures id[0] !in [0x63, 0x43, 0x74, 0x54, 0x65, 0x45] ==> Word(id) == OTHER
  {
    hide Fold;
    assert Fold(id)[0] == ToLower(id[0]);
  }

  lemma WordsLower()
    ensures Fold(CREATE_WORD) == CREATE_WORD && Fold(TRIGGER_WORD) == TRIGGER_WORD
    ensures Fold(TEMP_WORD) == TEMP_WORD && Fold(TEMPORARY_WORD) == TEMPORARY_WORD
    ensures Fold(END_WORD) == END_WORD && Fold(EXPLAIN_WORD) == EXPLAIN_WORD
  {
  }
}
