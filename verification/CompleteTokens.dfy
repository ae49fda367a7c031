/** The tokens of a text, in bytes: what opens a token, where it ends, and what an open one makes of a
    text. */
module CompleteTokens {
  import opened Bytes
  import opened CompleteSpec
  import opened Completes
  import opened CompleteTheorems
  import opened SqlText

  /** The search for a byte stops at the first one. */
  lemma UntilThere(z: Text, i: nat, c: byte, k: nat)
    requires i <= k <= |z| && c !in z[i..k] && (k < |z| ==> z[k] == c)
    ensures Until(z, i, c) == k
  {
    UntilIsFirst(z, i, c);
    var u := Until(z, i, c);
    assert forall j :: i <= j < u ==> z[i..u][j - i] == z[j];
    assert forall j :: i <= j < k ==> z[i..k][j - i] == z[j];
  }

  /** '...' and "..." and `...` are tokens, however long; without the second quote they are unfinished. */
  lemma QuotedToken(c: byte, s: Text, rest: Text)
    requires c in {0x27, 0x22, 0x60} && c !in s
    ensures Lex([c] + s + [c] + rest) == Tok(OTHER, |s| + 2)
    ensures Lex([c] + s) == Unfinished
  {
    var z, open: Text := [c] + s + [c] + rest, [c] + s;
    assert z[1..|s| + 1] == s && open[1..] == s;
    UntilThere(z, 1, c, |s| + 1);
    UntilThere(open, 1, c, |s| + 1);
  }

  /** So is [...]. */
  lemma BracketedToken(s: Text, rest: Text)
    requires 0x5d !in s
    ensures Lex([0x5b] + s + [0x5d] + rest) == Tok(OTHER, |s| + 2)
    ensures Lex([0x5b] + s) == Unfinished
  {
    var z, open: Text := [0x5b] + s + [0x5d] + rest, [0x5b] + s;
    assert z[1..|s| + 1] == s && open[1..] == s;
    UntilThere(z, 1, 0x5d, |s| + 1);
    UntilThere(open, 1, 0x5d, |s| + 1);
  }

  /** A text in which no C comment closes. */
  ghost predicate NoClose(s: Text) {
    forall k :: 0 <= k < |s| - 1 ==> !(s[k] == 0x2a && s[k + 1] == 0x2f)
  }

  lemma NotClosed(z: Text, k: nat, j: nat)
    requires 2 <= j && j + 1 < k <= |z| && NoClose(z[2..k])
    ensures !(z[j] == 0x2a && z[j + 1] == 0x2f)
  {
    assert !(z[2..k][j - 2] == 0x2a && z[2..k][j - 2 + 1] == 0x2f);
  }

  lemma CloseThere(z: Text, k: nat)
    requires 2 <= k <= |z| && NoClose(z[2..k])
    requires k < |z| ==> k + 1 < |z| && z[k] == 0x2a && z[k + 1] == 0x2f
    ensures CommentClose(z, 2) == k
  {
    CommentClosesFirst(z, 2);
    var u := CommentClose(z, 2);
    assert forall j :: 2 <= j < k ==> z[2..k][j - 2] == z[j];
    if u + 1 < k {
      NotClosed(z, k, u);
    }
  }

  /** A comment is white space from its opening to the first place where it closes. */
  lemma CommentToken(s: Text, rest: Text)
    requires NoClose(s)
    ensures Lex([0x2f, 0x2a] + s + [0x2a, 0x2f] + rest) == Tok(WS, |s| + 4)
    ensures Lex([0x2f, 0x2a] + s) == Unfinished
  {
    var z, open: Text := [0x2f, 0x2a] + s + [0x2a, 0x2f] + rest, [0x2f, 0x2a] + s;
    assert z[2..|s| + 2] == s && open[2..] == s;
    CloseThere(z, |s| + 2);
    CloseThere(open, |s| + 2);
  }

  /** A comment from "--" on is white space to the end of the line; it may also be the end of the text. */
  lemma LineCommentToken(s: Text, rest: Text)
    requires 0x0a !in s
    ensures Lex([0x2d, 0x2d] + s + [0x0a] + rest) == Tok(WS, |s| + 3)
    ensures Lex([0x2d, 0x2d] + s) == Comment
  {
    var z, open: Text := [0x2d, 0x2d] + s + [0x0a] + rest, [0x2d, 0x2d] + s;
    assert z[0..|s| + 2] == [0x2d, 0x2d] + s && open[0..|s| + 2] == open;
    UntilThere(z, 0, 0x0a, |s| + 2);
    UntilThere(open, 0, 0x0a, |s| + 2);
  }

  /** Space, tab, newline, form feed and carriage return; the semicolon. */
  lemma SingleBytes(rest: Text)
    ensures forall c: byte :: c in {0x20, 0x09, 0x0a, 0x0c, 0x0d} ==> Lex([c] + rest) == Tok(WS, 1)
    ensures Lex([0x3b] + rest) == Tok(SEMI, 1)
  {
  }

  /** The keywords, letter by letter. */
  lemma WordIsSpelled(id: seq<byte>)
    ensures Word(id) == CREATE <==> Spelled(id, "create", "CREATE")
    ensures Word(id) == TRIGGER <==> Spelled(id, "trigger", "TRIGGER")
    ensures Word(id) == TEMP <==> Spelled(id, "temp", "TEMP") || Spelled(id, "temporary", "TEMPORARY")
    ensures Word(id) == END <==> Spelled(id, "end", "END")
    ensures Word(id) == EXPLAIN <==> Spelled(id, "explain", "EXPLAIN")
    ensures Word(id) in {CREATE, TRIGGER, TEMP, END, EXPLAIN, OTHER}
  {
    hide Fold;
    hide Spelled;
    FoldSpelled(id, CREATE_WORD, "create", "CREATE");
    FoldSpelled(id, TRIGGER_WORD, "trigger", "TRIGGER");
    FoldSpelled(id, TEMP_WORD, "temp", "TEMP");
    FoldSpelled(id, TEMPORARY_WORD, "temporary", "TEMPORARY");
    FoldSpelled(id, END_WORD, "end", "END");
    FoldSpelled(id, EXPLAIN_WORD, "explain", "EXPLAIN");
  }

  /** A word goes on as long as its bytes do, and is a keyword or an ordinary token. */
  lemma WordToken(id: Text, rest: Text)
    requires id != [] && (forall k :: 0 <= k < |id| ==> InWord(id[k])) && (rest != [] ==> !InWord(rest[0]))
    ensures Lex(id + rest) == Tok(Word(id), |id|)
  {
    var z: Text := id + rest;
    forall k | 0 <= k < |z| {
      WordBytes(z[k]);
    }
    IdEndIsFirst(z, 1);
    assert z[..|id|] == id;
    WordOpens(z);
  }

  lemma WordOpens(z: Text)
    requires z != [] && IdChar(z[0])
    ensures Lex(z) == Tok(Word(z[..IdEnd(z, 1)]), IdEnd(z, 1))
  {
  }

  /** Every other byte is a token, "/" and "-" where no comment opens among them. */
  lemma OtherToken(c: byte, rest: Text)
    requires c != 0 && !InWord(c) && (c as char) !in " \t\n\r;['`\"" && c != 0x0c
    requires c == 0x2f ==> rest == [] || rest[0] != 0x2a
    requires c == 0x2d ==> rest == [] || rest[0] != 0x2d
    ensures Lex([c] + rest) == Tok(OTHER, 1)
  {
    WordBytes(c);
    assert At([c] + rest, 1) == if rest == [] then 0 else rest[0];
  }

  /** What is opened after a complete text and not closed makes it incomplete: a quoted token, a bracketed
      one, a C comment. */
  lemma OpenIsIncomplete(a: Text, c: byte, s: Text)
    requires IsComplete(a) && !EndsInComment(a)
    ensures c in {0x27, 0x22, 0x60} && c !in s ==> !IsComplete(a + ([c] + s))
    ensures 0x5d !in s ==> !IsComplete(a + ([0x5b] + s))
    ensures NoClose(s) ==> !IsComplete(a + ([0x2f, 0x2a] + s))
  {
    hide Lex;
    if c in {0x27, 0x22, 0x60} && c !in s {
      QuotedToken(c, s, []);
      UnfinishedAfter(a, [c] + s);
    }
    if 0x5d !in s {
      BracketedToken(s, []);
      UnfinishedAfter(a, [0x5b] + s);
    }
    if NoClose(s) {
      CommentToken(s, []);
      UnfinishedAfter(a, [0x2f, 0x2a] + s);
    }
  }

  lemma UnfinishedAfter(a: Text, b: Text)
    requires IsComplete(a) && !EndsInComment(a) && b != [] && Lex(b) == Unfinished
    ensures !IsComplete(a + b)
  {
    hide Lex;
    CompleteThen(a, b);
  }
}
