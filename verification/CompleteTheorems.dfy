/** Texts put together: what sqlite3_complete says of a complete text with more text after it. */
module CompleteTheorems {
  import opened Bytes
  import opened CompleteSpec
  import opened Completes
  import opened SqlText

  const NEWLINE: byte := 0x0a

  /** The scan of a text stops within a "--" comment. */
  predicate EndsInComment(z: Text)
    decreases |z|
  {
    z != [] && match Lex(z)
      case Tok(_, n) => EndsInComment(z[n..])
      case Unfinished => false
      case Comment => true
  }

  /** Only white space and comments. */
  predicate Blank(z: Text) {
    Tokens(z).Some? && Significant(Tokens(z).value) == []
  }

  lemma {:induction false} UntilAppend(a: Text, b: Text, i: nat, c: byte)
    requires i <= |a|
    ensures Until(a + b, i, c) == if Until(a, i, c) < |a| then Until(a, i, c) else |a| + Until(b, 0, c)
    decreases |a| - i
  {
    if i < |a| {
      UntilAppend(a, b, i + 1, c);
    } else {
      UntilShift(a, b, 0, c);
    }
  }

  lemma {:induction false} UntilShift(a: Text, b: Text, j: nat, c: byte)
    requires j <= |b|
    ensures Until(a + b, |a| + j, c) == |a| + Until(b, j, c)
    decreases |b| - j
  {
    if j < |b| {
      UntilShift(a, b, j + 1, c);
    }
  }

  lemma {:induction false} CommentCloseAppend(a: Text, b: Text, i: nat)
    requires i <= |a| && CommentClose(a, i) < |a|
    ensures CommentClose(a + b, i) == CommentClose(a, i)
    decreases |a| - i
  {
    if i < |a| && !(a[i] == 0x2a && At(a, i + 1) == 0x2f) {
      assert i + 1 < |a|;
      CommentCloseAppend(a, b, i + 1);
    }
  }

  lemma {:induction false} IdEndAppend(a: Text, b: Text, i: nat)
    requires i <= |a| && IdEnd(a, i) < |a|
    ensures IdEnd(a + b, i) == IdEnd(a, i)
    decreases |a| - i
  {
    if i < |a| && IdChar(a[i]) {
      IdEndAppend(a, b, i + 1);
    }
  }

  /** A token that ends before the text does, white space, or a semicolon stays what it is when text is
      added. */
  lemma LexAppend(a: Text, b: Text)
    requires a != [] && Lex(a).Tok? && (Lex(a).n < |a| || Lex(a).t == WS || Lex(a).t == SEMI)
    ensures Lex(a + b) == Lex(a)
  {
    var c := a[0];
    if c == 0x2f && At(a, 1) == 0x2a {
      CommentCloseAppend(a, b, 2);
    } else if c == 0x2d && At(a, 1) == 0x2d {
      UntilAppend(a, b, 0, NEWLINE);
    } else if c == 0x5b || IsQuote(c) {
      UntilAppend(a, b, 1, Closer(c));
    } else if IdChar(c) && c != 0x2f && c != 0x2d && c != 0x3b {
      IdEndAppend(a, b, 1);
      assert (a + b)[..IdEnd(a, 1)] == a[..IdEnd(a, 1)];
    }
  }

  /** After a complete text that does not stop in a comment the machine goes on from START. */
  lemma {:induction false} GoesOn(s: State, a: Text, b: Text)
    requires CompleteFrom(s, a) && !EndsInComment(a)
    ensures CompleteFrom(s, a + b) <==> CompleteFrom(START, b)
    decreases |a|
  {
    hide Lex;
    if a == [] {
      assert a + b == b;
    } else {
      var l := Lex(a);
      CompleteStep(s, a);
      CompleteStep(s, a + b);
      LexAppend(a, b);
      assert (a + b)[l.n..] == a[l.n..] + b;
      GoesOn(Trans(s, l.t), a[l.n..], b);
    }
  }

  lemma CommentAppend(a: Text, b: Text)
    requires a != [] && Lex(a) == Comment
    ensures var k := Until(b, 0, NEWLINE);
      Lex(a + b) == if k == |b| then Comment else Tok(WS, |a| + k + 1)
  {
    UntilAppend(a, b, 0, NEWLINE);
  }

  /** After one that does, the comment goes on to the end of the line. */
  lemma {:induction false} CommentGoesOn(s: State, a: Text, b: Text)
    requires CompleteFrom(s, a) && EndsInComment(a)
    ensures var k := Until(b, 0, NEWLINE);
      if k == |b| then CompleteFrom(s, a + b) && EndsInComment(a + b)
      else CompleteFrom(s, a + b) <==> CompleteFrom(START, b[k + 1..])
    decreases |a|
  {
    hide Lex;
    hide Until;
    hide Tokens;
    var l, k := Lex(a), Until(b, 0, NEWLINE);
    CompleteStep(s, a);
    CompleteStep(s, a + b);
    match l {
      case Comment =>
        CommentAppend(a, b);
        assert k < |b| ==> (a + b)[|a| + k + 1..] == b[k + 1..];
      case Tok(t, n) =>
        LexAppend(a, b);
        assert (a + b)[n..] == a[n..] + b;
        CommentGoesOn(Trans(s, t), a[n..], b);
    }
  }

  /** Between statements the machine tells a complete text from one that is not as at the start, but also
      takes a blank one. */
  lemma FromStart(b: Text)
    ensures CompleteFrom(START, b) <==> IsComplete(b) || Blank(b)
  {
    if Tokens(b).Some? {
      RunInvalid(Tokens(b).value);
      RunSignificant(START, Tokens(b).value);
    }
  }

  /** Text after a complete text that does not stop in a "--" comment is judged on its own, except that
      blank text changes nothing. */
  lemma CompleteThen(a: Text, b: Text)
    requires IsComplete(a) && !EndsInComment(a)
    ensures IsComplete(a + b) <==> IsComplete(b) || Blank(b)
  {
    GoesOn(INVALID, a, b);
    FromStart(b);
  }

  /** If it does stop in a comment, what is left of the line belongs to the comment. */
  lemma CompleteThenComment(a: Text, b: Text)
    requires IsComplete(a) && EndsInComment(a)
    ensures var k := Until(b, 0, NEWLINE);
      if k == |b| then IsComplete(a + b) else IsComplete(a + b) <==> IsComplete(b[k + 1..]) || Blank(b[k + 1..])
  {
    CommentGoesOn(INVALID, a, b);
    var k := Until(b, 0, NEWLINE);
    if k < |b| {
      FromStart(b[k + 1..]);
    }
  }

  /** A text is complete exactly when it ends within no token and its tokens, white space aside, are one
      or more statements that are all ended. */
  lemma CompleteMeans(z: Text)
    ensures IsComplete(z) <==>
      Tokens(z).Some? && Significant(Tokens(z).value) != [] && AllEnded(Significant(Tokens(z).value))
  {
    if Tokens(z).Some? {
      MachineDecides(Tokens(z).value);
    }
  }
}
