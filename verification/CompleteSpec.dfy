/** When a text is one or more complete SQL statements: tokens, the eight-state machine, and what the
    machine decides in terms of statements. */
module CompleteSpec {
  import opened Wrappers

  datatype State = INVALID | START | NORMAL | EXPLAINED | CREATED | IN_TRIGGER | SEMI_SEEN | END_SEEN

  datatype Token = SEMI | WS | OTHER | EXPLAIN | CREATE | TEMP | TRIGGER | END

  /** The transition table */
  function Trans(s: State, t: Token): State {
    if t == WS then s
    else match s
      case INVALID => if t == SEMI then START else if t == EXPLAIN then EXPLAINED else if t == CREATE then CREATED else NORMAL
      case START => if t == SEMI then START else if t == EXPLAIN then EXPLAINED else if t == CREATE then CREATED else NORMAL
      case NORMAL => if t == SEMI then START else NORMAL
      case EXPLAINED => if t == SEMI then START else if t == OTHER then EXPLAINED else if t == CREATE then CREATED else NORMAL
      case CREATED => if t == SEMI then START else if t == TEMP then CREATED else if t == TRIGGER then IN_TRIGGER else NORMAL
      case IN_TRIGGER => if t == SEMI then SEMI_SEEN else IN_TRIGGER
      case SEMI_SEEN => if t == SEMI then SEMI_SEEN else if t == END then END_SEEN else IN_TRIGGER
      case END_SEEN => if t == SEMI then START else IN_TRIGGER
  }

  /** The state after some tokens. */
  function Run(s: State, toks: seq<Token>): State
    decreases |toks|
  {
    if toks == [] then s else Run(Trans(s, toks[0]), toks[1..])
  }

  /** The tokens that are not white space. */
  function Significant(toks: seq<Token>): (r: seq<Token>)
    ensures WS !in r
  {
    if toks == [] then []
    else if toks[0] == WS then Significant(toks[1..])
    else [toks[0]] + Significant(toks[1..])
  }

  lemma {:induction false} RunSignificant(s: State, toks: seq<Token>)
    ensures Run(s, toks) == Run(s, Significant(toks))
    decreases |toks|
  {
    if toks != [] {
      RunSignificant(Trans(s, toks[0]), toks[1..]);
      if toks[0] != WS {
        assert Significant(toks)[1..] == Significant(toks[1..]);
      }
    }
  }

  lemma {:induction false} RunAppend(s: State, a: seq<Token>, b: seq<Token>)
    ensures Run(s, a + b) == Run(Run(s, a), b)
    decreases |a|
  {
    if a == [] {
      assert a + b == b;
    } else {
      assert (a + b)[1..] == a[1..] + b;
      RunAppend(Trans(s, a[0]), a[1..], b);
    }
  }

  /** At the start of the text and between statements the machine does the same, except that nothing at
      all is no statement. */
  lemma {:induction false} RunInvalid(toks: seq<Token>)
    ensures Run(INVALID, toks) == START <==> Significant(toks) != [] && Run(START, toks) == START
    decreases |toks|
  {
    if toks != [] && toks[0] == WS {
      RunInvalid(toks[1..]);
    }
  }

  // Statements

  /** What follows the first semicolon. */
  function AfterSemi(toks: seq<Token>): (r: Option<seq<Token>>)
    ensures r.Some? ==> |r.value| < |toks|
  {
    if toks == [] then None else if toks[0] == SEMI then Some(toks[1..]) else AfterSemi(toks[1..])
  }

  /** What follows the first semicolon, END and semicolon in a row. */
  function AfterEnd(toks: seq<Token>): (r: Option<seq<Token>>)
    ensures r.Some? ==> |r.value| < |toks|
  {
    if |toks| < 3 then None
    else if toks[0] == SEMI && toks[1] == END && toks[2] == SEMI then Some(toks[3..])
    else AfterEnd(toks[1..])
  }

  /** CREATE, any number of TEMP, TRIGGER */
  predicate CreatesTrigger(toks: seq<Token>) {
    toks != [] && toks[0] == CREATE && TempsThenTrigger(toks[1..])
  }

  predicate TempsThenTrigger(toks: seq<Token>) {
    toks != [] && (toks[0] == TRIGGER || (toks[0] == TEMP && TempsThenTrigger(toks[1..])))
  }

  /** The same after EXPLAIN and ordinary tokens. */
  predicate ExplainsTrigger(toks: seq<Token>) {
    toks != [] && if toks[0] == OTHER then ExplainsTrigger(toks[1..]) else CreatesTrigger(toks)
  }

  predicate IsTrigger(toks: seq<Token>) {
    toks != [] && if toks[0] == EXPLAIN then ExplainsTrigger(toks[1..]) else CreatesTrigger(toks)
  }

  /** What follows the first statement: a trigger ends with "; END ;", anything else with a semicolon. */
  function AfterStatement(toks: seq<Token>): (r: Option<seq<Token>>)
    ensures r.Some? ==> |r.value| < |toks|
  {
    if IsTrigger(toks) then AfterEnd(toks) else AfterSemi(toks)
  }

  /** Every statement is ended. */
  predicate AllEnded(toks: seq<Token>)
    decreases |toks|
  {
    toks == [] || (AfterStatement(toks).Some? && AllEnded(AfterStatement(toks).value))
  }

  /** The machine is done with a statement and ends in START with what follows it. */
  ghost predicate Finishes(rest: Option<seq<Token>>) {
    rest.Some? && Run(START, rest.value) == START
  }

  lemma {:induction false} NormalEnds(toks: seq<Token>)
    requires WS !in toks
    ensures Run(NORMAL, toks) == START <==> Finishes(AfterSemi(toks))
  {
    if toks != [] && toks[0] != SEMI {
      NormalEnds(toks[1..]);
    }
  }

  /** Inside a trigger the machine keeps the last tokens that may begin "; END ;". */
  lemma {:induction false} TriggerEnds(toks: seq<Token>)
    requires WS !in toks
    ensures Run(IN_TRIGGER, toks) == START <==> Finishes(AfterEnd(toks))
    ensures Run(SEMI_SEEN, toks) == START <==> Finishes(AfterEnd([SEMI] + toks))
    ensures Run(END_SEEN, toks) == START <==> Finishes(AfterEnd([SEMI, END] + toks))
  {
    hide AfterEnd;
    hide Finishes;
    if toks == [] {
      NeverEnds(toks);
    } else {
      TriggerEnds(toks[1..]);
      AfterSkipped(toks[0], toks[1..]);
      assert toks == [toks[0]] + toks[1..];
      assert [SEMI] + toks == [SEMI, toks[0]] + toks[1..];
      assert [SEMI, END] + toks == [SEMI, END, toks[0]] + toks[1..];
    }
  }

  /** What one token more after nothing, a semicolon, or a semicolon and END comes to. */
  lemma AfterSkipped(t: Token, rest: seq<Token>)
    ensures t != SEMI ==> AfterEnd([t] + rest) == AfterEnd(rest)
    ensures t == SEMI ==> AfterEnd([SEMI, t] + rest) == AfterEnd([SEMI] + rest)
    ensures t != SEMI && t != END ==> AfterEnd([SEMI, t] + rest) == AfterEnd(rest)
    ensures t == SEMI ==> Finishes(AfterEnd([SEMI, END, t] + rest)) == (Run(START, rest) == START)
    ensures t != SEMI ==> AfterEnd([SEMI, END, t] + rest) == AfterEnd(rest)
  {
    hide AfterEnd;
    assert [SEMI, t] + rest == [SEMI] + ([t] + rest);
    assert [SEMI, END, t] + rest == [SEMI] + ([END] + ([t] + rest));
    AfterEndSkips(t, rest);
    AfterEndSkips(SEMI, [t] + rest);
    AfterEndSkips(SEMI, [END] + ([t] + rest));
    AfterEndSkips(END, [t] + rest);
    AfterEndHere(rest);
  }

  lemma NeverEnds(toks: seq<Token>)
    requires toks == []
    ensures !Finishes(AfterEnd(toks)) && !Finishes(AfterEnd([SEMI] + toks)) && !Finishes(AfterEnd([SEMI, END] + toks))
  {
    TooShort(toks);
  }

  lemma TooShort(toks: seq<Token>)
    requires toks == []
    ensures AfterEnd(toks) == None && AfterEnd([SEMI] + toks) == None && AfterEnd([SEMI, END] + toks) == None
  {
  }

  lemma AfterEndHere(rest: seq<Token>)
    ensures AfterEnd([SEMI, END, SEMI] + rest) == Some(rest)
  {
    assert ([SEMI, END, SEMI] + rest)[3..] == rest;
  }

  /** A token that cannot begin "; END ;" is passed over. */
  lemma AfterEndSkips(t: Token, rest: seq<Token>)
    ensures !(t == SEMI && |rest| >= 2 && rest[0] == END && rest[1] == SEMI) ==> AfterEnd([t] + rest) == AfterEnd(rest)
  {
    assert ([t] + rest)[1..] == rest;
  }

  lemma {:induction false} CreateEnds(toks: seq<Token>)
    requires WS !in toks
    ensures Run(CREATED, toks) == START <==> Finishes(if TempsThenTrigger(toks) then AfterEnd(toks) else AfterSemi(toks))
  {
    if toks != [] {
      assert toks == [toks[0]] + toks[1..];
      AfterEndSkips(toks[0], toks[1..]);
      if toks[0] == TEMP {
        CreateEnds(toks[1..]);
      } else if toks[0] == TRIGGER {
        TriggerEnds(toks[1..]);
      } else {
        NormalEnds(toks[1..]);
      }
    }
  }

  lemma {:induction false} ExplainEnds(toks: seq<Token>)
    requires WS !in toks
    ensures Run(EXPLAINED, toks) == START <==> Finishes(if ExplainsTrigger(toks) then AfterEnd(toks) else AfterSemi(toks))
  {
    if toks != [] {
      assert toks == [toks[0]] + toks[1..];
      AfterEndSkips(toks[0], toks[1..]);
      if toks[0] == OTHER {
        ExplainEnds(toks[1..]);
      } else if toks[0] == CREATE {
        CreateEnds(toks[1..]);
      } else {
        NormalEnds(toks[1..]);
      }
    }
  }

  lemma StatementEnds(toks: seq<Token>)
    requires WS !in toks && toks != []
    ensures Run(START, toks) == START <==> Finishes(AfterStatement(toks))
  {
    assert toks == [toks[0]] + toks[1..];
    AfterEndSkips(toks[0], toks[1..]);
    if toks[0] == EXPLAIN {
      ExplainEnds(toks[1..]);
    } else if toks[0] == CREATE {
      CreateEnds(toks[1..]);
    } else {
      NormalEnds(toks[1..]);
    }
  }

  lemma {:induction false} AfterKeeps(toks: seq<Token>)
    requires WS !in toks
    ensures AfterSemi(toks).Some? ==> WS !in AfterSemi(toks).value
    ensures AfterEnd(toks).Some? ==> WS !in AfterEnd(toks).value
  {
    if toks != [] {
      AfterKeeps(toks[1..]);
    }
  }

  /** The machine stops in START exactly when every statement is ended. */
  lemma {:induction false} RunEnded(toks: seq<Token>)
    requires WS !in toks
    ensures Run(START, toks) == START <==> AllEnded(toks)
    decreases |toks|
  {
    if toks != [] {
      StatementEnds(toks);
      AfterKeeps(toks);
      if AfterStatement(toks).Some? {
        RunEnded(AfterStatement(toks).value);
      }
    }
  }

  /** What the eight states decide: there is a statement, and every statement is ended, a trigger by
      "; END ;" and any other by a semicolon. */
  lemma MachineDecides(toks: seq<Token>)
    ensures Run(INVALID, toks) == START <==> Significant(toks) != [] && AllEnded(Significant(toks))
  {
    RunInvalid(toks);
    RunSignificant(START, toks);
    RunEnded(Significant(toks));
  }

  // The statements, written out

  /** An ordinary statement ends with its first semicolon. */
  lemma {:induction false} FirstSemicolon(a: seq<Token>, rest: seq<Token>)
    requires SEMI !in a
    ensures AfterSemi(a + [SEMI] + rest) == Some(rest) && AfterSemi(a) == None
  {
    if a == [] {
      assert (a + [SEMI] + rest)[1..] == rest;
    } else {
      assert (a + [SEMI] + rest)[1..] == a[1..] + [SEMI] + rest;
      FirstSemicolon(a[1..], rest);
    }
  }

  /** A semicolon, END and a semicolon in a row, at position k. */
  predicate EndAt(toks: seq<Token>, k: nat) {
    k + 2 < |toks| && toks[k] == SEMI && toks[k + 1] == END && toks[k + 2] == SEMI
  }

  /** A trigger ends with the first "; END ;". */
  lemma {:induction false} FirstEnd(toks: seq<Token>, k: nat)
    requires k <= |toks| && forall j :: 0 <= j < k ==> !EndAt(toks, j)
    ensures EndAt(toks, k) ==> AfterEnd(toks) == Some(toks[k + 3..])
    ensures k == |toks| ==> AfterEnd(toks) == None
  {
    if k > 0 {
      assert !EndAt(toks, 0);
      forall j | 0 <= j < k - 1
        ensures !EndAt(toks[1..], j)
      {
        assert !EndAt(toks, j + 1);
      }
      assert EndAt(toks, k) <==> EndAt(toks[1..], k - 1);
      FirstEnd(toks[1..], k - 1);
    }
  }

  /** From position i on: CREATE, n times TEMP, TRIGGER. */
  ghost predicate CreatesAt(toks: seq<Token>, i: nat, n: nat) {
    && i + n + 1 < |toks| && toks[i] == CREATE && toks[i + n + 1] == TRIGGER
    && forall k :: i < k <= i + n ==> toks[k] == TEMP
  }

  /** EXPLAIN and m ordinary tokens, then the same. */
  ghost predicate ExplainsAt(toks: seq<Token>, m: nat, n: nat) {
    toks != [] && toks[0] == EXPLAIN && CreatesAt(toks, m + 1, n) && forall k :: 1 <= k <= m ==> toks[k] == OTHER
  }

  lemma {:induction false} TempsForm(toks: seq<Token>) returns (n: nat)
    requires TempsThenTrigger(toks)
    ensures n < |toks| && toks[n] == TRIGGER && forall k :: 0 <= k < n ==> toks[k] == TEMP
  {
    n := 0;
    if toks[0] != TRIGGER {
      n := TempsForm(toks[1..]);
      assert forall k :: 0 < k <= n + 1 ==> toks[k] == toks[1..][k - 1];
      n := n + 1;
    }
  }

  lemma {:induction false} FormTemps(toks: seq<Token>, n: nat)
    requires n < |toks| && toks[n] == TRIGGER && forall k :: 0 <= k < n ==> toks[k] == TEMP
    ensures TempsThenTrigger(toks)
  {
    if n > 0 {
      FormTemps(toks[1..], n - 1);
    }
  }

  /** The statements that count as triggers are those that begin like one. */
  lemma CreatesForm(toks: seq<Token>)
    ensures CreatesTrigger(toks) <==> exists n: nat :: CreatesAt(toks, 0, n)
  {
    if CreatesTrigger(toks) {
      var n := TempsForm(toks[1..]);
      assert forall k :: 0 < k <= n + 1 ==> toks[k] == toks[1..][k - 1];
      assert CreatesAt(toks, 0, n);
    }
    if n: nat :| CreatesAt(toks, 0, n) {
      FormTemps(toks[1..], n);
    }
  }

  lemma {:induction false} ExplainsForm(toks: seq<Token>) returns (m: nat, n: nat)
    requires ExplainsTrigger(toks)
    ensures CreatesAt(toks, m, n) && forall k :: 0 <= k < m ==> toks[k] == OTHER
  {
    hide CreatesTrigger;
    if toks[0] == OTHER {
      m, n := ExplainsForm(toks[1..]);
      assert forall k :: 0 < k < |toks| ==> toks[k] == toks[1..][k - 1];
      m := m + 1;
    } else {
      CreatesForm(toks);
      m := 0;
      n :| CreatesAt(toks, 0, n);
    }
  }

  lemma {:induction false} FormExplains(toks: seq<Token>, m: nat, n: nat)
    requires CreatesAt(toks, m, n) && forall k :: 0 <= k < m ==> toks[k] == OTHER
    ensures ExplainsTrigger(toks)
  {
    hide CreatesTrigger;
    if m == 0 {
      CreatesForm(toks);
    } else {
      assert forall k :: 0 < k < |toks| ==> toks[k] == toks[1..][k - 1];
      FormExplains(toks[1..], m - 1, n);
    }
  }

  lemma TriggersBeginSo(toks: seq<Token>)
    ensures IsTrigger(toks) <==>
      (exists n: nat :: CreatesAt(toks, 0, n)) || (exists m: nat, n: nat :: ExplainsAt(toks, m, n))
  {
    hide CreatesTrigger;
    hide ExplainsTrigger;
    CreatesForm(toks);
    if toks != [] && toks[0] == EXPLAIN {
      assert forall k :: 0 < k < |toks| ==> toks[k] == toks[1..][k - 1];
      if ExplainsTrigger(toks[1..]) {
        var m, n := ExplainsForm(toks[1..]);
        assert ExplainsAt(toks, m, n);
      }
      if m: nat, n: nat :| ExplainsAt(toks, m, n) {
        FormExplains(toks[1..], m, n);
      }
    }
  }
}
