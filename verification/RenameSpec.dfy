/** Replacing tokens of an SQL text: what the edited text is. */
module RenameSpec {
  import opened SqlText
  import opened Wrappers

  /** A token of the text: its offset and its length. */
  datatype Token = Token(off: nat, n: nat)

  predicate Apart(t: Token, u: Token) {
    t.off + t.n <= u.off || u.off + u.n <= t.off
  }

  /** Non-empty tokens of a text of length len that do not overlap, in any order. */
  ghost predicate Disjoint(toks: seq<Token>, len: nat) {
    && (forall i :: 0 <= i < |toks| ==> toks[i].n > 0 && toks[i].off + toks[i].n <= len)
    && (forall i, j :: 0 <= i < j < |toks| ==> Apart(toks[i], toks[j]))
  }

  /** The "%w" conversion: double quotes are doubled. */
  function Doubled(s: Text): (r: Text)
    ensures |r| >= |s|
  {
    if s == [] then [] else
      var rest := Doubled(s[1..]);
      (if s[0] == QUOTE then [QUOTE, QUOTE] else [s[0]]) + rest
  }

  /** zQuot: the quoted name and a space */
  function Quoted(zNew: Text): (r: Text)
    ensures |r| >= |zNew| + 3
  {
    [QUOTE] + Doubled(zNew) + [QUOTE, SPACE]
  }

  /** What stands for token t in the edited text: the new name as it is where the old one was a bare
      identifier, otherwise quoted, and followed by a space where a quote comes next. */
  function Replacement(zSql: Text, t: Token, zNew: Text, bQuote: bool): (r: Text)
    requires t.n > 0 && t.off + t.n <= |zSql|
    ensures |r| <= |Quoted(zNew)| - 1 + t.n
  {
    if !bQuote && IdChar(zSql[t.off]) then zNew
    else if At(zSql, t.off + t.n) == QUOTE then Quoted(zNew)
    else Quoted(zNew)[..|Quoted(zNew)| - 1]
  }

  /** The token that starts at offset i. */
  function TokenAt(toks: seq<Token>, i: nat): (t: Option<Token>)
    ensures t.None? ==> forall k :: 0 <= k < |toks| ==> toks[k].off != i
    ensures t.Some? ==> t.value in toks && t.value.off == i
  {
    if toks == [] then None
    else if toks[0].off == i then Some(toks[0])
    else TokenAt(toks[1..], i)
  }

  /** The edited text from offset i on, reading the old text from left to right and taking every token
      where it starts. */
  function Scan(zSql: Text, toks: seq<Token>, zNew: Text, bQuote: bool, i: nat): (r: Text)
    requires i <= |zSql| && forall k :: 0 <= k < |toks| ==> toks[k].n > 0 && toks[k].off + toks[k].n <= |zSql|
    decreases |zSql| - i
  {
    if i == |zSql| then []
    else match TokenAt(toks, i)
      case Some(t) => Replacement(zSql, t, zNew, bQuote) + Scan(zSql, toks, zNew, bQuote, i + t.n)
      case None => [zSql[i]] + Scan(zSql, toks, zNew, bQuote, i + 1)
  }

  lemma ScanEnd(zSql: Text, toks: seq<Token>, zNew: Text, bQuote: bool)
    requires Disjoint(toks, |zSql|)
    ensures Scan(zSql, toks, zNew, bQuote, |zSql|) == []
  {
  }

  lemma ScanPast(zSql: Text, toks: seq<Token>, zNew: Text, bQuote: bool, i: nat)
    requires i < |zSql| && Disjoint(toks, |zSql|) && forall k :: 0 <= k < |toks| ==> toks[k].off != i
    ensures Scan(zSql, toks, zNew, bQuote, i) == [zSql[i]] + Scan(zSql, toks, zNew, bQuote, i + 1)
  {
    hide TokenAt;
    hide Replacement;
  }

  /** Where no token starts the text stays. */
  lemma {:induction false} ScanPlain(zSql: Text, toks: seq<Token>, zNew: Text, bQuote: bool, i: nat, m: nat)
    requires i <= m <= |zSql| && Disjoint(toks, |zSql|)
    requires forall k :: 0 <= k < |toks| ==> toks[k].off < i || toks[k].off >= m
    ensures Scan(zSql, toks, zNew, bQuote, i) == zSql[i..m] + Scan(zSql, toks, zNew, bQuote, m)
    decreases m - i
  {
    hide Scan;
    if i < m {
      ScanPast(zSql, toks, zNew, bQuote, i);
      ScanPlain(zSql, toks, zNew, bQuote, i + 1, m);
      assert zSql[i..m] == [zSql[i]] + zSql[i + 1..m];
    } else {
      assert zSql[i..m] == [];
    }
  }

  lemma ScanFrom(zSql: Text, toks: seq<Token>, zNew: Text, bQuote: bool, i: nat, t: Token)
    requires i < |zSql| && Disjoint(toks, |zSql|) && TokenAt(toks, i) == Some(t)
    ensures t.n > 0 && i + t.n <= |zSql| && t.off == i
    ensures Scan(zSql, toks, zNew, bQuote, i) == Replacement(zSql, t, zNew, bQuote) + Scan(zSql, toks, zNew, bQuote, i + t.n)
  {
    hide TokenAt;
    hide Replacement;
  }

  /** Token k where it starts. */
  lemma ScanToken(zSql: Text, toks: seq<Token>, zNew: Text, bQuote: bool, k: nat)
    requires k < |toks| && Disjoint(toks, |zSql|)
    ensures Scan(zSql, toks, zNew, bQuote, toks[k].off)
      == Replacement(zSql, toks[k], zNew, bQuote) + Scan(zSql, toks, zNew, bQuote, toks[k].off + toks[k].n)
  {
    hide TokenAt;
    hide Replacement;
    TokenHere(toks, k, |zSql|);
  }

  /** Tokens that do not overlap start at different offsets. */
  lemma TokenHere(toks: seq<Token>, k: nat, len: nat)
    requires k < |toks| && Disjoint(toks, len)
    ensures TokenAt(toks, toks[k].off) == Some(toks[k])
  {
    hide TokenAt;
    var t := TokenAt(toks, toks[k].off);
    var j :| 0 <= j < |toks| && toks[j] == t.value;
    forall a, b | 0 <= a < b < |toks| ensures toks[a].off != toks[b].off {
      assert Apart(toks[a], toks[b]);
    }
  }

  /** The rightmost token not yet replaced, when what follows m is done: its replacement, the text up to
      m, and what is done make what is done from the token on. */
  lemma ScanStep(zSql: Text, toks: seq<Token>, zNew: Text, bQuote: bool, k: nat, m: nat)
    requires k < |toks| && m <= |zSql| && Disjoint(toks, |zSql|) && toks[k].off + toks[k].n <= m
    requires forall i :: 0 <= i < |toks| ==> toks[i].off <= toks[k].off || toks[i].off >= m
    ensures Scan(zSql, toks, zNew, bQuote, toks[k].off)
      == Replacement(zSql, toks[k], zNew, bQuote) + zSql[toks[k].off + toks[k].n..m] + Scan(zSql, toks, zNew, bQuote, m)
  {
    hide Scan;
    hide Replacement;
    hide TokenAt;
    ScanToken(zSql, toks, zNew, bQuote, k);
    ScanPlain(zSql, toks, zNew, bQuote, toks[k].off + toks[k].n, m);
  }

  lemma SameTokenAt(toks: seq<Token>, other: seq<Token>, len: nat, i: nat)
    requires Disjoint(toks, len) && Disjoint(other, len) && forall t :: t in toks <==> t in other
    ensures TokenAt(toks, i) == TokenAt(other, i)
  {
    hide TokenAt;
    match TokenAt(toks, i) {
      case Some(t) =>
        var k :| 0 <= k < |other| && other[k] == t;
        TokenHere(other, k, len);
      case None =>
        forall u | u in other ensures u.off != i {
          assert u in toks;
        }
    }
  }

  /** The order in which the tokens are listed does not matter. */
  lemma {:induction false} ScanOrder(zSql: Text, toks: seq<Token>, other: seq<Token>, zNew: Text, bQuote: bool, i: nat)
    requires i <= |zSql| && Disjoint(toks, |zSql|) && Disjoint(other, |zSql|)
    requires forall t :: t in toks <==> t in other
    ensures Scan(zSql, toks, zNew, bQuote, i) == Scan(zSql, other, zNew, bQuote, i)
    decreases |zSql| - i
  {
    hide TokenAt;
    hide Replacement;
    hide Scan;
    if i < |zSql| {
      SameTokenAt(toks, other, |zSql|, i);
      match TokenAt(toks, i) {
        case Some(t) =>
          ScanFrom(zSql, toks, zNew, bQuote, i, t);
          ScanFrom(zSql, other, zNew, bQuote, i, t);
          ScanOrder(zSql, toks, other, zNew, bQuote, i + t.n);
        case None =>
          ScanPast(zSql, toks, zNew, bQuote, i);
          ScanPast(zSql, other, zNew, bQuote, i);
          ScanOrder(zSql, toks, other, zNew, bQuote, i + 1);
      }
    } else {
      ScanEnd(zSql, toks, zNew, bQuote);
      ScanEnd(zSql, other, zNew, bQuote);
    }
  }
}
