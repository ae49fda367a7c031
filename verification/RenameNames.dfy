/** What stands in an edited text in place of a token: an identifier that means the new name. */
module RenameNames {
  import opened Bytes
  import opened RenameSpec
  import opened SqlText
  import opened Wrappers

  /** A quoted identifier as it is read: the name that it means, and its length in the text. */
  datatype Ident = Ident(name: seq<byte>, n: nat)

  /** Reading on after the opening quote: two quotes are one quote of the name, one quote ends it. */
  function ReadOn(z: seq<byte>): (r: Option<Ident>) {
    if z == [] then None
    else if z[0] != 0x22 then Longer(z[0], 1, ReadOn(z[1..]))
    else if |z| > 1 && z[1] == 0x22 then Longer(0x22, 2, ReadOn(z[2..]))
    else Some(Ident([], 1))
  }

  function Longer(c: byte, n: nat, r: Option<Ident>): Option<Ident> {
    if r.Some? then Some(Ident([c] + r.value.name, n + r.value.n)) else None
  }

  /** The double-quoted identifier that a text begins with. */
  function ReadQuoted(z: seq<byte>): Option<Ident> {
    if z == [] || z[0] != 0x22 then None
    else match ReadOn(z[1..])
      case Some(i) => Some(Ident(i.name, i.n + 1))
      case None => None
  }

  ghost predicate QuoteNext(z: seq<byte>) {
    z != [] && z[0] == 0x22
  }

  /** A doubled name and a quote read back as the name, unless a quote follows. */
  lemma {:induction false} DoubledReads(s: Text, rest: seq<byte>)
    ensures !QuoteNext(rest) ==> ReadOn(Doubled(s) + [0x22] + rest) == Some(Ident(s, |Doubled(s)| + 1))
    ensures QuoteNext(rest) ==> var r := ReadOn(Doubled(s) + [0x22] + rest); r.Some? ==> |r.value.name| > |s|
  {
    hide ReadOn;
    if s == [] {
      assert Doubled(s) + [0x22] + rest == [0x22] + rest;
      ReadEnd(rest);
    } else {
      var tail := Doubled(s[1..]) + [0x22] + rest;
      DoubledReads(s[1..], rest);
      assert Doubled(s) + [0x22] + rest == (if s[0] == 0x22 then [0x22, 0x22] else [s[0]]) + tail;
      ReadByte(s[0], tail);
      assert [s[0]] + s[1..] == s;
    }
  }

  lemma ReadEnd(rest: seq<byte>)
    ensures !QuoteNext(rest) ==> ReadOn([0x22] + rest) == Some(Ident([], 1))
    ensures QuoteNext(rest) ==> var r := ReadOn([0x22] + rest); r.Some? ==> |r.value.name| > 0
  {
  }

  lemma ReadByte(c: byte, tail: seq<byte>)
    ensures ReadOn((if c == 0x22 then [0x22, 0x22] else [c]) + tail) == Longer(c, if c == 0x22 then 2 else 1, ReadOn(tail))
  {
    assert ([0x22, 0x22] + tail)[2..] == tail && ([c] + tail)[1..] == tail;
  }

  /** Where the old name was a word, the new one may be one. */
  ghost predicate Bare(zSql: Text, t: Token, bQuote: bool)
    requires t.n > 0 && t.off + t.n <= |zSql|
  {
    !bQuote && InWord(zSql[t.off])
  }

  /** A quote stood after the token. */
  ghost predicate Spaced(zSql: Text, t: Token)
    requires t.off + t.n <= |zSql|
  {
    QuoteNext(zSql[t.off + t.n..])
  }

  /** What replaces a token, read with the text that follows it: the new name itself, or an identifier
      that reads as the new name, with a space after it only where a quote stood. */
  lemma ReplacementMeans(zSql: Text, t: Token, zNew: Text, bQuote: bool, rest: seq<byte>)
    requires t.n > 0 && t.off + t.n <= |zSql|
    ensures Bare(zSql, t, bQuote) ==> Replacement(zSql, t, zNew, bQuote) == zNew
    ensures !Bare(zSql, t, bQuote) ==>
      var r, spaced := Replacement(zSql, t, zNew, bQuote), Spaced(zSql, t);
      && r[0] == 0x22 && (spaced ==> r[|r| - 1] == 0x20)
      && (spaced || !QuoteNext(rest) ==> ReadQuoted(r + rest) == Some(Ident(zNew, if spaced then |r| - 1 else |r|)))
      && (!spaced && QuoteNext(rest) ==> Misread(r + rest, zNew))
  {
    WordBytes(zSql[t.off]);
    if !Bare(zSql, t, bQuote) {
      var r, spaced := Replacement(zSql, t, zNew, bQuote), Spaced(zSql, t);
      var after := if spaced then [SPACE] + rest else rest;
      assert Quoted(zNew)[..|Quoted(zNew)| - 1] == [QUOTE] + Doubled(zNew) + [QUOTE];
      assert r + rest == [0x22] + (Doubled(zNew) + [0x22] + after);
      DoubledReads(zNew, after);
    }
  }

  /** What is read here is not this name. */
  ghost predicate Misread(z: seq<byte>, name: seq<byte>) {
    ReadQuoted(z).Some? ==> ReadQuoted(z).value.name != name
  }

  /** The edited text begins with a quote at offset i of the old one. */
  ghost predicate OpensQuote(zSql: Text, toks: seq<Token>, zNew: Text, bQuote: bool, i: nat)
    requires i <= |zSql| && Disjoint(toks, |zSql|)
    decreases |zSql| - i
  {
    i < |zSql| && match TokenAt(toks, i)
      case None => zSql[i] == 0x22
      case Some(t) =>
        if !Bare(zSql, t, bQuote) then true
        else if zNew == [] then OpensQuote(zSql, toks, zNew, bQuote, i + t.n)
        else zNew[0] == 0x22
  }

  lemma {:induction false} OpensAsScanned(zSql: Text, toks: seq<Token>, zNew: Text, bQuote: bool, i: nat)
    requires i <= |zSql| && Disjoint(toks, |zSql|)
    ensures OpensQuote(zSql, toks, zNew, bQuote, i) <==> QuoteNext(Scan(zSql, toks, zNew, bQuote, i))
    decreases |zSql| - i
  {
    hide Replacement;
    if i < |zSql| {
      match TokenAt(toks, i) {
        case None =>
        case Some(t) =>
          ReplacementMeans(zSql, t, zNew, bQuote, []);
          if Bare(zSql, t, bQuote) && zNew == [] {
            OpensAsScanned(zSql, toks, zNew, bQuote, i + t.n);
          }
      }
    }
  }

  /** Offset i is not within a token. */
  ghost predicate Between(toks: seq<Token>, i: nat) {
    forall k :: 0 <= k < |toks| ==> i <= toks[k].off || toks[k].off + toks[k].n <= i
  }

  /** The edited text passes every offset that is not within a token. */
  lemma {:induction false} ScanReaches(zSql: Text, toks: seq<Token>, zNew: Text, bQuote: bool, j: nat, i: nat) returns (pre: Text)
    requires j <= i <= |zSql| && Disjoint(toks, |zSql|) && Between(toks, j) && Between(toks, i)
    ensures Scan(zSql, toks, zNew, bQuote, j) == pre + Scan(zSql, toks, zNew, bQuote, i)
    decreases i - j
  {
    hide Replacement;
    hide Scan;
    hide TokenAt;
    hide Apart;
    if j == i {
      return [];
    }
    match TokenAt(toks, j) {
      case None =>
        ScanPast(zSql, toks, zNew, bQuote, j);
        pre := ScanReaches(zSql, toks, zNew, bQuote, j + 1, i);
        pre := [zSql[j]] + pre;
      case Some(t) =>
        TokenEnds(toks, |zSql|, j, t);
        ScanFrom(zSql, toks, zNew, bQuote, j, t);
        pre := ScanReaches(zSql, toks, zNew, bQuote, j + t.n, i);
        pre := Replacement(zSql, t, zNew, bQuote) + pre;
    }
  }

  lemma TokenEnds(toks: seq<Token>, len: nat, j: nat, t: Token)
    requires Disjoint(toks, len) && TokenAt(toks, j) == Some(t)
    ensures Between(toks, j) && Between(toks, j + t.n)
  {
    var k :| 0 <= k < |toks| && toks[k] == t;
    forall l | 0 <= l < |toks|
      ensures toks[l].off >= j || toks[l].off + toks[l].n <= j
      ensures toks[l].off >= j + t.n || toks[l].off + toks[l].n <= j + t.n
    {
      assert l != k ==> Apart(toks[if l < k then l else k], toks[if l < k then k else l]);
    }
  }

  /** From position p on the text reads as the new name in the place of token t. */
  ghost predicate NameAt(zSql: Text, toks: seq<Token>, zNew: Text, bQuote: bool, t: Token, out: Text, p: nat)
    requires Disjoint(toks, |zSql|) && t.n > 0 && t.off + t.n <= |zSql|
  {
    && p <= |out|
    && if Bare(zSql, t, bQuote) then |zNew| <= |out| - p && out[p..p + |zNew|] == zNew
       else if Spaced(zSql, t) || !OpensQuote(zSql, toks, zNew, bQuote, t.off + t.n) then
         var i := ReadQuoted(out[p..]);
         && i.Some? && i.value.name == zNew
         && (Spaced(zSql, t) ==> i.value.n < |out| - p && out[p + i.value.n] == 0x20)
       else Misread(out[p..], zNew)
  }

  /** The edited text, where token k was. */
  lemma NameInPlace(zSql: Text, toks: seq<Token>, zNew: Text, bQuote: bool, k: nat) returns (p: nat)
    requires Disjoint(toks, |zSql|) && k < |toks|
    ensures var out := Scan(zSql, toks, zNew, bQuote, 0);
      && NameAt(zSql, toks, zNew, bQuote, toks[k], out, p)
      && out[p..] == Scan(zSql, toks, zNew, bQuote, toks[k].off)
  {
    hide Scan;
    hide Replacement;
    hide ReadQuoted;
    hide TokenAt;
    hide OpensQuote;
    hide Apart;
    var t, out := toks[k], Scan(zSql, toks, zNew, bQuote, 0);
    TokenHere(toks, k, |zSql|);
    TokenEnds(toks, |zSql|, t.off, t);
    var pre := ScanReaches(zSql, toks, zNew, bQuote, 0, t.off);
    p := |pre|;
    ScanToken(zSql, toks, zNew, bQuote, k);
    var rest := Scan(zSql, toks, zNew, bQuote, t.off + t.n);
    ReplacementMeans(zSql, t, zNew, bQuote, rest);
    OpensAsScanned(zSql, toks, zNew, bQuote, t.off + t.n);
    assert out[p..] == Replacement(zSql, t, zNew, bQuote) + rest;
  }

  /** Every token has become the new name. */
  ghost predicate Renamed(zSql: Text, toks: seq<Token>, zNew: Text, bQuote: bool, out: Text)
    requires Disjoint(toks, |zSql|)
  {
    forall t :: t in toks ==> NameSomewhere(zSql, toks, zNew, bQuote, t, out)
  }

  ghost predicate NameSomewhere(zSql: Text, toks: seq<Token>, zNew: Text, bQuote: bool, t: Token, out: Text)
    requires Disjoint(toks, |zSql|) && t in toks
  {
    exists p: nat :: NameAt(zSql, toks, zNew, bQuote, t, out, p)
  }

  lemma EveryName(zSql: Text, toks: seq<Token>, zNew: Text, bQuote: bool)
    requires Disjoint(toks, |zSql|)
    ensures Renamed(zSql, toks, zNew, bQuote, Scan(zSql, toks, zNew, bQuote, 0))
  {
    hide Scan;
    hide ReadQuoted;
    hide TokenAt;
    var out := Scan(zSql, toks, zNew, bQuote, 0);
    forall t | t in toks
      ensures NameSomewhere(zSql, toks, zNew, bQuote, t, out)
    {
      var k: nat :| k < |toks| && toks[k] == t;
      var p := NameInPlace(zSql, toks, zNew, bQuote, k);
    }
  }

  /** A token that no other one directly follows is read as the new name. */
  lemma SeparateTokenReads(zSql: Text, toks: seq<Token>, zNew: Text, bQuote: bool, t: Token, out: Text, p: nat)
    requires Disjoint(toks, |zSql|) && t in toks && NameAt(zSql, toks, zNew, bQuote, t, out, p)
    requires forall u :: u in toks ==> u.off != t.off + t.n
    ensures if Bare(zSql, t, bQuote) then p + |zNew| <= |out| && out[p..p + |zNew|] == zNew
            else p <= |out| && ReadQuoted(out[p..]).Some? && ReadQuoted(out[p..]).value.name == zNew
  {
  }

  /** Two bracketed tokens with nothing between them run together: the text "[a][b]", with both renamed,
      does not begin with the new name. */
  lemma AdjacentTokensJoin(zNew: Text)
    ensures var z, toks := [0x5b, 0x61, 0x5d, 0x5b, 0x62, 0x5d], [Token(0, 3), Token(3, 3)];
      Disjoint(toks, |z|) && Misread(Scan(z, toks, zNew, true, 0), zNew)
  {
    hide Scan;
    hide Misread;
    var z: Text, toks := [0x5b, 0x61, 0x5d, 0x5b, 0x62, 0x5d], [Token(0, 3), Token(3, 3)];
    var p := NameInPlace(z, toks, zNew, true, 0);
    TokenHere(toks, 1, 6);
    assert OpensQuote(z, toks, zNew, true, 3);
    assert !Spaced(z, toks[0]);
    var out := Scan(z, toks, zNew, true, 0);
    assert |out[p..]| == |out| && out[p..] == out;
  }
}
