/** Editing the text of a schema object for ALTER TABLE RENAME: tokens are replaced in one buffer, the
    rightmost first. */
module Renames {
  import opened Bytes
  import opened Division
  import opened Lists
  import opened Memory
  import opened RenameNames
  import opened RenameSpec
  import opened SqlText
  import opened Wrappers

  /** A token of the text that parse tree element p was made from. */
  class RenameToken {
    const p: nat
    const z: nat
    const n: nat
    var pNext: RenameToken?

    constructor (p: nat, z: nat, n: nat)
      ensures this.p == p && this.z == z && this.n == n
    {
      this.p, this.z, this.n := p, z, n;
      pNext := null;
    }
  }

  ghost function ElemAt(s: seq<RenameToken>, i: int): RenameToken? {
    if 0 <= i < |s| then s[i] else null
  }

  /** The list from first is s. */
  ghost predicate Linked(s: seq<RenameToken>, first: RenameToken?)
    reads s
  {
    && (forall i, j :: 0 <= i < j < |s| ==> s[i] != s[j])
    && first == ElemAt(s, 0)
    && (forall i {:trigger s[i].pNext} :: 0 <= i < |s| ==> s[i].pNext == ElemAt(s, i + 1))
  }

  ghost function Tokens(s: seq<RenameToken>): (r: seq<Token>)
    ensures |r| == |s| && forall i :: 0 <= i < |r| ==> r[i] == Token(s[i].z, s[i].n)
  {
    seq(|s|, i requires 0 <= i < |s| => Token(s[i].z, s[i].n))
  }

  class Parse {
    var pRename: RenameToken?
    ghost var list: seq<RenameToken>

    ghost predicate Valid()
      reads this, list
    {
      Linked(list, pRename)
    }

    /** Take token k, which follows prev, off the list. */
    method Unlink(prev: RenameToken?, pToken: RenameToken, ghost k: nat)
      requires Valid() && k < |list| && pToken == list[k] && prev == ElemAt(list, k - 1)
      modifies this, list`pNext
      ensures Valid() && list == Removed(old(list), k)
    {
      if prev == null {
        pRename := pToken.pNext;
      } else {
        prev.pNext := pToken.pNext;
      }
      list := Removed(list, k);
    }
  }

  class RenameCtx {
    var pList: RenameToken?
    var nList: nat
    ghost var list: seq<RenameToken>

    ghost predicate Valid()
      reads this, list
    {
      Linked(list, pList)
    }

    constructor ()
      ensures Valid() && list == [] && nList == 0
    {
      pList, nList, list := null, 0, [];
    }

    method Push(pToken: RenameToken)
      requires Valid() && nList == |list| && pToken !in list
      modifies this, pToken`pNext
      ensures Valid() && nList == |list| && list == [pToken] + old(list)
    {
      pToken.pNext := pList;
      pList := pToken;
      nList := nList + 1;
      list := [pToken] + list;
    }

    /** renameTokenFind: move the token of parse tree element ptr, if there is one, to this list. */
    method RenameTokenFind(parse: Parse, ptr: nat) returns (found: RenameToken?)
      requires Valid() && parse.Valid() && nList == |list|
      requires forall i :: 0 <= i < |list| ==> list[i] !in parse.list
      modifies this, parse, parse.list`pNext
      ensures Valid() && parse.Valid() && nList == |list|
      ensures found == null ==> list == old(list) && parse.list == old(parse.list) && forall t :: t in list ==> t.pNext == old(t.pNext)
      ensures found == null ==> forall t :: t in parse.list ==> t.p != ptr
      ensures found != null ==>
        && found.p == ptr && list == [found] + old(list)
        && exists k :: 0 <= k < |old(parse.list)| && found == old(parse.list)[k] && parse.list == Removed(old(parse.list), k)
             && forall i :: 0 <= i < k ==> old(parse.list)[i].p != ptr
    {
      var prev: RenameToken? := null;
      found := parse.pRename;
      ghost var k := 0;
      while found != null
        invariant 0 <= k <= |parse.list| && found == ElemAt(parse.list, k) && prev == ElemAt(parse.list, k - 1)
        invariant forall i :: 0 <= i < k ==> parse.list[i].p != ptr
        invariant parse.Valid() && Valid() && nList == |list| && list == old(list) && parse.list == old(parse.list)
        decreases |parse.list| - k
      {
        if found.p == ptr {
          assert found in parse.list;
          assert forall i :: 0 <= i < |list| ==> list[i] !in parse.list;
          parse.Unlink(prev, found, k);
          Push(found);
          return;
        }
        prev, found, k := found, found.pNext, k + 1;
      }
    }

    /** renameColumnTokenNext: take the rightmost token off the list. */
    method RenameColumnTokenNext() returns (pBest: RenameToken, ghost k: nat)
      requires Valid() && list != []
      modifies this`pList, this`list, list`pNext
      ensures Valid() && k < |old(list)| && pBest == old(list)[k] && list == Removed(old(list), k)
      ensures forall i :: 0 <= i < |old(list)| ==> old(list)[i].z <= pBest.z
    {
      pBest := pList;
      k := 0;
      var pToken := pBest.pNext;
      ghost var i := 1;
      while pToken != null
        invariant 1 <= i <= |list| && pToken == ElemAt(list, i) && k < i && pBest == list[k]
        invariant forall j :: 0 <= j < i ==> list[j].z <= pBest.z
        decreases |list| - i
      {
        if pToken.z > pBest.z {
          pBest, k := pToken, i;
        }
        pToken := pToken.pNext;
        i := i + 1;
      }
      Unlink(pBest, k);
    }

    /** The second half of renameColumnTokenNext. */
    method Unlink(pBest: RenameToken, ghost k: nat)
      requires Valid() && k < |list| && pBest == list[k]
      modifies this`pList, this`list, list`pNext
      ensures Valid() && list == Removed(old(list), k)
    {
      var prev: RenameToken? := null;
      var at := pList;
      ghost var i := 0;
      while at != pBest
        invariant 0 <= i <= k && at == list[i] && prev == ElemAt(list, i - 1)
        decreases k - i
      {
        prev, at, i := at, at.pNext, i + 1;
      }
      if prev == null {
        pList := pBest.pNext;
      } else {
        prev.pNext := pBest.pNext;
      }
      list := Removed(list, k);
    }
  }

  /** memmove within a buffer */
  method Memmove(a: array<byte>, dst: nat, src: nat, n: nat)
    requires dst + n <= a.Length && src + n <= a.Length
    modifies a
    ensures forall x :: 0 <= x < a.Length ==> a[x] == if dst <= x < dst + n then old(a[x - dst + src]) else old(a[x])
  {
    var moved := a[src..src + n];
    Memcpy(a, dst, moved);
  }

  /** memcpy into a buffer */
  method Memcpy(a: array<byte>, dst: nat, data: seq<byte>)
    requires dst + |data| <= a.Length
    modifies a
    ensures forall x :: 0 <= x < a.Length ==> a[x] == if dst <= x < dst + |data| then data[x - dst] else old(a[x])
  {
    for k := 0 to |data|
      invariant forall x :: 0 <= x < a.Length ==> a[x] == if dst <= x < dst + k then data[x - dst] else old(a[x])
    {
      a[dst + k] := data[k];
    }
  }

  /** strlen */
  method Strlen(a: array<byte>) returns (n: nat)
    requires exists i :: 0 <= i < a.Length && a[i] == 0
    ensures n < a.Length && a[n] == 0 && forall x :: 0 <= x < n ==> a[x] != 0
  {
    n := 0;
    while a[n] != 0
      invariant n < a.Length && forall x :: 0 <= x < n ==> a[x] != 0
      decreases a.Length - n
    {
      n := n + 1;
    }
  }

  /** Put text in the place of n bytes at offset at of the first len bytes of the buffer. */
  method Splice(zOut: array<byte>, nOut: nat, iOff: nat, n: nat, zReplace: seq<byte>) returns (len: nat)
    requires iOff + n <= nOut < zOut.Length && zOut[nOut] == 0 && nOut + |zReplace| - n < zOut.Length
    modifies zOut
    ensures len == nOut + |zReplace| - n && zOut[len] == 0
    ensures zOut[..len] == old(zOut[..nOut])[..iOff] + zReplace + old(zOut[..nOut])[iOff + n..]
  {
    ghost var was := zOut[..nOut];
    len := nOut;
    if n != |zReplace| {
      len := Shift(zOut, nOut, iOff, n, |zReplace|);
    }
    Memcpy(zOut, iOff, zReplace);
    SplicedText(was, zOut[..len], iOff, n, zReplace);
  }

  /** Make the n bytes at offset at nReplace bytes. */
  method Shift(zOut: array<byte>, nOut: nat, iOff: nat, n: nat, nReplace: nat) returns (len: nat)
    requires iOff + n <= nOut < zOut.Length && nOut + nReplace - n < zOut.Length
    modifies zOut
    ensures len == nOut + nReplace - n && zOut[len] == 0
    ensures forall x :: 0 <= x < iOff ==> zOut[x] == old(zOut[x])
    ensures forall x :: iOff + nReplace <= x < len ==> zOut[x] == old(zOut[x - nReplace + n])
  {
    Memmove(zOut, iOff + nReplace, iOff + n, nOut - (iOff + n));
    len := nOut + nReplace - n;
    zOut[len] := 0;
  }

  lemma SplicedText(was: seq<byte>, now: seq<byte>, iOff: nat, n: nat, zReplace: seq<byte>)
    requires iOff + n <= |was| && |now| == |was| + |zReplace| - n
    requires forall x :: 0 <= x < iOff ==> now[x] == was[x]
    requires forall x :: iOff <= x < iOff + |zReplace| ==> now[x] == zReplace[x - iOff]
    requires forall x :: iOff + |zReplace| <= x < |now| ==> now[x] == was[x - |zReplace| + n]
    ensures now == was[..iOff] + zReplace + was[iOff + n..]
  {
    assert now == now[..iOff] + now[iOff..iOff + |zReplace|] + now[iOff + |zReplace|..];
    assert now[iOff..iOff + |zReplace|] == zReplace;
    assert now[iOff + |zReplace|..] == was[iOff + n..];
  }

  /** How far renameEditSql's loop is: the tokens left end by offset m, the text is edited from there on,
      and the buffer has room for the rest. */
  ghost predicate Edited(zSql: Text, toks: seq<Token>, left: seq<Token>, zNew: Text, bQuote: bool, m: nat, out: seq<byte>)
    requires Disjoint(toks, |zSql|)
  {
    && m <= |zSql| && Disjoint(left, |zSql|)
    && (forall i :: 0 <= i < |left| ==> left[i] in toks && left[i].off + left[i].n <= m)
    && (forall i :: 0 <= i < |toks| ==> toks[i].off >= m || toks[i] in left)
    && out == zSql[..m] + Scan(zSql, toks, zNew, bQuote, m)
  }

  lemma StillDisjoint(left: seq<Token>, len: nat, k: nat)
    requires Disjoint(left, len) && k < |left|
    ensures Disjoint(Removed(left, k), len)
    ensures forall i :: 0 <= i < |left| - 1 ==> Apart(Removed(left, k)[i], left[k])
  {
    var rest := Removed(left, k);
    forall i | 0 <= i < |rest| ensures Apart(rest[i], left[k]) {
      assert Apart(left[if i < k then i else k], left[if i < k then k else i + 1]);
    }
  }

  /** Without the rightmost token. */
  lemma StillLeft(toks: seq<Token>, left: seq<Token>, len: nat, k: nat, m: nat)
    requires Disjoint(toks, len) && Disjoint(left, len) && k < |left|
    requires forall i :: 0 <= i < |left| ==> left[i] in toks && left[i].off <= left[k].off && left[i].off + left[i].n <= m
    requires forall i :: 0 <= i < |toks| ==> toks[i].off >= m || toks[i] in left
    ensures var rest, t := Removed(left, k), left[k];
      && Disjoint(rest, len)
      && (forall i :: 0 <= i < |rest| ==> rest[i] in toks && rest[i].off + rest[i].n <= t.off)
      && (forall i :: 0 <= i < |toks| ==> toks[i].off >= t.off || toks[i] in rest)
  {
    var rest, t := Removed(left, k), left[k];
    StillDisjoint(left, len, k);
    forall i | 0 <= i < |toks| && toks[i].off < t.off ensures toks[i] in rest {
      var j :| 0 <= j < |left| && left[j] == toks[i];
      assert rest[if j < k then j else j - 1] == toks[i];
    }
  }

  /** The edited text from the rightmost of the tokens left on. */
  lemma EditScan(zSql: Text, toks: seq<Token>, left: seq<Token>, zNew: Text, bQuote: bool, m: nat, k: nat)
    requires Disjoint(toks, |zSql|) && m <= |zSql| && k < |left| && left[k] in toks && left[k].off + left[k].n <= m
    requires forall i :: 0 <= i < |left| ==> left[i].off <= left[k].off
    requires forall i :: 0 <= i < |toks| ==> toks[i].off >= m || toks[i] in left
    ensures left[k].n > 0
    ensures Scan(zSql, toks, zNew, bQuote, left[k].off) == Replacement(zSql, left[k], zNew, bQuote)
      + zSql[left[k].off + left[k].n..m] + Scan(zSql, toks, zNew, bQuote, m)
  {
    hide Scan;
    hide Replacement;
    hide TokenAt;
    hide Apart;
    var j :| 0 <= j < |toks| && toks[j] == left[k];
    ScanStep(zSql, toks, zNew, bQuote, j, m);
  }

  /** Replacing the rightmost of the tokens left. */
  lemma EditStep(zSql: Text, toks: seq<Token>, left: seq<Token>, zNew: Text, bQuote: bool, m: nat, out: seq<byte>, k: nat)
    requires Disjoint(toks, |zSql|) && Edited(zSql, toks, left, zNew, bQuote, m, out) && k < |left|
    requires forall i :: 0 <= i < |left| ==> left[i].off <= left[k].off
    ensures var t := left[k];
      && t.off + t.n <= |out|
      && Edited(zSql, toks, Removed(left, k), zNew, bQuote, t.off,
           out[..t.off] + Replacement(zSql, t, zNew, bQuote) + out[t.off + t.n..])
  {
    hide Scan;
    hide Replacement;
    hide Quoted;
    hide Apart;
    hide TokenAt;
    var t := left[k];
    EditScan(zSql, toks, left, zNew, bQuote, m, k);
    StillLeft(toks, left, |zSql|, k, m);
    TextAround(zSql, m, Scan(zSql, toks, zNew, bQuote, m), t, Replacement(zSql, t, zNew, bQuote));
  }

  /** A token replaced in a text that is as in zSql up to m, and ends in done. */
  lemma TextAround(zSql: Text, m: nat, done: seq<byte>, t: Token, r: seq<byte>)
    requires m <= |zSql| && t.off + t.n <= m
    ensures var out := zSql[..m] + done;
      out[..t.off] + r + out[t.off + t.n..] == zSql[..t.off] + (r + zSql[t.off + t.n..m] + done)
  {
  }

  /** The bytes of zReplace that stand for a token. */
  method ChooseText(zSql: Text, pBest: RenameToken, zNew: Text, zQuot: Text, bQuote: bool) returns (r: seq<byte>)
    requires pBest.n > 0 && pBest.z + pBest.n <= |zSql| && zQuot == Quoted(zNew)
    ensures r == Replacement(zSql, Token(pBest.z, pBest.n), zNew, bQuote)
    ensures |r| <= |zQuot| - 1 + pBest.n
  {
    var nReplace, zReplace := |zNew|, zNew;
    if bQuote || !IdChar(zSql[pBest.z]) {
      nReplace, zReplace := |zQuot| - 1, zQuot;
      if At(zSql, pBest.z + pBest.n) == QUOTE {
        nReplace := nReplace + 1;
      }
    }
    r := zReplace[..nReplace];
  }

  /** One turn of renameEditSql's loop. */
  method ReplaceNext(pRename: RenameCtx, zSql: Text, ghost toks: seq<Token>, zNew: Text, zQuot: Text, bQuote: bool,
      zOut: array<byte>, nOut: nat, ghost m: nat) returns (len: nat, ghost m': nat)
    requires pRename.Valid() && pRename.list != [] && Disjoint(toks, |zSql|) && zQuot == Quoted(zNew)
    requires nOut + Multiple(|pRename.list|, |zQuot| - 1) < zOut.Length && zOut[nOut] == 0
    requires Edited(zSql, toks, Tokens(pRename.list), zNew, bQuote, m, zOut[..nOut])
    modifies pRename`pList, pRename`list, pRename.list`pNext, zOut
    ensures pRename.Valid() && len + Multiple(|pRename.list|, |zQuot| - 1) < zOut.Length && zOut[len] == 0
    ensures |pRename.list| == |old(pRename.list)| - 1
    ensures forall i :: 0 <= i < |pRename.list| ==> pRename.list[i] in old(pRename.list)
    ensures Edited(zSql, toks, Tokens(pRename.list), zNew, bQuote, m', zOut[..len])
  {
    hide Scan;
    hide Quoted;
    hide Replacement;
    hide Edited;
    hide Linked;
    ghost var left := Tokens(pRename.list);
    LeftTokens(zSql, toks, left, zNew, bQuote, m, zOut[..nOut]);
    var pBest, k := pRename.RenameColumnTokenNext();
    EditStep(zSql, toks, left, zNew, bQuote, m, zOut[..nOut], k);
    assert Tokens(pRename.list) == Removed(left, k);
    var zReplace := ChooseText(zSql, pBest, zNew, zQuot, bQuote);
    len := Splice(zOut, nOut, pBest.z, pBest.n, zReplace);
    m' := pBest.z;
  }

  lemma LeftTokens(zSql: Text, toks: seq<Token>, left: seq<Token>, zNew: Text, bQuote: bool, m: nat, out: seq<byte>)
    requires Disjoint(toks, |zSql|) && Edited(zSql, toks, left, zNew, bQuote, m, out)
    ensures m <= |zSql| && forall i :: 0 <= i < |left| ==> left[i].n > 0 && left[i].off + left[i].n <= m
    ensures m <= |out|
  {
  }

  lemma EditStart(zSql: Text, toks: seq<Token>, zNew: Text, bQuote: bool, out: seq<byte>)
    requires Disjoint(toks, |zSql|) && out == zSql
    ensures Edited(zSql, toks, toks, zNew, bQuote, |zSql|, out)
  {
    ScanEnd(zSql, toks, zNew, bQuote);
    assert zSql[..|zSql|] == zSql;
  }

  /** With no token left the text is edited from its start. */
  lemma EditDone(zSql: Text, toks: seq<Token>, zNew: Text, bQuote: bool, m: nat, out: seq<byte>)
    requires Disjoint(toks, |zSql|) && Edited(zSql, toks, [], zNew, bQuote, m, out)
    ensures out == Scan(zSql, toks, zNew, bQuote, 0)
  {
    ScanPlain(zSql, toks, zNew, bQuote, 0, m);
  }

  /** renameEditSql on the rename path; None when there is no memory. */
  method RenameEditSql(pRename: RenameCtx, zSql: Text, zNew: Text, bQuote: bool, mem: Heap) returns (r: Option<Text>)
    requires pRename.Valid() && pRename.nList == |pRename.list| && |zSql| > 0
    requires Disjoint(Tokens(pRename.list), |zSql|)
    modifies pRename`pList, pRename`list, pRename.list`pNext, mem
    ensures r.Some? ==> pRename.list == [] && r.value == Scan(zSql, old(Tokens(pRename.list)), zNew, bQuote, 0)
    ensures r.Some? ==> Renamed(zSql, old(Tokens(pRename.list)), zNew, bQuote, r.value)
    ensures mem.refusals >= old(mem.refusals) && (r.None? <==> mem.refusals > old(mem.refusals))
    ensures r.None? ==> pRename.list == old(pRename.list)
  {
    hide Renamed;
    hide Scan;
    hide Edited;
    hide Quoted;
    hide Multiple;
    hide TokenAt;
    EveryName(zSql, Tokens(pRename.list), zNew, bQuote);
    var ok := mem.Malloc();
    if !ok {
      return None;
    }
    var zQuot := Quoted(zNew);
    var nQuot := |zQuot| - 1;
    ok := mem.Malloc();
    if !ok {
      return None;
    }
    var size := |zSql| + Multiple(pRename.nList, nQuot) + 1;
    var zOut := new byte[size](_ => 0);
    Memcpy(zOut, 0, zSql);
    EditStart(zSql, Tokens(pRename.list), zNew, bQuote, zOut[..|zSql|]);
    var nOut := ReplaceAll(pRename, zSql, zNew, zQuot, bQuote, zOut);
    var text := TextOf(zOut, nOut);
    r := Some(text);
  }

  /** renameEditSql's loop, over a buffer that holds the text. */
  method ReplaceAll(pRename: RenameCtx, zSql: Text, zNew: Text, zQuot: Text, bQuote: bool, zOut: array<byte>) returns (nOut: nat)
    requires pRename.Valid() && Disjoint(Tokens(pRename.list), |zSql|) && zQuot == Quoted(zNew)
    requires |zSql| + Multiple(|pRename.list|, |zQuot| - 1) < zOut.Length && zOut[|zSql|] == 0
    requires Edited(zSql, Tokens(pRename.list), Tokens(pRename.list), zNew, bQuote, |zSql|, zOut[..|zSql|])
    modifies pRename`pList, pRename`list, pRename.list`pNext, zOut
    ensures pRename.list == [] && nOut < zOut.Length && zOut[nOut] == 0
    ensures zOut[..nOut] == Scan(zSql, old(Tokens(pRename.list)), zNew, bQuote, 0)
  {
    hide Scan;
    hide Edited;
    hide Quoted;
    hide TokenAt;
    ghost var toks := Tokens(pRename.list);
    ghost var m: nat := |zSql|;
    nOut := |zSql|;
    while pRename.pList != null
      invariant pRename.Valid() && nOut + Multiple(|pRename.list|, |zQuot| - 1) < zOut.Length && zOut[nOut] == 0
      invariant forall i :: 0 <= i < |pRename.list| ==> pRename.list[i] in old(pRename.list)
      invariant Edited(zSql, toks, Tokens(pRename.list), zNew, bQuote, m, zOut[..nOut])
      decreases |pRename.list|
    {
      nOut, m := ReplaceNext(pRename, zSql, toks, zNew, zQuot, bQuote, zOut, nOut, m);
    }
    EditDone(zSql, toks, zNew, bQuote, m, zOut[..nOut]);
  }

  /** The C string in a buffer whose terminator is at nOut. */
  method TextOf(zOut: array<byte>, ghost nOut: nat) returns (text: Text)
    requires nOut < zOut.Length && zOut[nOut] == 0 && 0 !in zOut[..nOut]
    ensures text == zOut[..nOut]
  {
    assert forall x :: 0 <= x < nOut ==> zOut[..nOut][x] != 0;
    var len := Strlen(zOut);
    text := zOut[..len];
  }
}
