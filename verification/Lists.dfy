/** Taking elements in and out of lists. */
module Lists {

  /** A list with x put before position p. */
  function Inserted<T>(s: seq<T>, p: nat, x: T): (r: seq<T>)
    requires p <= |s|
    ensures |r| == |s| + 1
    ensures forall i :: 0 <= i < |r| ==> r[i] == if i < p then s[i] else if i == p then x else s[i - 1]
  {
    s[..p] + [x] + s[p..]
  }

  /** A list without the element at position p. */
  function Removed<T>(s: seq<T>, p: nat): (r: seq<T>)
    requires p < |s|
    ensures |r| == |s| - 1
    ensures forall i :: 0 <= i < |r| ==> r[i] == if i < p then s[i] else s[i + 1]
  {
    s[..p] + s[p + 1..]
  }

  lemma InsertedBag<T>(s: seq<T>, p: nat, x: T)
    requires p <= |s|
    ensures multiset(Inserted(s, p, x)) == multiset(s) + multiset{x} && |Inserted(s, p, x)| == |s| + 1
  {
    assert s == s[..p] + s[p..];
  }

  lemma InsertedMembers<T>(s: seq<T>, p: nat, x: T)
    requires p <= |s|
    ensures forall i :: 0 <= i < |Inserted(s, p, x)| ==> Inserted(s, p, x)[i] in s || Inserted(s, p, x)[i] == x
  {
  }

  lemma RemovedBag<T>(s: seq<T>, p: nat)
    requires p < |s|
    ensures multiset(Removed(s, p)) == multiset(s) - multiset{s[p]}
  {
    assert s == s[..p] + [s[p]] + s[p + 1..];
  }
}
