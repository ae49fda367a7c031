/** Connections that share b-trees: every try, unlock and blocking lock of a BtShared mutex is a step,
    and the steps of the connections interleave in any order. */
module BtreeMutex {
  import opened Wrappers

  /** A sharable Btree of a connection; addr is the address of its BtShared. */
  datatype Btree = Btree(addr: nat, locked: bool, wantToLock: nat)

  /** Where the thread that drives a connection is.  Btrees are named by their place in the pNext list:
      Try, Release, Block and Reacquire are inside btreeLockCarefully for Btree p, the loops being at
      pLater. */
  datatype Pc = Idle | Try(p: nat) | Release(p: nat, pLater: nat) | Block(p: nat) | Reacquire(p: nat, pLater: nat)

  /** A connection: its sharable Btrees, in pNext order. */
  datatype Conn = Conn(list: seq<Btree>, pc: Pc)

  /** holder says which connection's thread owns a mutex, db is BtShared.db */
  datatype State = State(conns: seq<Conn>, holder: map<nat, nat>, db: map<nat, nat>)

  /** What a connection may do next: call Enter or Leave on a Btree when idle; go on with a call, the
      try either way. */
  datatype Action = Enter(p: nat) | Leave(p: nat) | TrySucceeds | TryFails | Proceed

  function SetBtree(s: State, c: nat, p: nat, b: Btree, pc: Pc): State
    requires c < |s.conns| && p < |s.conns[c].list|
  {
    s.(conns := s.conns[c := Conn(s.conns[c].list[p := b], pc)])
  }

  function SetPc(s: State, c: nat, pc: Pc): State
    requires c < |s.conns|
  {
    s.(conns := s.conns[c := s.conns[c].(pc := pc)])
  }

  /** lockBtreeMutex once the mutex is free, or a try that succeeds */
  function Lock(s: State, c: nat, p: nat, pc: Pc): State
    requires c < |s.conns| && p < |s.conns[c].list|
  {
    var b := s.conns[c].list[p];
    SetBtree(s, c, p, b.(locked := true), pc).(holder := s.holder[b.addr := c], db := s.db[b.addr := c])
  }

  /** unlockBtreeMutex */
  function Unlock(s: State, c: nat, p: nat, want: nat, pc: Pc): State
    requires c < |s.conns| && p < |s.conns[c].list|
  {
    var b := s.conns[c].list[p];
    SetBtree(s, c, p, b.(locked := false, wantToLock := want), pc).(holder := s.holder - {b.addr})
  }

  /** The mutex that connection c is about to lock, blocking. */
  function Wants(k: Conn): Option<nat> {
    match k.pc
    case Block(p) => if p < |k.list| then Some(k.list[p].addr) else None
    case Reacquire(_, l) => if l < |k.list| && k.list[l].wantToLock > 0 then Some(k.list[l].addr) else None
    case _ => None
  }

  /** One step of connection c, or None where c cannot take it. */
  function Step(s: State, c: nat, a: Action): (r: Option<State>)
    requires c < |s.conns|
    ensures r.Some? ==> |r.value.conns| == |s.conns|
  {
    var k := s.conns[c];
    match k.pc
    case Idle =>
      (match a
       case Enter(p) =>
         if p >= |k.list| then None
         else
           var b := k.list[p].(wantToLock := k.list[p].wantToLock + 1);
           Some(SetBtree(s, c, p, b, if b.locked then Idle else Try(p)))
       case Leave(p) =>
         if p >= |k.list| || k.list[p].wantToLock == 0 then None
         else if k.list[p].wantToLock == 1 then Some(Unlock(s, c, p, 0, Idle))
         else Some(SetBtree(s, c, p, k.list[p].(wantToLock := k.list[p].wantToLock - 1), Idle))
       case _ => None)
    case Try(p) =>
      if p >= |k.list| then None
      else if a == TrySucceeds && k.list[p].addr !in s.holder then Some(Lock(s, c, p, Idle))
      else if a == TryFails then Some(SetPc(s, c, Release(p, p + 1)))
      else None
    case Release(p, l) =>
      if a != Proceed then None
      else if l >= |k.list| then Some(SetPc(s, c, Block(p)))
      else if k.list[l].locked then Some(Unlock(s, c, l, k.list[l].wantToLock, Release(p, l + 1)))
      else Some(SetPc(s, c, Release(p, l + 1)))
    case Block(p) =>
      if a != Proceed || p >= |k.list| || k.list[p].addr in s.holder then None
      else Some(Lock(s, c, p, Reacquire(p, p + 1)))
    case Reacquire(p, l) =>
      if a != Proceed then None
      else if l >= |k.list| then Some(SetPc(s, c, Idle))
      else if k.list[l].wantToLock == 0 then Some(SetPc(s, c, Reacquire(p, l + 1)))
      else if k.list[l].addr in s.holder then None
      else Some(Lock(s, c, l, Reacquire(p, l + 1)))
  }

  /** pNext order is address order. */
  ghost predicate Sorted(list: seq<Btree>) {
    forall i, j :: 0 <= i < j < |list| ==> list[i].addr < list[j].addr
  }

  /** locked is wantToLock > 0, for the Btrees that the call under way is not about. */
  ghost predicate Settled(k: Conn, i: nat)
    requires i < |k.list|
  {
    k.list[i].locked <==> k.list[i].wantToLock > 0
  }

  /** What a connection has locked, at each place of btreeLockCarefully. */
  ghost predicate Placed(k: Conn) {
    match k.pc
    case Idle => forall i :: 0 <= i < |k.list| ==> Settled(k, i)
    case Try(p) =>
      && p < |k.list| && k.list[p].wantToLock > 0 && !k.list[p].locked
      && forall i :: 0 <= i < |k.list| && i != p ==> Settled(k, i)
    case Release(p, l) =>
      && p < l <= |k.list| && k.list[p].wantToLock > 0 && !k.list[p].locked
      && forall i :: 0 <= i < |k.list| && i != p ==> if p < i < l then !k.list[i].locked else Settled(k, i)
    case Block(p) =>
      && p < |k.list| && k.list[p].wantToLock > 0
      && forall i :: 0 <= i < |k.list| ==> if i < p then Settled(k, i) else !k.list[i].locked
    case Reacquire(p, l) =>
      && p < l <= |k.list|
      && forall i :: 0 <= i < |k.list| ==> if i < l then Settled(k, i) else !k.list[i].locked
  }

  /** The locked flag, the mutex and BtShared.db agree for Btree i of connection c. */
  ghost predicate Agrees(s: State, c: nat, i: nat)
    requires c < |s.conns| && i < |s.conns[c].list|
  {
    var b := s.conns[c].list[i];
    && (b.locked <==> b.addr in s.holder && s.holder[b.addr] == c)
    && (b.locked ==> b.addr in s.db && s.db[b.addr] == c)
  }

  /** A mutex that is held is held for a Btree of its holder. */
  ghost predicate HeldFor(s: State, a: nat)
    requires a in s.holder
  {
    s.holder[a] < |s.conns| && exists i :: 0 <= i < |s.conns[s.holder[a]].list| && s.conns[s.holder[a]].list[i].addr == a
  }

  /** Flags, mutexes and BtShared.db agree everywhere. */
  ghost predicate Consistent(s: State) {
    && (forall c :: 0 <= c < |s.conns| ==> Sorted(s.conns[c].list))
    && (forall c, i :: 0 <= c < |s.conns| && 0 <= i < |s.conns[c].list| ==> Agrees(s, c, i))
    && (forall a :: a in s.holder ==> HeldFor(s, a))
  }

  ghost predicate Inv(s: State) {
    Consistent(s) && forall c :: 0 <= c < |s.conns| ==> Placed(s.conns[c])
  }

  /** No call made yet. */
  ghost predicate Init(s: State) {
    && s.holder == map[]
    && forall c :: 0 <= c < |s.conns| ==>
      && Sorted(s.conns[c].list) && s.conns[c].pc == Idle
      && forall i :: 0 <= i < |s.conns[c].list| ==> !s.conns[c].list[i].locked && s.conns[c].list[i].wantToLock == 0
  }

  /** Any interleaving: each element names a connection and what it tries to do; what it cannot do is
      passed over. */
  function Run(s: State, steps: seq<(nat, Action)>): (t: State)
    ensures |t.conns| == |s.conns|
  {
    if steps == [] then s
    else
      var t := Run(s, steps[..|steps| - 1]);
      var (c, a) := steps[|steps| - 1];
      if c >= |t.conns| then t
      else match Step(t, c, a)
        case Some(u) => u
        case None => t
  }

  /** t differs from s in connection c, whose Btrees have the same addresses. */
  ghost predicate SameBtrees(s: State, t: State, c: nat) {
    && c < |s.conns| == |t.conns| && |t.conns[c].list| == |s.conns[c].list|
    && (forall d :: 0 <= d < |s.conns| && d != c ==> t.conns[d] == s.conns[d])
    && (forall i :: 0 <= i < |s.conns[c].list| ==> t.conns[c].list[i].addr == s.conns[c].list[i].addr)
  }

  lemma StillHeldFor(s: State, t: State, c: nat, a: nat)
    requires SameBtrees(s, t, c) && a in s.holder && HeldFor(s, a) && a in t.holder && t.holder[a] == s.holder[a]
    ensures HeldFor(t, a)
  {
    var h := s.holder[a];
    var i :| 0 <= i < |s.conns[h].list| && s.conns[h].list[i].addr == a;
    assert t.conns[h].list[i].addr == a;
  }

  lemma SetKeeps(s: State, t: State, c: nat)
    requires Consistent(s) && SameBtrees(s, t, c) && t.holder == s.holder && t.db == s.db
    requires forall i :: 0 <= i < |s.conns[c].list| ==> t.conns[c].list[i].locked == s.conns[c].list[i].locked
    ensures Consistent(t)
  {
    forall a | a in t.holder ensures HeldFor(t, a) {
      StillHeldFor(s, t, c, a);
    }
    forall d, i | 0 <= d < |t.conns| && 0 <= i < |t.conns[d].list| ensures Agrees(t, d, i) {
      assert Agrees(s, d, i);
    }
  }

  lemma LockHeldFor(s: State, c: nat, p: nat, pc: Pc, a: nat)
    requires Consistent(s) && c < |s.conns| && p < |s.conns[c].list| && a in Lock(s, c, p, pc).holder
    ensures HeldFor(Lock(s, c, p, pc), a)
  {
    var t := Lock(s, c, p, pc);
    if a == s.conns[c].list[p].addr {
      assert t.conns[c].list[p].addr == a;
    } else {
      StillHeldFor(s, t, c, a);
    }
  }

  lemma LockKeeps(s: State, c: nat, p: nat, pc: Pc)
    requires Consistent(s) && c < |s.conns| && p < |s.conns[c].list| && s.conns[c].list[p].addr !in s.holder
    ensures Consistent(Lock(s, c, p, pc)) && SameBtrees(s, Lock(s, c, p, pc), c)
  {
    hide HeldFor;
    var t := Lock(s, c, p, pc);
    forall a | a in t.holder ensures HeldFor(t, a) {
      LockHeldFor(s, c, p, pc, a);
    }
    forall d, i | 0 <= d < |t.conns| && 0 <= i < |t.conns[d].list| ensures Agrees(t, d, i) {
      assert Agrees(s, d, i);
    }
  }

  lemma UnlockKeeps(s: State, c: nat, p: nat, want: nat, pc: Pc)
    requires Consistent(s) && c < |s.conns| && p < |s.conns[c].list| && s.conns[c].list[p].locked
    ensures Consistent(Unlock(s, c, p, want, pc)) && SameBtrees(s, Unlock(s, c, p, want, pc), c)
  {
    var t := Unlock(s, c, p, want, pc);
    assert Agrees(s, c, p);
    forall a | a in t.holder ensures HeldFor(t, a) {
      StillHeldFor(s, t, c, a);
    }
    forall d, i | 0 <= d < |t.conns| && 0 <= i < |t.conns[d].list| ensures Agrees(t, d, i) {
      assert Agrees(s, d, i);
    }
  }

  lemma StepConsistent(s: State, c: nat, a: Action)
    requires Inv(s) && c < |s.conns| && Step(s, c, a).Some?
    ensures Consistent(Step(s, c, a).value) && SameBtrees(s, Step(s, c, a).value, c)
  {
    hide Consistent;
    var t := Step(s, c, a).value;
    var k := s.conns[c];
    match k.pc {
      case Idle =>
        if a.Leave? && k.list[a.p].wantToLock == 1 {
          assert Settled(k, a.p);
          UnlockKeeps(s, c, a.p, 0, Idle);
        } else {
          SetKeeps(s, t, c);
        }
      case Try(p) =>
        if a == TrySucceeds {
          LockKeeps(s, c, p, Idle);
        } else {
          SetKeeps(s, t, c);
        }
      case Release(p, l) =>
        if l < |k.list| && k.list[l].locked {
          UnlockKeeps(s, c, l, k.list[l].wantToLock, Release(p, l + 1));
        } else {
          SetKeeps(s, t, c);
        }
      case Block(p) => LockKeeps(s, c, p, Reacquire(p, p + 1));
      case Reacquire(p, l) =>
        if l < |k.list| && k.list[l].wantToLock > 0 {
          LockKeeps(s, c, l, Reacquire(p, l + 1));
        } else {
          SetKeeps(s, t, c);
        }
    }
  }

  lemma StepKeepsInv(s: State, c: nat, a: Action)
    requires Inv(s) && c < |s.conns| && Step(s, c, a).Some?
    ensures Inv(Step(s, c, a).value)
  {
    StepConsistent(s, c, a);
    StepPlaced(s, c, a);
  }

  lemma StepPlaced(s: State, c: nat, a: Action)
    requires c < |s.conns| && Placed(s.conns[c]) && Step(s, c, a).Some?
    ensures var t := Step(s, c, a).value; c < |t.conns| && Placed(t.conns[c])
  {
    match s.conns[c].pc {
      case Idle => EndsPlaced(s, c, a);
      case Try(_) => EndsPlaced(s, c, a);
      case Release(_, _) => ReleasePlaced(s, c, a);
      case _ => LockingPlaced(s, c, a);
    }
  }

  lemma EndsPlaced(s: State, c: nat, a: Action)
    requires c < |s.conns| && Placed(s.conns[c]) && Step(s, c, a).Some? && (s.conns[c].pc.Idle? || s.conns[c].pc.Try?)
    ensures var t := Step(s, c, a).value; c < |t.conns| && Placed(t.conns[c])
  {
    var k, k' := s.conns[c], Step(s, c, a).value.conns[c];
    assert |k'.list| == |k.list|;
    assert k.pc.Idle? ==> Settled(k, a.p);
    forall i | 0 <= i < |k.list| && k'.list[i] == k.list[i] ensures Settled(k', i) <==> Settled(k, i) {}
  }

  lemma ReleasePlaced(s: State, c: nat, a: Action)
    requires c < |s.conns| && Placed(s.conns[c]) && Step(s, c, a).Some? && s.conns[c].pc.Release?
    ensures var t := Step(s, c, a).value; c < |t.conns| && Placed(t.conns[c])
  {
    var k, k' := s.conns[c], Step(s, c, a).value.conns[c];
    assert |k'.list| == |k.list|;
    forall i | 0 <= i < |k.list| && k'.list[i] == k.list[i] ensures Settled(k', i) <==> Settled(k, i) {}
  }

  lemma LockingPlaced(s: State, c: nat, a: Action)
    requires c < |s.conns| && Placed(s.conns[c]) && Step(s, c, a).Some? && (s.conns[c].pc.Block? || s.conns[c].pc.Reacquire?)
    ensures var t := Step(s, c, a).value; c < |t.conns| && Placed(t.conns[c])
  {
    var k, k' := s.conns[c], Step(s, c, a).value.conns[c];
    assert |k'.list| == |k.list|;
    forall i | 0 <= i < |k.list| && k'.list[i] == k.list[i] ensures Settled(k', i) <==> Settled(k, i) {}
  }

  lemma RunKeepsInv(s: State, steps: seq<(nat, Action)>)
    requires Init(s)
    ensures Inv(Run(s, steps))
  {
    RunFromInv(s, steps);
  }

  lemma {:induction false} RunFromInv(s: State, steps: seq<(nat, Action)>)
    requires Inv(s)
    ensures Inv(Run(s, steps))
  {
    if steps != [] {
      var t := Run(s, steps[..|steps| - 1]);
      RunFromInv(s, steps[..|steps| - 1]);
      var (c, a) := steps[|steps| - 1];
      if c < |t.conns| && Step(t, c, a).Some? {
        StepKeepsInv(t, c, a);
      }
    }
  }

  /** How often connection c makes call a in a run. */
  ghost function Calls(s: State, steps: seq<(nat, Action)>, c: nat, a: Action): (n: nat) {
    if steps == [] then 0
    else
      var before := steps[..|steps| - 1];
      var t := Run(s, before);
      Calls(s, before, c, a) + if steps[|steps| - 1] == (c, a) && c < |t.conns| && Step(t, c, a).Some? then 1 else 0
  }

  /** A step changes wantToLock as the call that it starts says, and no other step changes it. */
  lemma StepWants(s: State, c: nat, a: Action, d: nat, p: nat)
    requires c < |s.conns| && d < |s.conns| && p < |s.conns[d].list| && Step(s, c, a).Some?
    ensures var t := Step(s, c, a).value;
      && |t.conns[d].list| == |s.conns[d].list|
      && t.conns[d].list[p].wantToLock == s.conns[d].list[p].wantToLock
           + (if (c, a) == (d, Enter(p)) then 1 else 0) - (if (c, a) == (d, Leave(p)) then 1 else 0)
  {
  }

  /** A Btree is wanted as often as it was entered and not left. */
  lemma {:induction false} RunWants(s: State, steps: seq<(nat, Action)>, c: nat, p: nat)
    requires c < |s.conns| && p < |s.conns[c].list|
    ensures var t := Run(s, steps);
      && |t.conns[c].list| == |s.conns[c].list|
      && t.conns[c].list[p].wantToLock ==
         s.conns[c].list[p].wantToLock + Calls(s, steps, c, Enter(p)) - Calls(s, steps, c, Leave(p))
  {
    hide Step;
    if steps != [] {
      var before := steps[..|steps| - 1];
      var t := Run(s, before);
      RunWants(s, before, c, p);
      var (d, a) := steps[|steps| - 1];
      if d < |t.conns| && Step(t, d, a).Some? {
        StepWants(t, d, a, c, p);
      }
    }
  }

  /** sqlite3BtreeHoldsAllMutexes */
  ghost predicate HoldsAll(s: State, c: nat)
    requires c < |s.conns|
  {
    forall b :: b in s.conns[c].list ==> b.wantToLock > 0 && b.addr in s.holder && s.holder[b.addr] == c
  }

  ghost predicate HoldsNone(s: State, c: nat) {
    forall a :: a in s.holder ==> s.holder[a] != c
  }

  /** Between calls a connection holds all of its mutexes exactly if it has entered every Btree more
      often than it has left it, as after sqlite3BtreeEnterAll; it holds none of them exactly if it has
      left each as often as it has entered it, as after sqlite3BtreeLeaveAll. */
  lemma EnterAllHoldsAll(s: State, steps: seq<(nat, Action)>, c: nat)
    requires Init(s) && c < |s.conns| && Run(s, steps).conns[c].pc == Idle
    ensures HoldsAll(Run(s, steps), c) <==>
      forall p :: 0 <= p < |s.conns[c].list| ==> Calls(s, steps, c, Enter(p)) > Calls(s, steps, c, Leave(p))
    ensures HoldsNone(Run(s, steps), c) <==>
      forall p :: 0 <= p < |s.conns[c].list| ==> Calls(s, steps, c, Enter(p)) == Calls(s, steps, c, Leave(p))
  {
    hide Init;
    hide Run;
    hide Calls;
    var t := Run(s, steps);
    RunKeepsInv(s, steps);
    RunLength(s, steps, c);
    forall p | 0 <= p < |s.conns[c].list|
      ensures t.conns[c].list[p].wantToLock == Calls(s, steps, c, Enter(p)) - Calls(s, steps, c, Leave(p))
    {
      RunWants(s, steps, c, p);
      InitWants(s, c, p);
    }
    HoldsWanted(t, c);
  }

  lemma {:induction false} RunLength(s: State, steps: seq<(nat, Action)>, c: nat)
    requires c < |s.conns|
    ensures |Run(s, steps).conns[c].list| == |s.conns[c].list|
  {
    hide Step;
    if steps != [] {
      var t := Run(s, steps[..|steps| - 1]);
      RunLength(s, steps[..|steps| - 1], c);
      var (d, a) := steps[|steps| - 1];
      if d < |t.conns| && Step(t, d, a).Some? {
        StepLength(t, d, a, c);
      }
    }
  }

  lemma StepLength(s: State, c: nat, a: Action, d: nat)
    requires c < |s.conns| && d < |s.conns| && Step(s, c, a).Some?
    ensures |Step(s, c, a).value.conns[d].list| == |s.conns[d].list|
  {
  }

  lemma HoldsWanted(s: State, c: nat)
    requires Inv(s) && c < |s.conns| && s.conns[c].pc == Idle
    ensures HoldsAll(s, c) <==> forall p :: 0 <= p < |s.conns[c].list| ==> s.conns[c].list[p].wantToLock > 0
    ensures HoldsNone(s, c) <==> forall p :: 0 <= p < |s.conns[c].list| ==> s.conns[c].list[p].wantToLock == 0
  {
    var k := s.conns[c];
    forall p | 0 <= p < |k.list|
      ensures k.list[p].wantToLock > 0 <==> k.list[p].addr in s.holder && s.holder[k.list[p].addr] == c
    {
      assert Settled(k, p) && Agrees(s, c, p);
    }
    forall a | a in s.holder && s.holder[a] == c
      ensures exists p :: 0 <= p < |k.list| && k.list[p].addr == a
    {
      assert HeldFor(s, a);
    }
  }

  lemma InitWants(s: State, c: nat, p: nat)
    requires Init(s) && c < |s.conns| && p < |s.conns[c].list|
    ensures s.conns[c].list[p].wantToLock == 0
  {
  }

  /** Connection c cannot go on because connection d holds the mutex at address a. */
  ghost predicate WaitsFor(s: State, c: nat, a: nat, d: nat) {
    && c < |s.conns| && Wants(s.conns[c]) == Some(a) && a in s.holder && s.holder[a] == d
  }

  /** Every mutex that a waiting connection holds has a smaller address than the one awaited. */
  lemma HoldsSmaller(s: State, c: nat, a: nat, h: nat)
    requires Inv(s) && c < |s.conns| && Wants(s.conns[c]) == Some(a)
    requires h in s.holder && s.holder[h] == c
    ensures h < a
  {
    assert HeldFor(s, h);
    var k := s.conns[c];
    var i :| 0 <= i < |k.list| && k.list[i].addr == h;
    assert Agrees(s, c, i);
    var w := if k.pc.Block? then k.pc.p else k.pc.pLater;
    assert k.list[i].locked && i < w;
  }

  /** In a chain of waiting connections the awaited addresses grow, so that no set of connections can
      all be waiting for mutexes held within the set: there is no deadlock. */
  lemma NoDeadlock(s: State, stuck: set<nat>)
    requires Inv(s) && stuck != {}
    ensures exists c :: c in stuck && forall a: nat, d: nat :: d in stuck ==> !WaitsFor(s, c, a, d)
  {
    hide Inv;
    hide Wants;
    if forall c :: c in stuck ==> exists a: nat, d: nat :: d in stuck && WaitsFor(s, c, a, d) {
      var c := Farthest(s, stuck);
      var a: nat, d: nat :| d in stuck && WaitsFor(s, c, a, d);
      var b: nat, e: nat :| e in stuck && WaitsFor(s, d, b, e);
      HoldsSmaller(s, d, b, a);
      assert false;
    }
  }

  /** The connection that waits for the largest address. */
  lemma {:induction false} Farthest(s: State, stuck: set<nat>) returns (c: nat)
    requires stuck != {} && forall c :: c in stuck ==> c < |s.conns| && Wants(s.conns[c]).Some?
    ensures c in stuck && forall d :: d in stuck ==> Wants(s.conns[d]).value <= Wants(s.conns[c]).value
    decreases stuck
  {
    c :| c in stuck;
    if stuck != {c} {
      var others := stuck - {c};
      var e := Farthest(s, others);
      if Wants(s.conns[e]).value > Wants(s.conns[c]).value {
        c := e;
      }
    }
  }

  /** Some action takes connection c a step further. */
  ghost predicate CanStep(s: State, c: nat) {
    c < |s.conns| && exists a :: Step(s, c, a).Some?
  }

  /** Inside a call a connection can go on unless another one holds the mutex that it blocks on. */
  lemma StopsOnlyToWait(s: State, c: nat)
    requires Inv(s) && c < |s.conns| && s.conns[c].pc != Idle && !CanStep(s, c)
    ensures exists a: nat, d: nat :: d < |s.conns| && d != c && WaitsFor(s, c, a, d)
  {
    var k := s.conns[c];
    assert Step(s, c, TryFails).None? && Step(s, c, Proceed).None?;
    var a := Wants(k).value;
    assert HeldFor(s, a);
    if s.holder[a] == c {
      HoldsSmaller(s, c, a, a);
    }
    assert WaitsFor(s, c, a, s.holder[a]);
  }

  /** While connections are inside calls, one of them can go on, or one of them awaits a mutex that an
      idle connection holds and will give back when it leaves. */
  lemma Progress(s: State, inside: set<nat>)
    requires Inv(s) && inside != {}
    requires forall c :: c in inside <==> 0 <= c < |s.conns| && s.conns[c].pc != Idle
    ensures (exists c :: c in inside && CanStep(s, c))
      || exists c, a: nat, d: nat :: c in inside && d < |s.conns| && s.conns[d].pc == Idle && WaitsFor(s, c, a, d)
  {
    NoDeadlock(s, inside);
    var c :| c in inside && forall a: nat, d: nat :: d in inside ==> !WaitsFor(s, c, a, d);
    if !CanStep(s, c) {
      StopsOnlyToWait(s, c);
    }
  }

  /** Between calls a connection can enter any Btree of its list, and leave any that it wants.  Entering one
      that is locked ends at once, and otherwise begins with a try; leaving one that is wanted only once
      gives the mutex back, and otherwise keeps it. */
  lemma IdleCanCall(s: State, c: nat, p: nat)
    requires Inv(s) && c < |s.conns| && s.conns[c].pc == Idle && p < |s.conns[c].list|
    ensures var b := s.conns[c].list[p];
      && Step(s, c, Enter(p)).Some?
      && Step(s, c, Enter(p)).value.conns[c].pc == (if b.wantToLock > 0 then Idle else Try(p))
      && (Step(s, c, Leave(p)).Some? <==> b.wantToLock > 0)
      && (b.wantToLock > 0 ==>
            var t := Step(s, c, Leave(p)).value;
            && t.conns[c].pc == Idle
            && (b.wantToLock == 1 ==> b.addr !in t.holder && !t.conns[c].list[p].locked)
            && (b.wantToLock > 1 ==> t.holder == s.holder && t.conns[c].list[p].locked))
  {
    assert Settled(s.conns[c], p);
  }

  /** A try for a mutex that is free can succeed, which ends the call with the Btree locked; a connection
      that blocks on one gets it as soon as it is free. */
  lemma FreeIsTaken(s: State, c: nat)
    requires Inv(s) && c < |s.conns|
    ensures s.conns[c].pc.Try? && s.conns[c].list[s.conns[c].pc.p].addr !in s.holder ==>
      var p, r := s.conns[c].pc.p, Step(s, c, TrySucceeds);
      && r.Some? && r.value.conns[c].pc == Idle && r.value.conns[c].list[p].locked
      && s.conns[c].list[p].addr in r.value.holder && r.value.holder[s.conns[c].list[p].addr] == c
    ensures Wants(s.conns[c]).Some? && Wants(s.conns[c]).value !in s.holder ==>
      var a, r := Wants(s.conns[c]).value, Step(s, c, Proceed);
      r.Some? && a in r.value.holder && r.value.holder[a] == c
  {
  }

  /** Steps that a call has left to take. */
  function Left(k: Conn): int {
    match k.pc
    case Idle => 0
    case Try(p) => 2 * |k.list| + 4
    case Release(_, l) => 2 * |k.list| + 3 - l
    case Block(_) => |k.list| + 2
    case Reacquire(_, l) => |k.list| + 1 - l
  }

  /** Each step inside a call brings its end nearer, and nobody else's step takes it away. */
  lemma CallsEnd(s: State, c: nat, a: Action, d: nat)
    requires Inv(s) && c < |s.conns| && d < |s.conns| && Step(s, c, a).Some?
    ensures var t := Step(s, c, a).value;
      && |t.conns| == |s.conns| && (d != c ==> t.conns[d] == s.conns[d])
      && (s.conns[c].pc != Idle ==> 0 <= Left(t.conns[c]) < Left(s.conns[c]))
  {
    hide Consistent;
    hide Settled;
    StepConsistent(s, c, a);
    StepPlaced(s, c, a);
  }

  /** Two connections never have one BtShared locked at once. */
  lemma Exclusive(s: State, c: nat, i: nat, d: nat, j: nat)
    requires Inv(s) && c < |s.conns| && d < |s.conns| && i < |s.conns[c].list| && j < |s.conns[d].list|
    requires s.conns[c].list[i].locked && s.conns[d].list[j].locked
    requires s.conns[c].list[i].addr == s.conns[d].list[j].addr
    ensures c == d && i == j
  {
    assert Agrees(s, c, i) && Agrees(s, d, j);
  }

  /** A connection never blocks on a mutex that it holds itself, with nobody to give it back. */
  lemma BlocksOnOthers(s: State, c: nat, a: nat)
    requires Inv(s) && c < |s.conns| && Wants(s.conns[c]) == Some(a)
    ensures !(a in s.holder && s.holder[a] == c)
    ensures forall i :: 0 <= i < |s.conns[c].list| && s.conns[c].list[i].addr == a ==> !s.conns[c].list[i].locked
  {
    if a in s.holder && s.holder[a] == c {
      HoldsSmaller(s, c, a, a);
    }
    forall i | 0 <= i < |s.conns[c].list| && s.conns[c].list[i].addr == a
      ensures !s.conns[c].list[i].locked
    {
      assert Agrees(s, c, i);
    }
  }

  /** At every place of the protocol a Btree that is locked is wanted, and BtShared.db is its connection. */
  lemma LockedIsWanted(s: State, c: nat, i: nat)
    requires Inv(s) && c < |s.conns| && i < |s.conns[c].list| && s.conns[c].list[i].locked
    ensures var b := s.conns[c].list[i]; b.wantToLock > 0 && b.addr in s.db && s.db[b.addr] == c
  {
    var k := s.conns[c];
    assert Agrees(s, c, i);
    assert Settled(k, i);
  }

  /** What the code asserts before it locks or unlocks: the flag, the mutex and BtShared.db are as they
      should be. */
  lemma LockAssertions(s: State, c: nat, a: Action)
    requires Inv(s) && c < |s.conns| && Step(s, c, a).Some?
    ensures var k, t := s.conns[c], Step(s, c, a).value;
      forall i :: 0 <= i < |k.list| ==>
        && (!k.list[i].locked && t.conns[c].list[i].locked ==> k.list[i].addr !in s.holder)
        && (k.list[i].locked && !t.conns[c].list[i].locked ==>
          && k.list[i].addr in s.holder && s.holder[k.list[i].addr] == c
          && k.list[i].addr in s.db && s.db[k.list[i].addr] == c)
  {
    var k, t := s.conns[c], Step(s, c, a).value;
    forall i | 0 <= i < |k.list|
      ensures !k.list[i].locked && t.conns[c].list[i].locked ==> k.list[i].addr !in s.holder
      ensures k.list[i].locked ==>
        && k.list[i].addr in s.holder && s.holder[k.list[i].addr] == c
        && k.list[i].addr in s.db && s.db[k.list[i].addr] == c
    {
      assert Agrees(s, c, i);
    }
  }

  /** After any run, whatever the order in which Btrees are entered: outside a call a connection has
      locked exactly what it wants locked, and no set of connections is deadlocked. */
  lemma EveryRun(s: State, steps: seq<(nat, Action)>, stuck: set<nat>)
    requires Init(s) && stuck != {}
    ensures var t := Run(s, steps);
      && (forall c, i :: 0 <= c < |t.conns| && t.conns[c].pc == Idle && 0 <= i < |t.conns[c].list| ==>
        && (t.conns[c].list[i].locked <==> t.conns[c].list[i].wantToLock > 0)
        && (t.conns[c].list[i].locked <==> t.conns[c].list[i].addr in t.holder && t.holder[t.conns[c].list[i].addr] == c))
      && exists c :: c in stuck && forall a: nat, d: nat :: d in stuck ==> !WaitsFor(t, c, a, d)
  {
    var t := Run(s, steps);
    RunKeepsInv(s, steps);
    NoDeadlock(t, stuck);
    forall c, i | 0 <= c < |t.conns| && t.conns[c].pc == Idle && 0 <= i < |t.conns[c].list|
      ensures t.conns[c].list[i].locked <==> t.conns[c].list[i].wantToLock > 0
      ensures t.conns[c].list[i].locked <==> t.conns[c].list[i].addr in t.holder && t.holder[t.conns[c].list[i].addr] == c
    {
      assert Settled(t.conns[c], i) && Agrees(t, c, i);
    }
  }
}
