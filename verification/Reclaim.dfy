// What readers are handed, and when memory can be given back.
module Reclaim {
  import opened Bits
  import opened Walks
  import opened Chains
  import opened TableMachine
  import opened TableInvariant
  import opened TableReaders
  import opened Lookup
  import TW = TableWriter

  // ----- a lookup returns linked nodes only -----

  // Node n, with the hash value it has at moment m, was reachable for a new lookup at some moment
  // in (i, m].
  ghost predicate WasLinked(ss: seq<State>, i: nat, m: nat, n: Link) {
    m < |ss| && n in ss[m].m.hash
    && exists j :: i < j <= m && Linked(ss[j].m, n) && ss[j].m.hash[n] == ss[m].m.hash[n]
  }

  // Everything a cursor can still meet was linked at some moment since step i.
  ghost predicate MeetsPast(ss: seq<State>, i: nat, m: nat, p: Ptr)
    requires m < |ss|
  {
    forall n :: Reaches(ss[m].m.next, p, n) ==> WasLinked(ss, i, m, n)
  }

  lemma LaterToo(ss: seq<State>, i: nat, m: nat, n: Link)
    requires m + 1 < |ss| && WasLinked(ss, i, m, n)
    requires n in ss[m + 1].m.hash && ss[m + 1].m.hash[n] == ss[m].m.hash[n]
    ensures WasLinked(ss, i, m + 1, n)
  {
    var j :| i < j <= m && Linked(ss[j].m, n) && ss[j].m.hash[n] == ss[m].m.hash[n];
  }

  // One step: what is met afterwards was met before, under the same hash value, or is linked now.
  lemma MeetsStep(s: State, a: Action, s': State, t: Tid, p: Ptr, n: Link)
    requires Good(s) && Step(s, a, s') && t < |s.rs| && t < |s'.rs|
    requires s'.rs[t].In? && s'.rs[t].look.At? && s'.rs[t].look.p == p
    requires Reaches(s'.m.next, p, n)
    ensures n in s'.m.hash
    ensures Linked(s'.m, n) || (s.rs[t].In? && s.rs[t].look.At? && Reaches(s.m.next, s.rs[t].look.p, n)
                                && n in s.m.hash && s'.m.hash[n] == s.m.hash[n])
  {
    hide Step, Inv;
    var g :| Inv(s, g);
    var g' := StepInv(s, g, a, s');
    MetIsOnLedger(s', g', t, p, n);
    WhoMoves(s, a, s', t);
    if a.Write? {
      MeetsWrite(s, g, a.wa, s', g', t, p, n);
    } else if a.Read? && a.t == t {
      MetIsWalked(s, g, s', g', p, n);
      MeetsRead(s, g, a.ra, s', t, p, n);
    }
  }

  // The writer moves no reader, and a reader changes nothing but itself.
  lemma WhoMoves(s: State, a: Action, s': State, t: Tid)
    requires Step(s, a, s') && t < |s.rs| && t < |s'.rs|
    ensures if a.Write? then s'.rs == s.rs else s'.m == s.m
    ensures !(a.Read? && a.t == t) && s'.rs[t].In? && s'.rs[t].look.At? ==> s'.rs[t] == s.rs[t]
  {
  }

  lemma MetIsWalked(s: State, g: Ghost, s': State, g': Ghost, p: Ptr, n: Link)
    requires Inv(s, g) && Inv(s', g') && s'.m == s.m && Closed(s.m.next, p) && n in PtrWalk(g'.W, p)
    ensures n in PtrWalk(g.W, p)
  {
    WalksUnique(s.m.next, g.W, g'.W, p.link);
  }

  lemma MetIsOnLedger(s: State, g: Ghost, t: Tid, p: Ptr, n: Link)
    requires Inv(s, g) && t < |s.rs| && s.rs[t].In? && s.rs[t].look.At? && s.rs[t].look.p == p
             && Reaches(s.m.next, p, n)
    ensures n in s.m.linked + s.m.limbo && n in s.m.hash && n in PtrWalk(g.W, p) && Closed(s.m.next, p)
  {
    assert ReaderOk(s.m, g, s.gp, t, s.rs[t]);
    ReachesIsWalk(s.m.next, g.W, p, n);
  }

  lemma MeetsWrite(s: State, g: Ghost, wa: WAction, s': State, g': Ghost, t: Tid, p: Ptr, n: Link)
    requires Inv(s, g) && Inv(s', g') && Step(s, Write(wa), s') && t < |s.rs|
    requires Relinked(s.m, g.W, s'.m.next, g'.W, Lost(wa), Gained(s.m, wa), Via(s.m, wa))
    requires s.rs[t].In? && s.rs[t].look.At? && s.rs[t].look.p == p && Reaches(s'.m.next, p, n)
    requires n in s'.m.linked + s'.m.limbo && n in PtrWalk(g'.W, p) && n in s'.m.hash
    ensures Linked(s'.m, n) || (Reaches(s.m.next, p, n) && n in s.m.hash && s'.m.hash[n] == s.m.hash[n])
  {
    hide Inv, WStep;
    CursorIsOk(s, g, t);
    assert RelinkedAt(g.W, s'.m.next, g'.W, Lost(wa), Gained(s.m, wa), Via(s.m, wa), p);
    if n in PtrWalk(g.W, p) {
      ReachesIsWalk(s.m.next, g.W, p, n);
      HashKept(s.m, wa, s'.m, n);
    } else {
      GainedIsLinked(s, wa, s', n);
      LinkedIsReachable(s', n);
    }
  }

  lemma CursorIsOk(s: State, g: Ghost, t: Tid)
    requires Inv(s, g) && t < |s.rs| && s.rs[t].In? && s.rs[t].look.At?
    ensures CursorOk(s.m, g, s.gp, t, s.rs[t].look.h, s.rs[t].look.p) && WalkMap(s.m.next, g.W)
    ensures s.m.linked + s.m.limbo <= s.m.hash.Keys
  {
    assert ReaderOk(s.m, g, s.gp, t, s.rs[t]);
  }

  // The hash value of a node on the ledger does not change.
  lemma HashKept(m: Mem, wa: WAction, m': Mem, n: Link)
    requires WStep(m, wa, m') && n in m.linked + m.limbo && n in m.hash
    ensures n in m'.hash && m'.hash[n] == m.hash[n]
  {
  }

  lemma GainedIsLinked(s: State, wa: WAction, s': State, n: Link)
    requires Step(s, Write(wa), s') && n in Gained(s.m, wa)
    ensures n in s'.m.linked
  {
  }

  lemma MeetsRead(s: State, g: Ghost, ra: RAction, s': State, t: Tid, p: Ptr, n: Link)
    requires Inv(s, g) && Step(s, Read(t, ra), s') && t < |s.rs| && t < |s'.rs|
    requires s'.rs[t].In? && s'.rs[t].look.At? && s'.rs[t].look.p == p && n in PtrWalk(g.W, p) && n in s.m.hash
    ensures Linked(s'.m, n) || (s.rs[t].In? && s.rs[t].look.At? && Reaches(s.m.next, s.rs[t].look.p, n))
  {
    assert ReaderOk(s.m, g, s.gp, t, s.rs[t]);
    if s.rs[t].look.HasInfo? {
      var info := s.rs[t].look.info;
      LoadHeadOk(s.m, g, s.gp, t, s.rs[t].look.h, info, BucketOf(s.rs[t].look.h, |info|));
      assert OnlyLinked(s.m, Chain(g.W, info[BucketOf(s.rs[t].look.h, |info|)]));
      LinkedIsReachable(s, n);
    } else {
      var q := s.rs[t].look.p;
      assert q.To? && WalkAt(s.m.next, g.W, q.link);
      ReachesIsWalk(s.m.next, g.W, q, n);
    }
  }

  // Where a lookup can be said to begin: thread t acquires the read lock, or starts searching.
  predicate Begins(a: Action, t: Tid) {
    a == Enter(t) || (a.Read? && a.t == t && a.ra.StartFind?)
  }

  lemma {:induction false} MeetsPastThroughout(ss: seq<State>, acts: seq<Action>, i: nat, m: nat, t: Tid)
    requires Run(ss, acts) && Init(ss[0]) && i < m < |ss| && t < |ss[0].rs|
    requires Begins(acts[i], t)
    requires t < |ss[m].rs| && ss[m].rs[t].In? && ss[m].rs[t].look.At?
    ensures MeetsPast(ss, i, m, ss[m].rs[t].look.p)
    decreases m
  {
    var s, a, s' := ss[m - 1], acts[m - 1], ss[m];
    RunGood(ss, acts, m - 1);
    RunGood(ss, acts, m);
    assert StepAt(ss, acts, m - 1);
    NotAtYet(ss, acts, i, t);
    hide Step;
    forall n | Reaches(s'.m.next, s'.rs[t].look.p, n) ensures WasLinked(ss, i, m, n) {
      MeetsStep(s, a, s', t, s'.rs[t].look.p, n);
      if !Linked(s'.m, n) {
        MeetsPastThroughout(ss, acts, i, m - 1, t);
        LaterToo(ss, i, m - 1, n);
      }
    }
  }

  // Right after the first step of a lookup there is no cursor yet.
  lemma NotAtYet(ss: seq<State>, acts: seq<Action>, i: nat, t: Tid)
    requires Run(ss, acts) && i < |acts| && Begins(acts[i], t)
    ensures t < |ss[i].rs| && t < |ss[i + 1].rs| && !(ss[i].rs[t].In? && ss[i].rs[t].look.At?)
    ensures ss[i + 1].rs[t].In? && !ss[i + 1].rs[t].look.At?
  {
    assert StepAt(ss, acts, i);
  }

  // A lookup returns a node that its predicate accepts and that was linked, under the hash value
  // looked for, at some moment since step i: since the read lock was acquired, and even since the
  // lookup itself began.
  lemma FoundWasLinked(ss: seq<State>, acts: seq<Action>, i: nat, k: nat, t: Tid, n: Link)
    requires Run(ss, acts) && Init(ss[0]) && i < k < |acts| && t < |ss[0].rs|
    requires Begins(acts[i], t) && acts[k] == Read(t, Examine)
    requires t < |ss[k].rs| && ss[k].rs[t].In? && ss[k].rs[t].look.At?
    requires t < |ss[k + 1].rs| && ss[k + 1].rs[t].In? && ss[k + 1].rs[t].look == Found(n)
    ensures n in ss[k].rs[t].look.want
    ensures exists j :: i < j <= k && Linked(ss[j].m, n) && ss[j].m.hash[n] == ss[k].rs[t].look.h
  {
    assert StepAt(ss, acts, k);
    MeetsPastThroughout(ss, acts, i, k, t);
    var p := ss[k].rs[t].look.p;
    RunGood(ss, acts, k);
    var g :| Inv(ss[k], g);
    assert ReaderOk(ss[k].m, g, ss[k].gp, t, ss[k].rs[t]);
    assert WalkAt(ss[k].m.next, g.W, n);
    ReachesIsWalk(ss[k].m.next, g.W, p, n);
  }

  // ----- safe reclamation -----

  // Reader r holds n from a lookup, or can still arrive at it.
  ghost predicate Refers(m: Mem, r: Reader, n: Link) {
    r.In? && (n in r.hits || r.look == Found(n) || (r.look.At? && Reaches(m.next, r.look.p, n)))
  }

  // A node that is neither linked nor waiting for a grace period is out of every reader's reach.
  lemma OnlyLedgerNodes(s: State, t: Tid, n: Link)
    requires Good(s) && t < |s.rs| && Refers(s.m, s.rs[t], n) && (s.rs[t].look == Found(n) ==> n in s.rs[t].hits)
    ensures n in s.m.linked || n in s.m.limbo
    ensures s.gp.syncing && t !in s.gp.waiting ==> n in s.m.linked
  {
    var g :| Inv(s, g);
    assert ReaderOk(s.m, g, s.gp, t, s.rs[t]);
    if s.rs[t].look.At? {
      ReachesIsWalk(s.m.next, g.W, s.rs[t].look.p, n);
    }
  }

  // A node just returned by a lookup is among the reader's hits.
  lemma {:induction false} FoundIsHit(ss: seq<State>, acts: seq<Action>, k: nat, t: Tid)
    requires Run(ss, acts) && Init(ss[0]) && k < |ss| && t < |ss[k].rs|
    ensures ss[k].rs[t].In? && ss[k].rs[t].look.Found? ==> ss[k].rs[t].look.n in ss[k].rs[t].hits
    decreases k
  {
    if k > 0 {
      RunGood(ss, acts, k - 1);
      RunGood(ss, acts, k);
      FoundIsHit(ss, acts, k - 1, t);
      assert StepAt(ss, acts, k - 1);
    }
  }

  // In state k of the run a lookup of thread t has just been given n.
  predicate GivenAt(ss: seq<State>, k: nat, t: Tid, n: Link) {
    k < |ss| && t < |ss[k].rs| && ss[k].rs[t].In? && ss[k].rs[t].look == Found(n)
  }

  // A reader that stays inside keeps its hits, and gains the node a lookup gives it.
  lemma HitsGrow(s: State, a: Action, s': State, t: Tid, n: Link)
    requires Step(s, a, s') && t < |s.rs| && s.rs[t].In? && a != Leave(t)
    requires s.rs[t].look.Found? ==> s.rs[t].look.n in s.rs[t].hits
    ensures t < |s'.rs| && s'.rs[t].In?
    ensures n in s'.rs[t].hits <==> n in s.rs[t].hits || s'.rs[t].look == Found(n)
  {
    hide WStep, Init, GP.Next;
  }

  // What a critical section may rely on after a detach is exactly what its lookups have given it
  // since it was entered: no node found earlier drops out before the read lock is released.
  lemma {:induction false} HitsAreFinds(ss: seq<State>, acts: seq<Action>, i: nat, j: nat, t: Tid, n: Link)
    requires Run(ss, acts) && Init(ss[0]) && i < j < |ss| && t < |ss[0].rs|
    requires acts[i] == Enter(t) && Leave(t) !in acts[i + 1..j]
    ensures t < |ss[j].rs| && ss[j].rs[t].In?
    ensures n in ss[j].rs[t].hits <==> exists k :: i < k <= j && GivenAt(ss, k, t, n)
    decreases j
  {
    assert StepAt(ss, acts, j - 1);
    assert GivenAt(ss, j, t, n) <==> t < |ss[j].rs| && ss[j].rs[t].In? && ss[j].rs[t].look == Found(n);
    hide WStep, Init, GP.Next;
    if j == i + 1 {
      assert ss[j].rs[t] == In({}, Rest);
    } else {
      assert acts[i + 1..j] == acts[i + 1..j - 1] + [acts[j - 1]];
      HitsAreFinds(ss, acts, i, j - 1, t, n);
      FoundIsHit(ss, acts, j - 1, t);
      HitsGrow(ss[j - 1], acts[j - 1], ss[j], t, n);
    }
  }

  // Once detached, n stays off the table until the client inserts it again; once a grace period
  // has passed it is off the ledger.
  predicate NotReused(acts: seq<Action>, d: nat, k: nat, n: Link) {
    forall j :: d <= j < k && j < |acts| && acts[j].Write? && acts[j].wa.BeginInsert? ==> acts[j].wa.n != n
  }

  lemma {:induction false} OffTheTable(ss: seq<State>, acts: seq<Action>, d: nat, k: nat, n: Link, b: nat,
                                       pre: seq<Link>)
    requires Run(ss, acts) && Init(ss[0]) && d < k < |ss|
    requires acts[d] == Write(Detach(b, pre, n)) && NotReused(acts, d, k, n)
    ensures n !in ss[k].m.linked && !(ss[k].m.w.LinkHead? && ss[k].m.w.n == n)
    decreases k
  {
    hide Step, Init;
    var s, a, s' := ss[k - 1], acts[k - 1], ss[k];
    assert StepAt(ss, acts, k - 1);
    if k > d + 1 {
      OffTheTable(ss, acts, d, k - 1, n, b, pre);
    }
    StaysOff(s, a, s', n);
  }

  // A node leaves the table by its detach, and comes back by an insertion of its own only.
  lemma StaysOff(s: State, a: Action, s': State, n: Link)
    requires Step(s, a, s') && !(a.Write? && a.wa.BeginInsert? && a.wa.n == n)
    requires (a.Write? && a.wa.Detach? && a.wa.d == n) || (n !in s.m.linked && !(s.m.w.LinkHead? && s.m.w.n == n))
    ensures n !in s'.m.linked && !(s'.m.w.LinkHead? && s'.m.w.n == n)
  {
  }

  lemma {:induction false} OffTheLedger(ss: seq<State>, acts: seq<Action>, d: nat, e: nat, k: nat, n: Link, b: nat,
                                        pre: seq<Link>)
    requires Run(ss, acts) && Init(ss[0]) && d < e < k < |ss|
    requires acts[d] == Write(Detach(b, pre, n)) && acts[e] == Write(EndSync) && NotReused(acts, d, k, n)
    ensures n !in ss[k].m.linked && n !in ss[k].m.limbo
    decreases k
  {
    var s, a, s' := ss[k - 1], acts[k - 1], ss[k];
    assert StepAt(ss, acts, k - 1);
    OffTheTable(ss, acts, d, k, n, b, pre);
    if k > e + 1 {
      OffTheLedger(ss, acts, d, e, k - 1, n, b, pre);
      if a.Write? && a.wa.Detach? {
        RunGood(ss, acts, k - 1);
        var g :| Inv(s, g);
        TW.DetachSplit(s.m, g, a.wa.b, a.wa.pre, a.wa.d);
      }
    }
  }

  // Safe reclamation: after a node was detached and any later rcuSynchronize has returned, no
  // reader holds it and none can arrive at it, for as long as the client keeps it.
  lemma DetachedThenSynchronized(ss: seq<State>, acts: seq<Action>, d: nat, e: nat, k: nat, n: Link, b: nat,
                                 pre: seq<Link>, t: Tid)
    requires Run(ss, acts) && Init(ss[0]) && d < e < k < |ss| && t < |ss[k].rs|
    requires acts[d] == Write(Detach(b, pre, n)) && acts[e] == Write(EndSync) && NotReused(acts, d, k, n)
    ensures !Refers(ss[k].m, ss[k].rs[t], n)
  {
    OffTheLedger(ss, acts, d, e, k, n, b, pre);
    RunGood(ss, acts, k);
    FoundIsHit(ss, acts, k, t);
    if Refers(ss[k].m, ss[k].rs[t], n) {
      OnlyLedgerNodes(ss[k], t, n);
    }
  }

  // Readers never leave the heap: what a cursor points to is a node of the table or one that
  // still waits for its grace period, and the array a lookup has loaded is the published one, or the
  // one that was replaced and is not freed before the grace period under way has ended.
  lemma NoDanglingReads(ss: seq<State>, acts: seq<Action>, k: nat, t: Tid)
    requires Run(ss, acts) && Init(ss[0]) && k < |ss| && t < |ss[k].rs| && ss[k].rs[t].In?
    ensures var look := ss[k].rs[t].look;
            && (look.At? && look.p.To? ==>
                  look.p.link in ss[k].m.next && look.p.link in ss[k].m.hash
                    && look.p.link in ss[k].m.linked + ss[k].m.limbo)
            && (look.HasInfo? ==>
                  && |look.info| > 0 && BucketOf(look.h, |look.info|) < |look.info|
                  && (look.info == ss[k].m.table || look.info == Replaced(ss[k].m.w))
                  && forall h :: h in look.info ==> h in ss[k].m.heads && h in ss[k].m.next)
  {
    RunGood(ss, acts, k);
    var g :| Inv(ss[k], g);
    var m, look := ss[k].m, ss[k].rs[t].look;
    assert ReaderOk(m, g, ss[k].gp, t, ss[k].rs[t]);
    if look.At? && look.p.To? {
      assert WalkAt(m.next, g.W, look.p.link);
    }
    if look.HasInfo? {
      assert ArrayOk(m, look.info);
      ArraysArePow2(m, g);
      BucketInRange(look.h, |look.info|);
    }
  }

  lemma ArraysArePow2(m: Mem, g: Ghost)
    requires Struct(m, g)
    ensures IsPow2(|m.table|) && (|Replaced(m.w)| > 0 ==> IsPow2(|Replaced(m.w)|))
  {
  }

  // ----- old arrays -----

  // From the first store into an old bucket head until the end of the expansion no reader holds
  // the old array.
  lemma OldArrayIsDead(ss: seq<State>, acts: seq<Action>, k: nat, t: Tid)
    requires Run(ss, acts) && Init(ss[0]) && k < |ss| && t < |ss[k].rs|
    requires ss[k].m.w.FindStarts? || ss[k].m.w.Unzip? || (ss[k].m.w.Sync? && ss[k].m.w.resume.ToUnzip?)
    requires ss[k].rs[t].In? && ss[k].rs[t].look.HasInfo?
    ensures ss[k].rs[t].look.info == ss[k].m.table && ss[k].rs[t].look.info != Unzipping(ss[k].m.w)
  {
    RunGood(ss, acts, k);
    var g :| Inv(ss[k], g);
    assert ReaderOk(ss[k].m, g, ss[k].gp, t, ss[k].rs[t]);
    assert Beside(ss[k].m, Unzipping(ss[k].m.w));
    assert ss[k].m.table[0] in ss[k].m.table;
  }

  // When a shrink returns, so that its old array can be freed, no reader holds that array.
  lemma ShrunkArrayIsDead(ss: seq<State>, acts: seq<Action>, k: nat, t: Tid)
    requires Run(ss, acts) && Init(ss[0]) && k < |acts| && t < |ss[k].rs| && t < |ss[k + 1].rs|
    requires ss[k].m.w.Sync? && ss[k].m.w.resume.ToFree? && acts[k] == Write(EndSync)
    requires ss[k + 1].rs[t].In? && ss[k + 1].rs[t].look.HasInfo?
    ensures ss[k + 1].rs[t].look.info == ss[k + 1].m.table != ss[k].m.w.resume.arr
  {
    RunGood(ss, acts, k);
    var g :| Inv(ss[k], g);
    assert StepAt(ss, acts, k);
    assert ReaderOk(ss[k].m, g, ss[k].gp, t, ss[k].rs[t]);
    assert Beside(ss[k].m, ss[k].m.w.resume.arr);
    assert ss[k].m.table[0] in ss[k].m.table;
  }

  // ----- unzipping -----

  // Just before a chain's round, no reader that wants the other half of the chain can arrive at
  // the jump start, so that redirecting it past the next segment hides nothing from anybody.
  lemma NobodyAtTheJump(ss: seq<State>, acts: seq<Action>, k: nat, t: Tid)
    requires Run(ss, acts) && Init(ss[0]) && k < |ss| && t < |ss[k].rs| && ss[k].rs[t].In? && ss[k].rs[t].look.At?
    requires ss[k].m.w.Unzip? && ss[k].m.w.b < |ss[k].m.w.src| && Load(ss[k].m, ss[k].m.w.src[ss[k].m.w.b]).To?
    ensures var m, look := ss[k].m, ss[k].rs[t].look;
            var n, a := |m.w.src|, Load(m, m.w.src[m.w.b]).link;
            BucketOf(look.h, n) == m.w.b && Class(m.hash, a, 2 * n) != BucketOf(look.h, 2 * n) ==>
                !Reaches(m.next, look.p, a)
  {
    RunGood(ss, acts, k);
    var g :| Inv(ss[k], g);
    var m, look := ss[k].m, ss[k].rs[t].look;
    assert ReaderOk(m, g, ss[k].gp, t, ss[k].rs[t]);
    assert JumpAt(m, g, m.w.src, m.w.b);
    ReachesIsWalk(m.next, g.W, look.p, Load(m, m.w.src[m.w.b]).link);
  }

  // In every reachable state the heap is acyclic.
  lemma AlwaysAcyclic(ss: seq<State>, acts: seq<Action>, k: nat)
    requires Run(ss, acts) && Init(ss[0]) && k < |ss|
    ensures exists W :: WalkMap(ss[k].m.next, W)
  {
    RunGood(ss, acts, k);
    var g :| Inv(ss[k], g);
    assert WalkMap(ss[k].m.next, g.W);
  }
}
