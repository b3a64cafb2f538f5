// What readers can rely on, over whole runs: lookups that take no lock never miss a node that
// stays linked, only ever return nodes that were linked, and are never left with memory that
// has been given back.
module Lookup {
  import opened Bits
  import opened Walks
  import opened Chains
  import opened TableMachine
  import opened TableInvariant
  import opened TableUnzip
  import opened TableReaders
  import TW = TableWriter
  import GP = GracePeriod

  predicate Run(ss: seq<State>, acts: seq<Action>) {
    && |ss| == |acts| + 1
    && forall k {:trigger StepAt(ss, acts, k)} :: 0 <= k < |acts| ==> StepAt(ss, acts, k)
  }

  // Step k of a run
  predicate StepAt(ss: seq<State>, acts: seq<Action>, k: nat) {
    k < |acts| < |ss| && Step(ss[k], acts[k], ss[k + 1])
  }

  lemma InitInv(s: State) returns (g: Ghost)
    requires Init(s)
    ensures Inv(s, g)
  {
    var W := map l | l in s.m.next :: [l];
    g := Ghost(W, [], []);
    forall l | l in s.m.next ensures WalkAt(s.m.next, W, l) {
    }
    forall b | 0 <= b < |s.m.table| ensures ProperChain(s.m, Chain(W, s.m.table[b]), |s.m.table|, b) {
    }
  }

  ghost predicate Good(s: State) {
    exists g :: Inv(s, g)
  }

  // Every reachable state satisfies the invariant.
  lemma {:induction false} RunGood(ss: seq<State>, acts: seq<Action>, k: nat)
    requires Run(ss, acts) && Init(ss[0]) && k < |ss|
    ensures Good(ss[k]) && |ss[k].rs| == |ss[0].rs|
    decreases k
  {
    if k == 0 {
      var g := InitInv(ss[0]);
    } else {
      RunGood(ss, acts, k - 1);
      assert StepAt(ss, acts, k - 1);
      GoodStep(ss[k - 1], acts[k - 1], ss[k]);
    }
  }

  lemma GoodStep(s: State, a: Action, s': State)
    requires Good(s) && Step(s, a, s')
    ensures Good(s') && |s'.rs| == |s.rs|
  {
    var g :| Inv(s, g);
    var g' := StepInv(s, g, a, s');
  }

  // The client's ledger is the truth: the linked nodes are exactly the nodes a new lookup of
  // their hash value would reach.
  lemma LinkedIsReachable(s: State, n: Link)
    requires Good(s)
    ensures Linked(s.m, n) <==> n in s.m.linked
  {
    var g :| Inv(s, g);
    var m := s.m;
    if n in m.hash && Class(m.hash, n, |m.table|) < |m.table| {
      var h := m.table[Class(m.hash, n, |m.table|)];
      assert h in m.heads;
      TW.ChainIsPtrWalk(m, g.W, h);
      ReachesIsWalk(m.next, g.W, Load(m, h), n);
      assert OnlyLinked(m, Chain(g.W, h));
    }
    if n in m.linked {
      assert FindsNode(m, g.W, m.table, n);
    }
  }

  // ----- no lookup misses -----

  predicate Looking(r: Reader) {
    r.In? && (r.look.HasInfo? || r.look.At?)
  }

  // The reader is looking for h and still has node n in front of it.
  ghost predicate Ahead(m: Mem, r: Reader, h: nat, want: set<Link>, n: Link) {
    r.In? && match r.look
             case HasInfo(h', want', _) => h' == h && want' == want
             case At(h', want', p) => h' == h && want' == want && Reaches(m.next, p, n)
             case _ => false
  }

  // The heart of the matter: no writer action takes a node that stays linked away from a reader
  // that is looking for it.
  lemma WriterKeepsAhead(m: Mem, g: Ghost, wa: WAction, m': Mem, g': Ghost, gp: GP.Gp, t: Tid, h: nat, p: Ptr, n: Link)
    requires Struct(m, g) && WStep(m, wa, m') && GhostMoves(m, g, wa, g')
    requires Relinked(m, g.W, m'.next, g'.W, Lost(wa), Gained(m, wa), Via(m, wa))
    requires CursorOk(m, g, gp, t, h, p) && n in PtrWalk(g.W, p)
    requires n in m.linked && n in m'.linked && m.hash[n] == h
    ensures n in PtrWalk(g'.W, p) && Closed(m'.next, p)
  {
    assert RelinkedAt(g.W, m'.next, g'.W, Lost(wa), Gained(m, wa), Via(m, wa), p);
    if wa.UnzipOne? && n in Lost(wa) && Via(m, wa) in PtrWalk(g.W, p) {
      JumpEndangers(m, g, wa, g', h, p, n);
      assert false;
    }
  }

  // A reader that would lose n to an unzip store is endangered, and not excused.
  lemma JumpEndangers(m: Mem, g: Ghost, wa: WAction, g': Ghost, h: nat, p: Ptr, n: Link)
    requires Struct(m, g) && wa.UnzipOne? && GhostMoves(m, g, wa, g')
    requires n in Lost(wa) && Via(m, wa) in PtrWalk(g.W, p) && n in m.linked && m.hash[n] == h
    ensures Endangered(m, g, h, p) && BucketOf(h, |m.w.src|) == m.w.b
  {
    var b, src := m.w.b, m.w.src;
    assert n in g.chains[b][g.ks[b]..g'.ks[b]] && n in g.chains[b];
    assert ChainOk(m, g, |src|, b);
  }

  lemma WriteStaysAhead(s: State, wa: WAction, s': State, t: Tid, h: nat, want: set<Link>, n: Link)
    requires Good(s) && Step(s, Write(wa), s') && t < |s.rs| && Ahead(s.m, s.rs[t], h, want, n)
    requires n in s.m.linked && n in s'.m.linked && s.m.hash[n] == h
    ensures Ahead(s'.m, s'.rs[t], h, want, n)
  {
    var g :| Inv(s, g);
    var g' := StepInv(s, g, Write(wa), s');
    assert ReaderOk(s.m, g, s.gp, t, s.rs[t]);
    if s.rs[t].look.At? {
      var p := s.rs[t].look.p;
      ReachesIsWalk(s.m.next, g.W, p, n);
      WriterKeepsAhead(s.m, g, wa, s'.m, g', s.gp, t, h, p, n);
      ReachesIsWalk(s'.m.next, g'.W, p, n);
    }
  }

  lemma ReadStaysAhead(s: State, ra: RAction, t: Tid, r': Reader, h: nat, want: set<Link>, n: Link)
    requires Good(s) && t < |s.rs| && RStep(s.m, s.rs[t], ra, r') && Ahead(s.m, s.rs[t], h, want, n)
    requires n in s.m.linked && s.m.hash[n] == h && n in want
    ensures Ahead(s.m, r', h, want, n) || r'.look.Found?
  {
    var g :| Inv(s, g);
    var look := s.rs[t].look;
    assert ReaderOk(s.m, g, s.gp, t, s.rs[t]);
    if look.HasInfo? {
      var i := BucketOf(h, |look.info|);
      LoadHeadOk(s.m, g, s.gp, t, h, look.info, i);
      assert FindsNode(s.m, g.W, look.info, n);
      ReachesIsWalk(s.m.next, g.W, Load(s.m, look.info[i]), n);
    } else {
      ReachesIsWalk(s.m.next, g.W, look.p, n);
      assert look.p.To? && WalkAt(s.m.next, g.W, look.p.link);
      if look.p.link != n {
        ReachesIsWalk(s.m.next, g.W, Load(s.m, look.p.link), n);
      }
    }
  }

  lemma StaysAhead(s: State, a: Action, s': State, t: Tid, h: nat, want: set<Link>, n: Link)
    requires Good(s) && Step(s, a, s') && t < |s.rs| && Ahead(s.m, s.rs[t], h, want, n)
    requires n in s.m.linked && n in s'.m.linked && s.m.hash[n] == h && n in want
    ensures t < |s'.rs| && s'.rs[t].In? && (Ahead(s'.m, s'.rs[t], h, want, n) || s'.rs[t].look.Found?)
  {
    if a.Write? {
      WriteStaysAhead(s, a.wa, s', t, h, want, n);
    } else if a.Read? && a.t == t {
      ReadStaysAhead(s, a.ra, t, s'.rs[t], h, want, n);
    }
  }

  lemma {:induction false} AheadThroughout(ss: seq<State>, acts: seq<Action>, i: nat, m: nat, t: Tid, h: nat,
                                           want: set<Link>, n: Link)
    requires Run(ss, acts) && Init(ss[0]) && i < m < |ss| && t < |ss[0].rs|
    requires acts[i] == Read(t, StartFind(h, want)) && n in want
    requires forall j :: i < j < m ==> t < |ss[j].rs| && Looking(ss[j].rs[t])
    requires forall j :: i < j <= m ==> n in ss[j].m.linked && n in ss[j].m.hash && ss[j].m.hash[n] == h
    ensures t < |ss[m].rs| && ss[m].rs[t].In? && (Ahead(ss[m].m, ss[m].rs[t], h, want, n) || ss[m].rs[t].look.Found?)
    decreases m
  {
    var s, a, s' := ss[m - 1], acts[m - 1], ss[m];
    RunGood(ss, acts, m - 1);
    assert StepAt(ss, acts, m - 1);
    if m > i + 1 {
      AheadThroughout(ss, acts, i, m - 1, t, h, want, n);
      assert Looking(s.rs[t]);
      StaysAhead(s, a, s', t, h, want, n);
    }
  }

  // A lookup that starts at step i and returns null at step k: every node its predicate accepts
  // was, at some moment of the lookup, not linked under that hash value.
  lemma MissIsHonest(ss: seq<State>, acts: seq<Action>, i: nat, k: nat, t: Tid, h: nat, want: set<Link>, n: Link)
    requires Run(ss, acts) && Init(ss[0]) && i < k < |acts| && t < |ss[0].rs|
    requires acts[i] == Read(t, StartFind(h, want)) && n in want
    requires forall j :: i < j <= k ==> t < |ss[j].rs| && Looking(ss[j].rs[t])
    requires t < |ss[k + 1].rs| && ss[k + 1].rs[t].In? && ss[k + 1].rs[t].look == Missed
    ensures exists j :: i < j <= k && !(Linked(ss[j].m, n) && ss[j].m.hash[n] == h)
  {
    if forall j :: i < j <= k ==> Linked(ss[j].m, n) && ss[j].m.hash[n] == h {
      forall j | i < j <= k ensures n in ss[j].m.linked && n in ss[j].m.hash && ss[j].m.hash[n] == h {
        RunGood(ss, acts, j);
        LinkedIsReachable(ss[j], n);
      }
      AheadThroughout(ss, acts, i, k, t, h, want, n);
      RunGood(ss, acts, k);
      assert Looking(ss[k].rs[t]);
      assert StepAt(ss, acts, k);
      LastReadIsOwn(ss[k], acts[k], ss[k + 1], t);
      StaysAhead(ss[k], acts[k], ss[k + 1], t, h, want, n);
      assert false;
    }
  }

  // A reader's state changes by its own actions only.
  lemma LastReadIsOwn(s: State, a: Action, s': State, t: Tid)
    requires Step(s, a, s') && t < |s.rs| && t < |s'.rs| && s'.rs[t] != s.rs[t] && Looking(s.rs[t])
    ensures a.Read? && a.t == t && s'.m == s.m
  {
  }
}
