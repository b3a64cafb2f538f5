// What can happen to a table, from any state that runs can reach: every operation can begin, for
// any contents, and each comes to its end with the result it is for.
module Operations {
  import opened Bits
  import opened Walks
  import opened Chains
  import opened TableMachine
  import opened TableInvariant
  import opened TableReaders
  import opened Lookup
  import opened ResizeRuns
  import P = Progress
  import TW = TableWriter
  import TU = TableUnzip
  import TS = TableShrink
  import GP = GracePeriod

  // A table can start out with any power-of-two number of buckets and any number of readers.
  lemma InitExists(n: nat, readers: nat)
    requires IsPow2(n)
    ensures exists s :: Init(s) && |s.m.table| == n && |s.rs| == readers
  {
    var table := seq(n, (i: nat) => i);
    var m := Mem(map l | l in table :: Null, map[], table, SetOf(table), {}, {}, Idle);
    var s := State(m, seq(readers, (i: nat) => Out), GP.Gp({}, false, {}));
    assert Init(s);
  }

  // Every head of the table has its list.
  lemma HeadHasList(s: State, b: nat)
    requires Good(s) && b < |s.m.table|
    ensures exists c :: ChainAt(s.m, s.m.table[b], c)
  {
    var g := GhostOf(s);
    var m, h := s.m, s.m.table[b];
    assert h in m.heads;
    TW.ChainIsPtrWalk(m, g.W, h);
    var c := Chain(g.W, h);
    var q := WalkSeg(m.next, g.W, m.next[h], |c|);
    EmptyWalk(m.next, g.W, q);
    assert c[..|c|] == c && ChainAt(m, h, c);
  }

  // ----- memory for new heads -----

  lemma {:induction false} Above(used: set<Link>) returns (bound: nat)
    ensures forall l :: l in used ==> l < bound
  {
    if used == {} {
      bound := 0;
    } else {
      var x :| x in used;
      var b := Above(used - {x});
      bound := if x < b then b else x + 1;
      forall l | l in used ensures l < bound {
        assert l == x || l in used - {x};
      }
    }
  }

  lemma FreshLinks(used: set<Link>, n: nat) returns (dst: seq<Link>)
    ensures |dst| == n && Distinct(dst) && forall l :: l in dst ==> l !in used
  {
    var bound := Above(used);
    dst := seq(n, (i: nat) => bound + i);
  }

  // ----- runs of the writer alone -----

  ghost predicate WriterRun(ss: seq<State>, acts: seq<Action>, s: State, s': State) {
    && Run(ss, acts) && ss[0] == s && ss[|acts|] == s'
    && forall k :: 0 <= k < |acts| ==> acts[k].Write?
  }

  lemma OneStep(s: State, wa: WAction, s': State) returns (ss: seq<State>, acts: seq<Action>)
    requires Step(s, Write(wa), s')
    ensures WriterRun(ss, acts, s, s') && acts == [Write(wa)]
  {
    ss, acts := [s, s'], [Write(wa)];
    assert StepAt(ss, acts, 0);
  }

  lemma StepFirst(s: State, wa: WAction, s1: State, rest: seq<State>, more: seq<Action>, s': State)
    returns (ss: seq<State>, acts: seq<Action>)
    requires Step(s, Write(wa), s1) && WriterRun(rest, more, s1, s')
    ensures WriterRun(ss, acts, s, s') && acts == [Write(wa)] + more
  {
    hide Step;
    ss, acts := [s] + rest, [Write(wa)] + more;
    forall k {:trigger StepAt(ss, acts, k)} | 0 <= k < |acts| ensures StepAt(ss, acts, k) {
      if k > 0 { assert StepAt(rest, more, k - 1); }
    }
  }

  // The writer's next step when no reader is inside, and what it leaves of the measure
  lemma NextStep(s: State, g: Ghost) returns (wa: WAction, s': State, g': Ghost)
    requires Inv(s, g) && s.gp.inside == {} && s.m.w != Idle
    ensures Step(s, Write(wa), s') && Inv(s', g') && s'.gp.inside == {} && s'.rs == s.rs
    ensures GhostMoves(s.m, g, wa, g') && WStep(s.m, wa, s'.m)
    ensures 0 <= P.StepsLeft(s'.m, g') < P.StepsLeft(s.m, g)
  {
    hide Step, GhostMoves, P.StepsLeft, Struct, WStep;
    var m';
    wa, m' := P.NextAction(s.m, g);
    s' := P.NextState(s, wa, m');
    g' := StepInv(s, g, Write(wa), s');
    P.BusyStep(s, g, Write(wa), s', g');
    P.InvIsNat(s', g');
  }

  // ----- expansion -----

  // n chains, and what becomes of them in a table of twice the size
  ghost predicate SplitFrom(m: Mem, cs: seq<seq<Link>>, hash: map<Link, nat>) {
    && |m.table| == 2 * |cs|
    && forall j, d :: 0 <= j < |m.table| && ChainAt(m, m.table[j], d) ==>
        d == Keep(hash, cs[Half(j, |cs|)], |m.table|, j)
  }

  lemma ExpandKeeps(m: Mem, wa: WAction, m': Mem)
    requires WStep(m, wa, m') && Expanding(m.w)
    ensures m'.linked == m.linked && m'.hash == m.hash
    ensures wa == UnzipDone ==> m'.w == Idle
  {
  }

  lemma DoneSplits(m: Mem, g: Ghost, m': Mem)
    requires Struct(m, g) && WStep(m, UnzipDone, m')
    ensures SplitFrom(m', g.chains, m'.hash)
  {
    TU.UnzipDoneOk(m, g, m');
    forall j, d | 0 <= j < |m'.table| && ChainAt(m', m'.table[j], d)
      ensures d == Keep(m'.hash, g.chains[Half(j, |g.chains|)], |m'.table|, j)
    {
      ChainAtIs(m', g.W, m'.table[j], d);
    }
  }

  lemma {:induction false} ExpandEnds(s: State, g: Ghost) returns (ss: seq<State>, acts: seq<Action>, s': State)
    requires Inv(s, g) && s.gp.inside == {} && Expanding(s.m.w)
    ensures WriterRun(ss, acts, s, s') && Good(s') && s'.m.w == Idle && s'.gp.inside == {}
    ensures s'.m.linked == s.m.linked && s'.m.hash == s.m.hash && SplitFrom(s'.m, g.chains, s.m.hash)
    decreases if P.StepsLeft(s.m, g) >= 0 then P.StepsLeft(s.m, g) else 0
  {
    var wa, s1, g1 := NextStep(s, g);
    ExpandKeeps(s.m, wa, s1.m);
    if wa == UnzipDone {
      DoneSplits(s.m, g, s1.m);
      s' := s1;
      ss, acts := OneStep(s, wa, s1);
    } else {
      StaysExpanding(s, g, Write(wa), s1, g1);
      hide Inv, Step, SplitFrom, P.StepsLeft, WriterRun, Good, GhostMoves, WStep;
      var rest, more;
      rest, more, s' := ExpandEnds(s1, g1);
      ss, acts := StepFirst(s, wa, s1, rest, more, s');
    }
  }

  // An expansion can begin whenever the writer is idle, whatever the table holds and whoever is
  // inside.
  lemma ExpansionBegins(s: State) returns (dst: seq<Link>, s': State)
    requires Good(s) && s.m.w == Idle
    ensures Step(s, Write(BeginExpand(dst)), s') && s'.rs == s.rs && s'.gp == s.gp
  {
    var g := GhostOf(s);
    dst := FreshLinks(s.m.next.Keys + s.m.heads, 2 * |s.m.table|);
    var m' := s.m.(next := AddEmpty(s.m.next, SetOf(dst)), heads := s.m.heads + SetOf(dst), w := InitTwin(dst, 0));
    assert WStep(s.m, BeginExpand(dst), m');
    s' := P.NextState(s, BeginExpand(dst), m');
  }

  // And if no reader is inside the writer can take it to its end by itself: the table has twice the
  // buckets and the same nodes, and each new bucket has the nodes of its own from the old bucket,
  // in their old order.
  lemma ExpansionHappens(s: State) returns (ss: seq<State>, acts: seq<Action>, s': State)
    requires Good(s) && s.m.w == Idle && s.gp.inside == {}
    ensures WriterRun(ss, acts, s, s') && |acts| > 0 && acts[0].wa.BeginExpand?
    ensures Good(s') && s'.m.w == Idle && s'.m.linked == s.m.linked && s'.m.hash == s.m.hash
    ensures |s'.m.table| == 2 * |s.m.table|
    ensures forall j, c, d :: 0 <= j < |s'.m.table| && ChainAt(s'.m, s'.m.table[j], d)
                              && ChainAt(s.m, s.m.table[Half(j, |s.m.table|)], c) ==>
              d == Keep(s.m.hash, c, |s'.m.table|, j)
  {
    var g := GhostOf(s);
    var dst, s1 := ExpansionBegins(s);
    var g1 := StepInv(s, g, Write(BeginExpand(dst)), s1);
    BeginRecords(s, g, BeginExpand(dst), s1, g1);
    BeginKeeps(s.m, BeginExpand(dst), s1.m);
    hide Inv, Step, WriterRun, Good, GhostMoves;
    var rest, more;
    rest, more, s' := ExpandEnds(s1, g1);
    ss, acts := StepFirst(s, BeginExpand(dst), s1, rest, more, s');
  }

  lemma BeginKeeps(m: Mem, wa: WAction, m': Mem)
    requires WStep(m, wa, m') && (wa.BeginExpand? || wa.BeginShrink?)
    ensures m'.linked == m.linked && m'.hash == m.hash && m'.table == m.table
  {
  }

  // ----- shrink -----

  // Pairs of chains, and what becomes of them in a table of half the size
  ghost predicate JoinedFrom(m: Mem, cs: seq<seq<Link>>) {
    && |cs| == 2 * |m.table|
    && forall b, d :: 0 <= b < |m.table| && ChainAt(m, m.table[b], d) ==> d == cs[b] + cs[b + |m.table|]
  }

  predicate Freeing(w: Writer) {
    w.ShrinkPublished? || (w.Sync? && w.resume.ToFree?)
  }

  lemma ShrinkKeeps(m: Mem, wa: WAction, m': Mem)
    requires WStep(m, wa, m') && (Joining(m.w) || Freeing(m.w))
    ensures m'.linked == m.linked && m'.hash == m.hash
    ensures Freeing(m.w) ==> m'.next == m.next && m'.table == m.table && (m'.w == Idle || Freeing(m'.w))
    ensures wa == PublishMerged ==> Freeing(m'.w)
  {
  }

  lemma PublishedJoins(m: Mem, g: Ghost, m': Mem)
    requires Struct(m, g) && WStep(m, PublishMerged, m')
    ensures JoinedFrom(m', g.chains)
  {
    TS.PublishMergedOk(m, g, m');
    forall b, d | 0 <= b < |m'.table| && ChainAt(m', m'.table[b], d)
      ensures d == g.chains[b] + g.chains[b + |m'.table|]
    {
      ChainAtIs(m', g.W, m'.table[b], d);
    }
  }

  lemma JoinedStays(m: Mem, cs: seq<seq<Link>>, m': Mem)
    requires JoinedFrom(m, cs) && m'.next == m.next && m'.table == m.table
    ensures JoinedFrom(m', cs)
  {
    forall b, d | 0 <= b < |m'.table| && ChainAt(m', m'.table[b], d) ensures d == cs[b] + cs[b + |m'.table|] {
      assert ChainAt(m, m.table[b], d);
    }
  }

  lemma {:induction false} FreeEnds(s: State, g: Ghost, cs: seq<seq<Link>>)
    returns (ss: seq<State>, acts: seq<Action>, s': State)
    requires Inv(s, g) && s.gp.inside == {} && Freeing(s.m.w) && JoinedFrom(s.m, cs)
    ensures WriterRun(ss, acts, s, s') && Good(s') && s'.m.w == Idle
    ensures s'.m.linked == s.m.linked && s'.m.hash == s.m.hash && JoinedFrom(s'.m, cs)
    decreases if P.StepsLeft(s.m, g) >= 0 then P.StepsLeft(s.m, g) else 0
  {
    var wa, s1, g1 := NextStep(s, g);
    ShrinkKeeps(s.m, wa, s1.m);
    JoinedStays(s.m, cs, s1.m);
    if s1.m.w == Idle {
      s' := s1;
      ss, acts := OneStep(s, wa, s1);
    } else {
      hide Inv, Step, JoinedFrom, P.StepsLeft, WriterRun, Good, GhostMoves, WStep;
      var rest, more;
      rest, more, s' := FreeEnds(s1, g1, cs);
      ss, acts := StepFirst(s, wa, s1, rest, more, s');
    }
  }

  lemma {:induction false} ShrinkEnds(s: State, g: Ghost) returns (ss: seq<State>, acts: seq<Action>, s': State)
    requires Inv(s, g) && s.gp.inside == {} && Joining(s.m.w)
    ensures WriterRun(ss, acts, s, s') && Good(s') && s'.m.w == Idle
    ensures s'.m.linked == s.m.linked && s'.m.hash == s.m.hash && JoinedFrom(s'.m, g.chains)
    decreases if P.StepsLeft(s.m, g) >= 0 then P.StepsLeft(s.m, g) else 0
  {
    var wa, s1, g1 := NextStep(s, g);
    ShrinkKeeps(s.m, wa, s1.m);
    var rest, more;
    if wa == PublishMerged {
      PublishedJoins(s.m, g, s1.m);
      hide Inv, Step, JoinedFrom, P.StepsLeft, WriterRun, Good, GhostMoves, WStep;
      rest, more, s' := FreeEnds(s1, g1, g.chains);
      ss, acts := StepFirst(s, wa, s1, rest, more, s');
    } else {
      StaysJoining(s, g, Write(wa), s1, g1);
      hide Inv, Step, JoinedFrom, P.StepsLeft, WriterRun, Good, GhostMoves, WStep;
      rest, more, s' := ShrinkEnds(s1, g1);
      ss, acts := StepFirst(s, wa, s1, rest, more, s');
    }
  }

  // A shrink can begin whenever the writer is idle and there is more than one bucket.
  lemma ShrinkBegins(s: State) returns (dst: seq<Link>, s': State)
    requires Good(s) && s.m.w == Idle && |s.m.table| >= 2
    ensures Step(s, Write(BeginShrink(dst)), s') && s'.rs == s.rs && s'.gp == s.gp
  {
    var g := GhostOf(s);
    dst := FreshLinks(s.m.next.Keys + s.m.heads, |s.m.table| / 2);
    var m' := s.m.(next := AddEmpty(s.m.next, SetOf(dst)), heads := s.m.heads + SetOf(dst), w := Splice(dst, 0));
    assert WStep(s.m, BeginShrink(dst), m');
    s' := P.NextState(s, BeginShrink(dst), m');
  }

  // And if no reader is inside the writer can take it to its end by itself: the table has half the
  // buckets and the same nodes, and each new bucket has its two old chains, one behind the other.
  lemma ShrinkHappens(s: State) returns (ss: seq<State>, acts: seq<Action>, s': State)
    requires Good(s) && s.m.w == Idle && s.gp.inside == {} && |s.m.table| >= 2
    ensures WriterRun(ss, acts, s, s') && |acts| > 0 && acts[0].wa.BeginShrink?
    ensures Good(s') && s'.m.w == Idle && s'.m.linked == s.m.linked && s'.m.hash == s.m.hash
    ensures 2 * |s'.m.table| == |s.m.table|
    ensures forall b, c, c', d :: 0 <= b < |s'.m.table| && ChainAt(s'.m, s'.m.table[b], d)
                                  && ChainAt(s.m, s.m.table[b], c)
                                  && ChainAt(s.m, s.m.table[b + |s'.m.table|], c') ==>
              d == c + c'
  {
    var g := GhostOf(s);
    var dst, s1 := ShrinkBegins(s);
    var g1 := StepInv(s, g, Write(BeginShrink(dst)), s1);
    BeginRecords(s, g, BeginShrink(dst), s1, g1);
    BeginKeeps(s.m, BeginShrink(dst), s1.m);
    hide Inv, Step, WriterRun, Good, GhostMoves;
    var rest, more;
    rest, more, s' := ShrinkEnds(s1, g1);
    ss, acts := StepFirst(s, BeginShrink(dst), s1, rest, more, s');
  }

  // ----- insertion and detach -----

  // The lists of the table in m' are those of m, but for bucket b, where c has become d.
  ghost predicate OnlyBucket(m: Mem, m': Mem, b: nat) {
    && m'.table == m.table
    && forall i, c, d :: 0 <= i < |m.table| && i != b && ChainAt(m, m.table[i], c) && ChainAt(m', m'.table[i], d) ==>
        d == c
  }

  lemma StructOf(s: State, g: Ghost)
    requires Inv(s, g)
    ensures Struct(s.m, g) && WalkMap(s.m.next, g.W)
  {
  }

  lemma InsertBegins(s: State, g: Ghost, n: Link, h: nat) returns (s': State, g': Ghost)
    requires Inv(s, g) && s.m.w == Idle && n !in s.m.linked && n !in s.m.limbo && n !in s.m.heads
    ensures Step(s, Write(BeginInsert(n, h)), s') && Inv(s', g') && s'.rs == s.rs
    ensures s'.m.table == s.m.table && s'.m.linked == s.m.linked && s'.m.limbo == s.m.limbo
            && s'.m.hash == s.m.hash[n := h]
    ensures s'.m.w == LinkHead(n, BucketOf(h, |s.m.table|)) && BucketOf(h, |s.m.table|) < |s.m.table|
    ensures forall i :: 0 <= i < |s.m.table| ==> Chain(g'.W, s.m.table[i]) == Chain(g.W, s.m.table[i])
  {
    var m, b := s.m, BucketOf(h, |s.m.table|);
    BucketInRange(h, |m.table|);
    var m' := Store(m, n, Load(m, m.table[b])).(hash := m.hash[n := h], w := LinkHead(n, b));
    assert WStep(m, BeginInsert(n, h), m');
    s' := P.NextState(s, BeginInsert(n, h), m');
    g' := StepInv(s, g, Write(BeginInsert(n, h)), s');
    var g1 := TW.BeginInsertOk(m, g, n, h, m');
    forall i | 0 <= i < |m.table| ensures Chain(g'.W, m.table[i]) == Chain(g.W, m.table[i]) {
      assert m.table[i] in m.heads && m.table[i] in m.table;
      TW.ChainIsPtrWalk(m, g.W, m.table[i]);
      TW.ChainIsPtrWalk(m', g'.W, m.table[i]);
      TW.ChainIsPtrWalk(m', g1.W, m.table[i]);
      assert OnlyLinked(m, Chain(g.W, m.table[i]));
      assert TW.SameFor(m, g.W, m'.next, g1.W, Load(m, m.table[i]));
      SameWalk(m'.next, g'.W, g1.W, Load(m, m.table[i]));
    }
  }

  lemma SameWalk(next: map<Link, Ptr>, W: map<Link, seq<Link>>, V: map<Link, seq<Link>>, p: Ptr)
    requires WalkMap(next, W) && WalkMap(next, V) && Closed(next, p)
    ensures PtrWalk(W, p) == PtrWalk(V, p)
  {
    if p.To? {
      WalksUnique(next, W, V, p.link);
    }
  }

  lemma InsertStores(s: State, g: Ghost) returns (s': State, g': Ghost)
    requires Inv(s, g) && s.m.w.LinkHead?
    ensures Step(s, Write(StoreHead), s') && Good(s') && WalkMap(s'.m.next, g'.W) && s'.rs == s.rs && s'.m.w == Idle
    ensures s'.m.table == s.m.table && s'.m.linked == s.m.linked + {s.m.w.n} && s'.m.limbo == s.m.limbo
            && s'.m.hash == s.m.hash
    ensures forall i :: 0 <= i < |s.m.table| ==>
              Chain(g'.W, s.m.table[i]) == if i == s.m.w.b then [s.m.w.n] + Chain(g.W, s.m.table[i])
                                           else Chain(g.W, s.m.table[i])
  {
    var m := s.m;
    var m' := Store(m, m.table[m.w.b], To(m.w.n)).(linked := m.linked + {m.w.n}, w := Idle);
    assert WStep(m, StoreHead, m');
    s' := P.NextState(s, StoreHead, m');
    g' := TW.StoreHeadOk(m, g, m');
    GoodStep(s, Write(StoreHead), s');
  }

  // Any node that is neither linked nor waiting for a grace period can be inserted under any hash
  // value, by two actions of the writer, and then is the first of its bucket.
  lemma InsertHappens(s: State, n: Link, h: nat) returns (ss: seq<State>, acts: seq<Action>, s': State)
    requires Good(s) && s.m.w == Idle && n !in s.m.linked && n !in s.m.limbo && n !in s.m.heads
    ensures WriterRun(ss, acts, s, s') && acts == [Write(BeginInsert(n, h)), Write(StoreHead)]
    ensures Good(s') && s'.m.w == Idle && s'.rs == s.rs && s'.m.table == s.m.table
    ensures s'.m.linked == s.m.linked + {n} && s'.m.limbo == s.m.limbo && s'.m.hash == s.m.hash[n := h]
    ensures forall k, c: seq<Link>, d: seq<Link> ::
              0 <= k < |s.m.table| && ChainAt(s.m, s.m.table[k], c) && ChainAt(s'.m, s.m.table[k], d) ==>
                d == if k == BucketOf(h, |s.m.table|) then [n] + c else c
  {
    hide Inv, Step, Good, WalkMap, Chain, ChainAt, WriterRun, BucketOf;
    var g := GhostOf(s);
    StructOf(s, g);
    var s1, g1 := InsertBegins(s, g, n, h);
    var g2;
    s', g2 := InsertStores(s1, g1);
    var rest, more := OneStep(s1, StoreHead, s');
    ss, acts := StepFirst(s, BeginInsert(n, h), s1, rest, more, s');
    InsertLists(s.m, g.W, s'.m, g2.W, s.m.table, n, BucketOf(h, |s.m.table|));
  }

  lemma InsertLists(m: Mem, W: map<Link, seq<Link>>, m': Mem, W': map<Link, seq<Link>>, table: seq<Link>, n: Link,
                    b: nat)
    requires WalkMap(m.next, W) && WalkMap(m'.next, W')
    requires forall k :: 0 <= k < |table| ==>
               Chain(W', table[k]) == if k == b then [n] + Chain(W, table[k]) else Chain(W, table[k])
    ensures forall k, c: seq<Link>, d: seq<Link> ::
              0 <= k < |table| && ChainAt(m, table[k], c) && ChainAt(m', table[k], d) ==>
                d == if k == b then [n] + c else c
  {
    hide WalkMap, Chain, ChainAt;
    forall k, c: seq<Link>, d: seq<Link> | 0 <= k < |table| && ChainAt(m, table[k], c) && ChainAt(m', table[k], d)
      ensures d == if k == b then [n] + c else c
    {
      ChainAtIs(m, W, table[k], c);
      ChainAtIs(m', W', table[k], d);
    }
  }

  // Where a linked node stands in its bucket
  lemma PlaceOf(m: Mem, g: Ghost, d: Link) returns (i: nat)
    requires Struct(m, g) && d in m.linked
    ensures |m.table| > 0 && Class(m.hash, d, |m.table|) < |m.table|
    ensures var c := Chain(g.W, m.table[Class(m.hash, d, |m.table|)]);
            i < |c| && c[i] == d && Seg(m.next, Load(m, m.table[Class(m.hash, d, |m.table|)]), c[..i], To(d))
  {
    assert FindsNode(m, g.W, m.table, d);
    var h := m.table[Class(m.hash, d, |m.table|)];
    assert h in m.heads;
    TW.ChainIsPtrWalk(m, g.W, h);
    i :| 0 <= i < |Chain(g.W, h)| && Chain(g.W, h)[i] == d;
    var q := P.PassTo(m, g.W, Load(m, h), i);
  }

  lemma DetachStores(s: State, g: Ghost, d: Link, i: nat) returns (wa: WAction, s': State, g': Ghost)
    requires Inv(s, g) && s.m.w == Idle && d in s.m.linked
    requires |s.m.table| > 0 && Class(s.m.hash, d, |s.m.table|) < |s.m.table|
    requires var c := Chain(g.W, s.m.table[Class(s.m.hash, d, |s.m.table|)]);
             && i < |c| && c[i] == d
             && Seg(s.m.next, Load(s.m, s.m.table[Class(s.m.hash, d, |s.m.table|)]), c[..i], To(d))
    ensures Step(s, Write(wa), s') && wa.Detach? && wa.d == d && Good(s') && s'.m.w == Idle
    ensures s'.rs == s.rs && s'.m.table == s.m.table && s'.m.hash == s.m.hash && Load(s'.m, d) == Load(s.m, d)
    ensures s'.m.linked == s.m.linked - {d} && s'.m.limbo == s.m.limbo + {d} && WalkMap(s'.m.next, g'.W)
    ensures forall k :: 0 <= k < |s.m.table| ==>
              Chain(g'.W, s.m.table[k])
              == if k == Class(s.m.hash, d, |s.m.table|) then Without(Chain(g.W, s.m.table[k]), i)
                 else Chain(g.W, s.m.table[k])
  {
    var m := s.m;
    var b := Class(m.hash, d, |m.table|);
    var c := Chain(g.W, m.table[b]);
    var pre := c[..i];
    wa := Detach(b, pre, d);
    var last := if pre == [] then m.table[b] else Last(pre);
    var m' := Store(m, last, Load(m, d)).(linked := m.linked - {d}, limbo := m.limbo + {d});
    assert DoDetach(m, b, pre, d, m') && WStep(m, wa, m');
    s' := P.NextState(s, wa, m');
    g' := TW.DetachOk(m, g, b, pre, d, m');
    GoodStep(s, Write(wa), s');
    var rest := PtrWalk(g.W, Load(m, d));
    assert c == pre + [d] + rest && Without(c, i) == pre + rest;
  }

  // Any linked node can be detached by one action, which takes it out of its bucket and changes
  // nothing else; it waits for a grace period from then on.
  lemma DetachHappens(s: State, d: Link) returns (wa: WAction, s': State)
    requires Good(s) && s.m.w == Idle && d in s.m.linked
    ensures Step(s, Write(wa), s') && wa.Detach? && wa.d == d && Good(s') && s'.m.w == Idle
    ensures s'.rs == s.rs && s'.m.table == s.m.table && s'.m.hash == s.m.hash && Load(s'.m, d) == Load(s.m, d)
    ensures s'.m.linked == s.m.linked - {d} && s'.m.limbo == s.m.limbo + {d}
    ensures |s.m.table| > 0
    ensures forall k, c: seq<Link>, e: seq<Link> ::
              0 <= k < |s.m.table| && ChainAt(s.m, s.m.table[k], c) && ChainAt(s'.m, s.m.table[k], e) ==>
                if k == Class(s.m.hash, d, |s.m.table|) then exists j :: 0 <= j < |c| && c[j] == d && e == Without(c, j)
                else e == c
  {
    hide Inv, Struct, Step, Good, WalkMap, Chain, ChainAt, Class, Load, Seg;
    var g := GhostOf(s);
    var m := s.m;
    StructOf(s, g);
    var i := PlaceOf(m, g, d);
    var g';
    wa, s', g' := DetachStores(s, g, d, i);
    DetachLists(m, g.W, s'.m, g'.W, m.table, d, Class(m.hash, d, |m.table|), i);
  }

  lemma DetachLists(m: Mem, W: map<Link, seq<Link>>, m': Mem, W': map<Link, seq<Link>>, table: seq<Link>,
                    d: Link, b: nat, i: nat)
    requires WalkMap(m.next, W) && WalkMap(m'.next, W')
    requires b < |table| && i < |Chain(W, table[b])| && Chain(W, table[b])[i] == d
    requires forall k :: 0 <= k < |table| ==>
               Chain(W', table[k]) == if k == b then Without(Chain(W, table[k]), i) else Chain(W, table[k])
    ensures forall k, c: seq<Link>, e: seq<Link> ::
              0 <= k < |table| && ChainAt(m, table[k], c) && ChainAt(m', table[k], e) ==>
                if k == b then exists j :: 0 <= j < |c| && c[j] == d && e == Without(c, j) else e == c
  {
    hide WalkMap, Chain, ChainAt;
    forall k, c: seq<Link>, e: seq<Link> | 0 <= k < |table| && ChainAt(m, table[k], c) && ChainAt(m', table[k], e)
      ensures if k == b then exists j :: 0 <= j < |c| && c[j] == d && e == Without(c, j) else e == c
    {
      ChainAtIs(m, W, table[k], c);
      ChainAtIs(m', W', table[k], e);
      assert k == b ==> c[i] == d && e == Without(c, i);
    }
  }

  // An idle writer can ask for a grace period at any time.
  lemma SyncBegins(s: State)
    requires Good(s) && s.m.w == Idle
    ensures exists s' :: Step(s, Write(BeginSync), s') && s'.rs == s.rs && s'.gp.waiting == s.gp.inside
  {
    var m' := s.m.(w := Sync(ToIdle));
    assert WStep(s.m, BeginSync, m');
    var g := GhostOf(s);
    var s' := P.NextState(s, BeginSync, m');
  }

  // ----- readers, whatever the writer is doing -----

  lemma EnterHappens(s: State, t: Tid)
    requires Good(s) && t < |s.rs| && s.rs[t] == Out
    ensures exists s' :: Step(s, Enter(t), s') && s'.m == s.m && s'.rs == s.rs[t := In({}, Rest)]
  {
    var g := GhostOf(s);
    assert ReaderOk(s.m, g, s.gp, t, s.rs[t]);
    var s' := State(s.m, s.rs[t := In({}, Rest)], s.gp.(inside := s.gp.inside + {t}));
    assert Step(s, Enter(t), s');
  }

  lemma LeaveHappens(s: State, t: Tid)
    requires Good(s) && t < |s.rs| && s.rs[t].In? && !Looking(s.rs[t])
    ensures exists s' :: Step(s, Leave(t), s') && s'.m == s.m && s'.rs == s.rs[t := Out]
  {
    var g := GhostOf(s);
    assert ReaderOk(s.m, g, s.gp, t, s.rs[t]);
    var s' := State(s.m, s.rs[t := Out], s.gp.(inside := s.gp.inside - {t}, waiting := s.gp.waiting - {t}));
    assert Step(s, Leave(t), s');
  }

  // A reader that is inside can start looking for any hash value with any predicate, on the array
  // that is published at that moment.
  lemma StartFindHappens(s: State, t: Tid, h: nat, want: set<Link>) returns (s': State)
    requires Good(s) && t < |s.rs| && s.rs[t].In? && !Looking(s.rs[t])
    ensures Step(s, Read(t, StartFind(h, want)), s')
    ensures s' == s.(rs := s.rs[t := s.rs[t].(look := HasInfo(h, want, s.m.table))])
  {
    s' := s.(rs := s.rs[t := s.rs[t].(look := HasInfo(h, want, s.m.table))]);
    assert Step(s, Read(t, StartFind(h, want)), s');
  }

  // A run of reader t alone, which nothing but its own state shows
  ghost predicate ReadRun(ss: seq<State>, acts: seq<Action>, s: State, s': State, t: Tid) {
    && Run(ss, acts) && ss[0] == s && ss[|acts|] == s' && t < |s.rs| == |s'.rs|
    && (forall k :: 0 <= k < |acts| ==> acts[k].Read? && acts[k].t == t)
    && s' == s.(rs := s.rs[t := s'.rs[t]])
  }

  lemma ReadFirst(s: State, t: Tid, ra: RAction, s1: State, rest: seq<State>, more: seq<Action>, s': State)
    returns (ss: seq<State>, acts: seq<Action>)
    requires t < |s.rs| == |s1.rs| && Step(s, Read(t, ra), s1) && s1 == s.(rs := s.rs[t := s1.rs[t]])
    requires ReadRun(rest, more, s1, s', t)
    ensures ReadRun(ss, acts, s, s', t) && acts == [Read(t, ra)] + more
  {
    hide Step;
    ss, acts := [s] + rest, [Read(t, ra)] + more;
    forall k {:trigger StepAt(ss, acts, k)} | 0 <= k < |acts| ensures StepAt(ss, acts, k) {
      if k > 0 { assert StepAt(rest, more, k - 1); }
    }
  }

  predicate Accepts(m: Mem, want: set<Link>, h: nat, l: Link) {
    l in want && l in m.hash && m.hash[l] == h
  }

  // The result of a lookup over the nodes of walk
  ghost predicate Answers(m: Mem, look: Look, walk: seq<Link>, want: set<Link>, h: nat) {
    if exists l :: l in walk && Accepts(m, want, h, l)
    then look.Found? && look.n in walk && Accepts(m, want, h, look.n)
    else look == Missed
  }

  lemma {:induction false} Examines(s: State, g: Ghost, t: Tid, h: nat, want: set<Link>, p: Ptr)
    returns (ss: seq<State>, acts: seq<Action>, s': State)
    requires WalkMap(s.m.next, g.W) && t < |s.rs| && s.rs[t].In? && s.rs[t].look == At(h, want, p)
             && Closed(s.m.next, p)
    requires GP.Next(s.gp, GP.Internal, s.gp)
    ensures ReadRun(ss, acts, s, s', t) && s'.rs[t].In? && Answers(s.m, s'.rs[t].look, PtrWalk(g.W, p), want, h)
    decreases |PtrWalk(g.W, p)|
  {
    var r := s.rs[t];
    var r' := match p
              case Null => r.(look := Missed)
              case To(l) => if Accepts(s.m, want, h, l) then In(r.hits + {l}, Found(l))
                            else r.(look := At(h, want, Load(s.m, l)));
    var s1 := s.(rs := s.rs[t := r']);
    assert Step(s, Read(t, Examine), s1);
    assert s1.rs[t] == r';
    if p.To? {
      assert WalkAt(s.m.next, g.W, p.link);
    }
    if r'.look.At? {
      var rest, more;
      rest, more, s' := Examines(s1, g, t, h, want, r'.look.p);
      ss, acts := ReadFirst(s, t, Examine, s1, rest, more, s');
    } else {
      s' := s1;
      ss, acts := [s, s1], [Read(t, Examine)];
      assert StepAt(ss, acts, 0);
    }
  }

  // While nobody else moves, a lookup comes to its end in any phase of the writer, and it finds a
  // node exactly if one that its predicate accepts is linked under its hash value.
  lemma LookupAlone(s: State, t: Tid, h: nat, want: set<Link>) returns (ss: seq<State>, acts: seq<Action>, s': State)
    requires Good(s) && t < |s.rs| && s.rs[t].In? && !Looking(s.rs[t])
    ensures ReadRun(ss, acts, s, s', t) && |acts| > 0 && acts[0] == Read(t, StartFind(h, want)) && s'.rs[t].In?
    ensures if exists l :: l in s.m.linked && Accepts(s.m, want, h, l)
            then s'.rs[t].look.Found? && s'.rs[t].look.n in s.m.linked && Accepts(s.m, want, h, s'.rs[t].look.n)
            else s'.rs[t].look == Missed
  {
    var g := GhostOf(s);
    var i := BucketOf(h, |s.m.table|);
    var s1 := StartFindHappens(s, t, h, want);
    BucketInRange(h, |s.m.table|);
    var head := s.m.table[i];
    assert head in s.m.heads && head in s.m.table;
    TW.ChainIsPtrWalk(s.m, g.W, head);
    var p := Load(s.m, head);
    var s2 := s1.(rs := s1.rs[t := s1.rs[t].(look := At(h, want, p))]);
    assert Step(s1, Read(t, LoadHead), s2);
    var rest, more;
    rest, more, s' := Examines(s2, g, t, h, want, p);
    rest, more := ReadFirst(s1, t, LoadHead, s2, rest, more, s');
    ss, acts := ReadFirst(s, t, StartFind(h, want), s1, rest, more, s');
    HeadServes(s.m, g, h);
  }

  lemma HeadServes(m: Mem, g: Ghost, h: nat)
    requires Base(m, g) && BucketOf(h, |m.table|) < |m.table|
    ensures var c := Chain(g.W, m.table[BucketOf(h, |m.table|)]);
            && (forall l :: l in c ==> l in m.linked)
            && (forall l :: l in m.linked && l in m.hash && m.hash[l] == h ==> l in c)
  {
    var head := m.table[BucketOf(h, |m.table|)];
    assert head in m.table && OnlyLinked(m, Chain(g.W, head));
    forall l | l in m.linked && l in m.hash && m.hash[l] == h ensures l in Chain(g.W, head) {
      assert FindsNode(m, g.W, m.table, l);
    }
  }
}
