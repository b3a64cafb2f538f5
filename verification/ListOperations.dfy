// What can happen to the doubly linked list: the writer can always make its next store, and every
// operation can begin, whoever is reading, and ends with the list it is for.
module ListOperations {
  import opened Chains
  import opened Walks
  import opened ListMachine
  import opened ListReaders
  import D = ListDirection

  // A list can start out with any elements at hand and any numbers of readers.
  lemma InitExists(elements: set<Link>, forward: nat, reverse: nat)
    requires D.HEAD !in elements
    ensures exists s :: Init(s) && s.f.next.Keys == elements + {D.HEAD}
                        && |s.f.readers| == forward && |s.b.readers| == reverse
  {
    var next := map l | l in elements + {D.HEAD} :: Null;
    var gone: map<Link, nat> := map l | l in elements :: 0;
    var f := D.Direction(next, gone, 1, seq(forward, (i: nat) => D.Idle));
    var b := D.Direction(next, gone, 1, seq(reverse, (i: nat) => D.Idle));
    assert Init(State(f, b, Quiet));
  }

  // ----- the writer's stores -----

  predicate IsStore(ev: D.Event) {
    ev.Nothing? || ev.Prepare? || ev.LinkIn? || ev.Unlink?
  }

  lemma Stored(d: D.Direction, ev: D.Event) returns (d': D.Direction)
    requires IsStore(ev)
    ensures D.Step(d, ev, d')
  {
    match ev
    case Nothing => d' := d;
    case Prepare(x, q) => d' := d.(next := d.next[x := q]);
    case LinkIn(p, x) => d' := d.(next := d.next[p := To(x)]);
    case Unlink(p, e, q) =>
      var readers := seq(|d.readers|, (t: nat) requires t < |d.readers| => D.Restrict(d.readers[t], e));
      d' := d.(next := d.next[p := q], gone := d.gone[e := d.clock], clock := d.clock + 1, readers := readers);
  }

  predicate IsWriters(a: Action) {
    !a.Forward? && !a.Reverse?
  }

  lemma WriterStep(s: State, a: Action) returns (s': State)
    requires IsWriters(a) && Enabled(s, a)
    ensures Step(s, a, s')
  {
    var f := Stored(s.f, ForwardEvent(s, a));
    var b := Stored(s.b, ReverseEvent(s, a));
    s' := State(f, b, WriterAfter(s, a));
  }

  // The store that an operation under way makes next
  function NextStore(w: Writer): Action
    requires !w.Quiet?
  {
    match w
    case Adding(_, _, _, stage) =>
      if stage == 1 then StoreNewPrev else if stage == 2 then SplicePrevNext else SpliceNextPrev
    case Removing(_, _, _) => FinishRemove
  }

  function StoresLeft(w: Writer): nat {
    match w
    case Quiet => 0
    case Adding(_, _, _, stage) => if stage <= 3 then 4 - stage else 0
    case Removing(_, _, _) => 1
  }

  // What the operation under way is going to make of the list c
  ghost predicate Completes(w: Writer, c: seq<Link>, d: seq<Link>) {
    match w
    case Quiet => d == c
    case Adding(p, n, x, _) =>
      exists i :: 0 <= i <= |c| && p == D.At(c, i - 1) && n == D.At(c, i) && d == Inserted(c, i, x)
    case Removing(p, n, e) => exists i :: 0 <= i < |c| && c[i] == e && d == Without(c, i)
  }

  ghost predicate Steps(ss: seq<State>, acts: seq<Action>, s: State, s': State) {
    && |ss| == |acts| + 1 && ss[0] == s && ss[|acts|] == s'
    && (forall k {:trigger StepAt(ss, acts, k)} :: 0 <= k < |acts| ==> StepAt(ss, acts, k))
    && forall k :: 0 <= k < |acts| ==> IsWriters(acts[k])
  }

  lemma StepFirst(s: State, a: Action, s1: State, rest: seq<State>, more: seq<Action>, s': State)
    returns (ss: seq<State>, acts: seq<Action>)
    requires Step(s, a, s1) && IsWriters(a) && Steps(rest, more, s1, s')
    ensures Steps(ss, acts, s, s') && acts == [a] + more
  {
    hide Step;
    ss, acts := [s] + rest, [a] + more;
    forall k {:trigger StepAt(ss, acts, k)} | 0 <= k < |acts| ensures StepAt(ss, acts, k) {
      if k > 0 { assert StepAt(rest, more, k - 1); }
    }
  }

  // One store brings the end nearer and does not change what the operation will make of the list.
  lemma StoreKeepsAim(s: State, W: map<Link, seq<Link>>, V: map<Link, seq<Link>>, i: nat, s': State,
                      W': map<Link, seq<Link>>, V': map<Link, seq<Link>>, i': nat, d: seq<Link>)
    requires Inv(s, W, V, i) && !s.w.Quiet? && Step(s, NextStore(s.w), s') && Inv(s', W', V', i')
    requires W' == D.WalksAfter(W, ForwardEvent(s, NextStore(s.w)))
             && V' == D.WalksAfter(V, ReverseEvent(s, NextStore(s.w)))
    requires Completes(s'.w, Before(V'), d)
    ensures StoresLeft(s'.w) < StoresLeft(s.w) && Completes(s.w, Before(V), d)
  {
    hide D.Inv, D.Step, D.Expired, Reversed, Redirect;
    if s.w.Adding? && s.w.stage == 1 {
      PrepareKeeps(s.b, V, s.w.x, D.PointerTo(s.w.p), s'.b);
    }
  }

  lemma PrepareKeeps(b: D.Direction, V: map<Link, seq<Link>>, x: Link, q: Ptr, b': D.Direction)
    requires D.Inv(b, V) && x in b.gone && x !in Before(V) && D.Expired(b, x) && (q.To? ==> q.link in Before(V))
    requires D.Step(b, D.Prepare(x, q), b')
    ensures Before(Redirect(V, x, q)) == Before(V)
  {
    BeforeFacts(b, V);
    D.PrepareOk(b, V, x, q, b');
  }

  lemma NextIsEnabled(s: State, W: map<Link, seq<Link>>, V: map<Link, seq<Link>>, i: nat)
    requires Inv(s, W, V, i) && !s.w.Quiet?
    ensures Enabled(s, NextStore(s.w)) && IsWriters(NextStore(s.w))
  {
  }

  // From any point of an operation the writer's stores alone lead to the quiet state, with the list
  // that the operation is for.
  lemma {:induction false} OperationEnds(s: State, W: map<Link, seq<Link>>, V: map<Link, seq<Link>>, i: nat)
    returns (ss: seq<State>, acts: seq<Action>, s': State, W': map<Link, seq<Link>>, V': map<Link, seq<Link>>)
    requires Inv(s, W, V, i)
    ensures Steps(ss, acts, s, s') && s'.w.Quiet? && Inv(s', W', V', 0) && |acts| <= 3
    ensures |acts| == StoresLeft(s.w) && Completes(s.w, Before(V), D.List(W'))
    decreases StoresLeft(s.w)
  {
    if s.w.Quiet? {
      ss, acts, s', W', V' := [s], [], s, W, V;
    } else {
      NextIsEnabled(s, W, V, i);
      var a := NextStore(s.w);
      var s1 := WriterStep(s, a);
      var i1 := StepInv(s, W, V, i, a, s1);
      var W1, V1 := D.WalksAfter(W, ForwardEvent(s, a)), D.WalksAfter(V, ReverseEvent(s, a));
      StoresFall(s, s1);
      hide Inv, Step, Enabled, Completes, Steps;
      var rest, more;
      rest, more, s', W', V' := OperationEnds(s1, W1, V1, i1);
      ss, acts := StepFirst(s, a, s1, rest, more, s');
      StoreKeepsAim(s, W, V, i, s1, W1, V1, i1, D.List(W'));
    }
  }

  lemma StoresFall(s: State, s': State)
    requires !s.w.Quiet? && Step(s, NextStore(s.w), s') && (s.w.Adding? ==> 1 <= s.w.stage <= 3)
    ensures StoresLeft(s'.w) == StoresLeft(s.w) - 1
  {
  }

  // The writer is never stuck and never waits for a reader: from every reachable state at most
  // three stores of its own end the operation under way, if there is one.
  lemma OperationFinishes(ss: seq<State>, acts: seq<Action>, k: nat)
    returns (us: seq<State>, bs: seq<Action>, s': State, l: seq<Link>)
    requires Run(ss, acts) && k <= |acts|
    ensures Steps(us, bs, ss[k], s') && s'.w.Quiet? && Holds(s', l)
    ensures |bs| <= 3 && (bs == [] <==> ss[k].w.Quiet?)
  {
    var W, V, i := RunInv(ss, acts, k);
    var W', V';
    us, bs, s', W', V' := OperationEnds(ss[k], W, V, i);
    l := QuietHolds(s', W', V');
    StageInRange(ss[k], W, V, i);
  }

  lemma StageInRange(s: State, W: map<Link, seq<Link>>, V: map<Link, seq<Link>>, i: nat)
    requires Inv(s, W, V, i)
    ensures s.w.Adding? ==> 1 <= s.w.stage <= 3
  {
  }

  // ----- operations from the quiet state -----

  // Along next the list is l, and along prev it is l backwards.
  ghost predicate Holds(s: State, l: seq<Link>) {
    && D.HEAD in s.f.next && Seg(s.f.next, s.f.next[D.HEAD], l, Null)
    && D.HEAD in s.b.next && Seg(s.b.next, s.b.next[D.HEAD], Reversed(l), Null)
  }

  lemma ListRuns(d: D.Direction, W: map<Link, seq<Link>>)
    requires D.Heap(d, W)
    ensures D.HEAD in d.next && Seg(d.next, d.next[D.HEAD], D.List(W), Null)
  {
    D.ListFacts(d, W);
    var c := D.List(W);
    assert WalkAt(d.next, W, D.HEAD);
    var q := WalkSeg(d.next, W, d.next[D.HEAD], |c|);
    EmptyWalk(d.next, W, q);
    assert c[..|c|] == c;
  }

  lemma QuietHolds(s: State, W: map<Link, seq<Link>>, V: map<Link, seq<Link>>) returns (l: seq<Link>)
    requires Inv(s, W, V, 0) && s.w.Quiet?
    ensures Holds(s, l) && l == D.List(W) == Before(V)
  {
    l := D.List(W);
    ListRuns(s.f, W);
    ListRuns(s.b, V);
    ReversedTwice(D.List(V));
  }

  lemma HeldIsList(s: State, W: map<Link, seq<Link>>, V: map<Link, seq<Link>>, c: seq<Link>)
    requires Inv(s, W, V, 0) && s.w.Quiet? && Holds(s, c)
    ensures c == D.List(W) == Before(V)
    ensures forall x :: (D.Linked(s.f, x) <==> x in c) && (D.Linked(s.b, x) <==> x in c)
    ensures forall x :: x in c || x == D.HEAD ==> x in s.f.next && x in s.b.next
  {
    ListIs(s.f, W, c);
    D.ListFacts(s.f, W);
    BeforeFacts(s.b, V);
    forall x ensures (D.Linked(s.f, x) <==> x in c) && (D.Linked(s.b, x) <==> x in c) {
      D.LinkedIsListed(s.f, W, x);
      D.LinkedIsListed(s.b, V, x);
    }
  }

  // An operation that may begin runs to its end, in the stores it consists of.
  lemma Performs(s: State, W: map<Link, seq<Link>>, V: map<Link, seq<Link>>, a: Action)
    returns (us: seq<State>, bs: seq<Action>, s': State, l: seq<Link>)
    requires Inv(s, W, V, 0) && s.w.Quiet? && Enabled(s, a) && (a.InsertAfter? || a.InsertBefore? || a.RemoveElem?)
    ensures Steps(us, bs, s, s') && s'.w.Quiet? && Holds(s', l)
    ensures |bs| == (if a.RemoveElem? then 2 else 4) && bs[0] == a
    ensures Completes(WriterAfter(s, a), Before(V), l)
  {
    hide Inv, Step, Completes, Steps, Holds, D.Linked, Free;
    var s1 := WriterStep(s, a);
    var i := StepInv(s, W, V, 0, a, s1);
    BeginsOperation(s, a, s1);
    var rest, more, W', V';
    rest, more, s', W', V' := OperationEnds(s1, D.WalksAfter(W, ForwardEvent(s, a)), V, i);
    us, bs := StepFirst(s, a, s1, rest, more, s');
    l := QuietHolds(s', W', V');
  }

  lemma BeginsOperation(s: State, a: Action, s1: State)
    requires Step(s, a, s1) && (a.InsertAfter? || a.InsertBefore? || a.RemoveElem?)
    ensures s1.w == WriterAfter(s, a) && StoresLeft(s1.w) == (if a.RemoveElem? then 1 else 3)
    ensures forall V: map<Link, seq<Link>> :: D.WalksAfter(V, ReverseEvent(s, a)) == V
  {
  }

  // The position that an insertion is completed at
  lemma InsertedAt(w: Writer, c: seq<Link>, l: seq<Link>) returns (i: nat)
    requires w.Adding? && Completes(w, c, l)
    ensures i <= |c| && w.p == (if i == 0 then D.HEAD else c[i - 1]) && w.n == (if i == |c| then D.HEAD else c[i])
    ensures l == c[..i] + [w.x] + c[i..]
  {
    i :| i <= |c| && w.p == D.At(c, i - 1) && w.n == D.At(c, i) && l == Inserted(c, i, w.x);
  }

  lemma CanInsert(s: State, c: seq<Link>, x: Link)
    requires x != D.HEAD && x in s.f.gone && x in s.b.gone && x !in c
    requires !D.Linked(s.f, x) && !D.Linked(s.b, x)
    requires forall r :: r in s.f.readers && r.Reading? ==> s.f.gone[x] < r.start
    requires forall r :: r in s.b.readers && r.Reading? ==> s.b.gone[x] < r.start
    ensures Free(s, x)
  {
    hide D.Linked;
  }

  // Any element that is not in the list, and that no reader under way can still be on, can be
  // inserted behind the head or behind any element, whatever the readers of the others are doing.
  lemma InsertAfterHappens(ss: seq<State>, acts: seq<Action>, k: nat, c: seq<Link>, p: Link, x: Link)
    returns (us: seq<State>, bs: seq<Action>, s': State, i: nat)
    requires Run(ss, acts) && k <= |acts| && ss[k].w.Quiet? && Holds(ss[k], c)
    requires x != D.HEAD && x in ss[k].f.gone && x in ss[k].b.gone && x !in c && (p == D.HEAD || p in c)
    requires forall r :: r in ss[k].f.readers && r.Reading? ==> ss[k].f.gone[x] < r.start
    requires forall r :: r in ss[k].b.readers && r.Reading? ==> ss[k].b.gone[x] < r.start
    ensures Steps(us, bs, ss[k], s') && s'.w.Quiet? && |bs| == 4 && bs[0] == InsertAfter(p, x)
    ensures i <= |c| && p == (if i == 0 then D.HEAD else c[i - 1]) && Holds(s', c[..i] + [x] + c[i..])
  {
    var W, V, j := RunInv(ss, acts, k);
    HeldIsList(ss[k], W, V, c);
    CanInsert(ss[k], c, x);
    hide Inv, Free, Holds, Completes, Steps, D.Linked;
    var l;
    us, bs, s', l := Performs(ss[k], W, V, InsertAfter(p, x));
    i := InsertedAt(WriterAfter(ss[k], InsertAfter(p, x)), c, l);
  }

  // In front of the head or of any element
  lemma InsertBeforeHappens(ss: seq<State>, acts: seq<Action>, k: nat, c: seq<Link>, n: Link, x: Link)
    returns (us: seq<State>, bs: seq<Action>, s': State, i: nat)
    requires Run(ss, acts) && k <= |acts| && ss[k].w.Quiet? && Holds(ss[k], c)
    requires x != D.HEAD && x in ss[k].f.gone && x in ss[k].b.gone && x !in c && (n == D.HEAD || n in c)
    requires forall r :: r in ss[k].f.readers && r.Reading? ==> ss[k].f.gone[x] < r.start
    requires forall r :: r in ss[k].b.readers && r.Reading? ==> ss[k].b.gone[x] < r.start
    ensures Steps(us, bs, ss[k], s') && s'.w.Quiet? && |bs| == 4 && bs[0] == InsertBefore(n, x)
    ensures i <= |c| && n == (if i == |c| then D.HEAD else c[i]) && Holds(s', c[..i] + [x] + c[i..])
  {
    var W, V, j := RunInv(ss, acts, k);
    HeldIsList(ss[k], W, V, c);
    CanInsert(ss[k], c, x);
    hide Inv, Free, Holds, Completes, Steps, D.Linked;
    var l;
    us, bs, s', l := Performs(ss[k], W, V, InsertBefore(n, x));
    i := InsertedAt(WriterAfter(ss[k], InsertBefore(n, x)), c, l);
  }

  // Any element of the list can be removed, whoever is reading it.
  lemma RemoveHappens(ss: seq<State>, acts: seq<Action>, k: nat, c: seq<Link>, e: Link)
    returns (us: seq<State>, bs: seq<Action>, s': State, i: nat)
    requires Run(ss, acts) && k <= |acts| && ss[k].w.Quiet? && Holds(ss[k], c) && e in c
    ensures Steps(us, bs, ss[k], s') && s'.w.Quiet? && |bs| == 2 && bs[0] == RemoveElem(e)
    ensures i < |c| && c[i] == e && Holds(s', c[..i] + c[i + 1..])
  {
    var W, V, j := RunInv(ss, acts, k);
    HeldIsList(ss[k], W, V, c);
    var l;
    us, bs, s', l := Performs(ss[k], W, V, RemoveElem(e));
    i :| i < |c| && c[i] == e && l == Without(c, i);
  }
}
