// What readers of the doubly linked list are promised, over whole runs.
module ListReaders {
  import opened Chains
  import opened Walks
  import opened ListMachine
  import D = ListDirection

  // An empty list, elements not yet linked, no reader.
  ghost predicate InitDirection(d: D.Direction) {
    && D.HEAD in d.next && (forall l :: l in d.next ==> d.next[l] == Null)
    && d.gone.Keys == d.next.Keys - {D.HEAD} && (forall l :: l in d.gone ==> d.gone[l] == 0) && d.clock == 1
    && forall t :: 0 <= t < |d.readers| ==> d.readers[t] == D.Idle
  }

  ghost predicate Init(s: State) {
    InitDirection(s.f) && InitDirection(s.b) && s.f.next.Keys == s.b.next.Keys && s.w == Quiet
  }

  ghost predicate Run(ss: seq<State>, acts: seq<Action>) {
    && |ss| == |acts| + 1 && Init(ss[0])
    && forall k {:trigger StepAt(ss, acts, k)} :: 0 <= k < |acts| ==> StepAt(ss, acts, k)
  }

  // Step k of a run
  ghost predicate StepAt(ss: seq<State>, acts: seq<Action>, k: nat) {
    k < |acts| < |ss| && Step(ss[k], acts[k], ss[k + 1])
  }

  lemma InitDirectionInv(d: D.Direction) returns (W: map<Link, seq<Link>>)
    requires InitDirection(d)
    ensures D.Inv(d, W) && D.List(W) == []
  {
    W := map l | l in d.next :: [l];
    forall l | l in d.next ensures WalkAt(d.next, W, l) {}
    forall l | l in d.gone ensures D.AgeAt(d, W, l) {}
    forall t | 0 <= t < |d.readers| ensures D.ReaderAt(d, W, d.readers[t]) {}
  }

  lemma {:induction false} RunInv(ss: seq<State>, acts: seq<Action>, k: nat)
    returns (W: map<Link, seq<Link>>, V: map<Link, seq<Link>>, i: nat)
    requires Run(ss, acts) && k <= |acts|
    ensures Inv(ss[k], W, V, i)
  {
    if k == 0 {
      W := InitDirectionInv(ss[0].f);
      V := InitDirectionInv(ss[0].b);
      i := 0;
    } else {
      W, V, i := RunInv(ss, acts, k - 1);
      assert StepAt(ss, acts, k - 1);
      var s, a := ss[k - 1], acts[k - 1];
      i := StepInv(s, W, V, i, a, ss[k]);
      W, V := D.WalksAfter(W, ForwardEvent(s, a)), D.WalksAfter(V, ReverseEvent(s, a));
    }
  }

  // Between two operations the prev links run through exactly the reverse of the next links.
  lemma DirectionsAgree(ss: seq<State>, acts: seq<Action>, k: nat, l: seq<Link>, m: seq<Link>)
    requires Run(ss, acts) && k <= |acts| && ss[k].w.Quiet?
    requires D.HEAD in ss[k].f.next && Seg(ss[k].f.next, ss[k].f.next[D.HEAD], l, Null)
    requires D.HEAD in ss[k].b.next && Seg(ss[k].b.next, ss[k].b.next[D.HEAD], m, Null)
    ensures l == Reversed(m) && m == Reversed(l) && Distinct(l)
  {
    var W, V, i := RunInv(ss, acts, k);
    ListIs(ss[k].f, W, l);
    ListIs(ss[k].b, V, m);
    ReversedTwice(m);
    D.ListFacts(ss[k].f, W);
  }

  lemma ListIs(d: D.Direction, W: map<Link, seq<Link>>, l: seq<Link>)
    requires D.Heap(d, W) && Seg(d.next, d.next[D.HEAD], l, Null)
    ensures l == D.List(W)
  {
    D.ListFacts(d, W);
    assert WalkAt(d.next, W, D.HEAD);
    SegWalk(d.next, W, d.next[D.HEAD], l, Null);
  }

  // A reader always has a next step of its own, whatever the writer is doing: the list it begins
  // on exists, and its iterator can always be followed.
  lemma ReaderNeverStuck(ss: seq<State>, acts: seq<Action>, j: nat, forward: bool, t: nat)
    requires Run(ss, acts) && j <= |acts| && t < |Side(ss[j], forward).readers|
    ensures var r := Side(ss[j], forward).readers[t];
            var ev := if r.Idle? then D.Begin(t) else if r.pos.To? then D.Visit(t) else D.Finish(t);
            exists s' :: Step(ss[j], ReaderAction(forward, ev), s')
  {
    hide D.Step, D.Inv, Inv;
    var s := ss[j];
    var W, V, p := RunInv(ss, acts, j);
    assert D.Inv(s.f, W) && D.Inv(s.b, V) by { InvDirections(s, W, V, p); }
    assert forall e: D.Direction :: D.Step(e, D.Nothing, e) by { NothingSteps(); }
    var d := ReaderSteps(Side(s, forward), if forward then W else V, t);
    var s' := if forward then s.(f := d) else s.(b := d);
    var r := Side(s, forward).readers[t];
    var ev := if r.Idle? then D.Begin(t) else if r.pos.To? then D.Visit(t) else D.Finish(t);
    assert Step(s, ReaderAction(forward, ev), s');
  }

  lemma NothingSteps()
    ensures forall e: D.Direction :: D.Step(e, D.Nothing, e)
  {
  }

  lemma InvDirections(s: State, W: map<Link, seq<Link>>, V: map<Link, seq<Link>>, i: nat)
    requires Inv(s, W, V, i)
    ensures D.Inv(s.f, W) && D.Inv(s.b, V)
  {
  }

  lemma ReaderSteps(d: D.Direction, W: map<Link, seq<Link>>, t: nat) returns (d': D.Direction)
    requires D.Inv(d, W) && t < |d.readers|
    ensures var r := d.readers[t];
            D.Step(d, if r.Idle? then D.Begin(t) else if r.pos.To? then D.Visit(t) else D.Finish(t), d')
  {
    var r := d.readers[t];
    assert D.ReaderAt(d, W, r);
    if r.Idle? {
      D.ListFacts(d, W);
      var c := D.List(W);
      assert WalkAt(d.next, W, D.HEAD);
      var q := WalkSeg(d.next, W, d.next[D.HEAD], |c|);
      EmptyWalk(d.next, W, q);
      assert c[..|c|] == c;
      d' := d.(readers := d.readers[t := D.Reading(d.next[D.HEAD], [], d.clock, c, SetOf(c))]);
    } else if r.pos.To? {
      var l := r.pos.link;
      d' := d.(readers := d.readers[t := r.(visited := r.visited + [l], pos := d.next[l])]);
    } else {
      d' := d.(readers := d.readers[t := D.Idle]);
    }
  }

  // ----- a traversal -----

  function Side(s: State, forward: bool): D.Direction {
    if forward then s.f else s.b
  }

  function ReaderAction(forward: bool, ev: D.Event): Action {
    if forward then Forward(ev) else Reverse(ev)
  }

  // Reader t begins in state i, has not left by state j, and all of k is linked all the while.
  ghost predicate Traversal(ss: seq<State>, acts: seq<Action>, forward: bool, t: nat, i: nat, j: nat, k: set<Link>) {
    && Run(ss, acts) && i < j <= |acts| && acts[i] == ReaderAction(forward, D.Begin(t))
    && (forall n :: i < n < j ==> acts[n] != ReaderAction(forward, D.Finish(t)))
    && (forall n, x :: i <= n <= j && x in k ==> D.Linked(Side(ss[n], forward), x))
  }

  // A step of one direction changes a reader's bookkeeping only by taking an unlinked element out.
  lemma ReaderKept(d: D.Direction, ev: D.Event, d': D.Direction, t: nat)
    requires D.Step(d, ev, d') && t < |d.readers| && d.readers[t].Reading? && ev != D.Finish(t)
    ensures t < |d'.readers| && d'.readers[t].Reading? && d'.readers[t].base == d.readers[t].base
    ensures d'.readers[t].stable == if ev.Unlink? then d.readers[t].stable - {ev.e} else d.readers[t].stable
  {
  }

  // What the writer unlinks is linked no longer.
  lemma UnlinkedIsGone(s: State, W: map<Link, seq<Link>>, V: map<Link, seq<Link>>, i: nat, a: Action, s': State,
                       forward: bool)
    requires Inv(s, W, V, i) && Step(s, a, s')
    requires (if forward then ForwardEvent(s, a) else ReverseEvent(s, a)).Unlink?
    ensures !D.Linked(Side(s', forward), (if forward then ForwardEvent(s, a) else ReverseEvent(s, a)).e)
  {
    hide D.Inv, D.Step, D.Heap;
    var i' := StepInv(s, W, V, i, a, s');
    var W', V' := D.WalksAfter(W, ForwardEvent(s, a)), D.WalksAfter(V, ReverseEvent(s, a));
    var ev, U' := if forward then ForwardEvent(s, a) else ReverseEvent(s, a), if forward then W' else V';
    InvHeaps(s', W', V', i');
    D.LinkedIsListed(Side(s', forward), U', ev.e);
    UnlinkedNotListed(s, W, V, i, a, s', i');
  }

  lemma InvHeaps(s: State, W: map<Link, seq<Link>>, V: map<Link, seq<Link>>, i: nat)
    requires Inv(s, W, V, i)
    ensures D.Heap(s.f, W) && D.Heap(s.b, V)
  {
  }

  lemma UnlinkedNotListed(s: State, W: map<Link, seq<Link>>, V: map<Link, seq<Link>>, i: nat, a: Action, s': State,
                          i': nat)
    requires Inv(s, W, V, i) && Step(s, a, s')
             && Inv(s', D.WalksAfter(W, ForwardEvent(s, a)), D.WalksAfter(V, ReverseEvent(s, a)), i')
    ensures ForwardEvent(s, a).Unlink? ==> ForwardEvent(s, a).e !in D.List(D.WalksAfter(W, ForwardEvent(s, a)))
    ensures ReverseEvent(s, a).Unlink? ==> ReverseEvent(s, a).e !in D.List(D.WalksAfter(V, ReverseEvent(s, a)))
  {
    hide D.ReaderAt, D.AgeAt, D.Linked, D.Expired, D.List, Before, Reversed, Distinct, WalkMap, Redirect;
    BeforeFacts(s.b, V);
    if a.RemoveElem? {
      WithoutMember(Before(V), i', a.e);
    }
    if a.FinishRemove? {
      WithoutMember(Before(V), i, s.w.e);
      BeforeFacts(s'.b, D.WalksAfter(V, ReverseEvent(s, a)));
    }
  }

  // What the traversal's reader carries along.
  ghost predicate Carries(d: D.Direction, t: nat, base: seq<Link>, k: set<Link>) {
    t < |d.readers| && d.readers[t].Reading? && d.readers[t].base == base && k <= d.readers[t].stable
  }

  lemma BeginCarries(s: State, W: map<Link, seq<Link>>, V: map<Link, seq<Link>>, p: nat, forward: bool, t: nat,
                     s': State, k: set<Link>)
    returns (base: seq<Link>)
    requires Inv(s, W, V, p) && Step(s, ReaderAction(forward, D.Begin(t)), s')
    requires forall x :: x in k ==> D.Linked(Side(s, forward), x)
    ensures Carries(Side(s', forward), t, base, k)
    ensures D.HEAD in Side(s, forward).next && Seg(Side(s, forward).next, Side(s, forward).next[D.HEAD], base, Null)
  {
    var d, d', U := Side(s, forward), Side(s', forward), if forward then W else V;
    D.BeginOk(d, U, t, d');
    base := D.List(U);
    forall x | x in k ensures x in base { D.LinkedIsListed(d, U, x); }
  }

  lemma StepCarries(s: State, W: map<Link, seq<Link>>, V: map<Link, seq<Link>>, p: nat, a: Action, s': State,
                    forward: bool, t: nat, base: seq<Link>, k: set<Link>)
    requires Inv(s, W, V, p) && Step(s, a, s') && a != ReaderAction(forward, D.Finish(t))
    requires Carries(Side(s, forward), t, base, k) && forall x :: x in k ==> D.Linked(Side(s', forward), x)
    ensures Carries(Side(s', forward), t, base, k)
  {
    hide Inv, D.Step, D.Linked;
    var ev := if forward then ForwardEvent(s, a) else ReverseEvent(s, a);
    ReaderKept(Side(s, forward), ev, Side(s', forward), t);
    if ev.Unlink? {
      UnlinkedIsGone(s, W, V, p, a, s', forward);
    }
  }

  lemma {:induction false} StableThroughout(ss: seq<State>, acts: seq<Action>, forward: bool, t: nat, i: nat, j: nat,
                                            k: set<Link>)
    returns (base: seq<Link>)
    requires Traversal(ss, acts, forward, t, i, j, k)
    ensures Carries(Side(ss[j], forward), t, base, k)
    ensures D.HEAD in Side(ss[i], forward).next
            && Seg(Side(ss[i], forward).next, Side(ss[i], forward).next[D.HEAD], base, Null)
    decreases j
  {
    hide Inv, Step, D.Linked, Carries;
    var s, a, s' := ss[j - 1], acts[j - 1], ss[j];
    assert StepAt(ss, acts, j - 1);
    var W, V, p := RunInv(ss, acts, j - 1);
    if j == i + 1 {
      base := BeginCarries(s, W, V, p, forward, t, s', k);
    } else {
      base := StableThroughout(ss, acts, forward, t, i, j - 1, k);
      StepCarries(s, W, V, p, a, s', forward, t, base, k);
    }
  }

  // The promise: a reader that has come to the end has met every element that was linked all the
  // while exactly once, and those in the order of the list it began on. This covers readers parked
  // on removed elements, and steps between the writer's two stores.
  lemma TraversalMeetsAll(ss: seq<State>, acts: seq<Action>, forward: bool, t: nat, i: nat, j: nat, k: set<Link>)
    returns (base: seq<Link>, visited: seq<Link>)
    requires Traversal(ss, acts, forward, t, i, j, k)
    requires t < |Side(ss[j], forward).readers| && Side(ss[j], forward).readers[t].Reading?
    requires Side(ss[j], forward).readers[t].pos == Null
    ensures visited == Side(ss[j], forward).readers[t].visited
    ensures D.HEAD in Side(ss[i], forward).next
            && Seg(Side(ss[i], forward).next, Side(ss[i], forward).next[D.HEAD], base, Null)
    ensures D.Only(visited, k) == D.Only(base, k)
    ensures forall x :: x in k ==> multiset(visited)[x] == 1
  {
    base := StableThroughout(ss, acts, forward, t, i, j, k);
    var W, V, p := RunInv(ss, acts, j);
    var d, U := Side(ss[j], forward), if forward then W else V;
    visited := d.readers[t].visited;
    AtTheEnd(d, U, d.readers[t], k);
  }

  lemma AtTheEnd(d: D.Direction, W: map<Link, seq<Link>>, r: D.Reader, k: set<Link>)
    requires D.Heap(d, W) && r.Reading? && D.ReaderAt(d, W, r) && r.pos == Null && k <= r.stable
    ensures D.Only(r.visited, k) == D.Only(r.base, k)
    ensures forall x :: x in k ==> multiset(r.visited)[x] == 1
  {
    var l := D.List(W);
    assert r.visited + [] == r.visited;
    D.OnlyShrinks(r.visited, l, r.stable, k);
    D.OnlyShrinks(r.base, l, r.stable, k);
    D.ListFacts(d, W);
    forall x | x in k ensures multiset(r.visited)[x] == 1 {
      D.OnlyCounts(r.visited, k, x);
      D.OnlyCounts(l, k, x);
      DistinctCounts(l, x);
    }
  }

  lemma DistinctCounts(s: seq<Link>, x: Link)
    requires Distinct(s) && x in s
    ensures multiset(s)[x] == 1
  {
    var i :| 0 <= i < |s| && s[i] == x;
    assert s == s[..i] + [x] + s[i + 1..];
    assert x !in s[..i] && x !in s[i + 1..];
  }

  // Nothing a reader still has ahead was unlinked before the reader began.
  lemma AheadIsRecent(ss: seq<State>, acts: seq<Action>, forward: bool, j: nat, t: nat, x: Link)
    requires Run(ss, acts) && j <= |acts| && t < |Side(ss[j], forward).readers|
             && Side(ss[j], forward).readers[t].Reading?
    requires Reaches(Side(ss[j], forward).next, Side(ss[j], forward).readers[t].pos, x)
    ensures D.Linked(Side(ss[j], forward), x)
            || (x in Side(ss[j], forward).gone && Side(ss[j], forward).gone[x] >= Side(ss[j], forward).readers[t].start)
  {
    var W, V, p := RunInv(ss, acts, j);
    var d, U := Side(ss[j], forward), if forward then W else V;
    assert D.ReaderAt(d, U, d.readers[t]);
    ReachesIsWalk(d.next, U, d.readers[t].pos, x);
    D.LinkedIsListed(d, U, x);
  }
}
