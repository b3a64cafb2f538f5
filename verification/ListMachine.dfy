// The doubly linked list under one writer and readers going both ways: one shared store or load
// per step.
module ListMachine {
  import opened Chains
  import opened Walks
  import D = ListDirection

  // What the writer is in the middle of, between its stores. stage counts the stores done.
  datatype Writer =
    | Quiet
    | Adding(p: Link, n: Link, x: Link, stage: nat)   // x goes between p and n
    | Removing(p: Link, n: Link, e: Link)             // p.next is stored, n.prev is not

  datatype State = State(f: D.Direction, b: D.Direction, w: Writer)

  datatype Action =
    | InsertAfter(p: Link, x: Link)    // load p.next, store x.next
    | InsertBefore(n: Link, x: Link)   // load n.prev, store x.next
    | StoreNewPrev                     // store x.prev
    | SplicePrevNext                   // store p.next
    | SpliceNextPrev                   // store n.prev
    | RemoveElem(e: Link)              // load e.prev and e.next, store p.next
    | FinishRemove                     // store n.prev
    | Forward(ev: D.Event)             // a reader's step along next
    | Reverse(ev: D.Event)             // a reader's step along prev

  predicate IsReaderEvent(ev: D.Event) {
    ev.Begin? || ev.Visit? || ev.Finish?
  }

  function Target(q: Ptr): Link {
    if q.To? then q.link else D.HEAD
  }

  // x is no element of the list, and no reader can still be on it.
  ghost predicate Free(s: State, x: Link) {
    && x != D.HEAD && x in s.f.gone && x in s.b.gone && !D.Linked(s.f, x) && !D.Linked(s.b, x)
    && D.Expired(s.f, x) && D.Expired(s.b, x)
  }

  // Whether the writer may start the operation, and the stage it must be in to go on.
  ghost predicate Enabled(s: State, a: Action) {
    match a
    case InsertAfter(p, x) => s.w.Quiet? && Free(s, x) && p in s.f.next && (p == D.HEAD || D.Linked(s.f, p))
    case InsertBefore(n, x) => s.w.Quiet? && Free(s, x) && n in s.b.next && (n == D.HEAD || D.Linked(s.b, n))
    case StoreNewPrev => s.w.Adding? && s.w.stage == 1
    case SplicePrevNext => s.w.Adding? && s.w.stage == 2
    case SpliceNextPrev => s.w.Adding? && s.w.stage == 3
    case RemoveElem(e) => s.w.Quiet? && e in s.f.next && e in s.b.next && D.Linked(s.f, e)
    case FinishRemove => s.w.Removing?
    case Forward(ev) => IsReaderEvent(ev)
    case Reverse(ev) => IsReaderEvent(ev)
  }

  ghost function WriterAfter(s: State, a: Action): Writer
    requires Enabled(s, a)
  {
    match a
    case InsertAfter(p, x) => Adding(p, Target(s.f.next[p]), x, 1)
    case InsertBefore(n, x) => Adding(Target(s.b.next[n]), n, x, 1)
    case StoreNewPrev => s.w.(stage := 2)
    case SplicePrevNext => s.w.(stage := 3)
    case SpliceNextPrev => Quiet
    case RemoveElem(e) => Removing(Target(s.b.next[e]), Target(s.f.next[e]), e)
    case FinishRemove => Quiet
    case _ => s.w
  }

  // What the step does to the next links ...
  ghost function ForwardEvent(s: State, a: Action): D.Event
    requires Enabled(s, a)
  {
    match a
    case InsertAfter(p, x) => D.Prepare(x, D.PointerTo(Target(s.f.next[p])))
    case InsertBefore(n, x) => D.Prepare(x, D.PointerTo(n))
    case SplicePrevNext => D.LinkIn(s.w.p, s.w.x)
    case RemoveElem(e) => D.Unlink(Target(s.b.next[e]), e, D.PointerTo(Target(s.f.next[e])))
    case Forward(ev) => ev
    case _ => D.Nothing
  }

  // ... and to the prev links.
  ghost function ReverseEvent(s: State, a: Action): D.Event
    requires Enabled(s, a)
  {
    match a
    case StoreNewPrev => D.Prepare(s.w.x, D.PointerTo(s.w.p))
    case SpliceNextPrev => D.LinkIn(s.w.n, s.w.x)
    case FinishRemove => D.Unlink(s.w.n, s.w.e, D.PointerTo(s.w.p))
    case Reverse(ev) => ev
    case _ => D.Nothing
  }

  ghost predicate Step(s: State, a: Action, s': State) {
    && Enabled(s, a) && s'.w == WriterAfter(s, a)
    && D.Step(s.f, ForwardEvent(s, a), s'.f) && D.Step(s.b, ReverseEvent(s, a), s'.b)
  }

  // ----- the invariant -----

  // The list before the operation under way: the prev links are always stored last.
  ghost function Before(V: map<Link, seq<Link>>): seq<Link> {
    Reversed(D.List(V))
  }

  // W and V give the walks along next and along prev; i is where the operation takes place.
  ghost predicate Inv(s: State, W: map<Link, seq<Link>>, V: map<Link, seq<Link>>, i: nat) {
    D.Inv(s.f, W) && D.Inv(s.b, V) && s.f.next.Keys == s.b.next.Keys && Stage(s, D.List(W), Before(V), i)
  }

  ghost predicate Stage(s: State, l: seq<Link>, c: seq<Link>, i: nat) {
    match s.w
    case Quiet => l == c
    case Adding(p, n, x, stage) =>
      && i <= |c| && p == D.At(c, i - 1) && n == D.At(c, i) && 1 <= stage <= 3
      && x in s.f.gone && x in s.b.gone && x in s.f.next && x in s.b.next
      && x !in c && D.Expired(s.f, x) && D.Expired(s.b, x)
      && (stage < 3 ==> l == c && s.f.next[x] == D.PointerTo(n))
      && (stage >= 2 ==> s.b.next[x] == D.PointerTo(p))
      && (stage == 3 ==> l == Inserted(c, i, x))
    case Removing(p, n, e) =>
      i < |c| && e == c[i] && p == D.At(c, i - 1) && n == D.At(c, i + 1) && l == Without(c, i)
  }

  // ----- positions -----

  lemma AtInjective(c: seq<Link>, i: nat, j: nat)
    requires Distinct(c) && D.HEAD !in c && i <= |c| && j <= |c| && D.At(c, i - 1) == D.At(c, j - 1)
    ensures i == j
  {
    if i > 0 { assert c[i - 1] in c; }
    if j > 0 { assert c[j - 1] in c; }
  }

  lemma TargetOf(l: Link)
    ensures Target(D.PointerTo(l)) == l && D.PointerTo(l) != To(D.HEAD)
  {
  }

  // Position i seen along prev.
  lemma MirrorAt(b: D.Direction, V: map<Link, seq<Link>>, i: nat)
    requires D.Heap(b, V) && i <= |Before(V)|
    ensures |Before(V)| == |D.List(V)| && D.At(Before(V), i) == D.At(D.List(V), |D.List(V)| - i - 1)
    ensures D.At(Before(V), i) in b.next && b.next[D.At(Before(V), i)] == D.PointerTo(D.At(Before(V), i - 1))
  {
    var m, c := D.List(V), Before(V);
    ReversedMember(m, D.HEAD);
    if i < |c| { ReversedAt(m, i); }
    if i > 0 { ReversedAt(m, i - 1); }
    D.ListAt(b, V, |m| - i);
  }

  lemma BeforeFacts(b: D.Direction, V: map<Link, seq<Link>>)
    requires D.Heap(b, V)
    ensures |Before(V)| == |D.List(V)| && D.HEAD !in Before(V) && Distinct(Before(V))
    ensures forall x :: x in Before(V) <==> x in D.List(V)
  {
    var m, c := D.List(V), Before(V);
    D.ListFacts(b, V);
    ReversedMember(m, D.HEAD);
    forall x ensures x in c <==> x in m { ReversedMember(m, x); }
    forall i, j | 0 <= i < j < |c| ensures c[i] != c[j] {
      ReversedAt(m, i);
      ReversedAt(m, j);
    }
  }

  // ----- the writer's steps -----

  lemma StoreNextOk(s: State, W: map<Link, seq<Link>>, V: map<Link, seq<Link>>, p: Link, n: Link, x: Link, i: nat,
                    s': State)
    requires Inv(s, W, V, 0) && s.w.Quiet? && Free(s, x) && i <= |D.List(W)| && p == D.At(D.List(W), i - 1)
             && n == D.At(D.List(W), i)
    requires D.Step(s.f, D.Prepare(x, D.PointerTo(n)), s'.f) && s'.b == s.b && s'.w == Adding(p, n, x, 1)
    ensures Inv(s', Redirect(W, x, D.PointerTo(n)), V, i)
  {
    D.LinkedIsListed(s.f, W, x);
    D.ListFacts(s.f, W);
    D.PrepareOk(s.f, W, x, D.PointerTo(n), s'.f);
    D.StaysExpired(s.f, W, D.Prepare(x, D.PointerTo(n)), s'.f, x);
  }

  lemma InsertAfterOk(s: State, W: map<Link, seq<Link>>, V: map<Link, seq<Link>>, p: Link, x: Link, s': State)
    returns (i: nat)
    requires Inv(s, W, V, 0) && Step(s, InsertAfter(p, x), s')
    ensures Inv(s', D.WalksAfter(W, ForwardEvent(s, InsertAfter(p, x))), V, i)
  {
    D.LinkedIsListed(s.f, W, p);
    i := D.PositionOf(s.f, W, p);
    D.ListAt(s.f, W, i);
    TargetOf(D.At(D.List(W), i));
    StoreNextOk(s, W, V, p, Target(s.f.next[p]), x, i, s');
  }

  lemma InsertBeforeOk(s: State, W: map<Link, seq<Link>>, V: map<Link, seq<Link>>, n: Link, x: Link, s': State)
    returns (i: nat)
    requires Inv(s, W, V, 0) && Step(s, InsertBefore(n, x), s')
    ensures Inv(s', D.WalksAfter(W, ForwardEvent(s, InsertBefore(n, x))), V, i)
  {
    D.LinkedIsListed(s.b, V, n);
    var j := D.PositionOf(s.b, V, n);
    D.ListAt(s.b, V, j);
    BeforeFacts(s.b, V);
    i := |D.List(V)| - j;
    MirrorAt(s.b, V, i);
    TargetOf(D.At(D.List(W), i - 1));
    StoreNextOk(s, W, V, Target(s.b.next[n]), n, x, i, s');
  }

  lemma StorePrevOk(s: State, W: map<Link, seq<Link>>, V: map<Link, seq<Link>>, i: nat, s': State)
    requires Inv(s, W, V, i) && Step(s, StoreNewPrev, s')
    ensures Inv(s', W, D.WalksAfter(V, ReverseEvent(s, StoreNewPrev)), i)
  {
    var ev := ReverseEvent(s, StoreNewPrev);
    BeforeFacts(s.b, V);
    D.PrepareOk(s.b, V, s.w.x, D.PointerTo(s.w.p), s'.b);
    D.StaysExpired(s.b, V, ev, s'.b, s.w.x);
  }

  lemma SplicedAt(d: D.Direction, W: map<Link, seq<Link>>, p: Link, n: Link, x: Link, i: nat, d': D.Direction)
    requires D.Inv(d, W) && i <= |D.List(W)| && p == D.At(D.List(W), i - 1) && n == D.At(D.List(W), i)
    requires x in d.gone && x !in D.List(W) && D.Expired(d, x) && x in d.next && d.next[x] == D.PointerTo(n)
    requires D.Step(d, D.LinkIn(p, x), d')
    ensures D.Inv(d', Redirect(W, p, To(x))) && D.List(Redirect(W, p, To(x))) == Inserted(D.List(W), i, x)
    ensures D.Expired(d', x) && x in d'.gone && x in d'.next && d'.next.Keys == d.next.Keys
  {
    D.ListFacts(d, W);
    D.ListAt(d, W, i);
    var j := D.LinkInOk(d, W, p, x, d');
    AtInjective(D.List(W), i, j);
    D.StaysExpired(d, W, D.LinkIn(p, x), d', x);
  }

  lemma SplicePrevNextOk(s: State, W: map<Link, seq<Link>>, V: map<Link, seq<Link>>, i: nat, s': State)
    requires Inv(s, W, V, i) && Step(s, SplicePrevNext, s')
    ensures Inv(s', D.WalksAfter(W, ForwardEvent(s, SplicePrevNext)), V, i)
  {
    hide D.Inv, D.Expired, Inserted;
    SplicedAt(s.f, W, s.w.p, s.w.n, s.w.x, i, s'.f);
  }

  // Linking the element in along prev completes the list that next already has.
  lemma SpliceNextPrevOk(s: State, W: map<Link, seq<Link>>, V: map<Link, seq<Link>>, i: nat, s': State)
    requires Inv(s, W, V, i) && Step(s, SpliceNextPrev, s')
    ensures Inv(s', W, D.WalksAfter(V, ReverseEvent(s, SpliceNextPrev)), 0)
  {
    hide D.Inv, D.Expired, D.Exchanged, D.List, Redirect, Reversed, Distinct, WalkMap;
    assert i <= |Before(V)|;
    MirroredSplice(s.b, V, s.w.p, s.w.n, s.w.x, i, s'.b);
  }

  lemma MirroredSplice(b: D.Direction, V: map<Link, seq<Link>>, p: Link, n: Link, x: Link, i: nat, b': D.Direction)
    requires D.Inv(b, V) && i <= |Before(V)| && p == D.At(Before(V), i - 1) && n == D.At(Before(V), i)
    requires x in b.gone && x !in Before(V) && D.Expired(b, x) && x in b.next && b.next[x] == D.PointerTo(p)
    requires D.Step(b, D.LinkIn(n, x), b')
    ensures D.Inv(b', Redirect(V, n, To(x))) && Before(Redirect(V, n, To(x))) == Inserted(Before(V), i, x)
    ensures b'.next.Keys == b.next.Keys
  {
    hide D.ReaderAt, D.AgeAt, D.Exchanged, WalkMap, Redirect, Reversed, Distinct;
    var m := D.List(V);
    BeforeFacts(b, V);
    D.ListFacts(b, V);
    MirrorAt(b, V, i);
    var j := D.LinkInOk(b, V, n, x, b');
    AtInjective(m, |m| - i, j);
    ReversedInserted(m, j, x);
  }

  // Where a linked element stands.
  lemma ElementAt(d: D.Direction, W: map<Link, seq<Link>>, e: Link) returns (i: nat)
    requires D.Heap(d, W) && D.Linked(d, e)
    ensures i < |D.List(W)| && D.List(W)[i] == e && Distinct(D.List(W)) && e in d.next
    ensures var p := D.At(D.List(W), i - 1);
            (p == D.HEAD || p in D.List(W)) && p in d.next && d.next[p] == To(e)
    ensures d.next[e] == D.PointerTo(D.At(D.List(W), i + 1))
  {
    hide D.AgeAt, WalkMap, Redirect;
    var c := D.List(W);
    D.LinkedIsListed(d, W, e);
    D.ListFacts(d, W);
    i :| 0 <= i < |c| && c[i] == e;
    D.ListAt(d, W, i);
    D.ListAt(d, W, i + 1);
  }

  // Where the element to remove stands, seen from both sides.
  lemma RemovePlace(s: State, W: map<Link, seq<Link>>, V: map<Link, seq<Link>>, e: Link) returns (i: nat)
    requires Inv(s, W, V, 0) && Enabled(s, RemoveElem(e))
    ensures i < |D.List(W)| && D.List(W)[i] == e && Distinct(D.List(W)) && D.List(W) == Before(V)
    ensures Target(s.b.next[e]) == D.At(D.List(W), i - 1) && Target(s.f.next[e]) == D.At(D.List(W), i + 1)
    ensures s.f.next[e] == D.PointerTo(Target(s.f.next[e])) && D.Inv(s.f, W) && Target(s.b.next[e]) in s.f.next
    ensures D.Allowed(s.f, W, D.Unlink(Target(s.b.next[e]), e, s.f.next[e]))
  {
    hide D.ReaderAt, D.Heap, D.Linked, D.Expired, Before, Distinct;
    i := ElementAt(s.f, W, e);
    MirrorAt(s.b, V, i);
    TargetOf(D.At(D.List(W), i - 1));
    TargetOf(D.At(D.List(W), i + 1));
  }

  lemma RemoveOk(s: State, W: map<Link, seq<Link>>, V: map<Link, seq<Link>>, e: Link, s': State) returns (i: nat)
    requires Inv(s, W, V, 0) && Step(s, RemoveElem(e), s')
    ensures Inv(s', D.WalksAfter(W, ForwardEvent(s, RemoveElem(e))), V, i)
  {
    hide D.Inv, D.Allowed, D.Exchanged, D.Linked, Redirect, Before, D.Expired;
    i := RemovePlace(s, W, V, e);
    var j := D.UnlinkOk(s.f, W, Target(s.b.next[e]), e, s.f.next[e], s'.f);
  }

  lemma FinishRemoveOk(s: State, W: map<Link, seq<Link>>, V: map<Link, seq<Link>>, i: nat, s': State)
    requires Inv(s, W, V, i) && Step(s, FinishRemove, s')
    ensures Inv(s', W, D.WalksAfter(V, ReverseEvent(s, FinishRemove)), 0)
  {
    hide D.ReaderAt, D.AgeAt, D.Exchanged, WalkMap, Redirect, Reversed, Distinct;
    var m := D.List(V);
    BeforeFacts(s.b, V);
    D.ListFacts(s.b, V);
    MirrorAt(s.b, V, i);
    MirrorAt(s.b, V, i + 1);
    var j := D.UnlinkOk(s.b, V, s.w.n, s.w.e, D.PointerTo(s.w.p), s'.b);
    assert m[|m| - i - 1] == s.w.e;
    ReversedWithout(m, j);
  }

  // ----- every step -----

  lemma ReaderStepOk(s: State, W: map<Link, seq<Link>>, V: map<Link, seq<Link>>, i: nat, a: Action, s': State)
    requires Inv(s, W, V, i) && Step(s, a, s') && (a.Forward? || a.Reverse?)
    ensures Inv(s', W, V, i)
  {
    var d, d' := if a.Forward? then s.f else s.b, if a.Forward? then s'.f else s'.b;
    var U, ev := if a.Forward? then W else V, a.ev;
    D.StepInv(d, U, ev, d');
    if s.w.Adding? {
      D.StaysExpired(d, U, ev, d', s.w.x);
    }
  }

  lemma StepInv(s: State, W: map<Link, seq<Link>>, V: map<Link, seq<Link>>, i: nat, a: Action, s': State)
    returns (i': nat)
    requires Inv(s, W, V, i) && Step(s, a, s')
    ensures Inv(s', D.WalksAfter(W, ForwardEvent(s, a)), D.WalksAfter(V, ReverseEvent(s, a)), i')
  {
    hide D.Inv;
    i' := i;
    if s.w.Quiet? { assert Inv(s, W, V, 0); }
    match a
    case InsertAfter(p, x) => i' := InsertAfterOk(s, W, V, p, x, s');
    case InsertBefore(n, x) => i' := InsertBeforeOk(s, W, V, n, x, s');
    case StoreNewPrev => StorePrevOk(s, W, V, i, s');
    case SplicePrevNext => SplicePrevNextOk(s, W, V, i, s');
    case SpliceNextPrev => i' := 0; SpliceNextPrevOk(s, W, V, i, s');
    case RemoveElem(e) => i' := RemoveOk(s, W, V, e, s');
    case FinishRemove => i' := 0; FinishRemoveOk(s, W, V, i, s');
    case Forward(_) => ReaderStepOk(s, W, V, i, a, s');
    case Reverse(_) => ReaderStepOk(s, W, V, i, a, s');
  }
}
