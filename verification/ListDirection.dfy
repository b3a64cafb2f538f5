// One direction of the concurrent doubly linked list: the links a reader going that way follows,
// what the writer's stores do to them, and the readers under way.
module ListDirection {
  import opened Chains
  import opened Walks

  // The list head. A pointer back to it ends a traversal and is written Null.
  const HEAD: Link := 0

  function PointerTo(l: Link): Ptr {
    if l == HEAD then Null else To(l)
  }

  // pos and visited are a reader's iterator and what it has met; the rest is bookkeeping: when it
  // began, the list it began on, and the elements that have been linked ever since.
  datatype Reader = Idle | Reading(pos: Ptr, visited: seq<Link>, start: nat, base: seq<Link>, stable: set<Link>)

  // gone[l] is the time at which l was last unlinked in this direction.
  datatype Direction = Direction(next: map<Link, Ptr>, gone: map<Link, nat>, clock: nat, readers: seq<Reader>)

  datatype Event =
    | Nothing
    | Prepare(x: Link, q: Ptr)            // x.next := q, x not linked
    | LinkIn(p: Link, x: Link)            // p.next := x
    | Unlink(p: Link, e: Link, q: Ptr)    // p.next := q, the successor of e
    | Begin(t: nat)                       // load head.next
    | Visit(t: nat)                       // use the element, load its next
    | Finish(t: nat)                      // leave the loop

  ghost predicate Linked(d: Direction, l: Link) {
    HEAD in d.next && Reaches(d.next, d.next[HEAD], l)
  }

  // Every reader that could still be on x has finished.
  predicate Expired(d: Direction, x: Link) {
    x in d.gone && forall t :: 0 <= t < |d.readers| && d.readers[t].Reading? ==> d.gone[x] < d.readers[t].start
  }

  function Restrict(r: Reader, e: Link): Reader {
    if r.Reading? then r.(stable := r.stable - {e}) else r
  }

  ghost predicate Step(d: Direction, ev: Event, d': Direction) {
    match ev
    case Nothing => d' == d
    case Prepare(x, q) => d' == d.(next := d.next[x := q])
    case LinkIn(p, x) => d' == d.(next := d.next[p := To(x)])
    case Unlink(p, e, q) =>
      d' == d.(next := d.next[p := q], gone := d.gone[e := d.clock], clock := d.clock + 1,
               readers := seq(|d.readers|, t requires 0 <= t < |d.readers| => Restrict(d.readers[t], e)))
    case Begin(t) =>
      && t < |d.readers| && d.readers[t].Idle? && HEAD in d.next
      && exists c :: Seg(d.next, d.next[HEAD], c, Null)
                     && d' == d.(readers := d.readers[t := Reading(d.next[HEAD], [], d.clock, c, SetOf(c))])
    case Visit(t) =>
      && t < |d.readers| && d.readers[t].Reading? && d.readers[t].pos.To? && d.readers[t].pos.link in d.next
      && var l := d.readers[t].pos.link;
      && d' == d.(readers := d.readers[t := d.readers[t].(visited := d.readers[t].visited + [l], pos := d.next[l])])
    case Finish(t) =>
      t < |d.readers| && d' == d.(readers := d.readers[t := Idle])
  }

  // ----- filtering by a set -----

  ghost function Only(s: seq<Link>, k: set<Link>): seq<Link> {
    if s == [] then [] else (if s[0] in k then [s[0]] else []) + Only(s[1..], k)
  }

  lemma {:induction false} OnlyConcat(a: seq<Link>, b: seq<Link>, k: set<Link>)
    ensures Only(a + b, k) == Only(a, k) + Only(b, k)
  {
    if a == [] {
      assert a + b == b;
    } else {
      assert (a + b)[1..] == a[1..] + b;
      OnlyConcat(a[1..], b, k);
      var own := if a[0] in k then [a[0]] else [];
      assert own + (Only(a[1..], k) + Only(b, k)) == (own + Only(a[1..], k)) + Only(b, k);
    }
  }

  // An element outside k makes no difference.
  lemma OnlyWithout(a: seq<Link>, x: Link, b: seq<Link>, k: set<Link>)
    requires x !in k
    ensures Only(a + [x] + b, k) == Only(a + b, k)
  {
    OnlyConcat(a + [x], b, k);
    OnlyConcat(a, [x], k);
    OnlyConcat(a, b, k);
  }

  lemma {:induction false} OnlyTwice(s: seq<Link>, k: set<Link>, m: set<Link>)
    requires m <= k
    ensures Only(Only(s, k), m) == Only(s, m)
  {
    if s != [] {
      OnlyTwice(s[1..], k, m);
      var hd := if s[0] in k then [s[0]] else [];
      OnlyConcat(hd, Only(s[1..], k), m);
    }
  }

  // Agreement on a set is agreement on every smaller one.
  lemma OnlyShrinks(s: seq<Link>, r: seq<Link>, k: set<Link>, m: set<Link>)
    requires m <= k && Only(s, k) == Only(r, k)
    ensures Only(s, m) == Only(r, m)
  {
    OnlyTwice(s, k, m);
    OnlyTwice(r, k, m);
  }

  lemma {:induction false} OnlyCounts(s: seq<Link>, k: set<Link>, x: Link)
    requires x in k
    ensures multiset(Only(s, k))[x] == multiset(s)[x]
  {
    if s != [] {
      OnlyCounts(s[1..], k, x);
      assert s == [s[0]] + s[1..];
    }
  }

  // ----- the invariant -----

  ghost function List(W: map<Link, seq<Link>>): seq<Link> {
    Chain(W, HEAD)
  }

  // An unlinked element leads only to elements that are linked or were unlinked no earlier.
  ghost predicate AgeAt(d: Direction, W: map<Link, seq<Link>>, l: Link)
    requires l in W && l in d.gone
  {
    && d.gone[l] < d.clock
    && (l in List(W) || forall x :: x in W[l] ==> x in List(W) || (x in d.gone && d.gone[x] >= d.gone[l]))
  }

  // What a reader has met and what is still ahead of it hold the stable elements in list order,
  // and the elements ahead are linked or were unlinked after the reader began.
  ghost predicate ReaderAt(d: Direction, W: map<Link, seq<Link>>, r: Reader) {
    r.Reading? ==>
      && Closed(d.next, r.pos) && r.pos != To(HEAD) && r.start <= d.clock
      && (forall x :: x in PtrWalk(W, r.pos) ==> x in List(W) || (x in d.gone && d.gone[x] >= r.start))
      && (forall x :: x in r.stable ==> x in List(W))
      && Only(r.visited + PtrWalk(W, r.pos), r.stable) == Only(List(W), r.stable)
      && Only(r.base, r.stable) == Only(List(W), r.stable)
  }

  ghost predicate Heap(d: Direction, W: map<Link, seq<Link>>) {
    && WalkMap(d.next, W) && HEAD in d.next && d.gone.Keys == d.next.Keys - {HEAD}
    && (forall l :: l in d.next ==> d.next[l] != To(HEAD))
    && (forall l :: l in d.gone ==> AgeAt(d, W, l))
  }

  ghost predicate Inv(d: Direction, W: map<Link, seq<Link>>) {
    Heap(d, W) && forall t :: 0 <= t < |d.readers| ==> ReaderAt(d, W, d.readers[t])
  }

  // When the writer may take the step.
  ghost predicate Allowed(d: Direction, W: map<Link, seq<Link>>, ev: Event)
    requires Heap(d, W)
  {
    match ev
    case Prepare(x, q) =>
      x in d.gone && x !in List(W) && Expired(d, x) && (q.To? ==> q.link in List(W))
    case LinkIn(p, x) =>
      (p == HEAD || p in List(W)) && x in d.gone && x !in List(W) && Expired(d, x) && p in d.next
        && d.next[x] == d.next[p]
    case Unlink(p, e, q) =>
      (p == HEAD || p in List(W)) && e in List(W) && p in d.next && e in d.next && d.next[p] == To(e) && d.next[e] == q
    case _ => true
  }

  ghost function WalksAfter(W: map<Link, seq<Link>>, ev: Event): map<Link, seq<Link>> {
    match ev
    case Prepare(x, q) => Redirect(W, x, q)
    case LinkIn(p, x) => Redirect(W, p, To(x))
    case Unlink(p, e, q) => Redirect(W, p, q)
    case _ => W
  }

  // ----- the list and its positions -----

  // Position i of the ring: the head stands before the first and behind the last element.
  function At(c: seq<Link>, i: int): Link {
    if 0 <= i < |c| then c[i] else HEAD
  }

  lemma ListFacts(d: Direction, W: map<Link, seq<Link>>)
    requires Heap(d, W)
    ensures List(W) == PtrWalk(W, d.next[HEAD]) && Distinct(List(W)) && HEAD !in List(W)
    ensures W[HEAD] == [HEAD] + List(W) && forall l :: l in List(W) ==> l in d.next && l in d.gone
  {
    assert WalkAt(d.next, W, HEAD);
    WalkDistinct(d.next, W, HEAD);
    var w := W[HEAD];
    forall l | l in List(W) ensures l in d.next && l != HEAD {
      var i :| 0 <= i < |List(W)| && List(W)[i] == l;
      WalkSuffix(d.next, W, HEAD, i + 1);
      assert w[i + 1] == l && w[0] == HEAD;
    }
    forall i, j | 0 <= i < j < |List(W)| ensures List(W)[i] != List(W)[j] {
      assert w[i + 1] == List(W)[i] && w[j + 1] == List(W)[j];
    }
  }

  lemma LinkedIsListed(d: Direction, W: map<Link, seq<Link>>, l: Link)
    requires Heap(d, W)
    ensures Linked(d, l) <==> l in List(W)
  {
    ListFacts(d, W);
    assert WalkAt(d.next, W, HEAD);
    ReachesIsWalk(d.next, W, d.next[HEAD], l);
  }

  // The walk behind position i - 1 starts at position i.
  lemma ListAt(d: Direction, W: map<Link, seq<Link>>, i: nat)
    requires Heap(d, W) && i <= |List(W)|
    ensures At(List(W), i - 1) in d.next && d.next[At(List(W), i - 1)] == PointerTo(At(List(W), i))
    ensures PtrWalk(W, d.next[At(List(W), i - 1)]) == List(W)[i..]
    ensures W[At(List(W), i - 1)] == [At(List(W), i - 1)] + List(W)[i..]
  {
    ListFacts(d, W);
    var c, w := List(W), W[HEAD];
    WalkSuffix(d.next, W, HEAD, i);
    assert w[i] == At(c, i - 1) && w[i..] == [At(c, i - 1)] + c[i..];
    assert WalkAt(d.next, W, w[i]);
    assert Closed(d.next, d.next[w[i]]);
    EmptyWalk(d.next, W, d.next[w[i]]);
    if i < |c| { assert c[i] in c; }
  }

  lemma PositionOf(d: Direction, W: map<Link, seq<Link>>, p: Link) returns (i: nat)
    requires Heap(d, W) && (p == HEAD || p in List(W))
    ensures i <= |List(W)| && p == At(List(W), i - 1)
    ensures if p == HEAD then i == 0 else Upto(List(W), p) == List(W)[..i]
    ensures p !in List(W)[i..]
  {
    ListFacts(d, W);
    var c := List(W);
    if p == HEAD {
      i := 0;
    } else {
      var j :| 0 <= j < |c| && c[j] == p;
      i := j + 1;
      UptoAt(c, p, j);
      forall x | 0 <= x < |c[i..]| ensures c[i..][x] != p { assert c[i..][x] == c[i + x]; }
    }
  }

  lemma TailListed(d: Direction, W: map<Link, seq<Link>>, q: Ptr, x: Link)
    requires Heap(d, W) && (q.To? ==> q.link in List(W)) && x in PtrWalk(W, q)
    ensures x in List(W)
  {
    var i := PositionOf(d, W, q.link);
    ListAt(d, W, i);
  }

  // ----- preparing an element -----

  // What is ahead of reader r has not changed.
  ghost predicate AheadKept(W: map<Link, seq<Link>>, W': map<Link, seq<Link>>, r: Reader)
    requires r.Reading?
  {
    PtrWalk(W', r.pos) == PtrWalk(W, r.pos)
  }

  lemma PrepareOk(d: Direction, W: map<Link, seq<Link>>, x: Link, q: Ptr, d': Direction)
    requires Inv(d, W) && Allowed(d, W, Prepare(x, q)) && Step(d, Prepare(x, q), d')
    ensures Inv(d', Redirect(W, x, q)) && List(Redirect(W, x, q)) == List(W)
    ensures forall t :: 0 <= t < |d.readers| && d.readers[t].Reading? ==> AheadKept(W, Redirect(W, x, q), d.readers[t])
  {
    var W' := Redirect(W, x, q);
    ListFacts(d, W);
    if x in PtrWalk(W, q) { TailListed(d, W, q, x); assert false; }
    RedirectWalks(d.next, W, x, q);
    RedirectChain(d.next, W, x, q, HEAD);
    forall l | l in d.gone ensures AgeAt(d', W', l) {
      assert AgeAt(d, W, l);
      forall y | y in W'[l] ensures y in W[l] || y in List(W) {
        if x in W[l] {
          UptoPrefix(W[l], x);
          if y in PtrWalk(W, q) { TailListed(d, W, q, y); }
        }
      }
    }
    forall t | 0 <= t < |d.readers|
      ensures ReaderAt(d', W', d.readers[t]) && (d.readers[t].Reading? ==> AheadKept(W, W', d.readers[t]))
    {
      assert ReaderAt(d, W, d.readers[t]);
      if d.readers[t].Reading? {
        RedirectPtr(d.next, W, x, q, d.readers[t].pos);
      }
    }
  }

  // ----- linking it in, or taking one out: the middle of a walk changes -----

  // Behind p, every walk exchanges a for b and goes on with the list.
  ghost predicate Exchanged(w: seq<Link>, w': seq<Link>, p: Link, a: seq<Link>, b: seq<Link>, rest: seq<Link>) {
    if p in w then w == Upto(w, p) + a + rest && w' == Upto(w, p) + b + rest else w' == w
  }

  lemma LinkInExchange(d: Direction, W: map<Link, seq<Link>>, p: Link, x: Link, r: Ptr)
    requires WalkMap(d.next, W) && p in d.next && x in d.next && d.next[x] == d.next[p] && Closed(d.next, r)
    ensures Exchanged(PtrWalk(W, r), PtrWalk(Redirect(W, p, To(x)), r), p, [], [x], PtrWalk(W, d.next[p]))
  {
    assert WalkAt(d.next, W, x);
    var rest := PtrWalk(W, d.next[p]);
    assert PtrWalk(W, To(x)) == [x] + rest;
    RedirectPtr(d.next, W, p, To(x), r);
    hide PtrWalk, Redirect, WalkMap, Upto;
    var u := Upto(PtrWalk(W, r), p);
    assert u + ([x] + rest) == u + [x] + rest && u + [] + rest == u + rest;
  }

  lemma UnlinkExchange(d: Direction, W: map<Link, seq<Link>>, p: Link, e: Link, q: Ptr, r: Ptr)
    requires WalkMap(d.next, W) && p in d.next && e in d.next && d.next[p] == To(e) && d.next[e] == q
             && Closed(d.next, r)
    ensures Exchanged(PtrWalk(W, r), PtrWalk(Redirect(W, p, q), r), p, [e], [], PtrWalk(W, q))
  {
    assert WalkAt(d.next, W, e);
    var rest := PtrWalk(W, q);
    assert PtrWalk(W, d.next[p]) == [e] + rest;
    RedirectPtr(d.next, W, p, q, r);
    hide PtrWalk, Redirect, WalkMap, Upto;
    var u := Upto(PtrWalk(W, r), p);
    assert u + ([e] + rest) == u + [e] + rest && u + [] + rest == u + rest;
  }

  lemma LinkInWalks(d: Direction, W: map<Link, seq<Link>>, p: Link, x: Link) returns (i: nat)
    requires Heap(d, W) && Allowed(d, W, LinkIn(p, x))
    ensures i <= |List(W)| && p == At(List(W), i - 1) && PtrWalk(W, d.next[p]) == List(W)[i..]
    ensures WalkMap(d.next, W) && p in d.next && x in d.next && d.next[x] == d.next[p] && x !in List(W)
    ensures WalkMap(d.next[p := To(x)], Redirect(W, p, To(x)))
    ensures List(Redirect(W, p, To(x))) == List(W)[..i] + [x] + List(W)[i..]
  {
    hide AgeAt, Redirect;
    i := PositionOf(d, W, p);
    ListAt(d, W, i);
    assert WalkAt(d.next, W, x) && PtrWalk(W, To(x)) == [x] + List(W)[i..];
    assert p != x by { ListFacts(d, W); }
    RedirectWalks(d.next, W, p, To(x));
    RedirectChain(d.next, W, p, To(x), HEAD);
    hide WalkMap, Upto, PtrWalk;
    var u, rest := List(W)[..i], List(W)[i..];
    assert u + ([x] + rest) == u + [x] + rest;
  }

  lemma UnlinkPlace(d: Direction, W: map<Link, seq<Link>>, p: Link, e: Link, q: Ptr) returns (i: nat)
    requires Heap(d, W) && Allowed(d, W, Unlink(p, e, q))
    ensures i < |List(W)| && p == At(List(W), i - 1) && e == List(W)[i] && PtrWalk(W, q) == List(W)[i + 1..]
    ensures if p == HEAD then i == 0 else p in List(W) && Upto(List(W), p) == List(W)[..i]
    ensures p !in PtrWalk(W, q) && Closed(d.next, q) && Distinct(List(W)) && e in d.gone
  {
    hide AgeAt;
    i := PositionOf(d, W, p);
    ListAt(d, W, i);
    ListFacts(d, W);
    assert i < |List(W)| && List(W)[i] == e;
    ListAt(d, W, i + 1);
    assert WalkAt(d.next, W, e);
    assert List(W)[i] in List(W) && forall x :: x in List(W)[i + 1..] ==> x in List(W)[i..];
  }

  lemma UnlinkWalks(d: Direction, W: map<Link, seq<Link>>, p: Link, e: Link, q: Ptr) returns (i: nat)
    requires Heap(d, W) && Allowed(d, W, Unlink(p, e, q))
    ensures i < |List(W)| && p == At(List(W), i - 1) && e == List(W)[i] && PtrWalk(W, q) == List(W)[i + 1..]
    ensures WalkMap(d.next, W) && p in d.next && e in d.next && d.next[p] == To(e) && d.next[e] == q
            && Distinct(List(W)) && e in d.gone
    ensures WalkMap(d.next[p := q], Redirect(W, p, q))
    ensures List(Redirect(W, p, q)) == Without(List(W), i)
  {
    hide AgeAt, Distinct, Redirect;
    i := UnlinkPlace(d, W, p, e, q);
    RedirectWalks(d.next, W, p, q);
    RedirectChain(d.next, W, p, q, HEAD);
  }

  // A reader agrees with the list on the stable elements after the exchange as well.
  lemma ReaderAfterLinkIn(v: seq<Link>, w: seq<Link>, w': seq<Link>, p: Link, x: Link, rest: seq<Link>, k: set<Link>)
    requires Exchanged(w, w', p, [], [x], rest) && x !in k
    ensures Only(v + w', k) == Only(v + w, k)
  {
    if p in w {
      var u := Upto(w, p);
      assert w == u + rest && v + w == (v + u) + rest && v + w' == (v + u) + [x] + rest;
      OnlyWithout(v + u, x, rest, k);
    }
  }

  lemma ReaderAfterUnlink(v: seq<Link>, w: seq<Link>, w': seq<Link>, p: Link, e: Link, rest: seq<Link>, k: set<Link>)
    requires Exchanged(w, w', p, [e], [], rest) && e !in k
    ensures Only(v + w', k) == Only(v + w, k)
  {
    if p in w {
      var u := Upto(w, p);
      assert w' == u + rest && v + w' == (v + u) + rest && v + w == (v + u) + [e] + rest;
      OnlyWithout(v + u, e, rest, k);
    }
  }

  lemma LinkInHeap(d: Direction, W: map<Link, seq<Link>>, p: Link, x: Link, d': Direction)
    requires Heap(d, W) && Allowed(d, W, LinkIn(p, x)) && Step(d, LinkIn(p, x), d')
    ensures Heap(d', Redirect(W, p, To(x)))
  {
    assert W.Keys == d.next.Keys;
    hide AgeAt, WalkMap, List;
    var i := LinkInWalks(d, W, p, x);
    var W', c := Redirect(W, p, To(x)), List(W);
    forall l | l in d.gone ensures AgeAt(d', W', l) {
      assert AgeAt(d, W, l);
      LinkInAge(d, W, p, x, d', l, i);
    }
  }

  lemma LinkInAge(d: Direction, W: map<Link, seq<Link>>, p: Link, x: Link, d': Direction, l: Link, i: nat)
    requires WalkMap(d.next, W) && p in d.next && x in d.next && d.next[x] == d.next[p] && l in d.next && l in d.gone
    requires i <= |List(W)| && PtrWalk(W, d.next[p]) == List(W)[i..] && l in W && l in Redirect(W, p, To(x))
    requires List(Redirect(W, p, To(x))) == List(W)[..i] + [x] + List(W)[i..]
    requires AgeAt(d, W, l) && d'.gone == d.gone && d'.clock == d.clock
    ensures AgeAt(d', Redirect(W, p, To(x)), l)
  {
    var W', c := Redirect(W, p, To(x)), List(W);
    assert c == c[..i] + c[i..];
    LinkInExchange(d, W, p, x, To(l));
    ExchangedMembers(W[l], W'[l], p, [], [x], c[i..]);
  }

  lemma LinkInReader(d: Direction, W: map<Link, seq<Link>>, p: Link, x: Link, d': Direction, r: Reader, i: nat)
    requires WalkMap(d.next, W) && p in d.next && x in d.next && d.next[x] == d.next[p] && x !in List(W)
    requires i <= |List(W)| && PtrWalk(W, d.next[p]) == List(W)[i..]
    requires List(Redirect(W, p, To(x))) == List(W)[..i] + [x] + List(W)[i..]
    requires ReaderAt(d, W, r) && d'.gone == d.gone && d'.clock == d.clock && d'.next == d.next[p := To(x)]
    ensures ReaderAt(d', Redirect(W, p, To(x)), r)
  {
    if r.Reading? {
      var W', c := Redirect(W, p, To(x)), List(W);
      var w, w' := PtrWalk(W, r.pos), PtrWalk(W', r.pos);
      assert c == c[..i] + c[i..];
      LinkInExchange(d, W, p, x, r.pos);
      LinkInFilters(r.visited, w, w', c, i, p, x, r.stable);
      ExchangedMembers(w, w', p, [], [x], c[i..]);
    }
  }

  lemma ExchangedMembers(w: seq<Link>, w': seq<Link>, p: Link, a: seq<Link>, b: seq<Link>, rest: seq<Link>)
    requires Exchanged(w, w', p, a, b, rest)
    ensures forall y :: y in w' ==> y in w || y in b
  {
    UptoPrefix(w, p);
  }

  lemma LinkInFilters(v: seq<Link>, w: seq<Link>, w': seq<Link>, c: seq<Link>, i: nat, p: Link, x: Link, k: set<Link>)
    requires i <= |c| && Exchanged(w, w', p, [], [x], c[i..]) && x !in k && Only(v + w, k) == Only(c, k)
    ensures Only(v + w', k) == Only(c[..i] + [x] + c[i..], k) == Only(c, k)
  {
    ReaderAfterLinkIn(v, w, w', p, x, c[i..], k);
    assert c == c[..i] + c[i..];
    OnlyWithout(c[..i], x, c[i..], k);
  }

  lemma LinkInOk(d: Direction, W: map<Link, seq<Link>>, p: Link, x: Link, d': Direction) returns (i: nat)
    requires Inv(d, W) && Allowed(d, W, LinkIn(p, x)) && Step(d, LinkIn(p, x), d')
    ensures Inv(d', Redirect(W, p, To(x)))
    ensures i <= |List(W)| && p == At(List(W), i - 1)
            && List(Redirect(W, p, To(x))) == List(W)[..i] + [x] + List(W)[i..]
    ensures forall r :: Closed(d.next, r) ==>
              Exchanged(PtrWalk(W, r), PtrWalk(Redirect(W, p, To(x)), r), p, [], [x], List(W)[i..])
  {
    hide Heap, ReaderAt, Allowed, Exchanged;
    i := LinkInWalks(d, W, p, x);
    forall r | Closed(d.next, r)
      ensures Exchanged(PtrWalk(W, r), PtrWalk(Redirect(W, p, To(x)), r), p, [], [x], List(W)[i..])
    {
      LinkInExchange(d, W, p, x, r);
    }
    LinkInHeap(d, W, p, x, d');
    forall t | 0 <= t < |d.readers| ensures ReaderAt(d', Redirect(W, p, To(x)), d.readers[t]) {
      LinkInReader(d, W, p, x, d', d.readers[t], i);
    }
  }

  lemma HeapPointer(d: Direction, W: map<Link, seq<Link>>, l: Link)
    requires Heap(d, W) && l in d.next
    ensures d.next[l] != To(HEAD)
  {
  }

  lemma UnlinkHeap(d: Direction, W: map<Link, seq<Link>>, p: Link, e: Link, q: Ptr, d': Direction, i: nat)
    requires Heap(d, W) && e in d.gone && q != To(HEAD) && WalkMap(d'.next, Redirect(W, p, q))
    requires p in d.next && e in d.next && d.next[p] == To(e) && d.next[e] == q
    requires i < |List(W)| && e == List(W)[i] && PtrWalk(W, q) == List(W)[i + 1..]
    requires List(Redirect(W, p, q)) == Without(List(W), i) && Distinct(List(W))
    requires d'.gone == d.gone[e := d.clock] && d'.clock == d.clock + 1 && d'.next == d.next[p := q]
    ensures Heap(d', Redirect(W, p, q))
  {
    assert W.Keys == d.next.Keys;
    hide AgeAt, WalkMap, List, Without, Distinct, PtrWalk;
    forall l | l in d.gone ensures AgeAt(d', Redirect(W, p, q), l) {
      assert AgeAt(d, W, l);
      UnlinkAge(d, W, p, e, q, d', l, i);
    }
  }

  lemma UnlinkAge(d: Direction, W: map<Link, seq<Link>>, p: Link, e: Link, q: Ptr, d': Direction, l: Link, i: nat)
    requires WalkMap(d.next, W) && p in d.next && e in d.next && d.next[p] == To(e) && d.next[e] == q && l in d.next
             && l in d.gone
    requires i < |List(W)| && e == List(W)[i] && PtrWalk(W, q) == List(W)[i + 1..] && l in W && l in Redirect(W, p, q)
    requires List(Redirect(W, p, q)) == Without(List(W), i) && Distinct(List(W))
    requires AgeAt(d, W, l) && d'.gone == d.gone[e := d.clock] && d'.clock == d.clock + 1
    ensures AgeAt(d', Redirect(W, p, q), l)
  {
    var W', c := Redirect(W, p, q), List(W);
    forall x ensures x in List(W') <==> x in c && x != e { WithoutMember(c, i, x); }
    UnlinkExchange(d, W, p, e, q, To(l));
    ExchangedMembers(W[l], W'[l], p, [e], [], c[i + 1..]);
    if l == e {
      assert WalkAt(d.next, W, e);
      assert forall x :: x in W[e] ==> x == e || x in c[i + 1..];
    }
  }

  lemma UnlinkReader(d: Direction, W: map<Link, seq<Link>>, p: Link, e: Link, q: Ptr, d': Direction, r: Reader, i: nat)
    requires WalkMap(d.next, W) && p in d.next && e in d.next && d.next[p] == To(e) && d.next[e] == q
    requires i < |List(W)| && e == List(W)[i] && PtrWalk(W, q) == List(W)[i + 1..]
    requires List(Redirect(W, p, q)) == Without(List(W), i) && Distinct(List(W))
    requires ReaderAt(d, W, r) && d'.gone == d.gone[e := d.clock] && d'.clock == d.clock + 1
             && d'.next == d.next[p := q]
    ensures ReaderAt(d', Redirect(W, p, q), Restrict(r, e))
  {
    if r.Reading? {
      var W', c := Redirect(W, p, q), List(W);
      var w, w', k := PtrWalk(W, r.pos), PtrWalk(W', r.pos), r.stable - {e};
      forall x ensures x in List(W') <==> x in c && x != e { WithoutMember(c, i, x); }
      UnlinkExchange(d, W, p, e, q, r.pos);
      UnlinkFilters(r.visited, w, w', c, i, p, r.base, r.stable, k);
      ExchangedMembers(w, w', p, [e], [], c[i + 1..]);
    }
  }

  lemma UnlinkFilters(v: seq<Link>, w: seq<Link>, w': seq<Link>, c: seq<Link>, i: nat, p: Link, base: seq<Link>,
                      k: set<Link>, m: set<Link>)
    requires i < |c| && Exchanged(w, w', p, [c[i]], [], c[i + 1..]) && m == k - {c[i]}
    requires Only(v + w, k) == Only(c, k) == Only(base, k)
    ensures Only(v + w', m) == Only(Without(c, i), m) == Only(base, m)
  {
    OnlyShrinks(v + w, c, k, m);
    OnlyShrinks(base, c, k, m);
    ReaderAfterUnlink(v, w, w', p, c[i], c[i + 1..], m);
    assert c == c[..i] + [c[i]] + c[i + 1..];
    OnlyWithout(c[..i], c[i], c[i + 1..], m);
  }

  lemma UnlinkOk(d: Direction, W: map<Link, seq<Link>>, p: Link, e: Link, q: Ptr, d': Direction) returns (i: nat)
    requires Inv(d, W) && Allowed(d, W, Unlink(p, e, q)) && Step(d, Unlink(p, e, q), d')
    ensures Inv(d', Redirect(W, p, q))
    ensures i < |List(W)| && p == At(List(W), i - 1) && e == List(W)[i]
            && List(Redirect(W, p, q)) == Without(List(W), i)
    ensures forall r :: Closed(d.next, r) ==>
              Exchanged(PtrWalk(W, r), PtrWalk(Redirect(W, p, q), r), p, [e], [], List(W)[i + 1..])
  {
    hide Heap, ReaderAt, Allowed, Exchanged;
    i := UnlinkWalks(d, W, p, e, q);
    forall r | Closed(d.next, r)
      ensures Exchanged(PtrWalk(W, r), PtrWalk(Redirect(W, p, q), r), p, [e], [], List(W)[i + 1..])
    {
      UnlinkExchange(d, W, p, e, q, r);
    }
    assert q != To(HEAD) by { assert Heap(d, W); HeapPointer(d, W, e); }
    UnlinkHeap(d, W, p, e, q, d', i);
    forall t | 0 <= t < |d.readers| ensures ReaderAt(d', Redirect(W, p, q), d'.readers[t]) {
      UnlinkReader(d, W, p, e, q, d', d.readers[t], i);
    }
  }

  // ----- the readers' own steps -----

  lemma ReaderMoves(d: Direction, W: map<Link, seq<Link>>, t: nat, r: Reader)
    requires Inv(d, W) && t < |d.readers| && ReaderAt(d, W, r)
    ensures Inv(d.(readers := d.readers[t := r]), W)
  {
    var d' := d.(readers := d.readers[t := r]);
    forall u | 0 <= u < |d.readers| ensures ReaderAt(d', W, d'.readers[u]) {
      assert ReaderAt(d, W, d.readers[u]);
    }
    forall l | l in d'.gone ensures AgeAt(d', W, l) { assert AgeAt(d, W, l); }
  }

  lemma FreshReader(d: Direction, W: map<Link, seq<Link>>)
    requires Heap(d, W)
    ensures ReaderAt(d, W, Reading(d.next[HEAD], [], d.clock, List(W), SetOf(List(W))))
  {
    hide AgeAt, Only;
    ListFacts(d, W);
    assert WalkAt(d.next, W, HEAD);
    assert [] + PtrWalk(W, d.next[HEAD]) == List(W);
  }

  lemma BeginOk(d: Direction, W: map<Link, seq<Link>>, t: nat, d': Direction)
    requires Inv(d, W) && Step(d, Begin(t), d')
    ensures Inv(d', W) && t < |d'.readers| && d'.readers[t].Reading?
    ensures d'.readers[t].base == List(W) && d'.readers[t].stable == SetOf(List(W))
  {
    hide AgeAt, ReaderAt;
    var c :| Seg(d.next, d.next[HEAD], c, Null)
             && d' == d.(readers := d.readers[t := Reading(d.next[HEAD], [], d.clock, c, SetOf(c))]);
    ListFacts(d, W);
    assert WalkAt(d.next, W, HEAD);
    SegWalk(d.next, W, d.next[HEAD], c, Null);
    FreshReader(d, W);
    assert c == List(W);
    ReaderMoves(d, W, t, Reading(d.next[HEAD], [], d.clock, c, SetOf(c)));
  }

  lemma VisitOk(d: Direction, W: map<Link, seq<Link>>, t: nat, d': Direction)
    requires Inv(d, W) && Step(d, Visit(t), d')
    ensures Inv(d', W)
  {
    hide AgeAt;
    var r := d.readers[t];
    var l := r.pos.link;
    assert ReaderAt(d, W, r) && WalkAt(d.next, W, l);
    assert r.visited + PtrWalk(W, r.pos) == (r.visited + [l]) + PtrWalk(W, d.next[l]);
    ReaderMoves(d, W, t, d'.readers[t]);
  }

  // Every allowed step keeps the invariant, and only linking in and unlinking change the list.
  lemma StepInv(d: Direction, W: map<Link, seq<Link>>, ev: Event, d': Direction)
    requires Inv(d, W) && Allowed(d, W, ev) && Step(d, ev, d')
    ensures Inv(d', WalksAfter(W, ev))
    ensures !ev.LinkIn? && !ev.Unlink? ==> List(WalksAfter(W, ev)) == List(W)
  {
    match ev
    case Nothing =>
    case Prepare(x, q) => PrepareOk(d, W, x, q, d');
    case LinkIn(p, x) => var i := LinkInOk(d, W, p, x, d');
    case Unlink(p, e, q) => var i := UnlinkOk(d, W, p, e, q, d');
    case Begin(t) => BeginOk(d, W, t, d');
    case Visit(t) => VisitOk(d, W, t, d');
    case Finish(t) => ReaderMoves(d, W, t, Idle);
  }

  // An element out of every reader's reach stays so until it is unlinked again.
  lemma StaysExpired(d: Direction, W: map<Link, seq<Link>>, ev: Event, d': Direction, x: Link)
    requires Inv(d, W) && Step(d, ev, d') && Expired(d, x) && (ev.Unlink? ==> ev.e != x)
    ensures Expired(d', x)
  {
    assert AgeAt(d, W, x);
  }
}
