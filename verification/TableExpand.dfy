// The expansion: preparing the doubled array, publishing it, and unzipping the shared chains.
module TableExpand {
  import opened Bits
  import opened Walks
  import opened Chains
  import opened TableMachine
  import opened TableInvariant
  import opened TableWriter

  // ----- starting -----

  // Allocating an array changes nothing for anybody.
  lemma AllocateOk(m: Mem, g: Ghost, dst: seq<Link>, w: Writer, m': Mem) returns (g': Ghost)
    requires Base(m, g) && DoAllocate(m, dst, w, m') && |dst| > 0
    ensures Base(m', g') && Beside(m', dst) && g'.chains == g.chains && g'.ks == g.ks
    ensures Invisible(m, g.W, m'.next, g'.W)
    ensures forall x :: x in m.table ==> Chain(g'.W, x) == Chain(g.W, x)
    ensures forall x :: x in dst ==> Chain(g'.W, x) == []
  {
    var added := SetOf(dst);
    AddedWalks(m.next, g.W, added);
    g' := g.(W := AddEmptyWalks(g.W, added));
    forall p | Closed(m.next, p)
      ensures SameFor(m, g.W, m'.next, g'.W, p)
    {
    }
    forall x | x in m.table
      ensures ChainKept(m, g.W, g'.W, x)
    {
      assert x in m.heads;
    }
    TableKept(m, g, m', g');
  }

  ghost function TableChains(m: Mem, W: map<Link, seq<Link>>): seq<seq<Link>> {
    seq(|m.table|, b requires 0 <= b < |m.table| => Chain(W, m.table[b]))
  }

  // In an idle table the chains are exactly the linked nodes, by bucket.
  lemma IdleChains(m: Mem, g: Ghost, cs: seq<seq<Link>>, ks: seq<nat>)
    requires Base(m, g) && Proper(m, g.W, m.table)
    requires |cs| == |m.table| && forall b :: 0 <= b < |cs| ==> cs[b] == Chain(g.W, m.table[b])
    ensures ChainsOk(m, Ghost(g.W, cs, ks), |m.table|)
  {
    var g1 := Ghost(g.W, cs, ks);
    forall b | 0 <= b < |m.table|
      ensures ChainOk(m, g1, |m.table|, b)
    {
      assert m.table[b] in m.heads && OnlyLinked(m, Chain(g.W, m.table[b]));
      assert ProperChain(m, Chain(g.W, m.table[b]), |m.table|, b);
      ChainIsPtrWalk(m, g.W, m.table[b]);
    }
    forall l | l in m.linked
      ensures Class(m.hash, l, |m.table|) < |m.table| && l in cs[Class(m.hash, l, |m.table|)]
    {
      assert FindsNode(m, g.W, m.table, l);
    }
  }

  lemma BeginExpandOk(m: Mem, g: Ghost, dst: seq<Link>, m': Mem) returns (g': Ghost)
    requires Struct(m, g) && DoBeginExpand(m, dst, m')
    ensures Struct(m', g') && Invisible(m, g.W, m'.next, g'.W)
    ensures |g'.chains| == |m.table| && forall b :: 0 <= b < |m.table| ==> g'.chains[b] == Chain(g.W, m.table[b])
  {
    var n := |m.table|;
    var g1 := AllocateOk(m, g, dst, m'.w, m');
    var cs := TableChains(m, g.W);
    g' := Ghost(g1.W, cs, seq(n, b requires 0 <= b < n => FirstLen(m.hash, cs[b], 2 * n)));
    forall b | 0 <= b < n
      ensures ProperChain(m', Chain(g'.W, m.table[b]), n, b) && CutOk(m', g', n, b) && FirstCut(m', g', n, b)
      ensures SameChain(g', m'.table, b)
    {
      assert ProperChain(m, Chain(g.W, m.table[b]), n, b) && m.table[b] in m.table;
      if cs[b] != [] {
        SegLenIs(m.hash, cs[b], 2 * n, Class(m.hash, cs[b][0], 2 * n));
      }
    }
    IdleChains(m', g', cs, g'.ks);
  }

  // ----- filling the new array -----

  // Both halves of a pair have classes b and b + n only.
  lemma TwoClasses(m: Mem, g: Ghost, n: nat, b: nat, l: Link)
    requires ChainsOk(m, g, n) && b < n && l in g.chains[b]
    ensures Class(m.hash, l, 2 * n) == b || Class(m.hash, l, 2 * n) == b + n
  {
    assert ChainOk(m, g, n, b);
    BucketSplits(if l in m.hash then m.hash[l] else 0, n);
  }

  // The first node of bucket i on the old chain is where the new chain has to start.
  lemma TwinStart(m: Mem, g: Ghost, n: nat, i: nat, pre: seq<Link>, rest: seq<Link>)
    requires ChainsOk(m, g, n) && CutsOk(m, g, n) && FirstCuts(m, g, n) && i < 2 * n
    requires g.chains[Half(i, n)] == pre + rest
    requires forall l :: l in pre ==> Class(m.hash, l, 2 * n) != i
    requires rest != [] ==> Class(m.hash, rest[0], 2 * n) == i
    ensures CutOk(m, g, n, Half(i, n))
    ensures rest == Mix(m.hash, g.chains[Half(i, n)], g.ks[Half(i, n)], 2 * n, i)
  {
    var b := Half(i, n);
    var c, k := g.chains[b], g.ks[b];
    assert CutOk(m, g, n, b) && FirstCut(m, g, n, b);
    forall x | 0 <= x < |c| ensures Class(m.hash, c[x], 2 * n) == b || Class(m.hash, c[x], 2 * n) == b + n {
      TwoClasses(m, g, n, b, c[x]);
    }
    forall x | 0 <= x < |pre| ensures Class(m.hash, pre[x], 2 * n) == b + b + n - i {
      assert c[x] == pre[x];
    }
    FirstOfClass(m.hash, c, k, 2 * n, i, b + b + n - i, pre, rest);
  }

  // A store into a head of an array that is not published.
  lemma SideStore(m: Mem, g: Ghost, arr: seq<Link>, j: nat, q: Ptr, m': Mem) returns (g': Ghost)
    requires Base(m, g) && Beside(m, arr) && j < |arr| && Closed(m.next, q) && OnlyLinked(m, PtrWalk(g.W, q))
    requires m'.next == m.next[arr[j] := q] && m'.table == m.table && m'.hash == m.hash
    requires m'.linked == m.linked && m'.limbo == m.limbo && m'.heads == m.heads
    ensures Base(m', g') && g' == g.(W := g'.W) && Invisible(m, g.W, m'.next, g'.W)
    ensures forall x :: x in m.table ==> Chain(g'.W, x) == Chain(g.W, x)
    ensures forall i :: 0 <= i < |arr| && i != j && OnlyLinked(m, Chain(g.W, arr[i])) ==>
              Chain(g'.W, arr[i]) == Chain(g.W, arr[i])
    ensures Chain(g'.W, arr[j]) == PtrWalk(g.W, q)
  {
    assert arr[j] in arr;
    var W' := HeadStore(m, g.W, arr[j], q);
    g' := g.(W := W');
    forall x | x in m.table ensures ChainKept(m, g.W, W', x) {
      assert OnlyLinked(m, Chain(g.W, x)) && x != arr[j];
    }
    TableKept(m, g, m', g');
    forall i | 0 <= i < |arr| && i != j && OnlyLinked(m, Chain(g.W, arr[i]))
      ensures Chain(W', arr[i]) == Chain(g.W, arr[i])
    {
      assert arr[i] in arr && arr[i] != arr[j];
      assert ChainKept(m, g.W, W', arr[i]);
    }
  }

  lemma IdleKept(m: Mem, g: Ghost, m': Mem, g': Ghost)
    requires Base(m, g) && Proper(m, g.W, m.table) && m'.table == m.table && m'.linked == m.linked && m'.hash == m.hash
    requires |g.chains| == |m.table| && (forall b :: 0 <= b < |m.table| ==> SameChain(g, m.table, b))
    requires g'.chains == g.chains && (forall x :: x in m.table ==> Chain(g'.W, x) == Chain(g.W, x))
    ensures Proper(m', g'.W, m'.table) && forall b :: 0 <= b < |m.table| ==> SameChain(g', m'.table, b)
  {
    forall c | 0 <= c < |m.table|
      ensures ProperChain(m', Chain(g'.W, m.table[c]), |m.table|, c) && SameChain(g', m'.table, c)
    {
      assert m.table[c] in m.table && SameChain(g, m.table, c);
      assert ProperChain(m, Chain(g.W, m.table[c]), |m.table|, c);
    }
  }

  lemma TwinsKept(m: Mem, g: Ghost, m': Mem, g': Ghost, arr: seq<Link>, n: nat, i: nat)
    requires ChainsOk(m, g, n) && CutsOk(m, g, n) && i <= |arr| == 2 * n
    requires m'.hash == m.hash && g'.chains == g.chains && g'.ks == g.ks
    requires forall j :: 0 <= j < i ==> TwinAt(m, g, arr, n, j)
    requires forall j :: 0 <= j < i && OnlyLinked(m, Chain(g.W, arr[j])) ==> Chain(g'.W, arr[j]) == Chain(g.W, arr[j])
    ensures forall j :: 0 <= j < i ==> TwinAt(m', g', arr, n, j)
  {
    forall j | 0 <= j < i ensures TwinAt(m', g', arr, n, j) {
      assert TwinAt(m, g, arr, n, j);
      TwinOnlyLinked(m, g, arr, n, j);
    }
  }

  // The pointer initTwinDstBuckets finds leads to exactly the new bucket's chain.
  lemma TwinFound(m: Mem, g: Ghost, pre: seq<Link>, q: Ptr, m': Mem)
    requires Struct(m, g) && DoStoreTwin(m, pre, q, m')
    ensures var b := Half(m.w.i, |m.table|);
            CutOk(m, g, |m.table|, b) && PtrWalk(g.W, q) == Mix(m.hash, g.chains[b], g.ks[b], 2 * |m.table|, m.w.i)
    ensures Closed(m.next, q) && OnlyLinked(m, PtrWalk(g.W, q))
  {
    var i, n := m.w.i, |m.table|;
    var src := m.table[Half(i, n)];
    assert src in m.heads && OnlyLinked(m, Chain(g.W, src)) && SameChain(g, m.table, Half(i, n));
    ChainIsPtrWalk(m, g.W, src);
    SegWalk(m.next, g.W, Load(m, src), pre, q);
    var rest := PtrWalk(g.W, q);
    assert forall l :: l in rest ==> l in Chain(g.W, src);
    if rest != [] { assert WalkAt(m.next, g.W, q.link); }
    TwinStart(m, g, n, i, pre, rest);
  }

  lemma StoreTwinOk(m: Mem, g: Ghost, pre: seq<Link>, q: Ptr, m': Mem) returns (g': Ghost)
    requires Struct(m, g) && DoStoreTwin(m, pre, q, m')
    ensures Struct(m', g') && Invisible(m, g.W, m'.next, g'.W) && g'.chains == g.chains && g'.ks == g.ks
  {
    var i, n, dst := m.w.i, |m.table|, m.w.dst;
    TwinFound(m, g, pre, q, m');
    g' := SideStore(m, g, dst, i, q, m');
    IdleKept(m, g, m', g');
    ChainsKept(m, g, m', g', n);
    TwinsKept(m, g, m', g', dst, n, i);
    assert TwinAt(m', g', dst, n, i);
  }

  // Facts about the recorded chains do not depend on the heap.
  lemma ChainsKept(m: Mem, g: Ghost, m': Mem, g': Ghost, n: nat)
    requires ChainsOk(m, g, n)
    requires m'.hash == m.hash && m'.linked == m.linked && g'.chains == g.chains
    ensures ChainsOk(m', g', n)
    ensures g'.ks == g.ks && CutsOk(m, g, n) ==> CutsOk(m', g', n)
    ensures g'.ks == g.ks && FirstCuts(m, g, n) ==> FirstCuts(m', g', n)
  {
    forall b | 0 <= b < n ensures ChainOk(m', g', n, b) {
      assert ChainOk(m, g, n, b);
    }
    if g'.ks == g.ks && CutsOk(m, g, n) {
      forall b | 0 <= b < n ensures CutOk(m', g', n, b) { assert CutOk(m, g, n, b); }
    }
    if g'.ks == g.ks && FirstCuts(m, g, n) {
      forall b | 0 <= b < n ensures FirstCut(m', g', n, b) { assert FirstCut(m, g, n, b); }
    }
  }

  lemma TwinOnlyLinked(m: Mem, g: Ghost, arr: seq<Link>, n: nat, i: nat)
    requires ChainsOk(m, g, n) && |g.ks| == n && i < |arr| == 2 * n && TwinAt(m, g, arr, n, i)
    ensures OnlyLinked(m, Chain(g.W, arr[i]))
  {
    var b := Half(i, n);
    assert ChainOk(m, g, n, b);
    forall l | l in Chain(g.W, arr[i]) ensures l in m.linked {
      MixMember(m.hash, g.chains[b], g.ks[b], 2 * n, i, l);
    }
  }

  // The half-unzipped doubled array serves every linked node.
  lemma TwinsServe(m: Mem, g: Ghost, arr: seq<Link>, n: nat)
    requires Twins(m, g, arr, n)
    ensures Serves(m, g.W, arr)
  {
    forall h | h in arr ensures OnlyLinked(m, Chain(g.W, h)) {
      var i :| 0 <= i < |arr| && arr[i] == h;
      assert TwinAt(m, g, arr, n, i);
      TwinOnlyLinked(m, g, arr, n, i);
    }
    forall l | l in m.linked ensures FindsNode(m, g.W, arr, l) {
      var b := Class(m.hash, l, n);
      BucketSplits(if l in m.hash then m.hash[l] else 0, n);
      var i := Class(m.hash, l, 2 * n);
      assert Half(i, n) == b && TwinAt(m, g, arr, n, i);
      assert CutOk(m, g, n, b);
      MixMember(m.hash, g.chains[b], g.ks[b], 2 * n, i, l);
    }
  }

  lemma PublishTwinsOk(m: Mem, g: Ghost, m': Mem)
    requires Struct(m, g) && DoPublishTwins(m, m')
    ensures Struct(m', g)
  {
    var n := |m.table|;
    ChainsKept(m, g, m', g, n);
    forall i | 0 <= i < 2 * n ensures TwinAt(m', g, m'.table, n, i) {
      assert TwinAt(m, g, m.w.dst, n, i);
      assert CutOk(m, g, n, Half(i, n));
    }
    TwinsServe(m', g, m'.table, n);
    forall b | 0 <= b < n ensures SameChain(g, m.table, b) {
    }
    forall h | h in m.table ensures OnlyLinked(m', Chain(g.W, h)) {
      assert OnlyLinked(m, Chain(g.W, h));
    }
    forall l | l in m'.linked ensures FindsNode(m', g.W, m.table, l) {
      assert FindsNode(m, g.W, m.table, l);
    }
    assert IsPow2(2 * n) by { BucketSplits(0, n); }
  }

  // ----- looking for the first unzip points -----

  // The old chain splits where findFirstUnzipPoint stops.
  lemma FindStartSplit(m: Mem, g: Ghost, pre: seq<Link>, q: Ptr, m': Mem)
    requires Struct(m, g) && DoFindStart(m, pre, q, m')
    ensures m.w.b < |g.chains| == |g.ks| == |m.w.src|
    ensures |pre| == g.ks[m.w.b] <= |g.chains[m.w.b]| && pre == g.chains[m.w.b][..|pre|]
    ensures q.To? <==> |pre| < |g.chains[m.w.b]|
    ensures Last(pre) in m.next && OnlyLinked(m, g.W[Last(pre)])
  {
    var b, src := m.w.b, m.w.src;
    var n, h := |src|, src[b];
    assert SameChain(g, src, b) && ChainOk(m, g, n, b) && CutOk(m, g, n, b) && FirstCut(m, g, n, b);
    assert h in src && h in m.heads;
    var c := g.chains[b];
    ChainIsPtrWalk(m, g.W, h);
    SegWalk(m.next, g.W, Load(m, h), pre, q);
    var rest := PtrWalk(g.W, q);
    if q.To? {
      assert WalkAt(m.next, g.W, q.link);
      assert rest[0] == q.link;
    }
    SegmentIsCut(m.hash, c, g.ks[b], 2 * n, pre, rest);
    assert c[..|pre|] == pre;
    WalkCut(m.next, g.W, Load(m, h), pre, rest);
    assert forall l :: l in [Last(pre)] + rest ==> l in c;
  }

  lemma FindStartOk(m: Mem, g: Ghost, pre: seq<Link>, q: Ptr, m': Mem) returns (g': Ghost)
    requires Struct(m, g) && DoFindStart(m, pre, q, m')
    ensures Struct(m', g') && Invisible(m, g.W, m'.next, g'.W) && g'.chains == g.chains && g'.ks == g.ks
  {
    var b, src := m.w.b, m.w.src;
    var n := |src|;
    FindStartSplit(m, g, pre, q, m');
    g' := SideStore(m, g, src, b, if q.To? then To(Last(pre)) else Null, m');
    assert src[b] in src;
    FindKept(m, g, m', g', b);
    assert JumpAt(m', g', src, b);
  }

  // The other buckets do not notice the store into old head b.
  lemma FindKept(m: Mem, g: Ghost, m': Mem, g': Ghost, b: nat)
    requires Struct(m, g) && m.w.FindStarts? && m.w.b <= b <= |m.w.src|
    requires m'.hash == m.hash && m'.linked == m.linked && m'.table == m.table && m'.heads == m.heads
    requires g' == g.(W := g'.W)
    requires forall x :: x in m.table ==> Chain(g'.W, x) == Chain(g.W, x)
    requires forall i :: 0 <= i < |m.w.src| && i != b && OnlyLinked(m, Chain(g.W, m.w.src[i])) ==>
               Chain(g'.W, m.w.src[i]) == Chain(g.W, m.w.src[i])
    requires forall i :: 0 <= i < |m.w.src| && i != b ==> Load(m', m.w.src[i]) == Load(m, m.w.src[i])
    ensures Twins(m', g', m'.table, |m.w.src|) && FirstCuts(m', g', |m.w.src|) && Beside(m', m.w.src)
    ensures forall j :: 0 <= j < m.w.b ==> JumpAt(m', g', m.w.src, j)
    ensures forall j :: b < j < |m.w.src| ==> SameChain(g', m.w.src, j)
  {
    var src := m.w.src;
    var n := |src|;
    ChainsKept(m, g, m', g', n);
    TwinsKept(m, g, m', g', m.table, n, 2 * n);
    forall j | 0 <= j < m.w.b ensures JumpAt(m', g', src, j) {
      assert JumpAt(m, g, src, j);
    }
    forall j | b < j < n ensures SameChain(g', src, j) {
      assert SameChain(g, src, j) && ChainOk(m, g, n, j);
    }
  }

  lemma FindSkipOk(m: Mem, g: Ghost, m': Mem)
    requires Struct(m, g) && DoFindSkip(m, m')
    ensures Struct(m', g)
  {
    var b, src := m.w.b, m.w.src;
    assert src[b] in src && src[b] in m.heads;
    assert SameChain(g, src, b);
    ChainIsPtrWalk(m, g.W, src[b]);
    SameAssets(m, g, m', |src|);
    assert CutOk(m, g, |src|, b);
    forall j | 0 <= j < b + 1 ensures JumpAt(m', g, src, j) {
      if j < b { assert JumpAt(m, g, src, j); }
    }
  }

  // Nothing but the writer's own position has changed.
  lemma SameAssets(m: Mem, g: Ghost, m': Mem, n: nat)
    requires m' == m.(w := m'.w) && Base(m, g) && Twins(m, g, m.table, n)
    ensures Base(m', g) && Twins(m', g, m'.table, n)
    ensures FirstCuts(m, g, n) ==> FirstCuts(m', g, n)
  {
    SameBase(m, g, m');
    ChainsKept(m, g, m', g, n);
    TwinsKept(m, g, m', g, m.table, n, 2 * n);
  }

  lemma SameBase(m: Mem, g: Ghost, m': Mem)
    requires m' == m.(w := m'.w) && Base(m, g)
    ensures Base(m', g)
  {
    forall x | x in m.table ensures ChainKept(m, g.W, g.W, x) {
    }
    TableKept(m, g, m', g);
  }

  lemma FindDoneOk(m: Mem, g: Ghost, m': Mem)
    requires Struct(m, g) && DoFindDone(m, m')
    ensures Struct(m', g)
  {
    SameAssets(m, g, m', |m.w.src|);
    forall j | 0 <= j < |m.w.src| ensures JumpAt(m', g, m.w.src, j) {
      assert JumpAt(m, g, m.w.src, j);
    }
  }
}
