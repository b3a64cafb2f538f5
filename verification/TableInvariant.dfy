// The inductive invariant of the table machine: what the chains look like at every point of an
// expansion or a shrink, and where the readers can be.
module TableInvariant {
  import opened Bits
  import opened Walks
  import opened Chains
  import opened TableMachine
  import GP = GracePeriod

  // W: the complete walk from every link. During a resize, chains[b] is the chain of bucket b of
  // the smaller array before it was relinked (for a shrink: of the larger array), and the first
  // ks[b] nodes of it are already unzipped.
  datatype Ghost = Ghost(W: map<Link, seq<Link>>, chains: seq<seq<Link>>, ks: seq<nat>)

  // ----- what holds at every moment -----

  ghost predicate ArrayOk(m: Mem, arr: seq<Link>) {
    |arr| > 0 && Distinct(arr) && forall l :: l in arr ==> l in m.heads
  }

  ghost predicate OnlyLinked(m: Mem, s: seq<Link>) {
    forall l :: l in s ==> l in m.linked
  }

  ghost predicate FindsNode(m: Mem, W: map<Link, seq<Link>>, arr: seq<Link>, l: Link) {
    |arr| > 0 && Class(m.hash, l, |arr|) < |arr| && l in Chain(W, arr[Class(m.hash, l, |arr|)])
  }

  // Every linked node is on the chain of its bucket in arr, and arr leads only to linked nodes.
  ghost predicate Serves(m: Mem, W: map<Link, seq<Link>>, arr: seq<Link>) {
    && (forall h :: h in arr ==> OnlyLinked(m, Chain(W, h)))
    && (forall l :: l in m.linked ==> FindsNode(m, W, arr, l))
  }

  ghost predicate ProperChain(m: Mem, s: seq<Link>, n: nat, b: nat) {
    n > 0 && forall l :: l in s ==> Class(m.hash, l, n) == b
  }

  // Every chain of arr holds nodes of its own bucket only.
  ghost predicate Proper(m: Mem, W: map<Link, seq<Link>>, arr: seq<Link>) {
    forall b :: 0 <= b < |arr| ==> ProperChain(m, Chain(W, arr[b]), |arr|, b)
  }

  ghost predicate Base(m: Mem, g: Ghost) {
    && WalkMap(m.next, g.W)
    && IsPow2(|m.table|) && ArrayOk(m, m.table)
    && m.linked !! m.limbo && m.linked !! m.heads && m.limbo !! m.heads
    && m.linked <= m.next.Keys && m.limbo <= m.next.Keys && m.heads <= m.next.Keys
    && m.linked <= m.hash.Keys && m.limbo <= m.hash.Keys
    && Serves(m, g.W, m.table)
  }

  // ----- what holds during an expansion -----

  ghost predicate ChainOk(m: Mem, g: Ghost, n: nat, b: nat)
    requires b < |g.chains|
  {
    OnlyLinked(m, g.chains[b]) && ProperChain(m, g.chains[b], n, b) && Distinct(g.chains[b])
  }

  // chains are the n chains of the linked nodes.
  ghost predicate ChainsOk(m: Mem, g: Ghost, n: nat) {
    && IsPow2(n) && |g.chains| == n
    && (forall b :: 0 <= b < n ==> ChainOk(m, g, n, b))
    && (forall l :: l in m.linked ==> Class(m.hash, l, n) < n && l in g.chains[Class(m.hash, l, n)])
  }

  ghost predicate CutOk(m: Mem, g: Ghost, n: nat, b: nat)
    requires n > 0 && b < |g.chains| && b < |g.ks|
  {
    var c, k := g.chains[b], g.ks[b];
    && k <= |c|
    && (k < |c| ==> k > 0 && Class(m.hash, c[k - 1], 2 * n) != Class(m.hash, c[k], 2 * n))
  }

  // Before the first round the unzipped part is the first segment: one class only.
  ghost predicate FirstCut(m: Mem, g: Ghost, n: nat, b: nat)
    requires n > 0 && b < |g.chains| && b < |g.ks|
  {
    var c, k := g.chains[b], g.ks[b];
    k <= |c| && forall x :: 0 <= x < k ==> Class(m.hash, c[x], 2 * n) == Class(m.hash, c[0], 2 * n)
  }

  ghost predicate FirstCuts(m: Mem, g: Ghost, n: nat)
  {
    n > 0 && |g.chains| == |g.ks| == n && forall b :: 0 <= b < n ==> FirstCut(m, g, n, b)
  }

  ghost predicate CutsOk(m: Mem, g: Ghost, n: nat)
    requires n > 0
  {
    |g.chains| == |g.ks| == n && forall b :: 0 <= b < n ==> CutOk(m, g, n, b)
  }

  // ----- what a writer action does to the walks of readers -----

  // p's walk gains nodes from gained only, and loses nodes from lost only, if it passes via.
  ghost predicate RelinkedAt(W: map<Link, seq<Link>>, next': map<Link, Ptr>, W': map<Link, seq<Link>>,
                             lost: set<Link>, gained: set<Link>, via: Link, p: Ptr) {
    && Closed(next', p)
    && (forall l :: l in PtrWalk(W', p) ==> l in PtrWalk(W, p) || l in gained)
    && (forall l :: l in PtrWalk(W, p) && !(l in lost && via in PtrWalk(W, p)) ==> l in PtrWalk(W', p))
  }

  ghost predicate Relinked(m: Mem, W: map<Link, seq<Link>>, next': map<Link, Ptr>, W': map<Link, seq<Link>>,
                           lost: set<Link>, gained: set<Link>, via: Link) {
    forall p {:trigger RelinkedAt(W, next', W', lost, gained, via, p)} ::
      Closed(m.next, p) && (forall l :: l in PtrWalk(W, p) ==> l in m.linked + m.limbo)
      ==> RelinkedAt(W, next', W', lost, gained, via, p)
  }

  // The nodes an action takes off the walks that pass Via, and those it adds.
  function Lost(a: WAction): set<Link> {
    match a
    case Detach(b, pre, d) => {d}
    case UnzipOne(pre, q) => SetOf(pre)
    case _ => {}
  }

  function Gained(m: Mem, a: WAction): set<Link> {
    if a.StoreSplice? then m.linked else {}
  }

  function Via(m: Mem, a: WAction): Link {
    match a
    case Detach(b, pre, d) => if pre != [] then Last(pre) else if b < |m.table| then m.table[b] else 0
    case UnzipOne(pre, q) =>
      if m.w.Unzip? && m.w.b < |m.w.src| && Load(m, m.w.src[m.w.b]).To? then Load(m, m.w.src[m.w.b]).link else 0
    case _ => 0
  }

  ghost predicate TwinAt(m: Mem, g: Ghost, arr: seq<Link>, n: nat, i: nat)
    requires n > 0 && |g.chains| == |g.ks| == n && i < |arr| == 2 * n
  {
    CutOk(m, g, n, Half(i, n)) && Chain(g.W, arr[i]) == Mix(m.hash, g.chains[Half(i, n)], g.ks[Half(i, n)], 2 * n, i)
  }

  // arr is the doubled array over the half-unzipped chains.
  ghost predicate Twins(m: Mem, g: Ghost, arr: seq<Link>, n: nat) {
    && n > 0 && ChainsOk(m, g, n) && CutsOk(m, g, n) && |arr| == 2 * n
    && forall i :: 0 <= i < 2 * n ==> TwinAt(m, g, arr, n, i)
  }

  // The value findFirstUnzipPoint and unzipOneSegment leave in an old head.
  function JumpPtr(c: seq<Link>, k: nat): Ptr
    requires k <= |c|
  {
    if 0 < k < |c| then To(c[k - 1]) else Null
  }

  ghost predicate JumpAt(m: Mem, g: Ghost, src: seq<Link>, b: nat)
    requires b < |src| == |g.chains| == |g.ks|
  {
    g.ks[b] <= |g.chains[b]| && Load(m, src[b]) == JumpPtr(g.chains[b], g.ks[b])
  }

  ghost predicate SameChain(g: Ghost, src: seq<Link>, b: nat)
    requires b < |src| == |g.chains|
  {
    Chain(g.W, src[b]) == g.chains[b]
  }

  ghost predicate Disjoint(a: seq<Link>, b: seq<Link>) {
    forall l :: l in a ==> l !in b
  }

  ghost predicate Beside(m: Mem, src: seq<Link>) {
    ArrayOk(m, src) && Disjoint(src, m.table)
  }

  ghost predicate Unpublished(m: Mem, g: Ghost, src: seq<Link>) {
    Beside(m, src) && |src| == |g.chains| && forall b :: 0 <= b < |src| ==> SameChain(g, src, b)
  }

  ghost predicate Jumps(m: Mem, g: Ghost, src: seq<Link>) {
    && Beside(m, src) && |src| == |g.chains| == |g.ks|
    && forall b :: 0 <= b < |src| ==> JumpAt(m, g, src, b)
  }

  // ----- what holds during a shrink -----

  ghost predicate MergedAt(g: Ghost, arr: seq<Link>, n: nat, b: nat)
    requires b < n <= |arr| && |g.chains| == 2 * n
  {
    Chain(g.W, arr[b]) == g.chains[b] + g.chains[b + n]
  }

  // Readers of the published array: the first done lists have their partner appended.
  ghost predicate SplicedAt(m: Mem, g: Ghost, n: nat, done: nat, b: nat)
    requires b < |m.table| == 2 * n && |g.chains| == 2 * n && done <= n
  {
    if b < done && g.chains[b] != [] then MergedAt(g, m.table, n, b) else SameChain(g, m.table, b)
  }

  ghost predicate Merging(m: Mem, g: Ghost, dst: seq<Link>, done: nat, i: nat) {
    var n := |dst|;
    && Beside(m, dst) && |m.table| == 2 * n && i <= n && done <= n && ChainsOk(m, g, 2 * n)
    && (forall b :: 0 <= b < 2 * n ==> SplicedAt(m, g, n, done, b))
    && (forall b :: 0 <= b < i ==> MergedAt(g, dst, n, b))
  }

  // ----- the writer's phases -----

  ghost predicate PhaseOk(m: Mem, g: Ghost) {
    match m.w
    case Idle => Proper(m, g.W, m.table)
    case LinkHead(n, b) =>
      && Proper(m, g.W, m.table)
      && b < |m.table| && n in m.next && n in m.hash
      && n !in m.linked && n !in m.limbo && n !in m.heads
      && BucketOf(m.hash[n], |m.table|) == b
      && m.next[n] == Load(m, m.table[b])
    case InitTwin(dst, i) =>
      && Proper(m, g.W, m.table)
      && var n := |m.table|;
      && ChainsOk(m, g, n) && CutsOk(m, g, n) && FirstCuts(m, g, n) && Beside(m, dst) && |dst| == 2 * n && i <= 2 * n
      && (forall b :: 0 <= b < n ==> SameChain(g, m.table, b))
      && (forall j :: 0 <= j < i ==> TwinAt(m, g, dst, n, j))
    case ExpandPublished(src) => Published(m, g, src)
    case FindStarts(src, b) =>
      && Twins(m, g, m.table, |src|) && FirstCuts(m, g, |src|) && Beside(m, src) && b <= |src|
      && (forall j :: 0 <= j < b ==> JumpAt(m, g, src, j))
      && (forall j :: b <= j < |src| ==> SameChain(g, src, j))
    case Unzip(src, b, again) =>
      && Twins(m, g, m.table, |src|) && Jumps(m, g, src) && b <= |src|
      && (!again ==> forall j :: 0 <= j < b ==> g.ks[j] == |g.chains[j]|)
    case Splice(dst, i) => Merging(m, g, dst, i, i)
    case SetHead(dst, i) => i < |dst| && Merging(m, g, dst, i + 1, i)
    case ShrinkPublished(src) => Shrunk(m, g, src)
    case Sync(ToIdle) => Proper(m, g.W, m.table)
    case Sync(ToFindStarts(src)) => Published(m, g, src)
    case Sync(ToUnzip(src)) => Twins(m, g, m.table, |src|) && Jumps(m, g, src)
    case Sync(ToFree(src)) => Shrunk(m, g, src)
  }

  ghost predicate Published(m: Mem, g: Ghost, src: seq<Link>) {
    Twins(m, g, m.table, |src|) && FirstCuts(m, g, |src|) && Unpublished(m, g, src) && Serves(m, g.W, src)
  }

  ghost predicate Shrunk(m: Mem, g: Ghost, src: seq<Link>) {
    Proper(m, g.W, m.table) && Beside(m, src) && IsPow2(|src|) && Serves(m, g.W, src)
  }

  ghost predicate Struct(m: Mem, g: Ghost) {
    Base(m, g) && PhaseOk(m, g)
  }

  // ----- the readers -----

  // The array that was replaced and may still be held by readers the grace period waits for.
  function Replaced(w: Writer): seq<Link> {
    match w
    case ExpandPublished(src) => src
    case ShrinkPublished(src) => src
    case Sync(ToFindStarts(src)) => src
    case Sync(ToFree(src)) => src
    case _ => []
  }

  // The old array whose chains are being unzipped after the first grace period began.
  function Unzipping(w: Writer): seq<Link> {
    match w
    case FindStarts(src, _) => src
    case Unzip(src, _, _) => src
    case Sync(ToFindStarts(src)) => src
    case Sync(ToUnzip(src)) => src
    case _ => []
  }

  // What a reader may hold or meet: once a grace period has begun without it, linked nodes only.
  function Reachable(m: Mem, gp: GP.Gp, t: Tid): set<Link> {
    if gp.syncing && t !in gp.waiting then m.linked else m.linked + m.limbo
  }

  // A lookup for hash h at p would walk through the jump start of its chain, although that node
  // belongs to the other half: the next unzip store there would make it miss nodes.
  ghost predicate Endangered(m: Mem, g: Ghost, h: nat, p: Ptr) {
    var n := |Unzipping(m.w)|;
    && n > 0
    && var b := BucketOf(h, n);
    && b < |g.chains| && b < |g.ks|
    && var c, k := g.chains[b], g.ks[b];
    && 0 < k < |c| && c[k - 1] in PtrWalk(g.W, p)
    && Class(m.hash, c[k - 1], 2 * n) != BucketOf(h, 2 * n)
  }

  // ... which is harmless while a grace period will still wait for that reader.
  predicate Excused(w: Writer, gp: GP.Gp, t: Tid, b: nat) {
    match w
    case Sync(_) => t in gp.waiting
    case Unzip(_, done, _) => b < done
    case _ => false
  }

  ghost predicate CursorOk(m: Mem, g: Ghost, gp: GP.Gp, t: Tid, h: nat, p: Ptr) {
    && Closed(m.next, p)
    && (forall l :: l in PtrWalk(g.W, p) ==> l in Reachable(m, gp, t))
    && (Endangered(m, g, h, p) ==> Excused(m.w, gp, t, BucketOf(h, |Unzipping(m.w)|)))
  }

  ghost predicate InfoOk(m: Mem, gp: GP.Gp, t: Tid, info: seq<Link>) {
    info == m.table || (info == Replaced(m.w) && |info| > 0 && (gp.syncing ==> t in gp.waiting))
  }

  ghost predicate LookOk(m: Mem, g: Ghost, gp: GP.Gp, t: Tid, k: Look) {
    match k
    case HasInfo(h, want, info) => InfoOk(m, gp, t, info)
    case At(h, want, p) => CursorOk(m, g, gp, t, h, p)
    case _ => true
  }

  ghost predicate ReaderOk(m: Mem, g: Ghost, gp: GP.Gp, t: Tid, r: Reader) {
    match r
    case Out => t !in gp.inside
    case In(hits, k) =>
      t in gp.inside && hits <= Reachable(m, gp, t) && LookOk(m, g, gp, t, k)
  }

  ghost predicate GpOk(m: Mem, gp: GP.Gp) {
    GP.Valid(gp) && (gp.syncing <==> m.w.Sync?)
  }

  ghost predicate Inv(s: State, g: Ghost) {
    && Struct(s.m, g)
    && GpOk(s.m, s.gp)
    && (forall t :: 0 <= t < |s.rs| ==> ReaderOk(s.m, g, s.gp, t, s.rs[t]))
    && (forall t :: t in s.gp.inside ==> t < |s.rs|)
  }
}
