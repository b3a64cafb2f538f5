// The relativistic hash table under concurrent readers, as a transition system.
//
// Bucket heads and nodes are both links of one heap, so every store of the writer has the shape
// next[a] := q. A BucketsInfo is the sequence of its head links. Each writer action performs at
// most one store that a reader can see; stores to arrays no reader can hold are grouped with it.
module TableMachine {
  import opened Bits
  import opened Walks
  import opened Chains
  import GP = GracePeriod

  type Tid = nat

  // What rcuSynchronize returns to.
  datatype Resume =
    | ToIdle
    | ToFindStarts(arr: seq<Link>)
    | ToUnzip(arr: seq<Link>)
    | ToFree(arr: seq<Link>)

  // Where the one serialized writer stands.
  datatype Writer =
    | Idle
    | LinkHead(n: Link, b: nat)                      // insert: node prepared, head store pending
    | InitTwin(dst: seq<Link>, i: nat)               // expand: heads 0..i of the new array are set
    | ExpandPublished(src: seq<Link>)                // expand: new array published
    | FindStarts(src: seq<Link>, b: nat)             // expand: first grace period is over
    | Unzip(src: seq<Link>, b: nat, again: bool)     // expand: this round has done buckets 0..b
    | Splice(dst: seq<Link>, i: nat)                 // shrink: pairs 0..i are merged
    | SetHead(dst: seq<Link>, i: nat)                // shrink: pair i is spliced, its head pending
    | ShrinkPublished(src: seq<Link>)
    | Sync(resume: Resume)                             // inside rcuSynchronize

  // linked and limbo are the client's ledger: the nodes in the table, and the nodes detached
  // since the last completed grace period. heads are the links ever allocated as bucket heads.
  datatype Mem = Mem(
    next: map<Link, Ptr>, hash: map<Link, nat>, table: seq<Link>,
    heads: set<Link>, linked: set<Link>, limbo: set<Link>, w: Writer)

  // A lookup for hash value h; its predicate accepts node l when l is in want and has hash h.
  datatype Look =
    | Rest
    | HasInfo(h: nat, want: set<Link>, info: seq<Link>)
    | At(h: nat, want: set<Link>, p: Ptr)
    | Found(n: Link)
    | Missed

  // hits are the nodes the current critical section has been given by its lookups.
  datatype Reader = Out | In(hits: set<Link>, look: Look)

  function Load(m: Mem, l: Link): Ptr {
    if l in m.next then m.next[l] else Null
  }

  function Store(m: Mem, a: Link, q: Ptr): Mem {
    m.(next := m.next[a := q])
  }

  // n is reachable for a new lookup of its hash value.
  ghost predicate Linked(m: Mem, n: Link) {
    && n in m.hash && |m.table| > 0 && Class(m.hash, n, |m.table|) < |m.table|
    && Reaches(m.next, Load(m, m.table[Class(m.hash, n, |m.table|)]), n)
  }

  // ----- writer -----

  datatype WAction =
    | BeginInsert(n: Link, h: nat) | StoreHead
    | Detach(b: nat, pre: seq<Link>, d: Link)
    | BeginExpand(dst: seq<Link>) | StoreTwin(pre: seq<Link>, q: Ptr) | PublishTwins
    | FindStart(pre: seq<Link>, q: Ptr) | FindSkip | FindDone
    | UnzipOne(pre: seq<Link>, q: Ptr) | UnzipSkip | UnzipDone
    | BeginShrink(dst: seq<Link>) | StoreSplice(pre: seq<Link>) | SpliceSkip | StoreMerged | PublishMerged
    | BeginSync | EndSync

  // rTableCoreTryInsertNoExpand up to the store into the new node: the client hands over a node
  // that is not in the table and not waiting for a grace period.
  predicate DoBeginInsert(m: Mem, n: Link, h: nat, m': Mem) {
    && m.w == Idle && n !in m.linked && n !in m.limbo && n !in m.heads && |m.table| > 0
    && var b := BucketOf(h, |m.table|);
    && b < |m.table|
    && m' == Store(m, n, Load(m, m.table[b])).(hash := m.hash[n := h], w := LinkHead(n, b))
  }

  predicate DoStoreHead(m: Mem, m': Mem) {
    && m.w.LinkHead? && m.w.b < |m.table|
    && m' == Store(m, m.table[m.w.b], To(m.w.n)).(linked := m.linked + {m.w.n}, w := Idle)
  }

  // rcuSlistRemoveIf: the walk from the head passes pre and arrives at d, which is unlinked.
  predicate DoDetach(m: Mem, b: nat, pre: seq<Link>, d: Link, m': Mem) {
    && m.w == Idle && b < |m.table|
    && Seg(m.next, Load(m, m.table[b]), pre, To(d))
    && var last := if pre == [] then m.table[b] else Last(pre);
    && m' == Store(m, last, Load(m, d)).(linked := m.linked - {d}, limbo := m.limbo + {d})
  }

  predicate DoAllocate(m: Mem, dst: seq<Link>, w: Writer, m': Mem) {
    && Distinct(dst) && (forall l :: l in dst ==> l !in m.next && l !in m.heads)
    && m' == m.(next := AddEmpty(m.next, SetOf(dst)), heads := m.heads + SetOf(dst), w := w)
  }

  predicate DoBeginExpand(m: Mem, dst: seq<Link>, m': Mem) {
    m.w == Idle && |dst| == 2 * |m.table| && DoAllocate(m, dst, InitTwin(dst, 0), m')
  }

  // initTwinDstBuckets, for one destination bucket: q is the first node of the old chain that
  // belongs to it.
  predicate DoStoreTwin(m: Mem, pre: seq<Link>, q: Ptr, m': Mem) {
    && m.w.InitTwin? && 0 < |m.table| && |m.w.dst| == 2 * |m.table| && m.w.i < |m.w.dst|
    && var i, n := m.w.i, |m.table|;
    && Seg(m.next, Load(m, m.table[if i < n then i else i - n]), pre, q)
    && (forall l :: l in pre ==> Class(m.hash, l, 2 * n) != i)
    && (q.To? ==> Class(m.hash, q.link, 2 * n) == i)
    && m' == Store(m, m.w.dst[i], q).(w := InitTwin(m.w.dst, i + 1))
  }

  predicate DoPublishTwins(m: Mem, m': Mem) {
    && m.w.InitTwin? && m.w.i == |m.w.dst|
    && m' == m.(table := m.w.dst, w := ExpandPublished(m.table))
  }

  // findFirstUnzipPoint: pre is the first segment, q what follows it. The old head is set to the
  // last node of the segment, or to null when nothing follows.
  predicate DoFindStart(m: Mem, pre: seq<Link>, q: Ptr, m': Mem) {
    && m.w.FindStarts? && m.w.b < |m.w.src| && pre != []
    && var n2, h := 2 * |m.w.src|, m.w.src[m.w.b];
    && Seg(m.next, Load(m, h), pre, q)
    && (forall l :: l in pre ==> Class(m.hash, l, n2) == Class(m.hash, pre[0], n2))
    && (q.To? ==> Class(m.hash, q.link, n2) != Class(m.hash, pre[0], n2))
    && m' == Store(m, h, if q.To? then To(Last(pre)) else Null).(w := FindStarts(m.w.src, m.w.b + 1))
  }

  predicate DoFindSkip(m: Mem, m': Mem) {
    && m.w.FindStarts? && m.w.b < |m.w.src| && Load(m, m.w.src[m.w.b]) == Null
    && m' == m.(w := FindStarts(m.w.src, m.w.b + 1))
  }

  predicate DoFindDone(m: Mem, m': Mem) {
    m.w.FindStarts? && m.w.b == |m.w.src| && m' == m.(w := Unzip(m.w.src, 0, false))
  }

  // unzipOneSegment: the old head points to the jump start a; pre is the segment of the other
  // target that follows a, and q what follows that segment.
  predicate DoUnzipOne(m: Mem, pre: seq<Link>, q: Ptr, m': Mem) {
    && m.w.Unzip? && m.w.b < |m.w.src| && pre != []
    && var n2, h := 2 * |m.w.src|, m.w.src[m.w.b];
    && Load(m, h).To?
    && var a := Load(m, h).link;
    && Seg(m.next, Load(m, a), pre, q)
    && (forall l :: l in pre ==> Class(m.hash, l, n2) != Class(m.hash, a, n2))
    && (q.To? ==> Class(m.hash, q.link, n2) == Class(m.hash, a, n2))
    && m' == Store(Store(m, h, if q.To? then To(Last(pre)) else Null), a, q)
             .(w := Unzip(m.w.src, m.w.b + 1, true))
  }

  predicate DoUnzipSkip(m: Mem, m': Mem) {
    && m.w.Unzip? && m.w.b < |m.w.src| && Load(m, m.w.src[m.w.b]) == Null
    && m' == m.(w := Unzip(m.w.src, m.w.b + 1, m.w.again))
  }

  // A round that found nothing to do ends the expansion; the old array is freed.
  predicate DoUnzipDone(m: Mem, m': Mem) {
    m.w.Unzip? && m.w.b == |m.w.src| && !m.w.again && m' == m.(w := Idle)
  }

  predicate DoBeginShrink(m: Mem, dst: seq<Link>, m': Mem) {
    m.w == Idle && |m.table| >= 2 && |dst| == |m.table| / 2 && DoAllocate(m, dst, Splice(dst, 0), m')
  }

  predicate MergingPair(m: Mem) {
    && (m.w.Splice? || m.w.SetHead?)
    && m.w.i < |m.w.dst| && |m.table| == 2 * |m.w.dst|
  }

  // shrinkTwoBucketsToOne: both lists have elements, pre is the first list.
  predicate DoStoreSplice(m: Mem, pre: seq<Link>, m': Mem) {
    && m.w.Splice? && MergingPair(m)
    && var src0, src1 := m.table[m.w.i], m.table[m.w.i + |m.w.dst|];
    && Load(m, src1).To? && pre != [] && Seg(m.next, Load(m, src0), pre, Null)
    && m' == Store(m, Last(pre), Load(m, src1)).(w := SetHead(m.w.dst, m.w.i))
  }

  predicate DoSpliceSkip(m: Mem, m': Mem) {
    && m.w.Splice? && MergingPair(m)
    && (Load(m, m.table[m.w.i]) == Null || Load(m, m.table[m.w.i + |m.w.dst|]) == Null)
    && m' == m.(w := SetHead(m.w.dst, m.w.i))
  }

  predicate DoStoreMerged(m: Mem, m': Mem) {
    && m.w.SetHead? && MergingPair(m)
    && var p0, p1 := Load(m, m.table[m.w.i]), Load(m, m.table[m.w.i + |m.w.dst|]);
    && m' == Store(m, m.w.dst[m.w.i], if p0 == Null then p1 else p0).(w := Splice(m.w.dst, m.w.i + 1))
  }

  predicate DoPublishMerged(m: Mem, m': Mem) {
    && m.w.Splice? && m.w.i == |m.w.dst|
    && m' == m.(table := m.w.dst, w := ShrinkPublished(m.table))
  }

  predicate DoBeginSync(m: Mem, m': Mem) {
    match m.w
    case Idle => m' == m.(w := Sync(ToIdle))
    case ExpandPublished(src) => m' == m.(w := Sync(ToFindStarts(src)))
    case Unzip(src, b, again) => b == |src| && again && m' == m.(w := Sync(ToUnzip(src)))
    case ShrinkPublished(src) => m' == m.(w := Sync(ToFree(src)))
    case _ => false
  }

  // After the grace period the client owns everything it had detached.
  predicate DoEndSync(m: Mem, m': Mem) {
    && m.w.Sync?
    && m' == m.(limbo := {},
                w := match m.w.resume
                     case ToFindStarts(src) => FindStarts(src, 0)
                     case ToUnzip(src) => Unzip(src, 0, false)
                     case _ => Idle)
  }

  predicate WStep(m: Mem, a: WAction, m': Mem) {
    match a
    case BeginInsert(n, h) => DoBeginInsert(m, n, h, m')
    case StoreHead => DoStoreHead(m, m')
    case Detach(b, pre, d) => DoDetach(m, b, pre, d, m')
    case BeginExpand(dst) => DoBeginExpand(m, dst, m')
    case StoreTwin(pre, q) => DoStoreTwin(m, pre, q, m')
    case PublishTwins => DoPublishTwins(m, m')
    case FindStart(pre, q) => DoFindStart(m, pre, q, m')
    case FindSkip => DoFindSkip(m, m')
    case FindDone => DoFindDone(m, m')
    case UnzipOne(pre, q) => DoUnzipOne(m, pre, q, m')
    case UnzipSkip => DoUnzipSkip(m, m')
    case UnzipDone => DoUnzipDone(m, m')
    case BeginShrink(dst) => DoBeginShrink(m, dst, m')
    case StoreSplice(pre) => DoStoreSplice(m, pre, m')
    case SpliceSkip => DoSpliceSkip(m, m')
    case StoreMerged => DoStoreMerged(m, m')
    case PublishMerged => DoPublishMerged(m, m')
    case BeginSync => DoBeginSync(m, m')
    case EndSync => DoEndSync(m, m')
  }

  // ----- readers -----

  datatype RAction = StartFind(h: nat, want: set<Link>) | LoadHead | Examine

  predicate RStep(m: Mem, r: Reader, a: RAction, r': Reader) {
    && r.In?
    && match a
       case StartFind(h, want) =>
         && (r.look.Rest? || r.look.Found? || r.look.Missed?)
         && r' == r.(look := HasInfo(h, want, m.table))
       case LoadHead =>
         && r.look.HasInfo? && |r.look.info| > 0 && BucketOf(r.look.h, |r.look.info|) < |r.look.info|
         && r' == r.(look := At(r.look.h, r.look.want, Load(m, r.look.info[BucketOf(r.look.h, |r.look.info|)])))
       case Examine =>
         && r.look.At?
         && r' == match r.look.p
                  case Null => r.(look := Missed)
                  case To(l) =>
                    if l in r.look.want && l in m.hash && m.hash[l] == r.look.h
                    then In(r.hits + {l}, Found(l))
                    else r.(look := r.look.(p := Load(m, l)))
  }

  // ----- the whole system, over an abstract grace period -----

  datatype State = State(m: Mem, rs: seq<Reader>, gp: GP.Gp)

  // Pause is a step in which something outside the table happens.
  datatype Action = Read(t: Tid, ra: RAction) | Write(wa: WAction) | Enter(t: Tid) | Leave(t: Tid) | Pause

  function EventOf(a: Action): GP.Event {
    match a
    case Enter(t) => GP.Enter(t)
    case Leave(t) => GP.Leave(t)
    case Write(BeginSync) => GP.SyncBegin
    case Write(EndSync) => GP.SyncEnd
    case _ => GP.Internal
  }

  predicate TableStep(m: Mem, rs: seq<Reader>, a: Action, m': Mem, rs': seq<Reader>) {
    match a
    case Read(t, ra) =>
      && m' == m && t < |rs| == |rs'| && RStep(m, rs[t], ra, rs'[t]) && rs' == rs[t := rs'[t]]
    case Write(wa) => rs' == rs && WStep(m, wa, m')
    case Enter(t) => m' == m && t < |rs| && rs[t] == Out && rs' == rs[t := In({}, Rest)]
    case Leave(t) =>
      && m' == m && t < |rs| && rs[t].In? && !rs[t].look.HasInfo? && !rs[t].look.At?
      && rs' == rs[t := Out]
    case Pause => m' == m && rs' == rs
  }

  predicate Step(s: State, a: Action, s': State) {
    TableStep(s.m, s.rs, a, s'.m, s'.rs) && GP.Next(s.gp, EventOf(a), s'.gp)
  }

  // rTableCoreInitDetailed: a power-of-two array of empty buckets, and no reader inside.
  predicate Init(s: State) {
    && IsPow2(|s.m.table|) && Distinct(s.m.table)
    && s.m.next == (map l | l in s.m.table :: Null)
    && s.m.heads == SetOf(s.m.table)
    && s.m.hash == map[] && s.m.linked == {} && s.m.limbo == {} && s.m.w == Idle
    && (forall t :: 0 <= t < |s.rs| ==> s.rs[t] == Out)
    && s.gp == GP.Gp({}, false, {})
  }
}
