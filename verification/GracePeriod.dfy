// The abstract service an RCU zone gives to its users: a synchronize call that waits for exactly
// the readers that were inside a critical section when it began.
module GracePeriod {

  type Tid = nat

  datatype Gp = Gp(inside: set<Tid>, syncing: bool, waiting: set<Tid>)

  // What a step of the zone means to its users.
  datatype Event = Enter(t: Tid) | Leave(t: Tid) | SyncBegin | SyncEnd | Internal

  predicate Next(g: Gp, e: Event, g': Gp) {
    match e
    case Enter(t) => t !in g.inside && g' == g.(inside := g.inside + {t})
    case Leave(t) => t in g.inside && g' == g.(inside := g.inside - {t}, waiting := g.waiting - {t})
    case SyncBegin => !g.syncing && g' == g.(syncing := true, waiting := g.inside)
    case SyncEnd => g.syncing && g.waiting == {} && g' == g.(syncing := false)
    case Internal => g' == g
  }

  predicate Valid(g: Gp) {
    g.waiting <= g.inside && (!g.syncing ==> g.waiting == {})
  }

  // A run: gs[k + 1] follows gs[k] by event es[k].
  predicate Run(gs: seq<Gp>, es: seq<Event>) {
    && |gs| == |es| + 1
    && forall k {:trigger es[k]} :: 0 <= k < |es| ==> Next(gs[k], es[k], gs[k + 1])
  }

  // A reader that was inside when a synchronize call began has left by the time it returns.
  lemma {:induction false} SyncWaits(gs: seq<Gp>, es: seq<Event>, b: nat, e: nat, t: Tid)
    requires Run(gs, es) && b < e < |es|
    requires es[b] == SyncBegin && t in gs[b].inside
    requires forall k :: b < k < e ==> es[k] != SyncEnd
    requires es[e] == SyncEnd
    ensures exists k :: b < k < e && es[k] == Leave(t)
  {
    var m := b + 1;
    while m < e
      invariant b < m <= e
      invariant t in gs[m].waiting || exists k :: b < k < m && es[k] == Leave(t)
      invariant gs[m].syncing
    {
      assert Next(gs[m], es[m], gs[m + 1]);
      m := m + 1;
    }
    assert Next(gs[e], es[e], gs[e + 1]);
  }
}
