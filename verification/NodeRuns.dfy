/** Whole runs of the node registry: registrations, deregistrations, deaths of nodes and late replies in any order. */
module NodeRuns {
  import opened Wrappers
  import opened Bytes
  import opened NodeRegistry

  /**
   `handleOf` is the handle a node object stores, `issued` the history of successful registrations
   and `increments` how often the counter has moved.
   */
  datatype World<N> = World(handles: map<u64, N>, counter: u64, handleOf: map<N, u64>, gone: set<N>,
                            issued: seq<(u64, N)>, increments: nat)

  datatype Event<N> = Register(n: N) | Unregister(n: N) | Die(n: N) | Reply(handle: u64)

  ghost function Start<N>(): World<N> {
    World(map[], 0, map[], {}, [], 0)
  }

  function HandleOf<N>(w: World<N>, n: N): u64 {
    if n in w.handleOf then w.handleOf[n] else 0
  }

  function Target<N>(w: World<N>, handle: u64): Option<N> {
    if handle in w.handles && w.handles[handle] !in w.gone then Some(w.handles[handle]) else None
  }

  ghost predicate RegisterStep<N>(w: World<N>, n: N, w': World<N>, k: nat) {
    && Registers(w.handles, w.counter, n, w'.handles, w'.counter, k)
    && w' == World(w'.handles, w'.counter, w.handleOf[n := w'.counter], w.gone,
                   w.issued + [(w'.counter, n)], w.increments + k)
  }

  ghost predicate Next<N>(w: World<N>, e: Event<N>, w': World<N>) {
    match e
    case Register(n) =>
      if |w.handles| == MAX_INT32 then w' == w else exists k :: RegisterStep(w, n, w', k)
    case Unregister(n) => w' == w.(handles := w.handles - {HandleOf(w, n)})
    case Die(n) => w' == w.(gone := w.gone + {n})
    case Reply(_) => w' == w
  }

  ghost predicate Run<N>(ws: seq<World<N>>, es: seq<Event<N>>) {
    && |ws| == |es| + 1
    && ws[0] == Start()
    && forall i | 0 <= i < |es| :: Next(ws[i], es[i], ws[i + 1])
  }

  /** A node registers only while it has no entry, as the constructors that register nodes do. */
  ghost predicate Careful<N>(ws: seq<World<N>>, es: seq<Event<N>>) {
    |ws| == |es| + 1 && forall i | 0 <= i < |es| && es[i].Register? :: es[i].n !in ws[i].handles.Values
  }

  // ---------------------------------------------------------------- what every step keeps

  /** Every entry leads to a node that stores the handle. */
  ghost predicate Linked<N>(w: World<N>) {
    forall h | h in w.handles :: w.handles[h] in w.handleOf && w.handleOf[w.handles[h]] == h
  }

  /** Every entry was issued to its node, and so was every stored handle. */
  ghost predicate Issued<N>(w: World<N>) {
    && |w.handles| <= MAX_INT32
    && (forall h | h in w.handles :: (h, w.handles[h]) in w.issued)
    && (forall n | n in w.handleOf :: (w.handleOf[n], n) in w.issued)
  }

  /** The first 2^64 handles are issued in order; only a counter that has come round skips values. */
  ghost predicate Counted<N>(w: World<N>) {
    && (forall i | 0 <= i < |w.issued| && i < WRAP :: w.issued[i].0 == (i + 1) % WRAP)
    && (w.increments <= WRAP ==> |w.issued| == w.increments && w.counter == w.increments % WRAP)
    && (w.increments > WRAP ==> |w.issued| > WRAP)
  }

  ghost predicate Consistent<N>(w: World<N>) {
    Issued(w) && Counted(w)
  }

  lemma LiveHandlesAreBehind<N>(w: World<N>, h: u64)
    requires Consistent(w)
    ensures w.increments < WRAP && h in w.handles ==> 1 <= h <= w.increments
  {
    if w.increments < WRAP && h in w.handles {
      var i :| 0 <= i < |w.issued| && w.issued[i] == (h, w.handles[h]);
      SmallIsItsRemainder(i + 1);
    }
  }

  /** Before the counter has come round, the next value is free: the search takes one step. */
  lemma NextIsFree<N>(w: World<N>, k: nat)
    requires Consistent(w) && w.increments < WRAP && FirstFree(w.handles.Keys, w.counter, k)
    ensures k == 1 && Ahead(w.counter, k) == (w.increments + 1) % WRAP
  {
    SmallIsItsRemainder(w.increments);
    SmallIsItsRemainder(w.increments + 1);
    var h := Ahead(w.counter, 1);
    assert h == (w.increments + 1) % WRAP;
    if h in w.handles {
      hide Counted, Issued, Ahead;
      LiveHandlesAreBehind(w, h);
    }
  }

  lemma UpdateSize<N>(m: map<u64, N>, h: u64, n: N)
    ensures |m[h := n]| <= |m| + 1
  {
    assert m[h := n].Keys == m.Keys + {h};
    KeysAreCounted(m);
    KeysAreCounted(m[h := n]);
  }

  lemma RegisterKeepsIssued<N>(w: World<N>, n: N, w': World<N>, k: nat)
    requires Issued(w) && |w.handles| < MAX_INT32 && RegisterStep(w, n, w', k)
    ensures Issued(w')
  {
    hide FirstFree;
    UpdateSize(w.handles, w'.counter, n);
    assert w'.issued[|w.issued|] == (w'.counter, n);
    forall h | h in w'.handles
      ensures (h, w'.handles[h]) in w'.issued
    {
      if h != w'.counter {
        assert (h, w.handles[h]) in w.issued;
      }
    }
    forall x | x in w'.handleOf
      ensures (w'.handleOf[x], x) in w'.issued
    {
      if x != n {
        assert (w.handleOf[x], x) in w.issued;
      }
    }
  }

  lemma HistoryStaysCounted<N>(w: World<N>, issue: (u64, N), k: nat, w': World<N>)
    requires Counted(w) && k >= 1 && w'.issued == w.issued + [issue] && w'.increments == w.increments + k
    requires w'.counter == issue.0
    requires w.increments < WRAP ==> k == 1 && issue.0 == (w.increments + 1) % WRAP
    ensures Counted(w')
  {
    forall i | 0 <= i < |w'.issued| && i < WRAP
      ensures w'.issued[i].0 == (i + 1) % WRAP
    {
      if i < |w.issued| {
        assert w'.issued[i] == w.issued[i];
      }
    }
  }

  lemma RegisterKeepsCounted<N>(w: World<N>, n: N, w': World<N>, k: nat)
    requires Consistent(w) && RegisterStep(w, n, w', k)
    ensures Counted(w')
  {
    hide Issued, Counted, Ahead, IssuedOnce;
    if w.increments < WRAP {
      NextIsFree(w, k);
    }
    HistoryStaysCounted(w, (w'.counter, n), k, w');
  }

  lemma StepKeepsConsistency<N>(w: World<N>, e: Event<N>, w': World<N>)
    requires Consistent(w) && Next(w, e, w')
    ensures Consistent(w')
    ensures w.issued <= w'.issued && w.gone <= w'.gone
  {
    match e
    case Register(n) =>
      if |w.handles| != MAX_INT32 {
        var k :| RegisterStep(w, n, w', k);
        RegisterKeepsIssued(w, n, w', k);
        RegisterKeepsCounted(w, n, w', k);
      }
    case Unregister(n) =>
      SubsetSize(w'.handles.Keys, w.handles.Keys);
      KeysAreCounted(w.handles);
      KeysAreCounted(w'.handles);
    case _ =>
  }

  lemma StepKeepsLinks<N>(w: World<N>, e: Event<N>, w': World<N>)
    requires Linked(w) && Next(w, e, w') && (e.Register? ==> e.n !in w.handles.Values)
    ensures Linked(w')
  {
    hide FirstFree;
  }

  lemma {:induction false} RunIsLinked<N>(ws: seq<World<N>>, es: seq<Event<N>>, i: nat)
    requires Run(ws, es) && Careful(ws, es) && i < |ws|
    ensures Linked(ws[i])
  {
    if i > 0 {
      hide Linked, Next;
      RunIsLinked(ws, es, i - 1);
      StepKeepsLinks(ws[i - 1], es[i - 1], ws[i]);
    }
    assert Linked<N>(Start());
  }

  lemma {:induction false} RunIsConsistent<N>(ws: seq<World<N>>, es: seq<Event<N>>, i: nat)
    requires Run(ws, es) && i < |ws|
    ensures Consistent(ws[i])
  {
    if i == 0 {
    } else {
      hide Consistent, Next;
      RunIsConsistent(ws, es, i - 1);
      StepKeepsConsistency(ws[i - 1], es[i - 1], ws[i]);
    }
  }

  lemma {:induction false} HistoryGrows<N>(ws: seq<World<N>>, es: seq<Event<N>>, i: nat, j: nat)
    requires Run(ws, es) && i <= j < |ws|
    ensures ws[i].issued <= ws[j].issued && ws[i].gone <= ws[j].gone
  {
    if i == j {
    } else {
      hide Consistent, Next;
      HistoryGrows(ws, es, i, j - 1);
      RunIsConsistent(ws, es, j - 1);
      StepKeepsConsistency(ws[j - 1], es[j - 1], ws[j]);
    }
  }

  // ---------------------------------------------------------------- routing

  /**
   At any time, a handle leads only to a live node that was issued it. If no node registers twice, that node knows the
   handle as its own, and no other handle leads to it.
   */
  lemma RoutingIsSafe<N>(ws: seq<World<N>>, es: seq<Event<N>>, i: nat, handle: u64, other: u64)
    requires Run(ws, es) && i < |ws| && Target(ws[i], handle).Some?
    ensures
      var n := Target(ws[i], handle).value;
      && n !in ws[i].gone && (handle, n) in ws[i].issued
      && (Careful(ws, es) ==> HandleOf(ws[i], n) == handle && (Target(ws[i], other) == Some(n) ==> other == handle))
  {
    RunIsConsistent(ws, es, i);
    if Careful(ws, es) {
      RunIsLinked(ws, es, i);
    }
  }

  /** A dead node is never reached again. */
  lemma DeadStaySilent<N>(ws: seq<World<N>>, es: seq<Event<N>>, i: nat, j: nat, n: N, handle: u64)
    requires Run(ws, es) && i <= j < |ws| && n in ws[i].gone
    ensures Target(ws[j], handle) != Some(n)
  {
    HistoryGrows(ws, es, i, j);
  }

  /** A node without an entry is not reached until it registers again. */
  lemma {:induction false} UnregisteredStaySilent<N>(ws: seq<World<N>>, es: seq<Event<N>>, i: nat, j: nat, n: N, handle: u64)
    requires Run(ws, es) && i <= j < |ws| && n !in ws[i].handles.Values
    requires forall e | i <= e < j :: es[e] != Register(n)
    ensures n !in ws[j].handles.Values && Target(ws[j], handle) != Some(n)
  {
    if i == j {
    } else {
      UnregisteredStaySilent(ws, es, i, j - 1, n, handle);
      assert Next(ws[j - 1], es[j - 1], ws[j]);
    }
  }

  // ---------------------------------------------------------------- reuse of handles

  ghost predicate IssuedOnce<N>(w: World<N>) {
    forall i, j | 0 <= i < j < |w.issued| :: w.issued[i].0 != w.issued[j].0
  }

  lemma OrderedHandlesAreDistinct<N>(w: World<N>)
    requires Counted(w)
    ensures IssuedOnce(w) <==> w.increments <= WRAP
  {
    if w.increments > WRAP {
      var h := w.issued[WRAP].0;
      var first := if h == 0 then WRAP - 1 else h - 1;
      assert w.issued[first].0 == (first + 1) % WRAP == h;
    }
  }

  /** Handles stay unique exactly as long as the counter has moved at most 2^64 times. */
  lemma IssuedOnceIff<N>(ws: seq<World<N>>, es: seq<Event<N>>, i: nat)
    requires Run(ws, es) && i < |ws|
    ensures IssuedOnce(ws[i]) <==> ws[i].increments <= WRAP
  {
    RunIsConsistent(ws, es, i);
    hide Run, Issued, Counted, IssuedOnce;
    OrderedHandlesAreDistinct(ws[i]);
  }

  /** Up to then, a reply to a handle reaches the node that got the handle, however late, or nobody. */
  lemma LateReplyIsSafe<N>(ws: seq<World<N>>, es: seq<Event<N>>, i: nat, j: nat, handle: u64, n: N)
    requires Run(ws, es) && i <= j < |ws| && (handle, n) in ws[i].issued
    requires ws[j].increments <= WRAP
    ensures Target(ws[j], handle) in {None, Some(n)}
  {
    HistoryGrows(ws, es, i, j);
    RunIsConsistent(ws, es, j);
    IssuedOnceIff(ws, es, j);
    var w := ws[j];
    if handle in w.handles {
      var a :| 0 <= a < |ws[i].issued| && ws[i].issued[a] == (handle, n);
      assert w.issued[a] == (handle, n);
      var b :| 0 <= b < |w.issued| && w.issued[b] == (handle, w.handles[handle]);
      assert a == b;
    }
  }

  /**
   Before the counter comes round, deregistering a node takes no other node's entry away,
   even if the node was refused a handle and still stores 0.
   */
  lemma OnlyOwnEntryIsRemoved<N>(ws: seq<World<N>>, es: seq<Event<N>>, i: nat, n: N)
    requires Run(ws, es) && i < |es| && es[i] == Unregister(n) && ws[i].increments < WRAP
    ensures forall h | h in ws[i].handles && ws[i].handles[h] != n ::
              h in ws[i + 1].handles && ws[i + 1].handles[h] == ws[i].handles[h]
  {
    RunIsConsistent(ws, es, i);
    IssuedOnceIff(ws, es, i);
    assert Next(ws[i], es[i], ws[i + 1]);
    var w := ws[i];
    var own := HandleOf(w, n);
    if own in w.handles && w.handles[own] != n {
      LiveHandlesAreBehind(w, own);
    }
  }
}
