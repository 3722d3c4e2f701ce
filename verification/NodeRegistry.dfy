/**
 The handles under which node objects are known to the backend: a wrapping 64-bit counter,
 a search for a free value, and the routing of replies that carry a handle.
 */
module NodeRegistry {
  import opened Bytes

  const WRAP: int := 0x1_0000_0000_0000_0000

  /** The value of the counter `k` increments after `c`. */
  function Ahead(c: u64, k: nat): u64 {
    (c + k) % WRAP
  }

  lemma SmallIsItsRemainder(x: nat)
    ensures x < WRAP ==> x % WRAP == x
    ensures x == WRAP ==> x % WRAP == 0
  {
  }

  /** `k` increments lead to the first value behind `c` that is not live. */
  ghost predicate FirstFree(live: set<u64>, c: u64, k: nat) {
    && k >= 1
    && Ahead(c, k) !in live
    && forall j | 1 <= j < k :: Ahead(c, j) in live
  }

  /** Fewer than 2^64 increments never visit a value twice. */
  lemma AheadIsInjective(c: u64, j: nat, k: nat)
    requires j < k < j + WRAP
    ensures Ahead(c, j) != Ahead(c, k)
  {
  }

  /** The values seen by the first `k` increments. */
  ghost function Seen(c: u64, k: nat): set<u64> {
    if k == 0 then {} else Seen(c, k - 1) + {Ahead(c, k)}
  }

  lemma {:induction false} SeenIsExact(c: u64, k: nat, x: u64)
    ensures x in Seen(c, k) <==> exists j :: 1 <= j <= k && x == Ahead(c, j)
  {
    if k == 0 {
    } else {
      SeenIsExact(c, k - 1, x);
    }
  }

  lemma {:induction false} SeenSize(c: u64, k: nat)
    requires k <= WRAP
    ensures |Seen(c, k)| == k
  {
    if k == 0 {
    } else {
      SeenSize(c, k - 1);
      SeenIsExact(c, k - 1, Ahead(c, k));
      if Ahead(c, k) in Seen(c, k - 1) {
        var j :| 1 <= j <= k - 1 && Ahead(c, k) == Ahead(c, j);
        AheadIsInjective(c, j, k);
      }
    }
  }

  /** Pigeonhole: as long as not every value is live, the search passes at most the live ones. */
  lemma SearchBound(live: set<u64>, c: u64, k: nat)
    requires |live| < WRAP && forall j | 1 <= j <= k :: Ahead(c, j) in live
    ensures k <= |live|
  {
    var n := if k < WRAP then k else |live| + 1;
    SeenSize(c, n);
    forall x | x in Seen(c, n)
      ensures x in live
    {
      SeenIsExact(c, n, x);
    }
    SubsetSize(Seen(c, n), live);
  }

  lemma {:induction false} SubsetSize<T>(a: set<T>, b: set<T>)
    requires a <= b
    ensures |a| <= |b|
  {
    if a == {} {
    } else {
      var x :| x in a;
      SubsetSize(a - {x}, b - {x});
    }
  }

  lemma FirstFreeIsUnique(live: set<u64>, c: u64, k: nat, k': nat)
    requires FirstFree(live, c, k) && FirstFree(live, c, k')
    ensures k == k'
  {
  }

  /** One successful registration: the counter moves to the first free value, which becomes the handle of `n`. */
  ghost predicate Registers<N>(h: map<u64, N>, c: u64, n: N, h': map<u64, N>, c': u64, k: nat) {
    FirstFree(h.Keys, c, k) && c' == Ahead(c, k) && h' == h[c' := n]
  }

  // ---------------------------------------------------------------- the registry object

  /** A node object; `gone` once it has been destroyed. */
  class NodeImpl {
    var handle: u64
    var gone: bool

    constructor ()
      ensures handle == 0 && !gone
    {
      handle := 0;
      gone := false;
    }

    /** The destructor leaves the registry before the object is gone. */
    method Destroy(client: ClientImpl?)
      modifies this`gone
      modifies if client == null then {} else {client}
      ensures gone
      ensures client != null ==> client.handles == old(client.handles) - {handle}
      ensures client != null ==> client.handleCounter == old(client.handleCounter)
    {
      if client != null {
        client.UnregisterNode(this);
      }
      gone := true;
    }
  }

  class ClientImpl {
    var handles: map<u64, NodeImpl>
    var handleCounter: u64

    /** Every entry is the handle its node knows, so no node has two entries. */
    ghost predicate Valid()
      reads this, handles.Values
    {
      && |handles| <= MAX_INT32
      && forall h | h in handles :: handles[h].handle == h
    }

    constructor ()
      ensures Valid() && handles == map[] && handleCounter == 0
    {
      handles := map[];
      handleCounter := 0;
    }

    /** Refuses only a full registry; otherwise the search ends at the first free value. */
    method RegisterNode(obj: NodeImpl) returns (ok: bool)
      requires |handles| <= MAX_INT32
      modifies this, obj`handle
      ensures ok <==> old(|handles|) != MAX_INT32
      ensures !ok ==> handles == old(handles) && handleCounter == old(handleCounter) && obj.handle == old(obj.handle)
      ensures ok ==> exists k :: Registers(old(handles), old(handleCounter), obj, handles, handleCounter, k)
      ensures ok ==> obj.handle == handleCounter
      ensures old(Valid()) ==> (Valid() <==> !ok || obj !in old(handles.Values))
    {
      if |handles| == MAX_INT32 {
        return false;
      }
      ghost var start, live := handleCounter, handles.Keys;
      ghost var k := 0;
      KeysAreCounted(handles);
      while true
        invariant handles == old(handles) && live == handles.Keys && obj.handle == old(obj.handle)
        invariant handleCounter == Ahead(start, k)
        invariant forall j | 1 <= j <= k :: Ahead(start, j) in live
        decreases |live| - k
      {
        SearchBound(live, start, k);
        AheadStep(start, k);
        handleCounter := (handleCounter + 1) % WRAP;
        k := k + 1;
        if handleCounter !in handles {
          obj.handle := handleCounter;
          handles := handles[handleCounter := obj];
          KeysAreCounted(handles);
          assert Registers(old(handles), start, obj, handles, handleCounter, k);
          if obj in old(handles.Values) {
            ghost var other :| other in live && old(handles)[other] == obj;
            assert handles[other] == obj && obj.handle != other;
          }
          return true;
        }
        SearchBound(live, start, k);
      }
    }

    method UnregisterNode(obj: NodeImpl)
      modifies this`handles
      ensures handles == old(handles) - {obj.handle}
      ensures old(Valid()) ==> Valid()
    {
      handles := handles - {obj.handle};
      KeysAreCounted(handles);
    }

    /** The node a reply with this handle is delivered to; null if it is dropped. All nine handlers look it up alike. */
    method Target(handle: u64) returns (target: NodeImpl?)
      ensures target != null <==> handle in handles && !handles[handle].gone
      ensures target != null ==> target == handles[handle]
      ensures Valid() && target != null ==> target.handle == handle
    {
      if handle in handles && !handles[handle].gone {
        target := handles[handle];
      } else {
        target := null;
      }
    }
  }

  lemma KeysAreCounted<V>(m: map<u64, V>)
    ensures |m.Keys| == |m|
  {
  }

  lemma AheadStep(c: u64, k: nat)
    ensures (Ahead(c, k) + 1) % WRAP == Ahead(c, k + 1)
  {
    var q := (c + k) / WRAP;
    assert c + k == q * WRAP + Ahead(c, k);
    assert c + k + 1 == q * WRAP + (Ahead(c, k) + 1);
  }
}
