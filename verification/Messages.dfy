/** Values of different types in a row: what one encoding object appends, it reads back in the same order. */
module Messages {
  import opened Wrappers
  import opened Wire
  import opened CodecLaws
  import opened NodeCodecs
  import opened RecordCodecs
  import opened BinaryDataEncoding

  function DecBoth<T, U>(first: Decoder<T>, second: Decoder<U>, m: Buffer, o: nat): Read<(T, U)> {
    var (x, o1) :- first(m, o);
    var (y, o2) :- second(m, o1);
    Got((x, y), o2)
  }

  /** One value and another one behind it; longer messages are pairs of pairs. */
  function PairOf<T, U>(c: Codec<T>, d: Codec<U>): Codec<(T, U)> {
    Codec(
      (p: (T, U)) => c.enc(p.0).Then(d.enc(p.1)),
      (m, o) => DecBoth(c.dec, d.dec, m, o),
      (p: (T, U)) => (c.norm(p.0), d.norm(p.1)),
      (p: (T, U)) => (c.read(p.0), d.read(p.1)),
      (p: (T, U)) => c.sized(p.0) && d.sized(p.1),
      (p: (T, U)) => c.fits(p.0) && d.fits(p.1),
      (p: (T, U)) => c.utf8(p.0) && d.utf8(p.1))
  }

  /** Whatever holds for two types holds for one behind the other, so no encoding disturbs its neighbours. */
  lemma PairIsLawful<T(!new), U(!new)>(c: Codec<T>, d: Codec<U>)
    requires Lawful(c) && Lawful(d)
    ensures Lawful(PairOf(c, d))
  {
    var both := PairOf(c, d);
    forall m: Buffer, o: nat
      ensures Inside(m, o, both.dec(m, o).next) && ThriftyAt(both, m, o)
    {
      var first := c.dec(m, o);
      assert Inside(m, o, first.next) && Inside(m, first.next, d.dec(m, first.next).next);
      assert ThriftyAt(c, m, o) && ThriftyAt(d, m, first.next);
    }
    forall p, m: Buffer, o: nat
      ensures RestoredAt(both, p, m, o)
    {
      if Holds(both, p, m, o) {
        SitsThen(m, o, c.enc(p.0), d.enc(p.1));
        assert RestoredAt(c, p.0, m, o) && RestoredAt(d, p.1, m, o + |c.enc(p.0).bytes|);
      }
    }
    forall p, q, m: Buffer, o: nat
      ensures InjectiveAt(both, p, q, m, o)
    {
      if Holds(both, p, m, o) && Holds(both, q, m, o) {
        SitsThen(m, o, c.enc(p.0), d.enc(p.1));
        SitsThen(m, o, c.enc(q.0), d.enc(q.1));
        assert RestoredAt(c, p.0, m, o) && RestoredAt(c, q.0, m, o);
        assert InjectiveAt(c, p.0, q.0, m, o) && InjectiveAt(d, p.1, q.1, m, o + |c.enc(p.0).bytes|);
      }
    }
    forall p
      ensures NormalAt(both, p)
    {
      assert NormalAt(c, p.0) && NormalAt(d, p.1);
    }
  }

  /** Decoding where an encode began gives the value back and ends where the encode ended. */
  lemma AppendedIsRestored<T(!new)>(c: Codec<T>, x: T, before: Buffer, after: Buffer)
    requires Lawful(c) && c.sized(x) && Appended(before, c.enc(x), after, true)
    ensures c.dec(after, |before.value|) == Got(c.read(x), |after.value|)
    ensures c.fits(x) ==> c.read(x) == c.norm(x)
  {
    var e := c.enc(x).bytes;
    assert after.value[|before.value|..|before.value| + |e|] == e;
    assert RestoredAt(c, x, after, |before.value|);
    assert NormalAt(c, x);
  }

  type Message = ((NodeId, ExpandedNodeId), (ExtensionObject, Argument))

  const MESSAGE_CODEC: Codec<Message> :=
    PairOf(PairOf(NODE_ID_CODEC, EXPANDED_NODE_ID_CODEC), PairOf(EXTENSION_OBJECT_CODEC, ARGUMENT_CODEC))

  lemma MessageIsLawful()
    ensures Lawful(MESSAGE_CODEC)
  {
    hide Lawful, PairOf;
    NodeIdIsLawful();
    ExpandedNodeIdIsLawful();
    ExtensionObjectIsLawful();
    ArgumentIsLawful();
    PairIsLawful(NODE_ID_CODEC, EXPANDED_NODE_ID_CODEC);
    PairIsLawful(EXTENSION_OBJECT_CODEC, ARGUMENT_CODEC);
    PairIsLawful(PairOf(NODE_ID_CODEC, EXPANDED_NODE_ID_CODEC), PairOf(EXTENSION_OBJECT_CODEC, ARGUMENT_CODEC));
  }

  method EncodeMessage(coder: BinaryDataEncoding, v: Message) returns (ok: bool)
    modifies coder`data
    ensures Appended(old(coder.data), MESSAGE_CODEC.enc(v), coder.data, ok)
  {
    hide EncNodeId, EncExpandedNodeId, EncExtensionObject, EncArgument, Written.Then;
    var ((n, x), (e, a)) := v;
    ghost var d0 := coder.data;
    ok := coder.EncodeNodeId(n);
    FailureStays();
    if !ok { return; }
    ghost var d1 := coder.data;
    ok := coder.EncodeExpandedNodeId(x);
    AppendThen(d0, EncNodeId(n), d1, EncExpandedNodeId(x), coder.data, ok);
    if !ok { return; }
    ghost var d2 := coder.data;
    ok := coder.EncodeExtensionObject(e);
    if ok {
      ghost var d3 := coder.data;
      ok := coder.EncodeArgument(a);
      AppendThen(d2, EncExtensionObject(e), d3, EncArgument(a), coder.data, ok);
    }
    AppendThen(d0, EncNodeId(n).Then(EncExpandedNodeId(x)), d2, EncExtensionObject(e).Then(EncArgument(a)), coder.data, ok);
  }

  method DecodeMessage(coder: BinaryDataEncoding) returns (r: Option<Message>)
    requires coder.offset >= 0
    modifies coder`offset
    ensures coder.offset >= 0 && Outcome(r, coder.offset) == MESSAGE_CODEC.dec(coder.data, old(coder.offset))
  {
    hide DecNodeId, DecExpandedNodeId, DecExtensionObject, DecArgument;
    var n :- coder.DecodeNodeId();
    var x :- coder.DecodeExpandedNodeId();
    var e :- coder.DecodeExtensionObject();
    var a :- coder.DecodeArgument();
    return Some(((n, x), (e, a)));
  }

  /** Encode behind what is there, set the offset to where that ended, decode: the values are back, the data used up. */
  method ThereAndBack(coder: BinaryDataEncoding, v: Message) returns (ok: bool, r: Option<Message>)
    requires coder.data.Some?
    modifies coder
    ensures Appended(old(coder.data), MESSAGE_CODEC.enc(v), coder.data, ok)
    ensures ok && MESSAGE_CODEC.sized(v) ==> r == Some(MESSAGE_CODEC.read(v)) && coder.offset == |coder.data.value|
    ensures MESSAGE_CODEC.fits(v) ==> MESSAGE_CODEC.sized(v) && MESSAGE_CODEC.read(v) == MESSAGE_CODEC.norm(v)
  {
    r := None;
    ghost var before := coder.data;
    var start := |coder.data.value|;
    ok := EncodeMessage(coder, v);
    MessageIsLawful();
    assert NormalAt(MESSAGE_CODEC, v);
    if !ok { return; }
    coder.SetOffset(start);
    r := DecodeMessage(coder);
    if MESSAGE_CODEC.sized(v) {
      AppendedIsRestored(MESSAGE_CODEC, v, before, coder.data);
    }
  }
}
