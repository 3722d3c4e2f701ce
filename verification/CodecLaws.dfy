/**
 What makes an encoder and a decoder belong together, what follows from it for every type,
 and why arrays inherit it from their elements.
 */
module CodecLaws {
  import opened Wrappers
  import opened Bytes
  import opened Wire

  /**
   `norm` is the normal form of a value: differences the wire does not carry are dropped. `read` is what a reader gets
   back. `sized` says that the bytes announced are the bytes written, `fits` that the reader drops nothing either.
   `utf8` says that every string inside is well-formed UTF-8, as the form of any QString is; a decoded value has it if
   the bytes in the buffer had it.
   */
  datatype Codec<!T> = Codec(enc: Encoder<T>, dec: Decoder<T>, norm: T -> T, read: T -> T,
                             sized: T -> bool, fits: T -> bool, utf8: T -> bool)

  ghost predicate Sits(m: Buffer, o: nat, e: bytes) {
    m.Some? && o + |e| <= |m.value| && m.value[o..o + |e|] == e
  }

  /** In every buffer that holds the encoding of `x`, decoding there yields it and stops right behind it. */
  ghost predicate Restores<T>(c: Codec<T>, x: T) {
    forall m: Buffer, o: nat :: Sits(m, o, c.enc(x).bytes) ==> c.dec(m, o) == Got(c.norm(x), o + |c.enc(x).bytes|)
  }

  /** The buffer holds the encoding of `x` at the offset. */
  ghost predicate Holds<T>(c: Codec<T>, x: T, m: Buffer, o: nat) {
    c.enc(x).ok && c.sized(x) && Sits(m, o, c.enc(x).bytes)
  }

  ghost predicate RestoredAt<T>(c: Codec<T>, x: T, m: Buffer, o: nat) {
    Holds(c, x, m, o) ==> c.dec(m, o) == Got(c.read(x), o + |c.enc(x).bytes|)
  }

  /** One place holds one value, up to normal form. */
  ghost predicate InjectiveAt<T>(c: Codec<T>, x: T, y: T, m: Buffer, o: nat) {
    Holds(c, x, m, o) && Holds(c, y, m, o) ==> c.norm(x) == c.norm(y)
  }

  /**
   With four bytes to spare behind it (so that no length word is cut), no accepted form of a value
   in well-formed UTF-8 is shorter than the encoding of that value, and it is longer when the value does not fit.
   */
  ghost predicate ThriftyAt<T>(c: Codec<T>, m: Buffer, o: nat) {
    var r := c.dec(m, o);
    r.Got? && c.utf8(r.value) && r.next + 4 <= Size(m) && c.enc(r.value).ok ==>
      var shortest := |c.enc(r.value).bytes|;
      shortest <= r.next - o && (c.fits(r.value) || shortest < r.next - o)
  }

  /** Bringing a value to normal form changes neither its bytes nor what is known of it; a fitting value is read as that. */
  ghost predicate NormalAt<T>(c: Codec<T>, x: T) {
    var n := c.norm(x);
    && c.enc(n) == c.enc(x) && (c.sized(n) <==> c.sized(x)) && (c.fits(n) <==> c.fits(x)) && (c.utf8(n) <==> c.utf8(x))
    && (c.fits(x) ==> c.sized(x) && c.read(x) == n)
  }

  ghost predicate Lawful<T(!new)>(c: Codec<T>) {
    && Safe(c.dec)
    && (forall x, m: Buffer, o: nat :: RestoredAt(c, x, m, o))
    && (forall x, y, m: Buffer, o: nat :: InjectiveAt(c, x, y, m, o))
    && (forall m: Buffer, o: nat :: ThriftyAt(c, m, o))
    && (forall x :: NormalAt(c, x))
  }

  // ---------------------------------------------------------------- consequences

  lemma SitsInContext(p: bytes, e: bytes, s: bytes)
    ensures Sits(Some(p + e + s), |p|, e)
  {
    assert (p + e + s)[|p|..|p| + |e|] == e;
  }

  /** The round trip in the words of a caller: any prefix before it, any suffix behind it. */
  lemma RestoredInContext<T(!new)>(c: Codec<T>, x: T, p: bytes, s: bytes)
    requires Lawful(c) && c.enc(x).ok && c.sized(x)
    ensures c.dec(Some(p + c.enc(x).bytes + s), |p|) == Got(c.read(x), |p| + |c.enc(x).bytes|)
    ensures c.fits(x) ==> c.read(x) == c.norm(x)
  {
    SitsInContext(p, c.enc(x).bytes, s);
    assert RestoredAt(c, x, Some(p + c.enc(x).bytes + s), |p|);
    assert NormalAt(c, x);
  }

  /** A successfully encoded value is restored in every context exactly when it fits. */
  lemma RestoredIff<T(!new)>(c: Codec<T>, x: T)
    requires Lawful(c) && c.utf8(x) && c.enc(x).ok
    ensures Restores(c, x) <==> c.fits(x)
  {
    assert NormalAt(c, x);
    if c.fits(x) {
      forall m: Buffer, o: nat | Sits(m, o, c.enc(x).bytes)
        ensures c.dec(m, o) == Got(c.norm(x), o + |c.enc(x).bytes|)
      {
        assert RestoredAt(c, x, m, o);
      }
    }
    if Restores(c, x) {
      var e := c.enc(x).bytes;
      var m := Some([] + e + [0, 0, 0, 0]);
      SitsInContext([], e, [0, 0, 0, 0]);
      assert c.dec(m, 0) == Got(c.norm(x), |e|);
      assert ThriftyAt(c, m, 0);
    }
  }

  /** No encoding is a prefix of another one, unless both stand for the same value. */
  lemma PrefixFree<T(!new)>(c: Codec<T>, x: T, y: T)
    requires Lawful(c) && c.enc(x).ok && c.sized(x) && c.enc(y).ok && c.sized(y)
    requires c.enc(x).bytes <= c.enc(y).bytes
    ensures c.norm(x) == c.norm(y) && c.enc(x) == c.enc(y)
  {
    var ex, ey := c.enc(x).bytes, c.enc(y).bytes;
    assert ey[0..|ex|] == ex && ey[0..|ey|] == ey;
    assert InjectiveAt(c, x, y, Some(ey), 0);
    assert NormalAt(c, x) && NormalAt(c, y);
  }

  /** What was read back of a fitting value re-encodes to the same bytes; every normal form is one already. */
  lemma ReencodingIsStable<T(!new)>(c: Codec<T>, x: T)
    requires Lawful(c) && c.enc(x).ok && c.sized(x)
    ensures c.enc(c.norm(x)) == c.enc(x) && c.norm(c.norm(x)) == c.norm(x)
    ensures c.fits(x) ==> c.enc(c.read(x)) == c.enc(x) && c.read(c.read(x)) == c.read(x)
  {
    var e := c.enc(x).bytes;
    assert NormalAt(c, x) && NormalAt(c, c.norm(x));
    assert e[0..|e|] == e;
    assert InjectiveAt(c, x, c.norm(x), Some(e), 0);
  }

  // ---------------------------------------------------------------- sequences of writes

  lemma SitsThen(m: Buffer, o: nat, a: Written, b: Written)
    requires a.Then(b).ok && Sits(m, o, a.Then(b).bytes)
    ensures a.ok && b.ok && |a.Then(b).bytes| == |a.bytes| + |b.bytes|
    ensures Sits(m, o, a.bytes) && Sits(m, o + |a.bytes|, b.bytes)
  {
    var e := a.bytes + b.bytes;
    assert e[..|a.bytes|] == a.bytes && e[|a.bytes|..] == b.bytes;
    assert m.value[o..o + |e|][..|a.bytes|] == m.value[o..o + |a.bytes|];
    assert m.value[o..o + |e|][|a.bytes|..] == m.value[o + |a.bytes|..o + |e|];
  }

  lemma SitsThen3(m: Buffer, o: nat, a: Written, b: Written, c: Written)
    requires a.Then(b).Then(c).ok && Sits(m, o, a.Then(b).Then(c).bytes)
    ensures a.ok && b.ok && c.ok && |a.Then(b).Then(c).bytes| == |a.bytes| + |b.bytes| + |c.bytes|
    ensures Sits(m, o, a.bytes) && Sits(m, o + |a.bytes|, b.bytes) && Sits(m, o + |a.bytes| + |b.bytes|, c.bytes)
  {
    SitsThen(m, o, a.Then(b), c);
    SitsThen(m, o, a, b);
  }

  lemma SitsThen4(m: Buffer, o: nat, a: Written, b: Written, c: Written, d: Written)
    requires a.Then(b).Then(c).Then(d).ok && Sits(m, o, a.Then(b).Then(c).Then(d).bytes)
    ensures a.ok && b.ok && c.ok && d.ok
    ensures |a.Then(b).Then(c).Then(d).bytes| == |a.bytes| + |b.bytes| + |c.bytes| + |d.bytes|
    ensures Sits(m, o, a.bytes) && Sits(m, o + |a.bytes|, b.bytes) && Sits(m, o + |a.bytes| + |b.bytes|, c.bytes)
    ensures Sits(m, o + |a.bytes| + |b.bytes| + |c.bytes|, d.bytes)
  {
    SitsThen(m, o, a.Then(b).Then(c), d);
    SitsThen3(m, o, a, b, c);
  }

  lemma SitsThen5(m: Buffer, o: nat, a: Written, b: Written, c: Written, d: Written, e: Written)
    requires a.Then(b).Then(c).Then(d).Then(e).ok && Sits(m, o, a.Then(b).Then(c).Then(d).Then(e).bytes)
    ensures a.ok && b.ok && c.ok && d.ok && e.ok
    ensures |a.Then(b).Then(c).Then(d).Then(e).bytes| == |a.bytes| + |b.bytes| + |c.bytes| + |d.bytes| + |e.bytes|
    ensures Sits(m, o, a.bytes) && Sits(m, o + |a.bytes|, b.bytes) && Sits(m, o + |a.bytes| + |b.bytes|, c.bytes)
    ensures Sits(m, o + |a.bytes| + |b.bytes| + |c.bytes|, d.bytes)
    ensures Sits(m, o + |a.bytes| + |b.bytes| + |c.bytes| + |d.bytes|, e.bytes)
  {
    SitsThen(m, o, a.Then(b).Then(c).Then(d), e);
    SitsThen4(m, o, a, b, c, d);
  }

  lemma SitsThen7(m: Buffer, o: nat, a: Written, b: Written, c: Written, d: Written, e: Written, f: Written, g: Written)
    requires a.Then(b).Then(c).Then(d).Then(e).Then(f).Then(g).ok
    requires Sits(m, o, a.Then(b).Then(c).Then(d).Then(e).Then(f).Then(g).bytes)
    ensures a.ok && b.ok && c.ok && d.ok && e.ok && f.ok && g.ok
    ensures |a.Then(b).Then(c).Then(d).Then(e).Then(f).Then(g).bytes| ==
            |a.bytes| + |b.bytes| + |c.bytes| + |d.bytes| + |e.bytes| + |f.bytes| + |g.bytes|
    ensures
      var (o1, o2, o3) := (o + |a.bytes|, o + |a.bytes| + |b.bytes|, o + |a.bytes| + |b.bytes| + |c.bytes|);
      && Sits(m, o, a.bytes) && Sits(m, o1, b.bytes) && Sits(m, o2, c.bytes) && Sits(m, o3, d.bytes)
      && Sits(m, o3 + |d.bytes|, e.bytes) && Sits(m, o3 + |d.bytes| + |e.bytes|, f.bytes)
      && Sits(m, o3 + |d.bytes| + |e.bytes| + |f.bytes|, g.bytes)
  {
    SitsThen(m, o, a.Then(b).Then(c).Then(d).Then(e).Then(f), g);
    SitsThen(m, o, a.Then(b).Then(c).Then(d).Then(e), f);
    SitsThen5(m, o, a, b, c, d, e);
  }

  // ---------------------------------------------------------------- arrays

  function MapAll<T>(norm: T -> T, xs: seq<T>): (r: seq<T>)
    ensures |r| == |xs|
  {
    if xs == [] then [] else [norm(xs[0])] + MapAll(norm, xs[1..])
  }

  lemma {:induction false} MapAllAt<T>(norm: T -> T, xs: seq<T>)
    ensures forall i | 0 <= i < |xs| :: MapAll(norm, xs)[i] == norm(xs[i])
  {
    if xs != [] {
      MapAllAt(norm, xs[1..]);
    }
  }

  function ArrayOf<T>(c: Codec<T>): Codec<seq<T>> {
    Codec(
      (xs: seq<T>) => EncArray(c.enc, xs),
      (m, o) => DecArray(c.dec, m, o),
      (xs: seq<T>) => MapAll(c.norm, xs),
      (xs: seq<T>) => MapAll(c.read, xs),
      (xs: seq<T>) => forall i | 0 <= i < |xs| :: c.sized(xs[i]),
      (xs: seq<T>) => forall i | 0 <= i < |xs| :: c.fits(xs[i]),
      (xs: seq<T>) => forall i | 0 <= i < |xs| :: c.utf8(xs[i]))
  }

  lemma {:induction false} ItemsRestored<T(!new)>(c: Codec<T>, xs: seq<T>, m: Buffer, o: nat)
    requires forall x, m: Buffer, o: nat :: RestoredAt(c, x, m, o)
    requires forall i | 0 <= i < |xs| :: c.sized(xs[i])
    requires EncItems(c.enc, xs).ok && Sits(m, o, EncItems(c.enc, xs).bytes)
    ensures DecItems(c.dec, |xs|, m, o) == Got(MapAll(c.read, xs), o + |EncItems(c.enc, xs).bytes|)
  {
    if xs == [] {
    } else {
      var first, rest := c.enc(xs[0]), EncItems(c.enc, xs[1..]);
      SitsThen(m, o, first, rest);
      assert RestoredAt(c, xs[0], m, o);
      ItemsRestored(c, xs[1..], m, o + |first.bytes|);
    }
  }

  lemma LengthRestored(n: i32, m: Buffer, o: nat)
    ensures Sits(m, o, EncI32(n).bytes) ==> DecI32(m, o) == Got(n, o + 4)
  {
    Widths();
    WordRoundTrip(4, AsUnsigned32(n));
  }

  lemma ArrayRestored<T(!new)>(c: Codec<T>, xs: seq<T>, m: Buffer, o: nat)
    requires forall x, m: Buffer, o: nat :: RestoredAt(c, x, m, o)
    ensures RestoredAt(ArrayOf(c), xs, m, o)
  {
    var a := ArrayOf(c);
    if a.enc(xs).ok && a.sized(xs) && Sits(m, o, a.enc(xs).bytes) {
      SitsThen(m, o, EncI32(|xs|), EncItems(c.enc, xs));
      LengthRestored(|xs|, m, o);
      ItemsRestored(c, xs, m, o + 4);
    }
  }

  lemma {:induction false} ItemsInjective<T(!new)>(c: Codec<T>, xs: seq<T>, ys: seq<T>, m: Buffer, o: nat)
    requires forall x, m: Buffer, o: nat :: RestoredAt(c, x, m, o)
    requires forall x, y, m: Buffer, o: nat :: InjectiveAt(c, x, y, m, o)
    requires |xs| == |ys| && forall i | 0 <= i < |xs| :: c.sized(xs[i]) && c.sized(ys[i])
    requires EncItems(c.enc, xs).ok && Sits(m, o, EncItems(c.enc, xs).bytes)
    requires EncItems(c.enc, ys).ok && Sits(m, o, EncItems(c.enc, ys).bytes)
    ensures MapAll(c.norm, xs) == MapAll(c.norm, ys)
  {
    if xs != [] {
      SitsThen(m, o, c.enc(xs[0]), EncItems(c.enc, xs[1..]));
      SitsThen(m, o, c.enc(ys[0]), EncItems(c.enc, ys[1..]));
      assert RestoredAt(c, xs[0], m, o) && RestoredAt(c, ys[0], m, o);
      assert InjectiveAt(c, xs[0], ys[0], m, o);
      ItemsInjective(c, xs[1..], ys[1..], m, o + |c.enc(xs[0]).bytes|);
    }
  }

  lemma ArrayInjective<T(!new)>(c: Codec<T>, xs: seq<T>, ys: seq<T>, m: Buffer, o: nat)
    requires forall x, m: Buffer, o: nat :: RestoredAt(c, x, m, o)
    requires forall x, y, m: Buffer, o: nat :: InjectiveAt(c, x, y, m, o)
    ensures InjectiveAt(ArrayOf(c), xs, ys, m, o)
  {
    var a := ArrayOf(c);
    if Holds(a, xs, m, o) && Holds(a, ys, m, o) {
      SitsThen(m, o, EncI32(|xs|), EncItems(c.enc, xs));
      SitsThen(m, o, EncI32(|ys|), EncItems(c.enc, ys));
      LengthRestored(|xs|, m, o);
      LengthRestored(|ys|, m, o);
      ItemsInjective(c, xs, ys, m, o + 4);
    }
  }

  lemma {:induction false} ItemsThrifty<T(!new)>(c: Codec<T>, count: nat, m: Buffer, o: nat)
    requires Safe(c.dec) && forall m: Buffer, o: nat :: ThriftyAt(c, m, o)
    requires DecItems(c.dec, count, m, o).Got?
    ensures
      var r := DecItems(c.dec, count, m, o);
      && |r.value| == count
      && o <= r.next
      && ((forall i | 0 <= i < |r.value| :: c.utf8(r.value[i])) && r.next + 4 <= Size(m) && EncItems(c.enc, r.value).ok ==>
            var shortest := |EncItems(c.enc, r.value).bytes|;
            && shortest <= r.next - o
            && ((forall i | 0 <= i < |r.value| :: c.fits(r.value[i])) || shortest < r.next - o))
    decreases count
  {
    if count == 0 {
    } else {
      var first := c.dec(m, o);
      var rest := DecItems(c.dec, count - 1, m, first.next);
      var r := DecItems(c.dec, count, m, o);
      ItemsThrifty(c, count - 1, m, first.next);
      assert Inside(m, o, first.next);
      assert ThriftyAt(c, m, o);
      assert r.value[0] == first.value && r.value[1..] == rest.value;
      assert forall i | 0 <= i < |rest.value| :: rest.value[i] == r.value[i + 1];
      if c.fits(first.value) && forall i | 0 <= i < |rest.value| :: c.fits(rest.value[i]) {
        forall i | 0 <= i < |r.value|
          ensures c.fits(r.value[i])
        {
          assert i > 0 ==> r.value[i] == rest.value[i - 1];
        }
      }
    }
  }

  lemma ArrayThrifty<T(!new)>(c: Codec<T>, m: Buffer, o: nat)
    requires Safe(c.dec) && forall m: Buffer, o: nat :: ThriftyAt(c, m, o)
    ensures ThriftyAt(ArrayOf(c), m, o)
  {
    var size := DecI32(m, o);
    if size.Got? && size.value > 0 && DecItems(c.dec, size.value, m, size.next).Got? {
      ItemsThrifty(c, size.value, m, size.next);
    }
  }

  lemma {:induction false} ItemsNormalised<T(!new)>(c: Codec<T>, xs: seq<T>)
    requires forall x :: NormalAt(c, x)
    ensures EncItems(c.enc, MapAll(c.norm, xs)) == EncItems(c.enc, xs)
  {
    if xs != [] {
      assert MapAll(c.norm, xs)[1..] == MapAll(c.norm, xs[1..]);
      ItemsNormalised(c, xs[1..]);
      assert NormalAt(c, xs[0]);
    }
  }

  lemma ArrayNormalised<T(!new)>(c: Codec<T>, xs: seq<T>)
    requires forall x :: NormalAt(c, x)
    ensures NormalAt(ArrayOf(c), xs)
  {
    ItemsNormalised(c, xs);
    MapAllAt(c.norm, xs);
    MapAllAt(c.read, xs);
    assert forall i | 0 <= i < |xs| :: NormalAt(c, xs[i]);
    hide MapAll, EncItems;
    if ArrayOf(c).fits(xs) {
      assert forall i | 0 <= i < |xs| :: c.fits(xs[i]);
      assert MapAll(c.read, xs) == MapAll(c.norm, xs);
    }
  }

  /** Arrays inherit every law from their elements. */
  lemma ArrayIsLawful<T(!new)>(c: Codec<T>)
    requires Lawful(c)
    ensures Lawful(ArrayOf(c))
  {
    var a := ArrayOf(c);
    forall m: Buffer, o: nat
      ensures Inside(m, o, a.dec(m, o).next) && ThriftyAt(a, m, o)
    {
      ArrayInside(c.dec, m, o);
      ArrayThrifty(c, m, o);
    }
    forall xs, m: Buffer, o: nat
      ensures RestoredAt(a, xs, m, o)
    {
      ArrayRestored(c, xs, m, o);
    }
    forall xs, ys, m: Buffer, o: nat
      ensures InjectiveAt(a, xs, ys, m, o)
    {
      ArrayInjective(c, xs, ys, m, o);
    }
    forall xs
      ensures NormalAt(a, xs)
    {
      ArrayNormalised(c, xs);
    }
  }

  // ---------------------------------------------------------------- fixed-width elements

  /** Reading an element takes `w` bytes if they are there and fails if they are not. */
  ghost predicate FixedWidth<T>(dec: Decoder<T>, w: nat) {
    forall m: Buffer, o: nat :: (dec(m, o).Got? <==> Enough(m, o, w)) && (dec(m, o).Got? ==> dec(m, o).next == o + w)
  }

  lemma {:induction false} FixedItems<T>(dec: Decoder<T>, w: nat, count: nat, m: Buffer, o: nat)
    requires FixedWidth(dec, w) && m.Some? && o <= |m.value|
    ensures DecItems(dec, count, m, o).Got? <==> o + count * w <= |m.value|
    ensures DecItems(dec, count, m, o).Got? ==>
              |DecItems(dec, count, m, o).value| == count && DecItems(dec, count, m, o).next == o + count * w
    decreases count
  {
    if count == 0 {
    } else {
      assert count * w == w + (count - 1) * w;
      var first := dec(m, o);
      assert first.Got? <==> Enough(m, o, w);
      assert (count - 1) * w >= 0;
      if first.Got? {
        FixedItems(dec, w, count - 1, m, first.next);
      }
    }
  }

  /**
   An array of fixed-width elements announces its extent: it is accepted exactly when the length word and
   `count * w` bytes are there, and it takes exactly those.
   */
  lemma FixedArrayExtent<T>(dec: Decoder<T>, w: nat, m: Buffer, o: nat)
    requires FixedWidth(dec, w) && Enough(m, o, 4)
    ensures
      var count: nat := if DecI32(m, o).value < 0 then 0 else DecI32(m, o).value;
      var r := DecArray(dec, m, o);
      && (r.Got? <==> o + 4 + count * w <= |m.value|)
      && (r.Got? ==> |r.value| == count && r.next == o + 4 + count * w)
  {
    var size := DecI32(m, o).value;
    FixedItems(dec, w, if size < 0 then 0 else size, m, o + 4);
  }

  /** Cutting any bytes off an accepted array of fixed-width elements makes it unacceptable. */
  lemma FixedArrayRejectsPrefixes<T>(dec: Decoder<T>, w: nat, m: bytes, o: nat, k: nat)
    requires FixedWidth(dec, w)
    requires DecArray(dec, Some(m), o).Got? && o <= k < DecArray(dec, Some(m), o).next
    requires k <= |m|
    ensures DecArray(dec, Some(m[..k]), o).Failed?
  {
    FixedArrayExtent(dec, w, Some(m), o);
    if Enough(Some(m[..k]), o, 4) {
      assert m[..k][o..o + 4] == m[o..o + 4];
      FixedArrayExtent(dec, w, Some(m[..k]), o);
    }
  }
}
