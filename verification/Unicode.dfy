/** Well-formed UTF-8 and the size of a QString, derived from the code points a text consists of. */
module Unicode {
  import opened Bytes
  import opened Wire

  /** Any code point but the surrogates. */
  type Scalar = c: int | 0 <= c < 0xD800 || 0xE000 <= c < 0x11_0000

  /** The form of one code point: six payload bits in each byte but the first. */
  function Utf8(c: Scalar): bytes {
    if c < 0x80 then [c]
    else if c < 0x800 then [0xC0 + c / 64, 0x80 + c % 64]
    else if c < 0x1_0000 then [0xE0 + c / 64 / 64, 0x80 + c / 64 % 64, 0x80 + c % 64]
    else [0xF0 + c / 64 / 64 / 64, 0x80 + c / 64 / 64 % 64, 0x80 + c / 64 % 64, 0x80 + c % 64]
  }

  function Utf8All(cs: seq<Scalar>): bytes {
    if cs == [] then [] else Utf8(cs[0]) + Utf8All(cs[1..])
  }

  /** Code points from 0x10000 on take a surrogate pair. */
  function Units(cs: seq<Scalar>): nat {
    if cs == [] then 0 else (if cs[0] >= 0x1_0000 then 2 else 1) + Units(cs[1..])
  }

  lemma FirstOfScalar(c: Scalar, rest: bytes)
    ensures FirstLength(Utf8(c) + rest) == |Utf8(c)|
  {
    if c >= 0x1_0000 {
      LongScalar(c, rest);
    } else if c >= 0x800 {
      var p, q := c / 64, c % 64;
      assert c == p * 64 + q;
      assert p == p / 64 * 64 + p % 64;
    }
  }

  lemma LongScalar(c: Scalar, rest: bytes)
    requires c >= 0x1_0000
    ensures FirstLength(Utf8(c) + rest) == 4
  {
    var p := c / 64 / 64;
    assert 16 <= p < 272;
    assert p == p / 64 * 64 + p % 64;
  }

  /** The payload in front of `rest`, six bits at a time. */
  function Joined(high: int, b: byte): int {
    high * 64 + (b as int - 0x80)
  }

  /** The code point at the front of a text. */
  function Front(s: bytes): (c: Scalar)
    requires FirstLength(s) > 0
  {
    match FirstLength(s)
    case 1 => s[0]
    case 2 => Joined(s[0] as int - 0xC0, s[1])
    case 3 => Joined(Joined(s[0] as int - 0xE0, s[1]), s[2])
    case _ => Joined(Joined(Joined(s[0] as int - 0xF0, s[1]), s[2]), s[3])
  }

  lemma JoinedSplits(high: int, b: byte)
    ensures 0x80 <= b < 0xC0 ==> Joined(high, b) / 64 == high && Joined(high, b) % 64 == b as int - 0x80
  {
  }

  lemma FrontIsFirst(s: bytes)
    ensures FirstLength(s) > 0 ==> Utf8(Front(s)) == s[..FirstLength(s)]
  {
    var n := FirstLength(s);
    if n == 2 {
      JoinedSplits(s[0] as int - 0xC0, s[1]);
    } else if n == 3 {
      var high := Joined(s[0] as int - 0xE0, s[1]);
      JoinedSplits(s[0] as int - 0xE0, s[1]);
      JoinedSplits(high, s[2]);
      assert Front(s) == Joined(high, s[2]);
    } else if n == 4 {
      var high := Joined(s[0] as int - 0xF0, s[1]);
      JoinedSplits(s[0] as int - 0xF0, s[1]);
      JoinedSplits(high, s[2]);
      JoinedSplits(Joined(high, s[2]), s[3]);
      assert Front(s) == Joined(Joined(high, s[2]), s[3]);
    }
  }

  lemma {:induction false} ScalarsOf(s: bytes) returns (cs: seq<Scalar>)
    requires WellFormed(s)
    ensures s == Utf8All(cs)
    decreases |s|
  {
    hide FirstLength, Front, Utf8;
    if s == [] {
      cs := [];
    } else {
      var rest := ScalarsOf(s[FirstLength(s)..]);
      FrontIsFirst(s);
      cs := [Front(s)] + rest;
      assert cs[1..] == rest;
      assert s == s[..FirstLength(s)] + s[FirstLength(s)..];
    }
  }

  lemma {:induction false} ScalarsAreWellFormed(cs: seq<Scalar>)
    ensures WellFormed(Utf8All(cs))
  {
    if cs != [] {
      FirstOfScalar(cs[0], Utf8All(cs[1..]));
      assert Utf8All(cs)[|Utf8(cs[0])|..] == Utf8All(cs[1..]);
      ScalarsAreWellFormed(cs[1..]);
    }
  }

  /** A byte string is well-formed exactly if it is the form of some code points. */
  lemma WellFormedIff(s: bytes)
    ensures WellFormed(s) <==> exists cs: seq<Scalar> :: s == Utf8All(cs)
  {
    if WellFormed(s) {
      var cs := ScalarsOf(s);
    }
    if cs: seq<Scalar> :| s == Utf8All(cs) {
      ScalarsAreWellFormed(cs);
    }
  }

  lemma {:induction false} SizeConcat(a: bytes, b: bytes)
    ensures Utf16Size(a + b) == Utf16Size(a) + Utf16Size(b)
  {
    if a == [] {
      assert a + b == b;
    } else {
      assert (a + b)[1..] == a[1..] + b;
      SizeConcat(a[1..], b);
    }
  }

  lemma SizeOfScalar(c: Scalar)
    ensures Utf16Size(Utf8(c)) == if c >= 0x1_0000 then 2 else 1
  {
    var s := Utf8(c);
    assert Utf16Size(s[1..]) == 0 by {
      assert |s| >= 2 ==> Utf16Size(s[1..][1..]) == 0 by {
        assert |s| >= 3 ==> Utf16Size(s[2..][1..]) == 0;
        assert |s| >= 2 ==> s[1..][1..] == s[2..];
      }
    }
  }

  /** The size of the QString a text stands for is the number of its UTF-16 units. */
  lemma {:induction false} SizeIsUnits(cs: seq<Scalar>)
    ensures Utf16Size(Utf8All(cs)) == Units(cs)
  {
    if cs != [] {
      SizeConcat(Utf8(cs[0]), Utf8All(cs[1..]));
      SizeOfScalar(cs[0]);
      SizeIsUnits(cs[1..]);
    }
  }

  /** The byte order mark is U+FEFF. It is dropped in front of any text, once, and nothing else is. */
  lemma MarkIsDroppedOnce(s: bytes)
    ensures Utf8(0xFEFF) == [0xEF, 0xBB, 0xBF]
    ensures FromUtf8([0xEF, 0xBB, 0xBF] + s) == s
    ensures !([0xEF, 0xBB, 0xBF] <= s) ==> FromUtf8(s) == s
  {
    assert ([0xEF, 0xBB, 0xBF] + s)[3..] == s;
  }
}
