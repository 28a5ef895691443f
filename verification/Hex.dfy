/**
 * Lowercase hexadecimal rendering of byte strings: each byte becomes the two
 * characters `String.format("%02x", b)` prints for it.
 */
module HexString {
  import opened Wrappers
  import opened Bytes

  /** The lowercase hex digit of a nibble. */
  function HexDigit(k: int): (c: char)
    requires 0 <= k < 16
  {
    if k < 10 then (48 + k) as char else (87 + k) as char
  }

  predicate IsLowerHexDigit(c: char) {
    '0' <= c <= '9' || 'a' <= c <= 'f'
  }

  /** The nibble a lowercase hex digit stands for; None for any other character. */
  function DigitValue(c: char): (r: Option<int>)
    ensures r.Some? <==> IsLowerHexDigit(c)
    ensures r.Some? ==> 0 <= r.value < 16 && HexDigit(r.value) == c
  {
    if '0' <= c <= '9' then Some(c as int - 48)
    else if 'a' <= c <= 'f' then Some(c as int - 87)
    else None
  }

  /** Each digit HexDigit writes is read back as its nibble. */
  lemma DigitValueOfHexDigit(k: int)
    requires 0 <= k < 16
    ensures DigitValue(HexDigit(k)) == Some(k)
  {
  }

  /** "%02x" of one byte: the high nibble's digit, then the low nibble's. */
  function HexPair(b: Byte): string {
    [HexDigit(b / 16), HexDigit(b % 16)]
  }

  /** The hex rendering of a byte string, two characters per byte, in order. */
  function Hex(s: seq<Byte>): (r: string)
    ensures |r| == 2 * |s|
  {
    if s == [] then "" else Hex(s[..|s| - 1]) + HexPair(s[|s| - 1])
  }

  /** The byte two lowercase hex digits stand for, high nibble first; None unless both are digits. */
  function DecodePair(c1: char, c2: char): (r: Option<Byte>)
    ensures r.Some? <==> IsLowerHexDigit(c1) && IsLowerHexDigit(c2)
    ensures r.Some? ==> HexPair(r.value) == [c1, c2]
  {
    match (DigitValue(c1), DigitValue(c2))
    case (Some(hi), Some(lo)) => NibbleJoin(hi, lo); Some(hi * 16 + lo)
    case _ => None
  }

  /** Appends a decoded byte to a decoded prefix; None when either failed. */
  function Snoc(prefix: Option<seq<Byte>>, b: Option<Byte>): (r: Option<seq<Byte>>)
    ensures r.Some? <==> prefix.Some? && b.Some?
    ensures r.Some? ==> r.value == prefix.value + [b.value]
  {
    if prefix.Some? && b.Some? then Some(prefix.value + [b.value]) else None
  }

  /** Reading a hex string back: pairs of lowercase digits, high nibble first. */
  function UnHex(t: string): (r: Option<seq<Byte>>)
    decreases |t|
  {
    if |t| < 2 then (if t == [] then Some([]) else None)
    else Snoc(UnHex(t[..|t| - 2]), DecodePair(t[|t| - 2], t[|t| - 1]))
  }

  /** AsHexString(id) appends the pair of each byte of id in turn (Flake4J.asHexString). */
  method AsHexString(id: seq<Byte>) returns (s: string)
    ensures s == Hex(id)
  {
    s := "";
    for i := 0 to |id|
      invariant s == Hex(id[..i])
    {
      assert id[..i + 1][..i] == id[..i];
      s := s + HexPair(id[i]);
    }
    assert id[..|id|] == id;
  }

  /** Characters 2i and 2i+1 of the rendering are the two digits of byte i. */
  lemma {:induction false} HexAt(s: seq<Byte>, i: nat)
    requires i < |s|
    ensures Hex(s)[2 * i] == HexDigit(s[i] / 16) && Hex(s)[2 * i + 1] == HexDigit(s[i] % 16)
    ensures IsLowerHexDigit(Hex(s)[2 * i]) && IsLowerHexDigit(Hex(s)[2 * i + 1])
  {
    if i < |s| - 1 {
      HexAt(s[..|s| - 1], i);
    }
  }

  /** Rendering distributes over concatenation. */
  lemma {:induction false} HexAppend(a: seq<Byte>, b: seq<Byte>)
    ensures Hex(a + b) == Hex(a) + Hex(b)
  {
    if b == [] {
      assert a + b == a;
    } else {
      assert (a + b)[..|a + b| - 1] == a + b[..|b| - 1];
      HexAppend(a, b[..|b| - 1]);
    }
  }

  /** A byte is its high nibble times 16 plus its low nibble. */
  lemma NibbleSplit(b: Byte)
    ensures 0 <= b / 16 < 16 && 0 <= b % 16 < 16 && b == b / 16 * 16 + b % 16
  {
  }

  /** One step of UnHex: the last two characters decode after the prefix does. */
  lemma UnHexSnoc(t: string, c1: char, c2: char)
    ensures UnHex(t + [c1, c2]) == Snoc(UnHex(t), DecodePair(c1, c2))
  {
    var u := t + [c1, c2];
    assert u[..|u| - 2] == t && u[|u| - 2] == c1 && u[|u| - 1] == c2;
  }

  /** Decoding a rendered pair after any prefix appends that pair's byte. */
  lemma UnHexAppendPair(t: string, b: Byte)
    ensures UnHex(t + HexPair(b)) == Snoc(UnHex(t), Some(b))
  {
    NibbleSplit(b);
    var hi, lo := b / 16, b % 16;
    DigitValueOfHexDigit(hi);
    DigitValueOfHexDigit(lo);
    assert DecodePair(HexDigit(hi), HexDigit(lo)) == Some(b);
    UnHexSnoc(t, HexDigit(hi), HexDigit(lo));
  }

  /** Decoding the rendering gives the bytes back. */
  lemma {:induction false} UnHexOfHex(s: seq<Byte>)
    ensures UnHex(Hex(s)) == Some(s)
  {
    if s != [] {
      var init, b := s[..|s| - 1], s[|s| - 1];
      var h := Hex(init);
      assert Hex(s) == h + HexPair(b);
      UnHexOfHex(init);
      UnHexAppendPair(h, b);
      assert UnHex(h + HexPair(b)) == Some(init + [b]);
      assert init + [b] == s;
    }
  }

  /** Conversely, a string that decodes is exactly the rendering of what it decodes to. */
  lemma {:induction false} HexOfUnHex(t: string, s: seq<Byte>)
    requires UnHex(t) == Some(s)
    ensures Hex(s) == t
    decreases |t|
  {
    if t != [] {
      var pre, c1, c2 := t[..|t| - 2], t[|t| - 2], t[|t| - 1];
      var prefix, b := UnHex(pre).value, DecodePair(c1, c2).value;
      HexOfUnHex(pre, prefix);
      assert s == prefix + [b];
      assert Hex(s) == Hex(prefix) + HexPair(b) by {
        assert s[..|s| - 1] == prefix;
      }
      assert pre + [c1, c2] == t;
    }
  }

  /** Joining two nibbles into a byte and splitting it again gives them back. */
  lemma NibbleJoin(hi: int, lo: int)
    requires 0 <= hi < 16 && 0 <= lo < 16
    ensures 0 <= hi * 16 + lo < 256 && (hi * 16 + lo) / 16 == hi && (hi * 16 + lo) % 16 == lo
  {
  }
}
