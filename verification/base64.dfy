/** Base 64 encoding with the alphabet of section 4 of RFC 4648: every three
    bytes become four characters of a 64-letter alphabet, and a final group of
    one or two bytes is completed with zero bits and `=` padding (section 4
    of RFC 4648). Decoding is strict: only alphabet characters, and padding
    only in the last group. */
module Base64 {
  import opened Wrappers

  type Byte = b: int | 0 <= b < 256
  type Sextet = s: int | 0 <= s < 64

  /** The character that encodes a six-bit value (Table 1 of RFC 4648). */
  function CharOf(s: Sextet): char
  {
    if s < 26 then (65 + s) as char
    else if s < 52 then (97 + s - 26) as char
    else if s < 62 then (48 + s - 52) as char
    else if s == 62 then '+'
    else '/'
  }

  /** Distinct values have distinct characters. */
  lemma CharOfInjective(s: Sextet, t: Sextet)
    requires CharOf(s) == CharOf(t)
    ensures s == t
  {
  }

  /** The six-bit value a character encodes, or None outside the alphabet:
      the inverse of `CharOf` (see `IndexOfCharOf`). */
  function IndexOf(c: char): (r: Option<Sextet>)
    ensures r.Some? ==> CharOf(r.value) == c
  {
    SearchFrom(c, 0)
  }

  /** The first value from `from` on whose character is `c`. */
  function SearchFrom(c: char, from: nat): (r: Option<Sextet>)
    requires from <= 64
    ensures r.Some? ==> from <= r.value && CharOf(r.value) == c
    decreases 64 - from
  {
    if from == 64 then None
    else if CharOf(from) == c then Some(from)
    else SearchFrom(c, from + 1)
  }

  lemma {:induction false} SearchFromFinds(s: Sextet, from: nat)
    requires from <= s
    ensures SearchFrom(CharOf(s), from) == Some(s)
    decreases s - from
  {
    if CharOf(from) != CharOf(s) {
      SearchFromFinds(s, from + 1);
    } else {
      CharOfInjective(from, s);
    }
  }

  lemma IndexOfCharOf(s: Sextet)
    ensures IndexOf(CharOf(s)) == Some(s)
  {
    SearchFromFinds(s, 0);
  }

  /** Letters, digits, `+` and `/` make up the alphabet; no other character
      encodes a value. */
  lemma OutsideAlphabet(c: char)
    requires !('A' <= c <= 'Z' || 'a' <= c <= 'z' || '0' <= c <= '9' || c == '+' || c == '/')
    ensures IndexOf(c).None?
    ensures forall s: Sextet :: CharOf(s) != c
  {
  }

  /** A character that can appear in padded base 64 text. */
  predicate IsBase64Char(c: char)
  {
    IndexOf(c).Some? || c == '='
  }

  /** The four six-bit values of three bytes, most significant bits first. */
  function Sextets(a: Byte, b: Byte, c: Byte): (v: seq<Sextet>)
    ensures |v| == 4
  {
    [a / 4, (a % 4) * 16 + b / 16, (b % 16) * 4 + c / 64, c % 64]
  }

  /** The characters of a run of six-bit values. */
  function Chars(vs: seq<Sextet>): (r: string)
    ensures |r| == |vs|
  {
    seq(|vs|, i requires 0 <= i < |vs| => CharOf(vs[i]))
  }

  /** Padded encoding. A last group of one byte is completed with two zero
      bytes and keeps two characters, a last group of two bytes keeps three;
      `=` fills the group to four characters. */
  function Encode(bs: seq<Byte>): (r: string)
    ensures |r| % 4 == 0
    decreases |bs|
  {
    if |bs| == 0 then ""
    else if |bs| == 1 then Chars(Sextets(bs[0], 0, 0)[..2]) + "=="
    else if |bs| == 2 then Chars(Sextets(bs[0], bs[1], 0)[..3]) + "="
    else Chars(Sextets(bs[0], bs[1], bs[2])) + Encode(bs[3..])
  }

  /** The same encoding with the trailing `=` left off, as section 3.2 of
      RFC 4648 permits when the length is known by other means. */
  function EncodeUnpadded(bs: seq<Byte>): (r: string)
    ensures |r| % 4 != 1
    decreases |bs|
  {
    if |bs| == 0 then ""
    else if |bs| == 1 then Chars(Sextets(bs[0], 0, 0)[..2])
    else if |bs| == 2 then Chars(Sextets(bs[0], bs[1], 0)[..3])
    else Chars(Sextets(bs[0], bs[1], bs[2])) + EncodeUnpadded(bs[3..])
  }

  /** Three bytes from four six-bit values. */
  function Combine(w: Sextet, x: Sextet, y: Sextet, z: Sextet): seq<Byte>
  {
    [w * 4 + x / 16, (x % 16) * 16 + y / 4, (y % 4) * 64 + z]
  }

  /** The values of a run of alphabet characters, or None when one of them
      is outside the alphabet. */
  function Values(q: string): (r: Option<seq<Sextet>>)
    ensures r.Some? ==> |r.value| == |q|
  {
    if q == [] then Some([])
    else
      match (IndexOf(q[0]), Values(q[1..]))
      case (Some(v), Some(vs)) => Some([v] + vs)
      case _ => None
  }

  /** A group of four alphabet characters. */
  function DecodeGroup(q: string): (r: Option<seq<Byte>>)
    requires |q| == 4
    ensures r.Some? ==> |r.value| == 3
  {
    match Values(q)
    case Some(v) => Some(Combine(v[0], v[1], v[2], v[3]))
    case None => None
  }

  /** The last group, which may end in `==` (one byte) or `=` (two bytes). */
  function DecodeLastGroup(q: string): (r: Option<seq<Byte>>)
    requires |q| == 4
    ensures r.Some? ==> 1 <= |r.value| <= 3
  {
    if q[2] == '=' && q[3] == '=' then
      match Values(q[..2])
      case Some(v) => Some(Combine(v[0], v[1], 0, 0)[..1])
      case None => None
    else if q[3] == '=' then
      match Values(q[..3])
      case Some(v) => Some(Combine(v[0], v[1], v[2], 0)[..2])
      case None => None
    else DecodeGroup(q)
  }

  /** Strict decoding: None for a length that is not a multiple of four, a
      character outside the alphabet, or misplaced padding. */
  function Decode(s: string): Option<seq<Byte>>
    decreases |s|
  {
    if |s| % 4 != 0 then None
    else if s == [] then Some([])
    else if |s| == 4 then DecodeLastGroup(s)
    else
      match DecodeGroup(s[..4])
      case None => None
      case Some(head) =>
        match Decode(s[4..])
        case None => None
        case Some(tail) => Some(head + tail)
  }

  /** Splitting three bytes into values and combining them is the identity. */
  lemma CombineSextets(a: Byte, b: Byte, c: Byte)
    ensures var v := Sextets(a, b, c); Combine(v[0], v[1], v[2], v[3]) == [a, b, c]
  {
    var x := (a % 4) * 16 + b / 16;
    var y := (b % 16) * 4 + c / 64;
    assert x / 16 == a % 4 && x % 16 == b / 16;
    assert y / 4 == b % 16 && y % 4 == c / 64;
  }

  /** The characters of known values decode to those values. */
  lemma {:induction false} ValuesChars(vs: seq<Sextet>)
    ensures Values(Chars(vs)) == Some(vs)
    decreases |vs|
  {
    if vs != [] {
      IndexOfCharOf(vs[0]);
      ValuesChars(vs[1..]);
      assert Chars(vs)[1..] == Chars(vs[1..]);
      assert vs == [vs[0]] + vs[1..];
    }
  }

  lemma DecodeEncodeGroup(a: Byte, b: Byte, c: Byte)
    ensures DecodeGroup(Chars(Sextets(a, b, c))) == Some([a, b, c])
  {
    ValuesChars(Sextets(a, b, c));
    CombineSextets(a, b, c);
  }

  /** A final group of one byte. */
  lemma DecodeEncodeOne(a: Byte)
    ensures Decode(Encode([a])) == Some([a])
  {
    var v := Sextets(a, 0, 0);
    var e := Encode([a]);
    assert e == Chars(v[..2]) + "==";
    assert e[..2] == Chars(v[..2]);
    ValuesChars(v[..2]);
    DecodeLastOne(e, v[..2]);
    CombineSextets(a, 0, 0);
    assert v[..2][0] == v[0] && v[..2][1] == v[1] && v[2] == 0 && v[3] == 0;
    assert Combine(v[0], v[1], 0, 0) == [a, 0, 0];
    assert [a, 0, 0][..1] == [a];
  }

  /** A final group of two bytes. */
  lemma DecodeEncodeTwo(a: Byte, b: Byte)
    ensures Decode(Encode([a, b])) == Some([a, b])
  {
    var v := Sextets(a, b, 0);
    var e := Encode([a, b]);
    assert e == Chars(v[..3]) + "=";
    assert e[..3] == Chars(v[..3]);
    ValuesChars(v[..3]);
    DecodeLastTwo(e, v[..3]);
    CombineSextets(a, b, 0);
    assert v[..3][0] == v[0] && v[..3][1] == v[1] && v[..3][2] == v[2] && v[3] == 0;
    assert Combine(v[0], v[1], v[2], 0) == [a, b, 0];
    assert [a, b, 0][..2] == [a, b];
  }

  /** Four characters ending in `==` decode to one byte. */
  lemma DecodeLastOne(q: string, v: seq<Sextet>)
    requires |q| == 4 && q[2] == '=' && q[3] == '='
    requires Values(q[..2]) == Some(v)
    ensures Decode(q) == Some(Combine(v[0], v[1], 0, 0)[..1])
  {
  }

  /** Four characters ending in a single `=` decode to two bytes. */
  lemma DecodeLastTwo(q: string, v: seq<Sextet>)
    requires |q| == 4 && q[2] != '=' && q[3] == '='
    requires Values(q[..3]) == Some(v)
    ensures Decode(q) == Some(Combine(v[0], v[1], v[2], 0)[..2])
  {
  }

  /** A final group of three bytes: no padding. */
  lemma DecodeEncodeThree(a: Byte, b: Byte, c: Byte)
    ensures Decode(Encode([a, b, c])) == Some([a, b, c])
  {
    var g := Chars(Sextets(a, b, c));
    assert [a, b, c][3..] == [];
    assert Encode([a, b, c]) == g;
    DecodeEncodeGroup(a, b, c);
    OutsideAlphabet('=');
    assert g[3] != '=' && g[2] != '=';
    assert Decode(g) == DecodeLastGroup(g) == DecodeGroup(g);
  }

  /** Decoding undoes encoding. */
  lemma {:induction false} DecodeEncode(bs: seq<Byte>)
    ensures Decode(Encode(bs)) == Some(bs)
    decreases |bs|
  {
    if |bs| == 1 {
      DecodeEncodeOne(bs[0]);
      assert bs == [bs[0]];
    } else if |bs| == 2 {
      DecodeEncodeTwo(bs[0], bs[1]);
      assert bs == [bs[0], bs[1]];
    } else if |bs| == 3 {
      DecodeEncodeThree(bs[0], bs[1], bs[2]);
      assert bs == [bs[0], bs[1], bs[2]];
    } else if |bs| > 3 {
      DecodeEncode(bs[3..]);
      DecodeEncodeMore(bs);
    }
  }

  /** A first group followed by more text decodes group by group. */
  lemma DecodeEncodeMore(bs: seq<Byte>)
    requires |bs| > 3 && Decode(Encode(bs[3..])) == Some(bs[3..])
    ensures Decode(Encode(bs)) == Some(bs)
  {
    EncodeMore(bs);
    SplitThree(bs);
    DecodeEncodeGroup(bs[0], bs[1], bs[2]);
    DecodeFirstGroup(Chars(Sextets(bs[0], bs[1], bs[2])), Encode(bs[3..]), [bs[0], bs[1], bs[2]], bs[3..]);
  }

  /** More than three bytes: the first group, then the encoding of the rest. */
  lemma EncodeMore(bs: seq<Byte>)
    requires |bs| > 3
    ensures Encode(bs) == Chars(Sextets(bs[0], bs[1], bs[2])) + Encode(bs[3..])
    ensures Encode(bs[3..]) != []
  {
  }

  lemma SplitThree<T>(s: seq<T>)
    requires |s| >= 3
    ensures s == [s[0], s[1], s[2]] + s[3..]
  {
  }

  lemma DecodeFirstGroup(g: string, rest: string, head: seq<Byte>, tail: seq<Byte>)
    requires |g| == 4 && rest != []
    requires DecodeGroup(g) == Some(head) && Decode(rest) == Some(tail)
    ensures Decode(g + rest) == Some(head + tail)
  {
    assert |rest| % 4 == 0;
    assert (g + rest)[..4] == g;
    assert (g + rest)[4..] == rest;
  }

  /** Padding the unpadded encoding to a multiple of four with `=` gives the
      padded encoding back. */
  lemma {:induction false} PaddingCompletesEncoding(bs: seq<Byte>)
    ensures Encode(bs) == EncodeUnpadded(bs) + PadFor(|EncodeUnpadded(bs)|)
    decreases |bs|
  {
    if |bs| >= 3 {
      PaddingCompletesEncoding(bs[3..]);
      var g := Chars(Sextets(bs[0], bs[1], bs[2]));
      var u := EncodeUnpadded(bs[3..]);
      assert EncodeUnpadded(bs) == g + u;
      assert Encode(bs) == g + Encode(bs[3..]);
      assert PadFor(|g + u|) == PadFor(|u|);
      assert g + (u + PadFor(|u|)) == (g + u) + PadFor(|u|);
    }
  }

  /** The `=` characters that complete a text of length `n` to a multiple
      of four. */
  function PadFor(n: nat): (r: string)
    ensures (n + |r|) % 4 == 0 && |r| < 4
    ensures forall i :: 0 <= i < |r| ==> r[i] == '='
  {
    if n % 4 == 0 then ""
    else if n % 4 == 1 then "==="
    else if n % 4 == 2 then "=="
    else "="
  }

  /** The characters of values are alphabet characters. */
  lemma CharsInAlphabet(vs: seq<Sextet>)
    ensures forall i :: 0 <= i < |vs| ==> IndexOf(Chars(vs)[i]).Some?
  {
    forall i | 0 <= i < |vs|
      ensures IndexOf(Chars(vs)[i]).Some?
    {
      IndexOfCharOf(vs[i]);
    }
  }

  /** Encoded text holds only alphabet characters and `=`. */
  lemma {:induction false} EncodeChars(bs: seq<Byte>)
    ensures forall i :: 0 <= i < |Encode(bs)| ==> IsBase64Char(Encode(bs)[i])
    decreases |bs|
  {
    if |bs| == 1 {
      CharsInAlphabet(Sextets(bs[0], 0, 0)[..2]);
    } else if |bs| == 2 {
      CharsInAlphabet(Sextets(bs[0], bs[1], 0)[..3]);
    } else if |bs| >= 3 {
      EncodeChars(bs[3..]);
      CharsInAlphabet(Sextets(bs[0], bs[1], bs[2]));
    }
  }
}
