/** The standard base64 encoding of section 4 of RFC 4648 (alphabet
    `A-Z a-z 0-9 + /`, `=` padding), as Go's `base64.StdEncoding.EncodeToString`
    produces it, together with a decoder that serves as its reference partner. */
module Base64 {
  import opened Wrappers

  type Byte = b: int | 0 <= b < 256
  type Sextet = v: int | 0 <= v < 64

  /** The character that stands for value `v` in the standard alphabet (RFC 4648, table 1). */
  function Digit(v: Sextet): (c: char)
    ensures IsDigit(c)
  {
    if v < 26 then ('A' as int + v) as char
    else if v < 52 then ('a' as int + (v - 26)) as char
    else if v < 62 then ('0' as int + (v - 52)) as char
    else if v == 62 then '+'
    else '/'
  }

  /** The 64 characters of the standard alphabet; `=` is not one of them. */
  predicate IsDigit(c: char) {
    'A' <= c <= 'Z' || 'a' <= c <= 'z' || '0' <= c <= '9' || c == '+' || c == '/'
  }

  /** The value a character of the standard alphabet stands for. */
  function ValueOf(c: char): (v: Sextet)
    requires IsDigit(c)
    ensures Digit(v) == c
  {
    if 'A' <= c <= 'Z' then c as int - 'A' as int
    else if 'a' <= c <= 'z' then c as int - 'a' as int + 26
    else if '0' <= c <= '9' then c as int - '0' as int + 52
    else if c == '+' then 62
    else 63
  }

  lemma ValueOfDigit(v: Sextet)
    ensures ValueOf(Digit(v)) == v
  {
  }

  /** Encodes three bytes (24 bits) as four characters, high bits first. */
  function EncodeGroup(b0: Byte, b1: Byte, b2: Byte): string {
    [Digit(b0 / 4), Digit(b0 % 4 * 16 + b1 / 16), Digit(b1 % 16 * 4 + b2 / 64), Digit(b2 % 64)]
  }

  /** The standard padded encoding: whole groups of three bytes, then a final
      group of one or two bytes padded with `==` or `=`. */
  function Encode(b: seq<Byte>): (s: string)
    ensures |s| == 4 * ((|b| + 2) / 3)
    decreases |b|
  {
    if |b| == 0 then []
    else if |b| == 1 then [Digit(b[0] / 4), Digit(b[0] % 4 * 16), '=', '=']
    else if |b| == 2 then [Digit(b[0] / 4), Digit(b[0] % 4 * 16 + b[1] / 16), Digit(b[1] % 16 * 4), '=']
    else EncodeGroup(b[0], b[1], b[2]) + Encode(b[3..])
  }

  /** Number of `=` characters that end the encoding of `n` bytes. */
  function PadLength(n: nat): (p: nat)
    ensures p < 3
  {
    if n % 3 == 0 then 0 else 3 - n % 3
  }

  /** Decodes one group of four characters; padding is accepted only where
      `last` says the group ends the input. */
  function DecodeGroup(q: string, last: bool): (r: Option<seq<Byte>>)
    requires |q| == 4
    ensures r.Some? ==> 1 <= |r.value| <= 3
  {
    if IsDigit(q[0]) && IsDigit(q[1]) && IsDigit(q[2]) && IsDigit(q[3]) then
      var c0, c1, c2, c3 := ValueOf(q[0]), ValueOf(q[1]), ValueOf(q[2]), ValueOf(q[3]);
      Some([c0 * 4 + c1 / 16, c1 % 16 * 16 + c2 / 4, c2 % 4 * 64 + c3])
    else if last && IsDigit(q[0]) && IsDigit(q[1]) && IsDigit(q[2]) && q[3] == '=' then
      var c0, c1, c2 := ValueOf(q[0]), ValueOf(q[1]), ValueOf(q[2]);
      Some([c0 * 4 + c1 / 16, c1 % 16 * 16 + c2 / 4])
    else if last && IsDigit(q[0]) && IsDigit(q[1]) && q[2] == '=' && q[3] == '=' then
      var c0, c1 := ValueOf(q[0]), ValueOf(q[1]);
      Some([c0 * 4 + c1 / 16])
    else None
  }

  /** Decodes a padded standard encoding; `None` for anything else. */
  function Decode(s: string): (r: Option<seq<Byte>>)
    decreases |s|
  {
    if |s| == 0 then Some([])
    else if |s| < 4 then None
    else if |s| == 4 then DecodeGroup(s, true)
    else
      match DecodeGroup(s[..4], false)
      case None => None
      case Some(g) =>
        match Decode(s[4..])
        case None => None
        case Some(rest) => Some(g + rest)
  }

  /** Splitting a value into high and low parts by a constant divisor. */
  lemma DivModSplit(hi: nat, lo: nat, d: nat)
    requires d == 4 || d == 16 || d == 64
    requires lo < d
    ensures (hi * d + lo) / d == hi && (hi * d + lo) % d == lo
  {
  }

  /** The four values of a group recombine into the three bytes they came from. */
  lemma GroupArithmetic(b0: Byte, b1: Byte, b2: Byte)
    ensures var c1, c2 := b0 % 4 * 16 + b1 / 16, b1 % 16 * 4 + b2 / 64;
      && b0 / 4 * 4 + c1 / 16 == b0
      && c1 % 16 * 16 + c2 / 4 == b1
      && c2 % 4 * 64 + b2 % 64 == b2
  {
    DivModSplit(b0 % 4, b1 / 16, 16);
    DivModSplit(b1 % 16, b2 / 64, 4);
  }

  lemma GroupRoundTrip(b0: Byte, b1: Byte, b2: Byte)
    ensures DecodeGroup(EncodeGroup(b0, b1, b2), false) == Some([b0, b1, b2])
    ensures DecodeGroup(EncodeGroup(b0, b1, b2), true) == Some([b0, b1, b2])
  {
    var c0, c1, c2, c3 := b0 / 4, b0 % 4 * 16 + b1 / 16, b1 % 16 * 4 + b2 / 64, b2 % 64;
    ValueOfDigit(c0); ValueOfDigit(c1); ValueOfDigit(c2); ValueOfDigit(c3);
    GroupArithmetic(b0, b1, b2);
    var q := EncodeGroup(b0, b1, b2);
    assert ValueOf(q[0]) == c0 && ValueOf(q[1]) == c1 && ValueOf(q[2]) == c2 && ValueOf(q[3]) == c3;
  }

  lemma RoundTripOne(b0: Byte)
    ensures Decode(Encode([b0])) == Some([b0])
  {
    var c0, c1 := b0 / 4, b0 % 4 * 16;
    ValueOfDigit(c0); ValueOfDigit(c1);
    DivModSplit(b0 % 4, 0, 16);
    var q := Encode([b0]);
    assert ValueOf(q[0]) == c0 && ValueOf(q[1]) == c1;
    assert !IsDigit(q[2]);
  }

  lemma RoundTripTwo(b0: Byte, b1: Byte)
    ensures Decode(Encode([b0, b1])) == Some([b0, b1])
  {
    var c0, c1, c2 := b0 / 4, b0 % 4 * 16 + b1 / 16, b1 % 16 * 4;
    ValueOfDigit(c0); ValueOfDigit(c1); ValueOfDigit(c2);
    DivModSplit(b0 % 4, b1 / 16, 16);
    DivModSplit(b1 % 16, 0, 4);
    var q := Encode([b0, b1]);
    assert ValueOf(q[0]) == c0 && ValueOf(q[1]) == c1 && ValueOf(q[2]) == c2;
    assert !IsDigit(q[3]);
    assert c0 * 4 + c1 / 16 == b0 && c1 % 16 * 16 + c2 / 4 == b1;
  }

  /** A leading group that decodes on its own decodes in front of the rest. */
  lemma DecodeCons(q: string, rest: string, g: seq<Byte>, r: seq<Byte>)
    requires |q| == 4 && |rest| > 0
    requires DecodeGroup(q, false) == Some(g) && Decode(rest) == Some(r)
    ensures Decode(q + rest) == Some(g + r)
  {
    var s := q + rest;
    assert s[..4] == q && s[4..] == rest;
  }

  lemma ShortSeq(b: seq<Byte>)
    ensures |b| == 1 ==> b == [b[0]]
    ensures |b| == 2 ==> b == [b[0], b[1]]
    ensures |b| == 3 ==> b == [b[0], b[1], b[2]]
  {
  }

  lemma SplitThree(b: seq<Byte>)
    requires |b| >= 3
    ensures b == [b[0], b[1], b[2]] + b[3..]
  {
  }

  /** Round trip for more than three bytes, given the round trip of the tail. */
  lemma RoundTripCons(b: seq<Byte>)
    requires |b| > 3 && Decode(Encode(b[3..])) == Some(b[3..])
    ensures Decode(Encode(b)) == Some(b)
  {
    var q, rest := EncodeGroup(b[0], b[1], b[2]), Encode(b[3..]);
    assert Encode(b) == q + rest;
    GroupRoundTrip(b[0], b[1], b[2]);
    DecodeCons(q, rest, [b[0], b[1], b[2]], b[3..]);
    SplitThree(b);
  }

  /** Round trip for one to three bytes: a single, possibly padded, group. */
  lemma RoundTripShort(b: seq<Byte>)
    requires 1 <= |b| <= 3
    ensures Decode(Encode(b)) == Some(b)
  {
    ShortSeq(b);
    if |b| == 1 {
      RoundTripOne(b[0]);
    } else if |b| == 2 {
      RoundTripTwo(b[0], b[1]);
    } else {
      var q := EncodeGroup(b[0], b[1], b[2]);
      assert Encode([b[0], b[1], b[2]]) == q + [];
      assert q + [] == q;
      GroupRoundTrip(b[0], b[1], b[2]);
    }
  }

  /** Decoding inverts encoding: the standard encoding loses nothing. */
  lemma {:induction false} DecodeEncode(b: seq<Byte>)
    ensures Decode(Encode(b)) == Some(b)
    decreases |b|
  {
    if 1 <= |b| <= 3 {
      RoundTripShort(b);
    } else if |b| > 3 {
      DecodeEncode(b[3..]);
      RoundTripCons(b);
    }
  }

  /** The encoding is alphabet characters followed by exactly `PadLength(|b|)` `=` signs. */
  lemma {:induction false} EncodeShape(b: seq<Byte>)
    ensures forall i | 0 <= i < |Encode(b)| - PadLength(|b|) :: IsDigit(Encode(b)[i])
    ensures forall i | |Encode(b)| - PadLength(|b|) <= i < |Encode(b)| :: Encode(b)[i] == '='
    decreases |b|
  {
    if |b| >= 3 {
      var g, rest := EncodeGroup(b[0], b[1], b[2]), Encode(b[3..]);
      EncodeShape(b[3..]);
      assert Encode(b) == g + rest;
      var p := PadLength(|b|);
      assert p == PadLength(|b| - 3);
      forall i | 0 <= i < |g + rest| - p
        ensures IsDigit((g + rest)[i])
      {
        if i >= 4 {
          assert (g + rest)[i] == rest[i - 4];
        }
      }
      forall i | |g + rest| - p <= i < |g + rest|
        ensures (g + rest)[i] == '='
      {
        assert (g + rest)[i] == rest[i - 4];
      }
    }
  }
}
