/** The token encoder shared by `apiKeyGenerate` and `appIDGenerate`: the standard
    base64 text of 32 random bytes, with every `+` replaced by `0` and every `/` by
    `1`, behind a fixed prefix. */
module Tokens {
  import opened Base64

  const ApiKeyPrefix: string := "ods_key_"
  const AppIdPrefix: string := "ods_app_"

  /** One buffer filled by the random source: exactly 32 bytes. */
  type Draw = b: seq<Byte> | |b| == 32 witness seq(32, _ => 0)

  /** `strings.Replace(s, from, to, -1)` where both patterns are one character:
      every occurrence of `from` becomes `to`, nothing else moves. */
  function Replace(s: string, from: char, to: char): (r: string)
    ensures |r| == |s|
    ensures forall i | 0 <= i < |s| :: r[i] == (if s[i] == from then to else s[i])
    decreases |s|
  {
    if s == [] then [] else [if s[0] == from then to else s[0]] + Replace(s[1..], from, to)
  }

  /** The two replacements applied, in the source's order, to the base64 text:
      `+` becomes `0`, `/` becomes `1`, and every other character stays. */
  function Remap(s: string): (r: string)
    ensures |r| == |s|
    ensures forall i | 0 <= i < |s| ::
      r[i] == (if s[i] == '+' then '0' else if s[i] == '/' then '1' else s[i])
  {
    Replace(Replace(s, '+', '0'), '/', '1')
  }

  /** The candidate token built from one draw: the prefix, then as many characters
      as the base64 text has, none of them `+` or `/`. */
  function Token(prefix: string, bytes: seq<Byte>): (t: string)
    ensures |t| == |prefix| + |Encode(bytes)| && t[..|prefix|] == prefix
    ensures forall i | |prefix| <= i < |t| :: t[i] != '+' && t[i] != '/'
  {
    prefix + Remap(Encode(bytes))
  }

  predicate IsAlphanumeric(c: char) {
    'A' <= c <= 'Z' || 'a' <= c <= 'z' || '0' <= c <= '9'
  }

  /** A token is the prefix, 43 letters or digits and one `=`: the base64 text of
      32 bytes is 44 characters with exactly one padding character, and neither
      `+` nor `/` survives the remapping. */
  lemma TokenShape(prefix: string, d: Draw)
    ensures var t := Token(prefix, d);
      && |t| == |prefix| + 44
      && t[..|prefix|] == prefix
      && t[|t| - 1] == '='
      && (forall i | |prefix| <= i < |t| - 1 :: IsAlphanumeric(t[i]))
      && (forall i | |prefix| <= i < |t| :: t[i] != '+' && t[i] != '/')
  {
    EncodeShape(d);
    var e := Encode(d);
    assert PadLength(|d|) == 1;
    var t := Token(prefix, d);
    forall i | |prefix| <= i < |t| - 1
      ensures IsAlphanumeric(t[i])
    {
      assert t[i] == Remap(e)[i - |prefix|];
      assert IsDigit(e[i - |prefix|]);
    }
  }

  /** Both generators' tokens are 52 characters long. */
  lemma TokenLength(d: Draw)
    ensures |Token(ApiKeyPrefix, d)| == 52 && |Token(AppIdPrefix, d)| == 52
  {
  }

  /** Remapping works character by character, so it distributes over concatenation. */
  lemma RemapConcat(x: string, y: string)
    ensures Remap(x + y) == Remap(x) + Remap(y)
  {
    var whole, parts := Remap(x + y), Remap(x) + Remap(y);
    forall i | 0 <= i < |x + y|
      ensures whole[i] == parts[i]
    {
      if i < |x| {
        assert (x + y)[i] == x[i];
      } else {
        assert (x + y)[i] == y[i - |x|];
      }
    }
    assert whole == parts;
  }

  /** Remapping forgets the difference between `+` and `0` and between `/` and `1`,
      so two different draws can give the same token: there is no decoder for tokens. */
  lemma TokenNotInjective(prefix: string)
    ensures exists a: Draw, b: Draw :: a != b && Token(prefix, a) == Token(prefix, b)
  {
    var zeros: seq<Byte> := seq(29, _ => 0);
    var a: Draw := [0xF8, 0, 0] + zeros;
    var b: Draw := [0xD0, 0, 0] + zeros;
    assert a[0] != b[0];
    assert a[3..] == zeros && b[3..] == zeros;
    assert Encode(a) == EncodeGroup(0xF8, 0, 0) + Encode(zeros);
    assert Encode(b) == EncodeGroup(0xD0, 0, 0) + Encode(zeros);
    assert EncodeGroup(0xF8, 0, 0) == "+AAA";
    assert EncodeGroup(0xD0, 0, 0) == "0AAA";
    RemapConcat("+AAA", Encode(zeros));
    RemapConcat("0AAA", Encode(zeros));
    assert Remap("+AAA") == Remap("0AAA");
    assert Token(prefix, a) == Token(prefix, b);
  }
}
