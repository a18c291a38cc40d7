/**
 Base64 over bytes: the URL-safe alphabet of section 5 of RFC 4648 for writing, and for reading
 the standard alphabet after the URL-safe one has been mapped back to it.
 */
module Base64 {
  import opened RawBytes
  import opened Wrappers

  type Sextet = n: nat | n < 64

  const PAD := '='

  /** The URL-safe alphabet. */
  function UrlChar(n: Sextet): char {
    if n < 26 then (n + 'A' as int) as char
    else if n < 52 then (n - 26 + 'a' as int) as char
    else if n < 62 then (n - 52 + '0' as int) as char
    else if n == 62 then '-' else '_'
  }

  /** Maps the URL-safe alphabet back to the standard one. */
  function ToStandard(c: char): char {
    if c == '-' then '+' else if c == '_' then '/' else c
  }

  /** The value of a character of the standard alphabet; any other is rejected. */
  function StandardValue(c: char): Option<Sextet> {
    if 'A' <= c <= 'Z' then Some(c as int - 'A' as int)
    else if 'a' <= c <= 'z' then Some(c as int - 'a' as int + 26)
    else if '0' <= c <= '9' then Some(c as int - '0' as int + 52)
    else if c == '+' then Some(62)
    else if c == '/' then Some(63)
    else None
  }

  lemma CharRoundTrip(n: Sextet)
    ensures StandardValue(ToStandard(UrlChar(n))) == Some(n) && ToStandard(UrlChar(n)) != PAD
  {
  }

  /** A to Z, a to z, 0 to 9, a hyphen and an underscore; reading takes a plus and a slash for the last two. */
  lemma AlphabetIs(n: Sextet)
    ensures UrlChar(0) == 'A' && UrlChar(25) == 'Z' && UrlChar(26) == 'a' && UrlChar(51) == 'z'
    ensures UrlChar(52) == '0' && UrlChar(61) == '9' && UrlChar(62) == '-' && UrlChar(63) == '_'
    ensures n < 61 && n != 25 && n != 51 ==> UrlChar(n + 1) as int == UrlChar(n) as int + 1
    ensures ToStandard(UrlChar(n)) == if n == 62 then '+' else if n == 63 then '/' else UrlChar(n)
    ensures PAD == '='
  {
  }

  /** Three bytes as four characters; missing bytes of the last group leave padding. */
  function Encode(bytes: seq<Byte>): string {
    if bytes == [] then ""
    else if |bytes| == 1 then
      [UrlChar(bytes[0] / 4), UrlChar(bytes[0] % 4 * 16), PAD, PAD]
    else if |bytes| == 2 then
      [UrlChar(bytes[0] / 4), UrlChar(bytes[0] % 4 * 16 + bytes[1] / 16), UrlChar(bytes[1] % 16 * 4), PAD]
    else
      [UrlChar(bytes[0] / 4), UrlChar(bytes[0] % 4 * 16 + bytes[1] / 16),
       UrlChar(bytes[1] % 16 * 4 + bytes[2] / 64), UrlChar(bytes[2] % 64)] + Encode(bytes[3..])
  }

  function Translate(text: string): (r: string)
    ensures |r| == |text| && forall i :: 0 <= i < |text| ==> r[i] == ToStandard(text[i])
  {
    seq(|text|, i requires 0 <= i < |text| => ToStandard(text[i]))
  }

  /** The bytes of a text of the standard alphabet; padding only at the end. */
  function Decode(text: string): Option<seq<Byte>> {
    if text == "" then Some([])
    else if |text| < 4 then None
    else
      var a, b := StandardValue(text[0]), StandardValue(text[1]);
      if a.None? || b.None? then None
      else if |text| == 4 && text[2] == PAD && text[3] == PAD then
        Some([a.value * 4 + b.value / 16])
      else
        var c := StandardValue(text[2]);
        if c.None? then None
        else if |text| == 4 && text[3] == PAD then
          Some([a.value * 4 + b.value / 16, b.value % 16 * 16 + c.value / 4])
        else
          var d, rest := StandardValue(text[3]), Decode(text[4..]);
          if d.None? || rest.None? then None
          else Some([a.value * 4 + b.value / 16, b.value % 16 * 16 + c.value / 4, c.value % 4 * 64 + d.value]
                    + rest.value)
  }

  /** Cutting bytes into sextets loses nothing. */
  lemma Recombine(a: Byte, b: Byte, c: Byte)
    ensures a / 4 * 4 + (a % 4 * 16 + b / 16) / 16 == a
    ensures (a % 4 * 16 + b / 16) % 16 * 16 + (b % 16 * 4 + c / 64) / 4 == b
    ensures (b % 16 * 4 + c / 64) % 4 * 64 + c % 64 == c
  {
  }

  /** Reading the first group of four characters. */
  lemma DecodeGroup(text: string, s: Sextet, t: Sextet, u: Sextet, v: Sextet, rest: string)
    requires text == [ToStandard(UrlChar(s)), ToStandard(UrlChar(t)), ToStandard(UrlChar(u)), ToStandard(UrlChar(v))]
             + rest
    ensures Decode(rest).Some? ==>
              Decode(text) == Some([s * 4 + t / 16, t % 16 * 16 + u / 4, u % 4 * 64 + v] + Decode(rest).value)
  {
    CharRoundTrip(s);
    CharRoundTrip(t);
    CharRoundTrip(u);
    CharRoundTrip(v);
    assert text[4..] == rest;
  }

  lemma OneByte(a: Byte)
    ensures Decode(Translate(Encode([a]))) == Some([a])
  {
    CharRoundTrip(a / 4);
    CharRoundTrip(a % 4 * 16);
    Recombine(a, 0, 0);
  }

  lemma TwoBytes(a: Byte, b: Byte)
    ensures Decode(Translate(Encode([a, b]))) == Some([a, b])
  {
    CharRoundTrip(a / 4);
    CharRoundTrip(a % 4 * 16 + b / 16);
    CharRoundTrip(b % 16 * 4);
    Recombine(a, b, 0);
  }

  lemma GroupRoundTrip(a: Byte, b: Byte, c: Byte, bytes: seq<Byte>)
    requires Decode(Translate(Encode(bytes))) == Some(bytes)
    ensures Decode(Translate(Encode([a, b, c] + bytes))) == Some([a, b, c] + bytes)
  {
    Recombine(a, b, c);
    SextetsRoundTrip(a, b, c, a / 4, a % 4 * 16 + b / 16, b % 16 * 4 + c / 64, c % 64, bytes);
  }

  lemma SextetsRoundTrip(a: Byte, b: Byte, c: Byte, s: Sextet, t: Sextet, u: Sextet, v: Sextet, bytes: seq<Byte>)
    requires s == a / 4 && t == a % 4 * 16 + b / 16 && u == b % 16 * 4 + c / 64 && v == c % 64
    requires a == s * 4 + t / 16 && b == t % 16 * 16 + u / 4 && c == u % 4 * 64 + v
    requires Decode(Translate(Encode(bytes))) == Some(bytes)
    ensures Decode(Translate(Encode([a, b, c] + bytes))) == Some([a, b, c] + bytes)
  {
    EncodedGroup(a, b, c, s, t, u, v, bytes);
    GroupDecodes(a, b, c, s, t, u, v, Encode(bytes), bytes);
  }

  lemma GroupDecodes(a: Byte, b: Byte, c: Byte, s: Sextet, t: Sextet, u: Sextet, v: Sextet, text: string,
                     bytes: seq<Byte>)
    requires a == s * 4 + t / 16 && b == t % 16 * 16 + u / 4 && c == u % 4 * 64 + v
    requires Decode(Translate(text)) == Some(bytes)
    ensures Decode(Translate([UrlChar(s), UrlChar(t), UrlChar(u), UrlChar(v)] + text)) == Some([a, b, c] + bytes)
  {
    var whole := Translate([UrlChar(s), UrlChar(t), UrlChar(u), UrlChar(v)] + text);
    assert whole == [ToStandard(UrlChar(s)), ToStandard(UrlChar(t)), ToStandard(UrlChar(u)), ToStandard(UrlChar(v))]
        + Translate(text);
    DecodeGroup(whole, s, t, u, v, Translate(text));
  }

  lemma EncodedGroup(a: Byte, b: Byte, c: Byte, s: Sextet, t: Sextet, u: Sextet, v: Sextet, bytes: seq<Byte>)
    requires s == a / 4 && t == a % 4 * 16 + b / 16 && u == b % 16 * 4 + c / 64 && v == c % 64
    ensures Encode([a, b, c] + bytes) == [UrlChar(s), UrlChar(t), UrlChar(u), UrlChar(v)] + Encode(bytes)
  {
    assert ([a, b, c] + bytes)[3..] == bytes;
  }

  /** Reading back what was written, after mapping the alphabet, gives the bytes. */
  lemma {:induction false} RoundTrip(bytes: seq<Byte>)
    ensures Decode(Translate(Encode(bytes))) == Some(bytes)
  {
    if |bytes| == 1 {
      OneByte(bytes[0]);
      assert bytes == [bytes[0]];
    } else if |bytes| == 2 {
      TwoBytes(bytes[0], bytes[1]);
      assert bytes == [bytes[0], bytes[1]];
    } else if |bytes| > 2 {
      var a, b, c := bytes[0], bytes[1], bytes[2];
      RoundTrip(bytes[3..]);
      assert bytes == [a, b, c] + bytes[3..];
      GroupRoundTrip(a, b, c, bytes[3..]);
    }
  }

  lemma {:induction false} EncodedLength(bytes: seq<Byte>)
    ensures |Encode(bytes)| == (|bytes| + 2) / 3 * 4
  {
    if |bytes| > 2 {
      EncodedLength(bytes[3..]);
      ThirdsStep(|bytes|);
    }
  }

  lemma ThirdsStep(n: nat)
    ensures (n + 2) / 3 * 4 == (n - 1) / 3 * 4 + 4
  {
  }

  // ---- What is accepted --------------------------------------------------------------------------

  /** Groups of four characters of the alphabet, with up to two padding characters at the end instead. */
  predicate IsPadded(text: string, pad: nat) {
    && |text| % 4 == 0 && pad <= 2 && pad <= |text|
    && (forall i :: 0 <= i < |text| - pad ==> StandardValue(text[i]).Some?)
    && (forall i :: |text| - pad <= i < |text| ==> text[i] == '=')
  }

  lemma PaddedNext(text: string, pad: nat)
    requires |text| > 4
    ensures IsPadded(text, pad) <==>
              && StandardValue(text[0]).Some? && StandardValue(text[1]).Some? && StandardValue(text[2]).Some?
              && StandardValue(text[3]).Some? && IsPadded(text[4..], pad)
  {
    var rest := text[4..];
    if IsPadded(text, pad) {
      assert pad <= |rest|;
      assert forall i :: 0 <= i < |rest| ==> rest[i] == text[i + 4];
    }
    if IsPadded(rest, pad) {
      assert forall i :: 4 <= i < |text| ==> text[i] == rest[i - 4];
    }
  }

  lemma PaddedGroup(text: string)
    requires |text| == 4
    ensures Decode(text).Some? <==> IsPadded(text, 0) || IsPadded(text, 1) || IsPadded(text, 2)
  {
    assert text[4..] == "";
  }

  /** Exactly the padded texts are read; anything else is rejected, stray characters included. */
  lemma {:induction false} DecodeAccepts(text: string)
    ensures Decode(text).Some? <==> IsPadded(text, 0) || IsPadded(text, 1) || IsPadded(text, 2)
  {
    if |text| == 4 {
      PaddedGroup(text);
    } else if |text| > 4 {
      DecodeAccepts(text[4..]);
      PaddedNext(text, 0);
      PaddedNext(text, 1);
      PaddedNext(text, 2);
      assert |text[4..]| > 0;
    }
  }

  /** The characters read are those that are written, hyphen and underscore mapped. */
  lemma AlphabetRead(c: char)
    ensures StandardValue(c).Some? <==> 'A' <= c <= 'Z' || 'a' <= c <= 'z' || '0' <= c <= '9' || c == '+' || c == '/'
    ensures StandardValue(c).Some? ==> ToStandard(UrlChar(StandardValue(c).value)) == c
  {
  }
}
