/**
 UUIDs as 128-bit numbers, and their text in groups of 8, 4, 4, 4 and 12 hexadecimal digits. The text
 is read back to the number it was written for, so different ids have different texts.
 */
module Uuids {
  import opened Wrappers
  import opened Numerals

  type Uuid = n: nat | n < Power(16, 32) witness 0

  /** str of a UUID. */
  function Text(u: Uuid): (s: string)
    ensures |s| == 36
  {
    var hex := Fixed(u, 32, 16);
    hex[..8] + "-" + hex[8..12] + "-" + hex[12..16] + "-" + hex[16..20] + "-" + hex[20..]
  }

  /** Hyphens stand after 8, 12, 16 and 20 digits. */
  lemma TextIs(u: Uuid)
    ensures var hex, text := Fixed(u, 32, 16), Text(u);
            && text[..8] == hex[..8] && text[9..13] == hex[8..12] && text[14..18] == hex[12..16]
            && text[19..23] == hex[16..20] && text[24..] == hex[20..]
            && text[8] == text[13] == text[18] == text[23] == '-'
  {
  }

  function WithoutHyphens(s: string): string {
    if s == "" then ""
    else if s[0] == '-' then WithoutHyphens(s[1..])
    else [s[0]] + WithoutHyphens(s[1..])
  }

  /** The UUID of a text of 32 hexadecimal digits, hyphens aside; the other forms that Python's
      constructor takes are refused. */
  function Parse(text: string): Option<Uuid> {
    var hex := WithoutHyphens(text);
    if |hex| != 32 then None
    else
      var n := ParseFixed(hex, 16);
      if n.Some? && n.value < Power(16, 32) then Some(n.value) else None
  }

  /** The value of n hexadecimal digits has at most n digits. */
  lemma {:induction false} ParsedFits(hex: string)
    ensures ParseFixed(hex, 16).Some? <==> forall i :: 0 <= i < |hex| ==> IsDigit(hex[i], 16)
    ensures ParseFixed(hex, 16).Some? ==> ParseFixed(hex, 16).value < Power(16, |hex|)
  {
    if hex != "" {
      var front := hex[..|hex| - 1];
      ParsedFits(front);
      assert forall i :: 0 <= i < |front| ==> front[i] == hex[i];
    }
  }

  /** A text is accepted exactly when it has 32 hexadecimal digits apart from hyphens. */
  lemma ParseAccepts(text: string)
    ensures Parse(text).Some? <==>
              var hex := WithoutHyphens(text); |hex| == 32 && forall i :: 0 <= i < 32 ==> IsDigit(hex[i], 16)
    ensures Parse(text).Some? ==> ParseFixed(WithoutHyphens(text), 16) == Some(Parse(text).value)
  {
    ParsedFits(WithoutHyphens(text));
  }

  lemma {:induction false} HyphensApart(s: string, t: string)
    ensures WithoutHyphens(s + t) == WithoutHyphens(s) + WithoutHyphens(t)
  {
    if s == "" {
      assert s + t == t;
    } else {
      assert (s + t)[1..] == s[1..] + t;
      HyphensApart(s[1..], t);
    }
  }

  lemma {:induction false} NoHyphens(s: string)
    requires forall c :: c in s ==> IsDigit(c, 16)
    ensures WithoutHyphens(s) == s
  {
    if s != "" {
      assert s[0] in s;
      NoHyphens(s[1..]);
    }
  }

  lemma Joined(a: string, b: string)
    requires forall c :: c in a ==> IsDigit(c, 16)
    ensures WithoutHyphens(a + "-" + b) == a + WithoutHyphens(b)
  {
    HyphensApart(a, "-" + b);
    assert a + "-" + b == a + ("-" + b);
    assert ("-" + b)[1..] == b;
    NoHyphens(a);
  }

  lemma RoundTrip(u: Uuid)
    ensures Parse(Text(u)) == Some(u)
  {
    var hex := Fixed(u, 32, 16);
    FixedDigits(u, 32, 16);
    var e := hex[20..];
    var d := hex[16..20] + "-" + e;
    var c := hex[12..16] + "-" + d;
    var b := hex[8..12] + "-" + c;
    assert Text(u) == hex[..8] + "-" + b;
    Joined(hex[..8], b);
    Joined(hex[8..12], c);
    Joined(hex[12..16], d);
    Joined(hex[16..20], e);
    NoHyphens(e);
    assert WithoutHyphens(Text(u)) == hex;
    FixedRoundTrip(u, 32, 16);
  }

  lemma TextInjective(u: Uuid, v: Uuid)
    ensures Text(u) == Text(v) <==> u == v
  {
    RoundTrip(u);
    RoundTrip(v);
  }
}
