/** The few pieces of java.lang.String and java.lang.Long that the post service
    relies on: trim(), contains() (the SQL pattern '%keyword%') and the decimal
    rendering of a Long id inside an error message. */
module Text {

  /** String.trim() removes every character at or below U+0020 from both ends. */
  predicate IsSpace(c: char) {
    c <= ' '
  }

  predicate AllSpace(s: string) {
    forall k :: 0 <= k < |s| ==> IsSpace(s[k])
  }

  function TrimStart(s: string): (r: string)
    ensures |r| <= |s| && r == s[|s| - |r|..]
    ensures AllSpace(s[..|s| - |r|])
    ensures r == [] || !IsSpace(r[0])
  {
    if s != [] && IsSpace(s[0]) then
      var r := TrimStart(s[1..]);
      assert s[1..][|s| - 1 - |r|..] == s[|s| - |r|..];
      assert forall k :: 0 < k < |s| - |r| ==> s[k] == s[1..][..|s| - 1 - |r|][k - 1];
      r
    else s
  }

  function TrimEnd(s: string): (r: string)
    ensures |r| <= |s| && r == s[..|r|]
    ensures AllSpace(s[|r|..])
    ensures r == [] || !IsSpace(r[|r| - 1])
  {
    if s != [] && IsSpace(s[|s| - 1]) then TrimEnd(s[..|s| - 1]) else s
  }

  /** String.trim(): neither starts nor ends with a space character, and is
      empty exactly when the whole string is space (TrimIsInfix: it is what
      is left after cutting space off both ends). */
  function Trim(s: string): (r: string)
    ensures r == [] || (!IsSpace(r[0]) && !IsSpace(r[|r| - 1]))
    ensures r == [] <==> AllSpace(s)
  {
    var t := TrimStart(s);
    var r := TrimEnd(t);
    assert r == [] ==> s == s[..|s| - |t|] + t && t == r + t[|r|..];
    r
  }

  lemma TrimIsInfix(s: string)
    ensures var r := Trim(s);
      exists a :: 0 <= a <= |s| - |r| && r == s[a..a + |r|] && AllSpace(s[..a]) && AllSpace(s[a + |r|..])
  {
    var t := TrimStart(s);
    var a := |s| - |t|;
    var r := TrimEnd(t);
    assert s[a..] == t;
    assert r == s[a..a + |r|];
    assert s[a + |r|..] == t[|r|..];
  }

  /** A string that neither starts nor ends with space is left alone by Trim. */
  lemma TrimFixesTrimmed(s: string)
    requires s == [] || (!IsSpace(s[0]) && !IsSpace(s[|s| - 1]))
    ensures Trim(s) == s
  {
  }

  /** `needle` occurs in `hay` starting at index i. */
  ghost predicate OccursAt(needle: string, hay: string, i: int) {
    0 <= i && i + |needle| <= |hay| && hay[i..i + |needle|] == needle
  }

  ghost predicate IsInfix(needle: string, hay: string) {
    exists i :: OccursAt(needle, hay, i)
  }

  /** String.contains, scanning left to right. */
  function Contains(hay: string, needle: string): bool
    decreases |hay|
  {
    if |needle| > |hay| then false
    else if hay[..|needle|] == needle then true
    else Contains(hay[1..], needle)
  }

  lemma {:induction false} ContainsIsInfix(hay: string, needle: string)
    ensures Contains(hay, needle) <==> IsInfix(needle, hay)
    decreases |hay|
  {
    if |needle| > |hay| {
    } else if hay[..|needle|] == needle {
      assert OccursAt(needle, hay, 0);
    } else {
      ContainsIsInfix(hay[1..], needle);
      if Contains(hay[1..], needle) {
        var i :| OccursAt(needle, hay[1..], i);
        assert hay[i + 1..i + 1 + |needle|] == hay[1..][i..i + |needle|];
        assert OccursAt(needle, hay, i + 1);
      }
      if IsInfix(needle, hay) {
        var i :| OccursAt(needle, hay, i);
        assert i != 0;
        assert hay[1..][i - 1..i - 1 + |needle|] == hay[i..i + |needle|];
        assert OccursAt(needle, hay[1..], i - 1);
      }
    }
  }

  predicate IsDigit(c: char) {
    '0' <= c <= '9'
  }

  predicate AllDigits(s: string) {
    forall k :: 0 <= k < |s| ==> IsDigit(s[k])
  }

  function DigitChar(d: nat): (c: char)
    requires d < 10
    ensures IsDigit(c) && (c - '0') as int == d
  {
    (d + '0' as int) as char
  }

  /** Long.toString for a non-negative value: decimal digits, no leading zero. */
  function NatToString(n: nat): (r: string)
    ensures IsCanonicalNat(r)
    ensures r == "0" <==> n == 0
    decreases n
  {
    if n < 10 then [DigitChar(n)] else NatToString(n / 10) + [DigitChar(n % 10)]
  }

  /** Long.toString: a minus sign in front of the digits of a negative value. */
  function IntToString(i: int): (r: string)
    ensures IsCanonicalInt(r)
  {
    if i < 0 then "-" + NatToString(-i) else NatToString(i)
  }

  predicate IsIntString(s: string) {
    if s != [] && s[0] == '-' then s[1..] != [] && AllDigits(s[1..]) else s != [] && AllDigits(s)
  }

  /** Decimal digits as Long.toString writes them: no leading zero except in "0". */
  predicate IsCanonicalNat(s: string) {
    s != [] && AllDigits(s) && (|s| > 1 ==> s[0] != '0')
  }

  /** A canonical integer: canonical digits, with a minus sign only in front of a non-zero value. */
  predicate IsCanonicalInt(s: string) {
    if s != [] && s[0] == '-' then IsCanonicalNat(s[1..]) && s[1..] != "0" else IsCanonicalNat(s)
  }

  function ParseNat(s: string): nat
    requires AllDigits(s)
  {
    if s == [] then 0 else ParseNat(s[..|s| - 1]) * 10 + (s[|s| - 1] - '0') as nat
  }

  /** Long.parseLong, which reads back what IntToString writes. */
  function ParseInt(s: string): int
    requires IsIntString(s)
  {
    if s[0] == '-' then -(ParseNat(s[1..]) as int) else ParseNat(s)
  }

  lemma {:induction false} ParseNatToString(n: nat)
    ensures ParseNat(NatToString(n)) == n
    decreases n
  {
    if n >= 10 {
      var prefix := NatToString(n / 10);
      ParseNatToString(n / 10);
      assert (prefix + [DigitChar(n % 10)])[..|prefix|] == prefix;
    }
  }

  lemma DigitCharOf(c: char)
    requires IsDigit(c)
    ensures DigitChar((c - '0') as nat) == c
  {
  }

  lemma {:induction false} ParseNatPositive(s: string)
    requires s != [] && AllDigits(s) && s[0] != '0'
    ensures ParseNat(s) > 0
    decreases |s|
  {
    if |s| > 1 {
      ParseNatPositive(s[..|s| - 1]);
    }
  }

  /** Canonical digits are exactly what NatToString writes for their value. */
  lemma {:induction false} NatToStringOfParse(s: string)
    requires IsCanonicalNat(s)
    ensures NatToString(ParseNat(s)) == s
    decreases |s|
  {
    var last := s[|s| - 1];
    DigitCharOf(last);
    if |s| > 1 {
      var init := s[..|s| - 1];
      NatToStringOfParse(init);
      ParseNatPositive(init);
      var n := ParseNat(s);
      assert n / 10 == ParseNat(init) && n % 10 == (last - '0') as nat;
      assert s == init + [last];
    }
  }

  /** The other half of the round trip: a canonical integer string is the
      rendering of the value it denotes, so Long.toString(id) is the only
      canonical text that reads back as id. */
  lemma IntToStringOfParse(s: string)
    requires IsCanonicalInt(s)
    ensures IsIntString(s) && IntToString(ParseInt(s)) == s
  {
    if s[0] == '-' {
      var digits := s[1..];
      NatToStringOfParse(digits);
      if |digits| > 1 {
        ParseNatPositive(digits);
      }
      assert s == "-" + digits;
    } else {
      NatToStringOfParse(s);
    }
  }

  lemma IntToStringRoundTrip(i: int)
    ensures IsIntString(IntToString(i)) && ParseInt(IntToString(i)) == i
  {
    if i < 0 {
      var s := IntToString(i);
      assert s[1..] == NatToString(-i);
      ParseNatToString(-i);
    } else {
      ParseNatToString(i);
    }
  }
}
