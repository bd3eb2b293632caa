/** Character classes, maximal runs of them, and decimal numbers. */
module Text {
  predicate IsDigit(c: char) { '0' <= c <= '9' }
  predicate IsLower(c: char) { 'a' <= c <= 'z' }
  predicate IsAlpha(c: char) { IsLower(c) || 'A' <= c <= 'Z' }
  predicate IsPrintable(c: char) { ' ' <= c <= '~' }
  predicate IsSp(c: char) { c == ' ' }
  predicate IsOws(c: char) { c == ' ' || c == '\t' }
  predicate IsBase64(c: char) { IsAlpha(c) || IsDigit(c) || c == '+' || c == '/' || c == '=' }
  predicate IsKeyStart(c: char) { IsLower(c) || c == '*' }
  predicate IsKeyChar(c: char) { IsLower(c) || IsDigit(c) || c == '_' || c == '-' || c == '.' || c == '*' }
  predicate IsTokenStart(c: char) { IsAlpha(c) || c == '*' }
  predicate IsTokenChar(c: char) { IsAlpha(c) || IsDigit(c) || c in "!#$%&'*+-.^_`|~:/" }

  predicate All(p: char -> bool, s: string) {
    forall i :: 0 <= i < |s| ==> p(s[i])
  }

  predicate Only(p: char -> bool, inside: string, outside: string) {
    All(p, inside) && forall i :: 0 <= i < |outside| ==> !p(outside[i])
  }

  /** The ends of each class, and what lies just beyond (section 3.3 of RFC 9651). */
  lemma Base64Ends()
    ensures Only(IsBase64, "AZaz09+/=", "-_:;,\" @[`{")
  {
  }

  lemma KeyEnds()
    ensures Only(IsKeyStart, "az*", "AZ09-_`{") && Only(IsKeyChar, "az09_-.*", "AZ=;,+`{/ ")
  {
  }

  lemma TokenEnds()
    ensures Only(IsTokenStart, "AZaz*", "09-:_@[`{")
    ensures Only(IsTokenChar, "AZaz09:/", "\"(),;=@[{} ")
  {
  }

  lemma TokenMarks()
    ensures Only(IsTokenChar, "!#$%&'*+-.^_`|~", "")
  {
  }

  datatype Cut = Cut(taken: string, rest: string)

  /** Takes as many characters in p as there are. */
  function Split(p: char -> bool, s: string): (c: Cut)
    ensures s == c.taken + c.rest && All(p, c.taken) && (c.rest != "" ==> !p(c.rest[0]))
  {
    if s == "" || !p(s[0]) then Cut("", s) else
      var c := Split(p, s[1..]);
      Cut([s[0]] + c.taken, c.rest)
  }

  function Skip(p: char -> bool, s: string): string {
    Split(p, s).rest
  }

  /** Text that cannot lengthen a run of p's. */
  predicate Breaks(p: char -> bool, z: string) {
    z != "" ==> !p(z[0])
  }

  lemma Regroup(start: string, a: string, b: string, c: string, d: string, e: string)
    ensures start + a + b + c + d == start + (a + (b + c + d))
    ensures start + a + b + c + d + e == start + (a + (b + c + d + e))
  {
  }

  lemma Tail(s: string, z: string)
    requires s != ""
    ensures (s + z)[0] == s[0] && (s + z)[1..] == s[1..] + z
  {
  }

  lemma {:induction false} SplitExtends(p: char -> bool, s: string, z: string)
    requires Breaks(p, z) || Split(p, s).rest != ""
    ensures Split(p, s + z) == Cut(Split(p, s).taken, Split(p, s).rest + z)
  {
    if s == "" {
      assert s + z == z;
    } else {
      Tail(s, z);
      if p(s[0]) {
        SplitExtends(p, s[1..], z);
      }
    }
  }

  lemma {:induction false} SplitWhole(p: char -> bool, s: string, z: string)
    requires All(p, s) && Breaks(p, z)
    ensures Split(p, s + z) == Cut(s, z)
  {
    if s == "" {
      assert s + z == z;
    } else {
      Tail(s, z);
      SplitWhole(p, s[1..], z);
    }
  }

  // ---------------------------------------------------------------- decimal numbers

  function DigitChar(d: nat): char
    requires d < 10
  {
    "0123456789"[d]
  }

  function DigitValue(c: char): nat
    requires IsDigit(c)
  {
    c as int - '0' as int
  }

  function Digits(n: nat): (s: string)
    ensures s != "" && All(IsDigit, s)
  {
    if n < 10 then [DigitChar(n)] else Digits(n / 10) + [DigitChar(n % 10)]
  }

  function ToNat(s: string): nat
    requires All(IsDigit, s)
  {
    if s == "" then 0 else
      assert IsDigit(s[|s| - 1]);
      10 * ToNat(s[..|s| - 1]) + DigitValue(s[|s| - 1])
  }

  lemma {:induction false} DigitsReadBack(n: nat)
    ensures ToNat(Digits(n)) == n
  {
    if n >= 10 {
      DigitsReadBack(n / 10);
      assert Digits(n)[..|Digits(n)| - 1] == Digits(n / 10);
    }
  }

  function Pow10(k: nat): nat {
    if k == 0 then 1 else 10 * Pow10(k - 1)
  }

  lemma {:induction false} DigitsFit(n: nat, k: nat)
    requires k > 0 && n < Pow10(k)
    ensures |Digits(n)| <= k
  {
    if n >= 10 {
      assert Pow10(1) == 10;
      DigitsFit(n / 10, k - 1);
    }
  }

  lemma {:induction false} DigitsOverflow(n: nat, k: nat)
    requires n >= Pow10(k)
    ensures |Digits(n)| > k
  {
    if k > 0 {
      assert Pow10(0) == 1 && Pow10(k) >= 10 by {
        Pow10Positive(k - 1);
      }
      DigitsOverflow(n / 10, k - 1);
    }
  }

  lemma {:induction false} Pow10Positive(k: nat)
    ensures Pow10(k) >= 1
  {
    if k > 0 {
      Pow10Positive(k - 1);
    }
  }

  lemma {:induction false} ToNatFits(s: string, k: nat)
    requires All(IsDigit, s) && |s| <= k
    ensures ToNat(s) < Pow10(k)
  {
    if k > 0 {
      if s != "" {
        ToNatFits(s[..|s| - 1], k - 1);
      } else {
        ToNatFits(s, k - 1);
      }
    }
  }
}
