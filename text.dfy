/** Text produced by Rust's formatting machinery, as far as the game uses it:
    decimal integers, left-aligned fields and comma-separated glyph lists. */
module Text {

  /** The character of decimal digit `d`. */
  function DigitChar(d: nat): (c: char)
    requires d < 10
    ensures '0' <= c <= '9' && c as int - '0' as int == d
  {
    ('0' as int + d) as char
  }

  predicate IsDigits(s: string)
  {
    forall i :: 0 <= i < |s| ==> '0' <= s[i] <= '9'
  }

  /** `{}` of an unsigned integer: its shortest decimal notation. */
  function Decimal(n: nat): (s: string)
    ensures |s| >= 1 && IsDigits(s)
    ensures s[0] == '0' ==> n == 0
    decreases n
  {
    if n < 10 then [DigitChar(n)] else Decimal(n / 10) + [DigitChar(n % 10)]
  }

  /** The number a string of decimal digits denotes. */
  function DigitsValue(s: string): nat
    requires IsDigits(s)
  {
    if s == [] then 0 else DigitsValue(s[..|s| - 1]) * 10 + (s[|s| - 1] as int - '0' as int)
  }

  /** Reading back the decimal notation of `n` gives `n`. */
  lemma {:induction false} DecimalRoundTrip(n: nat)
    ensures DigitsValue(Decimal(n)) == n
  {
    if n >= 10 {
      DecimalRoundTrip(n / 10);
      var s := Decimal(n);
      assert s[..|s| - 1] == Decimal(n / 10);
    }
  }

  /** Decimal notation is injective: two numbers with the same notation are equal. */
  lemma DecimalInjective(m: nat, n: nat)
    requires Decimal(m) == Decimal(n)
    ensures m == n
  {
    DecimalRoundTrip(m);
    DecimalRoundTrip(n);
  }

  /** `n` spaces. */
  function Spaces(n: nat): (s: string)
    ensures |s| == n && forall i :: 0 <= i < n ==> s[i] == ' '
  {
    if n == 0 then "" else Spaces(n - 1) + " "
  }

  /** `{:<width}`: `s` followed by spaces up to `width` characters; never truncated. */
  function LeftAligned(s: string, width: nat): (r: string)
    ensures |r| == if |s| >= width then |s| else width
    ensures r[..|s|] == s
    ensures forall i :: |s| <= i < |r| ==> r[i] == ' '
  {
    if |s| >= width then s else s + Spaces(width - |s|)
  }

  /** What a loop writes after visiting the first `i` glyphs of `cs`, each followed by
      `", "` unless it is the last one of `cs`. */
  function Joined(cs: seq<char>, i: nat): string
    requires i <= |cs|
  {
    if i == 0 then ""
    else Joined(cs, i - 1) + [cs[i - 1]] + (if i - 1 < |cs| - 1 then ", " else "")
  }

  /** After `i` glyphs, glyph `j` sits at position `3*j`, followed by `", "` unless it is the
      last glyph of `cs`; when all glyphs are written there is no separator after the last. */
  lemma {:induction false} JoinedShape(cs: seq<char>, i: nat)
    requires i <= |cs|
    ensures |Joined(cs, i)| == if i == |cs| && i > 0 then 3 * i - 2 else 3 * i
    ensures forall j :: 0 <= j < i ==> Joined(cs, i)[3 * j] == cs[j]
    ensures forall j :: 0 <= j < i && j < |cs| - 1 ==>
      Joined(cs, i)[3 * j + 1] == ',' && Joined(cs, i)[3 * j + 2] == ' '
  {
    if i > 0 {
      JoinedShape(cs, i - 1);
      var prev := Joined(cs, i - 1);
      var r := Joined(cs, i);
      assert r[..|prev|] == prev;
      assert |prev| == 3 * (i - 1);
      forall j | 0 <= j < i
        ensures r[3 * j] == cs[j]
        ensures j < |cs| - 1 ==> r[3 * j + 1] == ',' && r[3 * j + 2] == ' '
      {
        if j < i - 1 {
          assert r[3 * j] == prev[3 * j];
          if j < |cs| - 1 {
            assert r[3 * j + 1] == prev[3 * j + 1];
            assert r[3 * j + 2] == prev[3 * j + 2];
          }
        }
      }
    }
  }
}
