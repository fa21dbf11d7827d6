/** String operations the component relies on: `toLowerCase`, `includes`, and
    `Date.now().toString()` for generated ids. Lower-casing is ASCII only. */
module Text {

  /** `toLowerCase` on one character: 'A'..'Z' map to 'a'..'z', everything else is kept. */
  function LowerChar(c: char): char
  {
    if 'A' <= c <= 'Z' then (c as int + 32) as char else c
  }

  /** `c` is not an upper-case ASCII letter (digits, punctuation and other scripts included). */
  predicate NotUpper(c: char)
  {
    !('A' <= c <= 'Z')
  }

  /** `s.toLowerCase()`: same length; each of 'A'..'Z' becomes the letter 32 code points
      later ('a'..'z'), every other character is kept, and no upper-case letter remains. */
  function Lower(s: string): (r: string)
    ensures |r| == |s|
    ensures forall i :: 0 <= i < |s| && 'A' <= s[i] <= 'Z' ==> r[i] == (s[i] as int + 32) as char
    ensures forall i :: 0 <= i < |s| && NotUpper(s[i]) ==> r[i] == s[i]
    ensures forall i :: 0 <= i < |s| ==> NotUpper(r[i])
    decreases |s|
  {
    if s == [] then "" else [LowerChar(s[0])] + Lower(s[1..])
  }

  /** `c` and `d` are the same character up to ASCII case. */
  predicate SameCharIgnoringCase(c: char, d: char)
  {
    c == d ||
    ('A' <= c <= 'Z' && d as int == c as int + 32) ||
    ('A' <= d <= 'Z' && c as int == d as int + 32)
  }

  /** `a` and `b` are the same string up to ASCII case. */
  predicate SameIgnoringCase(a: string, b: string)
  {
    |a| == |b| && forall i :: 0 <= i < |a| ==> SameCharIgnoringCase(a[i], b[i])
  }

  /** Two characters lower-case to the same character exactly when they are equal up to case. */
  lemma LowerCharIffSameCharIgnoringCase(c: char, d: char)
    ensures LowerChar(c) == LowerChar(d) <==> SameCharIgnoringCase(c, d)
  {
  }

  /** Two strings lower-case to the same string exactly when they are equal up to case. */
  lemma LowerEqualIffSameIgnoringCase(a: string, b: string)
    ensures Lower(a) == Lower(b) <==> SameIgnoringCase(a, b)
  {
    if |a| == |b| {
      forall i | 0 <= i < |a|
        ensures Lower(a)[i] == LowerChar(a[i]) && Lower(b)[i] == LowerChar(b[i])
        ensures Lower(a)[i] == Lower(b)[i] <==> SameCharIgnoringCase(a[i], b[i])
      {
        LowerCharIffSameCharIgnoringCase(a[i], b[i]);
      }
    }
  }

  /** Lower-casing an already lower-cased string changes nothing. */
  lemma {:induction false} LowerIdempotent(s: string)
    ensures Lower(Lower(s)) == Lower(s)
  {
    var l := Lower(s);
    var ll := Lower(l);
    forall i | 0 <= i < |l| ensures ll[i] == l[i] {
      assert NotUpper(l[i]);
    }
  }

  /** `t` occurs in `s` starting at index `i`. */
  predicate OccursAt(s: string, t: string, i: nat)
  {
    i + |t| <= |s| && s[i..i + |t|] == t
  }

  /** `s.includes(t)`, computed by trying every starting position: the empty term is
      included in every string, and a term longer than the string never is. */
  function Contains(s: string, t: string): (b: bool)
    ensures t == "" ==> b
    ensures b ==> |t| <= |s|
    decreases |s|
  {
    (|t| <= |s| && s[..|t|] == t) || (s != [] && Contains(s[1..], t))
  }

  /** `Contains` holds exactly when `t` occurs somewhere in `s`. */
  lemma {:induction false} ContainsSpec(s: string, t: string)
    ensures Contains(s, t) <==> exists i: nat :: OccursAt(s, t, i)
    decreases |s|
  {
    if s != [] {
      ContainsSpec(s[1..], t);
      if Contains(s[1..], t) {
        var i: nat :| OccursAt(s[1..], t, i);
        assert s[i + 1..i + 1 + |t|] == s[1..][i..i + |t|];
        assert OccursAt(s, t, i + 1);
      }
      if i: nat :| OccursAt(s, t, i) && i > 0 {
        assert s[i..i + |t|] == s[1..][i - 1..i - 1 + |t|];
        assert OccursAt(s[1..], t, i - 1);
      }
    }
    if OccursAt(s, t, 0) {
      assert s[..|t|] == s[0..|t|];
    }
  }

  /** A string includes itself. */
  lemma ContainsSelf(s: string)
    ensures Contains(s, s)
  {
    assert s[..|s|] == s;
  }

  function Digit(d: nat): char
    requires d < 10
  {
    ('0' as int + d) as char
  }

  predicate IsDigit(c: char)
  {
    '0' <= c <= '9'
  }

  /** `n.toString()` for a non-negative integer such as a `Date.now()` timestamp:
      its decimal digits, with no leading zero. */
  function DecimalString(n: nat): (r: string)
    ensures |r| >= 1
    ensures forall i :: 0 <= i < |r| ==> IsDigit(r[i])
    ensures r[0] == '0' ==> n == 0
    decreases n
  {
    if n < 10 then [Digit(n)] else DecimalString(n / 10) + [Digit(n % 10)]
  }

  /** Reads back a string of decimal digits. */
  function ParseDecimal(s: string): nat
    requires forall i :: 0 <= i < |s| ==> IsDigit(s[i])
    decreases |s|
  {
    if s == [] then 0
    else
      assert IsDigit(s[|s| - 1]);
      10 * ParseDecimal(s[..|s| - 1]) + (s[|s| - 1] as int - '0' as int)
  }

  /** Reading back the decimal rendering of `n` gives `n`. */
  lemma {:induction false} DecimalRoundTrip(n: nat)
    ensures ParseDecimal(DecimalString(n)) == n
    decreases n
  {
    var r := DecimalString(n);
    if n >= 10 {
      DecimalRoundTrip(n / 10);
      assert r[..|r| - 1] == DecimalString(n / 10);
    }
  }

  /** Distinct timestamps render as distinct ids. */
  lemma DecimalStringInjective(m: nat, n: nat)
    ensures DecimalString(m) == DecimalString(n) ==> m == n
  {
    DecimalRoundTrip(m);
    DecimalRoundTrip(n);
  }
}
