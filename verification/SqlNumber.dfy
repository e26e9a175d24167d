/** What the SQL masker of src/sql_statement.c takes for a number: of all the standalone numbers that
    start where it stands, the longest. */
module SqlNumber {
  import opened Ascii
  import opened SqlMask

  // ----- The grammar -----

  predicate AllOf(k: Kind, t: string) { forall i :: 0 <= i < |t| ==> Of(k, t[i]) }

  /** ".5" */
  predicate IsFraction(t: string) { |t| >= 2 && t[0] == '.' && AllOf(Decimal, t[1..]) }

  function SignEnd(t: string): nat { if |t| > 1 && t[1] in "+-" then 2 else 1 }

  /** "e10", "E-3" */
  predicate IsExponent(t: string) { |t| > SignEnd(t) && t[0] in "eE" && AllOf(Decimal, t[SignEnd(t)..]) }

  /** "0x1F", "0b101" */
  predicate IsRadix(t: string) {
    |t| > 2 && t[0] == '0' && ((t[1] in "xX" && AllOf(Hex, t[2..])) || (t[1] in "bB" && AllOf(Binary, t[2..])))
  }

  /** Digits up to a, a fraction up to b, an exponent; digits or the fraction must be there. */
  predicate IsDecimal(t: string, a: nat, b: nat) {
    && a <= b <= |t| && b > 0 && AllOf(Decimal, t[..a])
    && (a == b || IsFraction(t[a..b])) && (b == |t| || IsExponent(t[b..]))
  }

  ghost predicate IsNumber(t: string) { IsRadix(t) || exists a: nat, b: nat :: IsDecimal(t, a, b) }

  /** The first n characters are a number that no letter, digit or underscore follows. */
  ghost predicate Standalone(u: string, n: nat) { n <= |u| && IsNumber(u[..n]) && EndsHere(u[n..]) }

  // ----- Runs -----

  lemma RunIs(k: Kind, u: string, n: nat)
    requires n <= |u| && AllOf(k, u[..n]) && (n < |u| ==> !Of(k, u[n]))
    ensures Run(k, u) == n
  {
    hide Run;
    forall i | 0 <= i < n ensures Of(k, u[i]) { assert u[..n][i] == u[i]; }
  }

  lemma RunAll(k: Kind, u: string)
    ensures Run(k, u) <= |u| && AllOf(k, u[..Run(k, u)])
  {
    hide Run;
  }

  /** A digit of any kind is a word character, and '.' is none of any. */
  lemma NotOf(k: Kind, u: string)
    requires u != "" && k != Tag && (EndsHere(u) || u[0] == '.' || (k == Decimal && u[0] in "eE"))
    ensures !Of(k, u[0])
  {
  }

  // ----- Each part, found and found whole -----

  lemma FractionIs(u: string, n: nat)
    requires n <= |u| && IsFraction(u[..n]) && (EndsHere(u[n..]) || (n < |u| && u[n] in "eE"))
    ensures Fraction(u) == n
  {
    assert u[..n][1..] == u[1..][..n - 1];
    if n < |u| { NotOf(Decimal, u[n..]); }
    RunIs(Decimal, u[1..], n - 1);
    assert u[..n][1] == u[1] && Of(Decimal, u[..n][1..][0]);
  }

  lemma FractionFound(u: string)
    requires Fraction(u) >= 0
    ensures 2 <= Fraction(u) <= |u| && IsFraction(u[..Fraction(u)])
  {
    hide Run;
    var n := Fraction(u);
    RunAll(Decimal, u[1..]);
    assert u[1..][0] == u[1];
    assert u[..n][1..] == u[1..][..n - 1];
  }

  lemma ExponentIs(u: string, n: nat)
    requires n <= |u| && IsExponent(u[..n]) && EndsHere(u[n..])
    ensures Exponent(u) == n
  {
    var t := u[..n];
    var k := SignEnd(t);
    assert t[0] == u[0] && t[1] == u[1];
    assert t[k..] == u[k..][..n - k];
    if n < |u| { NotOf(Decimal, u[n..]); }
    RunIs(Decimal, u[k..], n - k);
  }

  lemma ExponentFound(u: string)
    requires Exponent(u) >= 0
    ensures Exponent(u) > 0 && IsExponent(u[..Exponent(u)])
  {
    hide Run;
    var n := Exponent(u);
    var k := SignEnd(u);
    RunAll(Decimal, u[k..]);
    assert u[..n][k..] == u[k..][..n - k];
    assert u[..n][0] == u[0] && u[..n][1] == u[1];
  }

  lemma RadixIs(u: string, n: nat)
    requires n <= |u| && IsRadix(u[..n]) && EndsHere(u[n..])
    ensures Radix(u) == n
  {
    var t := u[..n];
    assert t[0] == u[0] && t[1] == u[1] && t[2..] == u[2..][..n - 2];
    var k := if u[1] in "xX" then Hex else Binary;
    if n < |u| { NotOf(k, u[n..]); }
    RunIs(k, u[2..], n - 2);
  }

  lemma RadixFound(u: string)
    requires Radix(u) >= 0
    ensures Radix(u) > 2 && Standalone(u, Radix(u)) && u[0] == '0' && u[1] in "xXbB"
  {
    hide Run, EndsHere;
    var n := Radix(u);
    var k := if u[1] in "xX" then Hex else Binary;
    RunAll(k, u[2..]);
    assert u[..n][2..] == u[2..][..n - 2] && u[..n][0] == u[0] && u[..n][1] == u[1];
  }

  // ----- What is found is a standalone number -----

  lemma Build(u: string, a: nat, b: nat, n: nat)
    requires a <= b <= n <= |u| && b > 0 && AllOf(Decimal, u[..a])
    requires (a == b || IsFraction(u[a..b])) && (b == n || IsExponent(u[b..n]))
    ensures IsNumber(u[..n])
  {
    hide IsFraction, IsExponent;
    var t := u[..n];
    assert t[..a] == u[..a] && t[a..b] == u[a..b] && t[b..] == u[b..n];
    assert IsDecimal(t, a, b);
  }

  lemma WithExponentFound(u: string, a: nat, m: nat)
    requires a <= m <= |u| && m > 0 && AllOf(Decimal, u[..a]) && (a == m || IsFraction(u[a..m]))
             && WithExponent(u, m) >= 0
    ensures WithExponent(u, m) >= m && Standalone(u, WithExponent(u, m))
  {
    hide IsFraction, IsExponent, AllOf, EndsHere, Exponent;
    var n := WithExponent(u, m);
    if n != m {
      ExponentFound(u[m..]);
      assert u[m..][..n - m] == u[m..n];
    }
    Build(u, a, m, n);
  }

  lemma NumberFound(u: string)
    requires Number(u) >= 0
    ensures Standalone(u, Number(u))
  {
    hide IsFraction, AllOf, WithExponent, Fraction, Radix, Standalone, Run;
    if Radix(u) >= 0 {
      RadixFound(u);
    } else {
      RunAll(Decimal, u);
      var whole := Run(Decimal, u);
      var fraction := Fraction(u[whole..]);
      if fraction >= 0 {
        FractionFound(u[whole..]);
        assert u[whole..][..fraction] == u[whole..whole + fraction];
        if WithExponent(u, whole + fraction) >= 0 { WithExponentFound(u, whole, whole + fraction); }
      }
      if whole > 0 && WithExponent(u, whole) >= 0 { WithExponentFound(u, whole, whole); }
    }
  }

  // ----- And no longer one is there -----

  lemma Parts(u: string, n: nat, a: nat, b: nat)
    requires n <= |u| && IsDecimal(u[..n], a, b)
    ensures a <= b <= n && b > 0 && AllOf(Decimal, u[..a]) && (a == b || IsFraction(u[a..b]))
            && (b == n || IsExponent(u[b..n]))
  {
    hide IsFraction, IsExponent, AllOf;
    var t := u[..n];
    assert t[..a] == u[..a] && t[a..b] == u[a..b] && t[b..] == u[b..n];
  }

  lemma FirstOfFraction(u: string, a: nat, b: nat)
    requires a <= b <= |u| && IsFraction(u[a..b])
    ensures a < b && u[a] == '.'
  {
  }

  lemma FirstOfExponent(u: string, b: nat, n: nat)
    requires b <= n <= |u| && IsExponent(u[b..n])
    ensures b < n && u[b] in "eE"
  {
  }

  /** From its mantissa on, the number is read to its end. */
  lemma WithExponentIs(u: string, b: nat, n: nat)
    requires b <= n <= |u| && (b == n || IsExponent(u[b..n])) && EndsHere(u[n..])
    ensures WithExponent(u, b) == n
  {
    hide IsExponent;
    if b < n {
      assert u[b..][..n - b] == u[b..n] && u[b..][n - b..] == u[n..];
      ExponentIs(u[b..], n - b);
    }
  }

  /** All the digits in front belong to it. */
  lemma WholeIs(u: string, n: nat, a: nat, b: nat)
    requires n <= |u| && IsDecimal(u[..n], a, b) && EndsHere(u[n..])
    ensures Run(Decimal, u) == a
  {
    hide IsFraction, IsExponent, AllOf, Run;
    Parts(u, n, a, b);
    if a < b { FirstOfFraction(u, a, b); } else if b < n { FirstOfExponent(u, b, n); }
    if a < |u| { NotOf(Decimal, u[a..]); }
    RunIs(Decimal, u, a);
  }

  lemma DecimalIsNotLonger(u: string, n: nat, a: nat, b: nat)
    requires n <= |u| && IsDecimal(u[..n], a, b) && EndsHere(u[n..])
    ensures n <= Number(u)
  {
    hide IsFraction, IsExponent, AllOf, Run, Fraction, Radix, WithExponent, EndsHere, Standalone;
    WholeIs(u, n, a, b);
    Parts(u, n, a, b);
    WithExponentIs(u, b, n);
    if Radix(u) >= 0 {
      RadixFound(u);
      NotThatShort(u, n, a, b);
    } else if a < b {
      FractionEnds(u, n, a, b);
    } else if Fraction(u[a..]) >= 0 {
      FractionFound(u[a..]);
      LongerStill(u, n, a);
    }
  }

  lemma FractionEnds(u: string, n: nat, a: nat, b: nat)
    requires a < b <= n <= |u| && IsFraction(u[a..b]) && (b == n || IsExponent(u[b..n])) && EndsHere(u[n..])
    ensures Fraction(u[a..]) == b - a
  {
    hide IsFraction, IsExponent;
    if b < n { FirstOfExponent(u, b, n); }
    assert u[a..][..b - a] == u[a..b] && u[a..][b - a..] == u[b..];
    FractionIs(u[a..], b - a);
  }

  /** Where a fraction follows the digits, no exponent does. */
  lemma LongerStill(u: string, n: nat, a: nat)
    requires a <= n <= |u| && (a == n || IsExponent(u[a..n])) && Fraction(u[a..]) >= 0
    ensures n == a
    ensures var f := Fraction(u[a..]); f <= |u| - a && (WithExponent(u, a + f) >= 0 ==> WithExponent(u, a + f) > n)
  {
    hide IsExponent, EndsHere, Exponent, Run;
    if a < n { FirstOfExponent(u, a, n); }
    FractionFound(u[a..]);
  }

  /** "0x1F" holds no decimal that stands alone, its "0" being followed by a letter. */
  lemma NotThatShort(u: string, n: nat, a: nat, b: nat)
    requires |u| > 2 && u[0] == '0' && u[1] in "xXbB" && a == Run(Decimal, u) && a <= b <= n <= |u|
    requires (a == b || IsFraction(u[a..b])) && (b == n || IsExponent(u[b..n]))
    ensures n <= 1
  {
    hide IsFraction, IsExponent, Run;
    assert a == 1 by { assert !Of(Decimal, u[1]); assert Of(Decimal, u[0]); }
    if a < b { FirstOfFraction(u, a, b); } else if b < n { FirstOfExponent(u, b, n); }
  }

  /** The masker's number is the longest standalone number that starts there, and there is none exactly
      when it finds none. */
  lemma NumberIsLongest(u: string)
    ensures Number(u) >= 0 ==> Standalone(u, Number(u))
    ensures forall n: nat :: Standalone(u, n) ==> n <= Number(u)
  {
    hide IsRadix, IsDecimal, Number, EndsHere;
    if Number(u) >= 0 { NumberFound(u); }
    forall n: nat | Standalone(u, n) ensures n <= Number(u) {
      if IsRadix(u[..n]) {
        RadixIsNumber(u, n);
      } else {
        var a: nat, b: nat :| IsDecimal(u[..n], a, b);
        DecimalIsNotLonger(u, n, a, b);
      }
    }
  }

  lemma RadixIsNumber(u: string, n: nat)
    requires n <= |u| && IsRadix(u[..n]) && EndsHere(u[n..])
    ensures Number(u) == n
  {
    hide IsRadix, EndsHere;
    RadixIs(u, n);
  }
}
