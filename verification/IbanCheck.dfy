/** The IBAN check of src/pii_scrubber.c against ISO 13616: the characters after the first four,
    then the first four, each letter written as two decimal digits (A is 10, Z is 35), read as one
    decimal integer, leave the remainder 1 on division by 97 (MOD 97-10 of ISO/IEC 7064). */
module IbanCheck {
  import opened Ascii

  predicate IsAlnum(c: char) { IsUpper(c) || IsDigit(c) }

  predicate Candidate(t: string) { forall k :: 0 <= k < |t| ==> t[k] == ' ' || IsAlnum(t[k]) }

  predicate AllAlnum(t: string) { forall k :: 0 <= k < |t| ==> IsAlnum(t[k]) }

  function NoSpaces(t: string): (r: string)
    ensures |r| <= |t|
    ensures Candidate(t) ==> AllAlnum(r)
  {
    if t == "" then "" else NoSpaces(t[..|t| - 1]) + (if t[|t| - 1] == ' ' then "" else [t[|t| - 1]])
  }

  function CharValue(c: char): nat
    requires IsAlnum(c)
  {
    if IsUpper(c) then c as int - 'A' as int + 10 else DigitValue(c)
  }

  /** The decimal digits c is written as. */
  function CharDigits(c: char): seq<nat>
    requires IsAlnum(c)
  {
    if IsUpper(c) then [CharValue(c) / 10, CharValue(c) % 10] else [CharValue(c)]
  }

  ghost function Expand(t: string): seq<nat>
    requires AllAlnum(t)
  {
    if t == "" then [] else Expand(t[..|t| - 1]) + CharDigits(t[|t| - 1])
  }

  ghost function Decimal(ds: seq<nat>): nat {
    if ds == [] then 0 else Decimal(ds[..|ds| - 1]) * 10 + ds[|ds| - 1]
  }

  ghost function Rearranged(t: string): string
    requires |t| >= 4
  {
    t[4..] + t[..4]
  }

  ghost predicate IsIban(t: string)
    requires Candidate(t)
  {
    var compact := NoSpaces(t);
    15 <= |compact| <= 34 && Decimal(Expand(Rearranged(compact))) % 97 == 1
  }

  // ----- The digit-at-a-time check -----

  lemma DecimalPush(ds: seq<nat>, d: nat)
    ensures Decimal(ds + [d]) == Decimal(ds) * 10 + d
  {
    assert (ds + [d])[..|ds|] == ds;
  }

  lemma ExpandPush(t: string, c: char)
    requires AllAlnum(t) && IsAlnum(c)
    ensures AllAlnum(t + [c]) && Expand(t + [c]) == Expand(t) + CharDigits(c)
  {
    assert (t + [c])[..|t|] == t;
  }

  lemma ModStep(a: nat, v: nat)
    ensures ((a % 97) * 10 + v) % 97 == (a * 10 + v) % 97
  {
    var q := a / 97;
    assert a * 10 + v == 97 * (q * 10) + ((a % 97) * 10 + v);
    ModPlusMultiple((a % 97) * 10 + v, q * 10);
  }

  lemma ModPlusMultiple(b: int, k: int)
    ensures (97 * k + b) % 97 == b % 97
  {
  }

  lemma ModTwoSteps(n: nat, v: nat)
    ensures ((((n % 97) * 10 + v / 10) % 97) * 10 + v % 10) % 97 == (n * 100 + v) % 97
  {
    ModStep(n, v / 10);
    ModStep(n * 10 + v / 10, v % 10);
  }

  /** The number read so far, with one more character. */
  lemma CharShift(x: string, c: char)
    requires AllAlnum(x) && IsAlnum(c)
    ensures AllAlnum(x + [c])
    ensures Decimal(Expand(x + [c])) == Decimal(Expand(x)) * (if IsUpper(c) then 100 else 10) + CharValue(c)
  {
    ExpandPush(x, c);
    var v := CharValue(c);
    if IsUpper(c) {
      assert Expand(x) + CharDigits(c) == Expand(x) + [v / 10] + [v % 10];
      DecimalPush(Expand(x), v / 10);
      DecimalPush(Expand(x) + [v / 10], v % 10);
    } else {
      DecimalPush(Expand(x), v);
    }
  }

  /** The remainder after one more character. */
  function NextRemainder(r: nat, c: char): nat
    requires IsAlnum(c)
  {
    var v := CharValue(c);
    if IsUpper(c) then (((r * 10 + v / 10) % 97) * 10 + v % 10) % 97 else (r * 10 + v) % 97
  }

  lemma ReadChar(t: string, c: char)
    requires AllAlnum(t) && IsAlnum(c)
    ensures AllAlnum(t + [c])
    ensures Decimal(Expand(t + [c])) % 97 == NextRemainder(Decimal(Expand(t)) % 97, c)
  {
    hide Expand, Decimal, CharValue;
    CharShift(t, c);
    if IsUpper(c) { ModTwoSteps(Decimal(Expand(t)), CharValue(c)); } else { ModStep(Decimal(Expand(t)), CharValue(c)); }
  }

  method Passes(candidate: string) returns (ok: bool)
    requires Candidate(candidate)
    ensures ok <==> IsIban(candidate)
  {
    var compact := "";
    for k := 0 to |candidate|
      invariant compact == NoSpaces(candidate[..k]) && |compact| <= 34
    {
      assert candidate[..k + 1][..k] == candidate[..k];
      if candidate[k] != ' ' {
        if |compact| == 34 {
          NoSpacesGrows(candidate, k + 1);
          return false;
        }
        compact := compact + [candidate[k]];
      }
    }
    assert candidate[..|candidate|] == candidate;
    if |compact| < 15 { return false; }
    ok := RemainderIsOne(compact);
  }

  lemma {:induction false} NoSpacesGrows(t: string, k: nat)
    requires k <= |t|
    ensures |NoSpaces(t[..k])| <= |NoSpaces(t)|
    decreases |t| - k
  {
    if k == |t| {
      assert t[..k] == t;
    } else {
      assert t[..k + 1][..k] == t[..k];
      NoSpacesGrows(t, k + 1);
    }
  }

  lemma RearrangedAt(compact: string, k: nat)
    requires AllAlnum(compact) && |compact| >= 8 && k < |compact|
    ensures |Rearranged(compact)| == |compact| && AllAlnum(Rearranged(compact))
    ensures 0 <= (k + 4) % |compact| < |compact| && Rearranged(compact)[k] == compact[(k + 4) % |compact|]
  {
    Wrap(k + 4, |compact|);
  }

  lemma Wrap(x: nat, n: nat)
    requires n > 0 && x < 2 * n
    ensures x % n == if x < n then x else x - n
  {
  }

  lemma NothingRead()
    ensures AllAlnum("") && Decimal(Expand("")) == 0
  {
  }

  lemma AlnumAt(t: string, k: nat)
    requires AllAlnum(t) && k < |t|
    ensures IsAlnum(t[k])
  {
  }

  lemma ReadNext(r: string, k: nat)
    requires AllAlnum(r) && k < |r|
    ensures AllAlnum(r[..k]) && AllAlnum(r[..k + 1])
    ensures Decimal(Expand(r[..k + 1])) % 97 == NextRemainder(Decimal(Expand(r[..k])) % 97, r[k])
  {
    hide NextRemainder, Expand, Decimal;
    assert r[..k + 1] == r[..k] + [r[k]];
    ReadChar(r[..k], r[k]);
  }

  method RemainderIsOne(compact: string) returns (ok: bool)
    requires AllAlnum(compact) && 15 <= |compact| <= 34
    ensures ok <==> Decimal(Expand(Rearranged(compact))) % 97 == 1
  {
    hide NextRemainder, Expand, AllAlnum, Rearranged;
    var n := |compact|;
    var remainder: nat := 0;
    NothingRead();
    ghost var r := Rearranged(compact);
    RearrangedAt(compact, 0);
    assert r[..0] == "";
    for k := 0 to n
      invariant AllAlnum(r[..k]) && remainder == Decimal(Expand(r[..k])) % 97
    {
      RearrangedAt(compact, k);
      AlnumAt(compact, (k + 4) % n);
      ReadNext(r, k);
      var c := compact[(k + 4) % n];
      remainder := NextRemainder(remainder, c);
    }
    assert r[..n] == r;
    ok := remainder == 1;
  }

  // ----- One changed character is always caught -----

  ghost function Pow10(n: nat): nat { if n == 0 then 1 else 10 * Pow10(n - 1) }

  lemma Regroup(x: nat, p: nat, y: nat, d: nat)
    ensures (x * p + y) * 10 + d == x * (10 * p) + (y * 10 + d)
  {
  }

  lemma {:induction false} DecimalSplit(a: seq<nat>, b: seq<nat>)
    ensures Decimal(a + b) == Decimal(a) * Pow10(|b|) + Decimal(b)
    decreases |b|
  {
    if b == [] {
      assert a + b == a;
    } else {
      var b', d := b[..|b| - 1], b[|b| - 1];
      assert b == b' + [d] && a + b == (a + b') + [d];
      DecimalSplit(a, b');
      DecimalPush(a + b', d);
      DecimalPush(b', d);
      Regroup(Decimal(a), Pow10(|b'|), Decimal(b'), d);
    }
  }

  lemma {:induction false} ExpandSplit(a: string, b: string)
    requires AllAlnum(a) && AllAlnum(b)
    ensures AllAlnum(a + b) && Expand(a + b) == Expand(a) + Expand(b)
    decreases |b|
  {
    if b == "" {
      assert a + b == a;
    } else {
      var b', c := b[..|b| - 1], b[|b| - 1];
      assert b == b' + [c] && a + b == (a + b') + [c];
      ExpandSplit(a, b');
      ExpandPush(a + b', c);
    }
  }

  /** 97 does not divide a power of ten: a factor of ten can be taken out. */
  lemma TenIsCoprime(x: int)
    requires (10 * x) % 97 == 0
    ensures x % 97 == 0
  {
    var q := 10 * x / 97;
    assert x == 97 * (68 * q - 7 * x);
    ModPlusMultiple(0, 68 * q - 7 * x);
  }

  lemma {:induction false} PowIsCoprime(x: int, n: nat)
    requires (x * Pow10(n)) % 97 == 0
    ensures x % 97 == 0
  {
    if n > 0 {
      assert x * Pow10(n) == 10 * (x * Pow10(n - 1));
      TenIsCoprime(x * Pow10(n - 1));
      PowIsCoprime(x, n - 1);
    }
  }

  predicate SameKind(c: char, d: char) { (IsDigit(c) && IsDigit(d)) || (IsUpper(c) && IsUpper(d)) }

  lemma RemaindersDiffer(a: int, b: int, n: nat, tail: int, x: int, y: int)
    requires x == a * Pow10(n) + tail && y == b * Pow10(n) + tail
    requires 0 < a - b < 97 || -97 < a - b < 0
    ensures x % 97 != y % 97
  {
    if x % 97 == y % 97 {
      SameRemainder(x, y);
      assert x - y == (a - b) * Pow10(n);
      PowIsCoprime(a - b, n);
      assert false;
    }
  }

  /** Reading the same number with one character replaced by another of its kind changes the remainder. */
  lemma ChangedNumber(x: string, c: char, d: char, y: string)
    requires AllAlnum(x) && AllAlnum(y) && SameKind(c, d) && c != d
    requires AllAlnum(x + [c] + y) && AllAlnum(x + [d] + y)
    ensures Decimal(Expand(x + [c] + y)) % 97 != Decimal(Expand(x + [d] + y)) % 97
  {
    LastCharMatters(x, c, d);
    ChangedFront(x + [c], x + [d], y);
  }

  lemma ChangedFront(a: string, b: string, y: string)
    requires AllAlnum(a) && AllAlnum(b) && AllAlnum(y)
    requires var diff := Decimal(Expand(a)) - Decimal(Expand(b)); 0 < diff < 97 || -97 < diff < 0
    ensures AllAlnum(a + y) && AllAlnum(b + y)
    ensures Decimal(Expand(a + y)) % 97 != Decimal(Expand(b + y)) % 97
  {
    NumberAround(a, y);
    NumberAround(b, y);
    RemaindersDiffer(Decimal(Expand(a)), Decimal(Expand(b)), |Expand(y)|, Decimal(Expand(y)),
                     Decimal(Expand(a + y)), Decimal(Expand(b + y)));
  }

  lemma LastCharMatters(x: string, c: char, d: char)
    requires AllAlnum(x) && SameKind(c, d) && c != d
    ensures AllAlnum(x + [c]) && AllAlnum(x + [d])
    ensures var diff := Decimal(Expand(x + [c])) - Decimal(Expand(x + [d])); 0 < diff < 97 || -97 < diff < 0
  {
    hide Expand, Decimal, CharValue;
    CharShift(x, c);
    CharShift(x, d);
    ValuesDiffer(c, d);
  }

  lemma ValuesDiffer(c: char, d: char)
    requires SameKind(c, d) && c != d
    ensures var diff := CharValue(c) - CharValue(d); 0 < diff < 97 || -97 < diff < 0
  {
  }

  lemma NumberAround(x: string, y: string)
    requires AllAlnum(x) && AllAlnum(y)
    ensures AllAlnum(x + y) && Decimal(Expand(x + y)) == Decimal(Expand(x)) * Pow10(|Expand(y)|) + Decimal(Expand(y))
  {
    ExpandSplit(x, y);
    DecimalSplit(Expand(x), Expand(y));
  }

  lemma SameRemainder(a: int, b: int)
    requires a % 97 == b % 97
    ensures (a - b) % 97 == 0
  {
    assert a - b == 97 * (a / 97 - b / 97);
    ModPlusMultiple(0, a / 97 - b / 97);
  }

  lemma {:induction false} NoSpacesSplit(a: string, b: string)
    ensures NoSpaces(a + b) == NoSpaces(a) + NoSpaces(b)
    decreases |b|
  {
    if b == "" {
      assert a + b == a;
    } else {
      assert (a + b)[..|a + b| - 1] == a + b[..|b| - 1];
      NoSpacesSplit(a, b[..|b| - 1]);
    }
  }

  /** What stands before and after the character at |x| once x + [c] + y is rearranged. */
  ghost function Before(x: string, y: string): string
    requires |x| + 1 + |y| >= 4
  {
    if |x| >= 4 then x[4..] else y[3 - |x|..] + x
  }

  ghost function After(x: string, y: string): string
    requires |x| + 1 + |y| >= 4
  {
    if |x| >= 4 then y + x[..4] else y[..3 - |x|]
  }

  lemma RearrangedAround(x: string, c: char, y: string)
    requires |x| + 1 + |y| >= 4 && AllAlnum(x) && AllAlnum(y) && IsAlnum(c)
    ensures AllAlnum(Before(x, y)) && AllAlnum(After(x, y)) && AllAlnum(Before(x, y) + [c] + After(x, y))
    ensures Rearranged(x + [c] + y) == Before(x, y) + [c] + After(x, y)
  {
  }

  /** Changing one digit of a valid IBAN to another digit, or one letter to another letter, wherever
      it stands and however the candidate is spaced, always makes the check fail. */
  lemma OneChangeIsCaught(t: string, k: nat, d: char)
    requires Candidate(t) && k < |t| && SameKind(t[k], d) && t[k] != d
    requires IsIban(t)
    ensures Candidate(t[k := d]) && !IsIban(t[k := d])
  {
    hide Expand, Decimal, Rearranged, NoSpaces, Before, After;
    var a, c, b := t[..k], t[k], t[k + 1..];
    assert t == a + [c] + b && t[k := d] == a + [d] + b;
    var x, y := NoSpaces(a), NoSpaces(b);
    Around(t, a, c, b);
    Around(t[k := d], a, d, b);
    RearrangedAround(x, c, y);
    RearrangedAround(x, d, y);
    ChangedNumber(Before(x, y), c, d, After(x, y));
  }

  lemma Around(t: string, a: string, c: char, b: string)
    requires t == a + [c] + b && Candidate(a) && Candidate(b) && IsAlnum(c)
    ensures Candidate(t) && NoSpaces(t) == NoSpaces(a) + [c] + NoSpaces(b)
    ensures AllAlnum(NoSpaces(a)) && AllAlnum(NoSpaces(b)) && AllAlnum(NoSpaces(t))
  {
    NoSpacesSplit(a + [c], b);
    NoSpacesSplit(a, [c]);
    assert NoSpaces([c]) == [c] by { assert [c][..0] == ""; }
  }
}
