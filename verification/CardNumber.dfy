/** What a card number is (src/pii_scrubber.c): 13 to 19 digits, a network's prefix, and Luhn. */
module CardNumber {
  import opened Ascii

  predicate AllDigits(d: string) { forall k :: 0 <= k < |d| ==> IsDigit(d[k]) }

  /** The number the first n digits stand for. */
  function Leading(d: string, n: nat): nat
    requires AllDigits(d) && n <= |d|
  {
    if n == 0 then 0 else Leading(d, n - 1) * 10 + DigitValue(d[n - 1])
  }

  /** The prefixes of the card networks, in the order the source's table lists them. */
  predicate ListedPrefix(d: string)
    requires AllDigits(d) && |d| >= 4
  {
    || Leading(d, 1) == 4
    || 51 <= Leading(d, 2) <= 55
    || 2221 <= Leading(d, 4) <= 2720
    || Leading(d, 2) == 34 || Leading(d, 2) == 37
    || Leading(d, 4) == 6011
    || 644 <= Leading(d, 3) <= 649
    || Leading(d, 2) == 65
    || 3528 <= Leading(d, 4) <= 3589
    || Leading(d, 2) == 36
    || 300 <= Leading(d, 3) <= 305
    || Leading(d, 2) == 62
  }

  /** A digit's share of the Luhn sum: every second digit from the right counts double, its own
      digits summed. */
  function Share(c: char, doubled: bool): (v: nat)
    requires IsDigit(c)
    ensures v <= 9
  {
    var value := DigitValue(c);
    if !doubled then value else if value * 2 > 9 then value * 2 - 9 else value * 2
  }

  function LuhnSum(d: string): nat
    requires AllDigits(d)
  {
    if d == "" then 0 else Share(d[0], |d| % 2 == 0) + LuhnSum(d[1..])
  }

  ghost predicate IsCard(d: string) {
    13 <= |d| <= 19 && AllDigits(d) && ListedPrefix(d) && LuhnSum(d) % 10 == 0
  }

  function HasCardPrefix(d: string): (r: bool)
    requires AllDigits(d) && |d| >= 4
    ensures r == ListedPrefix(d)
  {
    var two := DigitValue(d[0]) * 10 + DigitValue(d[1]);
    var three := two * 10 + DigitValue(d[2]);
    var four := three * 10 + DigitValue(d[3]);
    LeadingFour(d);
    d[0] == '4' || (two >= 51 && two <= 55) || two == 34 || two == 37 || two == 65 || two == 36
    || two == 62 || (four >= 2221 && four <= 2720) || four == 6011 || (four >= 3528 && four <= 3589)
    || (three >= 644 && three <= 649) || (three >= 300 && three <= 305)
  }

  lemma LeadingFour(d: string)
    requires AllDigits(d) && |d| >= 4
    ensures Leading(d, 1) == DigitValue(d[0])
    ensures Leading(d, 2) == DigitValue(d[0]) * 10 + DigitValue(d[1])
    ensures Leading(d, 3) == Leading(d, 2) * 10 + DigitValue(d[2])
    ensures Leading(d, 4) == Leading(d, 3) * 10 + DigitValue(d[3])
  {
    assert Leading(d, 0) == 0;
  }

  method IsCardNumber(digits: string) returns (ok: bool)
    requires AllDigits(digits)
    ensures ok <==> IsCard(digits)
  {
    var len := |digits|;
    if len < 13 || len > 19 || !HasCardPrefix(digits) { return false; }
    hide LuhnSum, ListedPrefix;
    var sum: nat := 0;
    LuhnNothing(digits);
    for k := 0 to len
      invariant sum == LuhnSum(digits[len - k..])
    {
      var c := digits[len - 1 - k];
      var value := DigitValue(c);
      if k % 2 == 1 {
        value := value * 2;
        if value > 9 { value := value - 9; }
      }
      LuhnStep(digits, k);
      sum := sum + value;
    }
    assert digits[0..] == digits;
    ok := sum % 10 == 0;
  }

  lemma LuhnNothing(d: string)
    requires AllDigits(d)
    ensures LuhnSum(d[|d|..]) == 0
  {
  }

  lemma LuhnStep(d: string, k: nat)
    requires AllDigits(d) && k < |d|
    ensures LuhnSum(d[|d| - 1 - k..]) == Share(d[|d| - 1 - k], k % 2 == 1) + LuhnSum(d[|d| - k..])
  {
    var t := d[|d| - 1 - k..];
    assert t[1..] == d[|d| - k..];
  }

  /** The Luhn sum catches any one changed digit. */
  lemma {:induction false} LuhnCatchesOneChange(d: string, k: nat, c: char)
    requires AllDigits(d) && k < |d| && IsDigit(c) && c != d[k]
    ensures AllDigits(d[k := c]) && LuhnSum(d[k := c]) % 10 != LuhnSum(d) % 10
  {
    var d' := d[k := c];
    if k == 0 {
      assert d'[1..] == d[1..];
      SharesDiffer(d[0], c, |d| % 2 == 0, LuhnSum(d[1..]));
    } else {
      assert d'[1..] == d[1..][k - 1 := c];
      LuhnCatchesOneChange(d[1..], k - 1, c);
      SameHead(Share(d[0], |d| % 2 == 0), LuhnSum(d'[1..]), LuhnSum(d[1..]));
    }
  }

  lemma SameHead(v: nat, x: nat, y: nat)
    requires x % 10 != y % 10
    ensures (v + x) % 10 != (v + y) % 10
  {
    Mod10(v, x);
    Mod10(v, y);
  }

  lemma Mod10(v: nat, x: nat)
    ensures (v + x) % 10 == if v % 10 + x % 10 < 10 then v % 10 + x % 10 else v % 10 + x % 10 - 10
  {
  }

  lemma SharesDiffer(c: char, d: char, doubled: bool, rest: nat)
    requires IsDigit(c) && IsDigit(d) && c != d
    ensures (Share(c, doubled) + rest) % 10 != (Share(d, doubled) + rest) % 10
  {
    var x, y := Share(c, doubled), Share(d, doubled);
    assert x != y;
    SameHead(rest, x, y);
  }

  // ----- What doubling is for -----

  /** The pairs of digits whose swap the sum does not show. */
  predicate Confusable(c: char, d: char) { c == d || (c == '0' && d == '9') || (c == '9' && d == '0') }

  function Swapped(d: string, k: nat): (r: string)
    requires k + 1 < |d|
    ensures |r| == |d|
  {
    d[k := d[k + 1]][k + 1 := d[k]]
  }

  /** Swapping two neighbours changes the Luhn sum modulo ten unless they are the same digit, or 0 and 9. */
  lemma {:induction false} LuhnCatchesSwap(d: string, k: nat)
    requires AllDigits(d) && k + 1 < |d|
    ensures AllDigits(Swapped(d, k))
    ensures LuhnSum(Swapped(d, k)) % 10 == LuhnSum(d) % 10 <==> Confusable(d[k], d[k + 1])
    decreases |d|
  {
    hide LuhnSum, Share;
    var s := Swapped(d, k);
    LuhnFirst(d);
    LuhnFirst(s);
    if k == 0 {
      LuhnFirst(d[1..]);
      LuhnFirst(s[1..]);
      assert d[1..][1..] == s[1..][1..];
      assert d[1..][0] == d[1] && s[1..][0] == d[0];
      SwapShares(d[0], d[1], |d| % 2 == 0, LuhnSum(d[1..][1..]));
    } else {
      assert s[1..] == Swapped(d[1..], k - 1);
      LuhnCatchesSwap(d[1..], k - 1);
      SameTail(Share(d[0], |d| % 2 == 0), LuhnSum(s[1..]), LuhnSum(d[1..]));
    }
  }

  lemma LuhnFirst(d: string)
    requires AllDigits(d) && d != ""
    ensures AllDigits(d[1..]) && LuhnSum(d) == Share(d[0], |d| % 2 == 0) + LuhnSum(d[1..])
  {
  }

  lemma SameTail(v: nat, x: nat, y: nat)
    ensures (v + x) % 10 == (v + y) % 10 <==> x % 10 == y % 10
  {
    Mod10(v, x);
    Mod10(v, y);
  }

  lemma SwapShares(c: char, d: char, doubled: bool, rest: nat)
    requires IsDigit(c) && IsDigit(d)
    ensures var x := Share(d, doubled) + (Share(c, !doubled) + rest);
            var y := Share(c, doubled) + (Share(d, !doubled) + rest);
            x % 10 == y % 10 <==> Confusable(c, d)
  {
    var x, y := Share(d, doubled) + Share(c, !doubled), Share(c, doubled) + Share(d, !doubled);
    SwapTable(c, d);
    assert x + rest == rest + x && y + rest == rest + y;
    SameTail(rest, x, y);
  }

  lemma SwapTable(c: char, d: char)
    requires IsDigit(c) && IsDigit(d)
    ensures (Share(c, true) + Share(d, false)) % 10 == (Share(d, true) + Share(c, false)) % 10 <==> Confusable(c, d)
  {
  }

  /** A card number with two neighbours swapped is no card number, unless they are confusable. */
  lemma SwapIsCaught(d: string, k: nat)
    requires IsCard(d) && k + 1 < |d| && !Confusable(d[k], d[k + 1])
    ensures !IsCard(Swapped(d, k))
  {
    hide LuhnSum, ListedPrefix;
    LuhnCatchesSwap(d, k);
  }

  /** The last digit is the check digit, and counts as it is: to any digits but the last there is exactly
      one that makes the sum come out. */
  lemma {:induction false} LastDigitCounts(d: string, c: char)
    requires AllDigits(d) && IsDigit(c)
    ensures AllDigits(d + [c]) && AllDigits(d + ['0']) && LuhnSum(d + [c]) == LuhnSum(d + ['0']) + DigitValue(c)
    decreases |d|
  {
    if d == "" {
      assert d + [c] == [c] && d + ['0'] == ['0'];
      assert [c][1..] == "" && ['0'][1..] == "";
    } else {
      assert (d + [c])[1..] == d[1..] + [c] && (d + ['0'])[1..] == d[1..] + ['0'];
      LastDigitCounts(d[1..], c);
    }
  }
}
