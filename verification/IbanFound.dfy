/** IBANs are made and found: check digits computed as ISO 13616 says pass the check of
    src/pii_scrubber.c, and a valid IBAN is replaced, written compactly or in groups of four. */
module IbanFound {
  import opened Ascii
  import opened Regex
  import opened Iban
  import opened IbanCheck

  // ----- Letters as numbers -----

  /** A is 10, and each letter one more than the one before it; a digit is itself. */
  lemma CharValues(c: char, d: char)
    ensures CharValue('A') == 10 && CharValue('Z') == 35 && CharValue('0') == 0 && CharValue('9') == 9
    ensures IsUpper(c) && IsUpper(d) ==> CharValue(d) - CharValue(c) == d as int - c as int
    ensures IsDigit(c) && IsDigit(d) ==> CharValue(d) - CharValue(c) == d as int - c as int
  {
  }

  /** A letter is written as two decimal digits, a digit as one. */
  lemma CharDigitsAre(c: char)
    requires IsAlnum(c)
    ensures Decimal(CharDigits(c)) == CharValue(c) && |CharDigits(c)| == (if IsUpper(c) then 2 else 1)
    ensures forall k :: 0 <= k < |CharDigits(c)| ==> CharDigits(c)[k] <= 9
  {
    var v := CharValue(c);
    assert Decimal([]) == 0;
    if IsUpper(c) {
      DecimalPush([], v / 10);
      DecimalPush([v / 10], v % 10);
      assert [] + [v / 10] == [v / 10] && [v / 10] + [v % 10] == CharDigits(c);
    } else {
      DecimalPush([], v);
      assert [] + [v] == [v];
    }
  }

  // ----- Check digits -----

  function DigitChar(n: nat): (c: char)
    requires n < 10
    ensures IsDigit(c) && DigitValue(c) == n
  {
    '0' + n as char
  }

  function TwoDigits(n: nat): (t: string)
    requires n < 100
    ensures AllAlnum(t) && |t| == 2 && IsDigit(t[0]) && IsDigit(t[1])
  {
    [DigitChar(n / 10), DigitChar(n % 10)]
  }

  lemma AppendTwo(x: string, n: nat)
    requires AllAlnum(x) && n < 100
    ensures AllAlnum(x + TwoDigits(n)) && Decimal(Expand(x + TwoDigits(n))) == Decimal(Expand(x)) * 100 + n
  {
    hide Expand, Decimal;
    var a, b := DigitChar(n / 10), DigitChar(n % 10);
    CharShift(x, a);
    CharShift(x + [a], b);
    assert x + [a] + [b] == x + TwoDigits(n);
  }

  lemma AllAlnumJoin(a: string, b: string)
    requires AllAlnum(a) && AllAlnum(b)
    ensures AllAlnum(a + b) && Candidate(a + b)
  {
  }

  lemma {:induction false} NoSpacesOfAlnum(t: string)
    requires AllAlnum(t)
    ensures Candidate(t) && NoSpaces(t) == t
  {
    if t != "" {
      var front, c := t[..|t| - 1], t[|t| - 1];
      assert t == front + [c] && AllAlnum(front) && c != ' ';
      NoSpacesOfAlnum(front);
    }
  }

  /** The IBAN of a country and an account part. */
  ghost function CheckDigits(country: string, account: string): (k: nat)
    requires AllAlnum(account + country + "00")
    ensures 2 <= k <= 98
  {
    98 - Decimal(Expand(account + country + "00")) % 97
  }

  /** 98 less the remainder of account part, country and "00", written as two digits after the country,
      makes a valid IBAN of them. */
  lemma CheckDigitsPass(country: string, account: string)
    requires AllAlnum(country) && |country| == 2 && AllAlnum(account) && 11 <= |account| <= 30
    ensures AllAlnum(account + country + "00")
    ensures var t := country + TwoDigits(CheckDigits(country, account)) + account; Candidate(t) && IsIban(t)
  {
    hide Expand, Decimal, NoSpaces, AllAlnum, CheckDigits, TwoDigits;
    ZerosAreDigits();
    AllAlnumJoin(account, country);
    AllAlnumJoin(account + country, "00");
    var x, k := account + country, CheckDigits(country, account);
    var t := country + TwoDigits(k) + account;
    AllAlnumJoin(country, TwoDigits(k));
    AllAlnumJoin(country + TwoDigits(k), account);
    NoSpacesOfAlnum(t);
    assert Rearranged(t) == x + TwoDigits(k);
    AppendTwo(x, k);
    AppendTwo(x, 0);
    CheckDigitsAre(x, country, account, k);
  }

  lemma ZerosAreDigits()
    ensures AllAlnum("00") && TwoDigits(0) == "00"
  {
  }

  lemma CheckDigitsAre(x: string, country: string, account: string, k: nat)
    requires x == account + country && AllAlnum(x) && AllAlnum(x + "00") && k == CheckDigits(country, account)
    requires AllAlnum(x + TwoDigits(0)) && Decimal(Expand(x + TwoDigits(0))) == Decimal(Expand(x)) * 100
    ensures (Decimal(Expand(x)) * 100 + k) % 97 == 1
  {
    hide Expand, Decimal, AllAlnum, TwoDigits;
    ZerosAreDigits();
    var n := Decimal(Expand(x)) * 100;
    assert k == 98 - n % 97;
    assert n + k == 97 * (n / 97 + 1) + 1;
    ModPlusMultiple(1, n / 97 + 1);
  }

  // ----- Valid IBANs are replaced -----

  /** Country, check digits, and capitals or digits: 15 to 34 characters in all. */
  predicate IsCompactForm(t: string) {
    && 15 <= |t| <= 34 && AllAlnum(t) && IsUpper(t[0]) && IsUpper(t[1]) && IsDigit(t[2]) && IsDigit(t[3])
  }

  lemma {:induction false} RunToEnd(t: string, i: nat, max: nat)
    requires i <= |t| <= i + max && forall k :: i <= k < |t| ==> IsAlnum(t[k])
    ensures RunLength(t, i, max) == |t| - i
    decreases max
  {
    if i < |t| { RunToEnd(t, i + 1, max - 1); }
  }

  /** When the first end tried is that of the text, the whole text is rewritten at once. */
  lemma WholeTextRewritten(t: string)
    requires t != "" && Matches(IBAN_PATTERN, t, 0).Try? && Matches(IBAN_PATTERN, t, 0).end == |t|
    ensures Rewrite(IBAN_PATTERN, Replacement, t, 0) == Replacement(t)
  {
    hide Matches, Replacement;
    assert t[0..|t|] == t;
    assert Rewrite(IBAN_PATTERN, Replacement, t, |t|) == "";
  }

  lemma LastIsBoundary(t: string)
    requires t != "" && IsAlnum(t[|t| - 1])
    ensures BoundaryAt(t, |t|)
  {
  }

  lemma FirstTry(s: string, e: nat, rest: Tries, others: Tries)
    requires BoundaryAt(s, e)
    ensures AtBoundary(s, Or(Try(e, rest), others)).Try? && AtBoundary(s, Or(Try(e, rest), others)).end == e
  {
  }

  /** Every valid IBAN written without spaces is replaced. */
  lemma CompactIsReplaced(t: string)
    requires IsCompactForm(t) && Candidate(t) && IsIban(t)
    ensures Rewrite(IBAN_PATTERN, Replacement, t, 0) == "[IBAN FILTERED]"
  {
    hide Matches, Rewrite, GroupedEnds, GroupCount, RunLength, IsIban;
    PatternMatches(t, 0);
    RunToEnd(t, 4, 30);
    var n := |t| - 4;
    assert Descent(4, 1, 11, n).Try? && Descent(4, 1, 11, n).end == |t|;
    LastIsBoundary(t);
    FirstTry(t, |t|, Descent(4, 1, 11, n).rest, GroupedEnds(t, 4, GroupCount(t, 4, 7)));
    WholeTextRewritten(t);
  }

  /** The characters in groups of four, one space between. */
  function Spaced(c: string): string { if |c| <= 4 then c else c[..4] + " " + Spaced(c[4..]) }

  lemma {:induction false} NoSpacesOfSpaced(c: string)
    requires AllAlnum(c)
    ensures Candidate(Spaced(c)) && NoSpaces(Spaced(c)) == c
    decreases |c|
  {
    hide NoSpaces;
    if |c| <= 4 {
      NoSpacesOfAlnum(c);
    } else {
      NoSpacesOfSpaced(c[4..]);
      NoSpacesOfAlnum(c[..4]);
      NoSpacesSplit(c[..4] + " ", Spaced(c[4..]));
      NoSpacesSplit(c[..4], " ");
      OneSpace();
      assert c == c[..4] + c[4..] && c[..4] + "" == c[..4];
    }
  }

  lemma OneSpace()
    ensures NoSpaces(" ") == ""
  {
    assert " "[..0] == "";
  }

  /** From 5k on the groups are those of c from 4k on. */
  lemma {:induction false} SpacedFrom(c: string, k: nat)
    requires 4 * k < |c|
    ensures 5 * k < |Spaced(c)| && Spaced(c)[5 * k..] == Spaced(c[4 * k..])
    decreases k
  {
    if k == 0 {
      assert c[0..] == c && Spaced(c)[0..] == Spaced(c);
    } else {
      var rest := Spaced(c[4..]);
      assert Spaced(c) == c[..4] + " " + rest;
      hide Spaced;
      SpacedFrom(c[4..], k - 1);
      assert c[4..][4 * (k - 1)..] == c[4 * k..];
      SkipFirst(c[..4], rest, 5 * (k - 1));
    }
  }

  lemma SkipFirst(a: string, rest: string, k: nat)
    requires |a| == 4 && k < |rest|
    ensures k + 5 < |a + " " + rest| && (a + " " + rest)[k + 5..] == rest[k..]
  {
  }

  /** The first group of what is spaced, and what follows it. */
  lemma FirstGroup(c: string)
    requires c != "" && AllAlnum(c)
    ensures |Spaced(c)| >= 1
    ensures |c| > 4 ==> |Spaced(c)| > 5 && Spaced(c)[4] == ' ' && IsAlnum(Spaced(c)[0])
    ensures |c| >= 4 ==> |Spaced(c)| >= 4 && forall k :: 0 <= k < 4 ==> IsAlnum(Spaced(c)[k])
    ensures |c| <= 4 ==> Spaced(c) == c
  {
    if |c| > 4 { assert Spaced(c[4..]) != ""; }
  }

  /** At the end of the k-th group stands another group exactly when four characters are left. */
  lemma GroupThere(c: string, k: nat)
    requires AllAlnum(c) && 4 * (k + 1) < |c|
    ensures var t := Spaced(c);
            && 5 * k + 5 < |t| && t[5 * k + 4] == ' '
            && (IsGroup(t, 5 * k + 4) <==> |c| >= 4 * (k + 2))
            && (|c| < 4 * (k + 2) ==> t[5 * k + 5..] == c[4 * (k + 1)..])
  {
    hide Spaced, IsGroup;
    var t := Spaced(c);
    SpacedFrom(c, k);
    SpacedFrom(c, k + 1);
    FirstGroup(c[4 * k..]);
    FirstGroup(c[4 * (k + 1)..]);
    assert t[5 * k..][4] == t[5 * k + 4];
    GroupAtSpace(t, 5 * k + 4, c[4 * (k + 1)..]);
  }

  lemma GroupAtSpace(t: string, i: nat, c: string)
    requires i + 1 < |t| && t[i] == ' ' && t[i + 1..] == Spaced(c) && c != "" && AllAlnum(c)
    ensures IsGroup(t, i) <==> |c| >= 4
  {
    FirstGroup(c);
    hide Spaced;
    forall k | i < k <= i + 4 && k < |t| ensures t[k] == t[i + 1..][k - i - 1] { }
  }

  /** As many groups as fours of characters are left after the first. */
  lemma {:induction false} GroupsThere(c: string, k: nat, max: nat)
    requires AllAlnum(c) && 4 * (k + 1) <= |c| && (|c| - 4 * (k + 1)) / 4 <= max
    ensures GroupCount(Spaced(c), 5 * k + 4, max) == (|c| - 4 * (k + 1)) / 4
    decreases max
  {
    hide Spaced, IsGroup;
    if 4 * (k + 1) == |c| {
      SpacedFrom(c, k);
      EndsThere(c, k);
    } else {
      GroupThere(c, k);
      if |c| >= 4 * (k + 2) { GroupsThere(c, k + 1, max - 1); }
    }
  }

  lemma EndsThere(c: string, k: nat)
    requires 4 * (k + 1) == |c|
    ensures |Spaced(c)| == 5 * k + 4 && !IsGroup(Spaced(c), 5 * k + 4)
  {
    SpacedFrom(c, k);
    assert |Spaced(c[4 * k..])| == 4;
  }

  /** After the last whole group the text ends, at once or after one shorter group. */
  lemma TailThere(c: string, k: nat)
    requires AllAlnum(c) && 4 * (k + 1) <= |c| < 4 * (k + 2)
    ensures var t := Spaced(c); t != "" && IsAlnum(t[|t| - 1])
    ensures var t := Spaced(c); TailEnds(t, 5 * k + 4).Try? && TailEnds(t, 5 * k + 4).end == |t|
  {
    hide Spaced;
    var t := Spaced(c);
    SpacedFrom(c, k);
    if 4 * (k + 1) == |c| {
      EndsThere(c, k);
      FirstGroup(c[4 * k..]);
      assert t[5 * k..][3] == t[|t| - 1];
    } else {
      GroupThere(c, k);
      var r := c[4 * (k + 1)..];
      assert forall j :: 5 * k + 5 <= j < |t| ==> t[j] == t[5 * k + 5..][j - 5 * k - 5];
      RunToEnd(t, 5 * k + 5, 4);
      assert Descent(5 * k + 5, 1, 1, |r|).end == |t|;
    }
  }

  /** Every valid IBAN written in groups of four is replaced. */
  lemma SpacedIsReplaced(c: string)
    requires IsCompactForm(c) && Candidate(c) && IsIban(c)
    ensures Rewrite(IBAN_PATTERN, Replacement, Spaced(c), 0) == "[IBAN FILTERED]"
  {
    hide Matches, Rewrite, GroupedEnds, GroupCount, RunLength, TailEnds, Spaced;
    var t, g := Spaced(c), (|c| - 4) / 4;
    SpacedIsIban(c);
    HeaderThere(c);
    PatternMatches(t, 0);
    GroupsThere(c, 0, 7);
    TailThere(c, g);
    LastIsBoundary(t);
    LastGroups(t, g);
    NothingCompact(t);
    AtBoundaryOr(t, Fail, GroupedEnds(t, 4, g));
    WholeTextRewritten(t);
  }

  lemma SpacedIsIban(c: string)
    requires IsCompactForm(c) && Candidate(c) && IsIban(c)
    ensures Candidate(Spaced(c)) && IsIban(Spaced(c))
  {
    hide Expand, Decimal, Spaced, NoSpaces, Rearranged;
    NoSpacesOfSpaced(c);
    NoSpacesOfAlnum(c);
  }

  lemma HeaderThere(c: string)
    requires IsCompactForm(c)
    ensures Header(Spaced(c), 0) && |Spaced(c)| > 5 && Spaced(c)[4] == ' '
  {
    FirstGroup(c);
    assert forall k :: 0 <= k < 4 ==> Spaced(c)[k] == c[k];
  }

  lemma NothingCompact(t: string)
    requires |t| > 5 && t[4] == ' '
    ensures Descent(4, 1, 11, RunLength(t, 4, 30)) == Fail
  {
    assert !HasAt(UpperOrDigit, t, 4);
  }

  lemma LastGroups(t: string, g: nat)
    requires g >= 2 && t != "" && BoundaryAt(t, |t|) && TailEnds(t, 4 + 5 * g).Try? && TailEnds(t, 4 + 5 * g).end == |t|
    ensures var m := AtBoundary(t, GroupedEnds(t, 4, g)); m.Try? && m.end == |t|
  {
    hide TailEnds;
    FirstTry(t, |t|, TailEnds(t, 4 + 5 * g).rest, GroupedEnds(t, 4, g - 1));
  }
}
