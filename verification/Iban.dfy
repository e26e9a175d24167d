/** IBANs (src/pii_scrubber.c): the candidate scanner, the MOD 97-10 check and the scrubber. */
module Iban {
  import opened Ascii
  import opened Regex
  import IbanCheck

  const LABEL := "[IBAN FILTERED]"

  // \b[A-Z]{2}\d{2}(?:[A-Z0-9]{11,30}|(?: [A-Z0-9]{4}){2,7}(?: [A-Z0-9]{1,4})?)\b

  const ALNUM := Chars(UpperOrDigit)
  const COMPACT := Repeat(ALNUM, 11, AtMost(30))
  const GROUP := Then(Chars(Only(' ')), Repeat(ALNUM, 4, AtMost(4)))
  const GROUPS := Repeat(GROUP, 2, AtMost(7))
  const TAIL := Repeat(Then(Chars(Only(' ')), Repeat(ALNUM, 1, AtMost(4))), 0, AtMost(1))
  const BODY := Either(COMPACT, Then(GROUPS, TAIL))
  const COUNTRY := Repeat(Chars(Upper), 2, AtMost(2))
  const CHECK := Repeat(Chars(Digit), 2, AtMost(2))
  const IBAN_PATTERN := Then(Boundary, Then(COUNTRY, Then(CHECK, Then(BODY, Boundary))))

  // ----- Everything the engine would try, in closed form -----

  /** The leading \b and the country and check characters pin one place where the body starts. */
  predicate Header(s: string, i: nat) {
    && !HasBefore(Word, s, i)
    && i + 4 <= |s| && IsUpper(s[i]) && IsUpper(s[i + 1]) && IsDigit(s[i + 2]) && IsDigit(s[i + 3])
  }

  lemma TwoChars(k: Class, s: string, i: nat)
    ensures Matches(Repeat(Chars(k), 2, AtMost(2)), s, i) ==
            if HasAt(k, s, i) && HasAt(k, s, i + 1) then Try(i + 2, Fail) else Fail
  {
    CharsFixed(k, s);
    FixedRepeat(Chars(k), 2, 2, s, 1, i);
    assert HasAt(k, s, i + 1) ==> Count(Chars(k), s, 1, i + 1, 1) == 1 + Count(Chars(k), s, 1, i + 2, 0);
    var n := Count(Chars(k), s, 1, i, 2);
    assert n == 2 <==> HasAt(k, s, i) && HasAt(k, s, i + 1);
    assert Descent(i, 1, 2, 1) == Fail;
  }

  ghost predicate BoundaryAt(s: string, i: nat) { HasBefore(Word, s, i) != HasAt(Word, s, i) }

  ghost function AtBoundary(s: string, ends: Tries): Tries {
    match ends
    case Fail => Fail
    case Try(e, rest) => if BoundaryAt(s, e) then Try(e, AtBoundary(s, rest)) else AtBoundary(s, rest)
  }

  lemma {:induction false} ThreadBoundary(s: string, ends: Tries)
    ensures Thread(Boundary, s, ends) == AtBoundary(s, ends)
    decreases ends
  {
    match ends
    case Fail =>
    case Try(e, rest) =>
      assert Matches(Boundary, s, e) == if BoundaryAt(s, e) then Try(e, Fail) else Fail;
      ThreadBoundary(s, rest);
      OrOne(e, AtBoundary(s, rest));
  }

  lemma AtBoundaryOr(s: string, a: Tries, b: Tries)
    ensures AtBoundary(s, Or(a, b)) == Or(AtBoundary(s, a), AtBoundary(s, b))
  {
  }

  /** How many characters of [A-Z0-9] follow i, up to max. */
  ghost function RunLength(s: string, i: nat, max: nat): (n: nat)
    ensures n <= max && (n > 0 ==> i + n <= |s|)
    ensures forall j :: i <= j < i + n ==> HasAt(UpperOrDigit, s, j)
    ensures n < max ==> !HasAt(UpperOrDigit, s, i + n)
    decreases |s| - i
  {
    if max == 0 || !HasAt(UpperOrDigit, s, i) then 0 else 1 + RunLength(s, i + 1, max - 1)
  }

  lemma {:induction false} RunLengthIsCount(s: string, i: nat, max: nat)
    ensures Count(ALNUM, s, 1, i, max) == RunLength(s, i, max)
    decreases max
  {
    if max > 0 && HasAt(UpperOrDigit, s, i) { RunLengthIsCount(s, i + 1, max - 1); }
  }

  lemma AlnumRepeat(s: string, i: nat, min: nat, max: nat)
    ensures Matches(Repeat(ALNUM, min, AtMost(max)), s, i) == Descent(i, 1, min, RunLength(s, i, max))
  {
    CharsFixed(UpperOrDigit, s);
    FixedRepeat(ALNUM, min, max, s, 1, i);
    RunLengthIsCount(s, i, max);
  }

  predicate IsGroup(s: string, i: nat) {
    i + 5 <= |s| && s[i] == ' ' && forall k :: i < k <= i + 4 ==> Has(UpperOrDigit, s[k])
  }

  lemma GroupMatches(s: string, i: nat)
    ensures Matches(GROUP, s, i) == if IsGroup(s, i) then Try(i + 5, Fail) else Fail
  {
    AlnumRepeat(s, i + 1, 4, 4);
    var n := RunLength(s, i + 1, 4);
    assert Descent(i + 1, 1, 4, 3) == Fail;
    if IsGroup(s, i) { assert forall k :: i < k <= i + 4 ==> HasAt(UpperOrDigit, s, k); }
    if n == 4 {
      forall k | i < k <= i + 4 ensures Has(UpperOrDigit, s[k]) { assert HasAt(UpperOrDigit, s, k); }
    }
    assert IsGroup(s, i) <==> HasAt(Only(' '), s, i) && n == 4;
    if HasAt(Only(' '), s, i) { ThreadOne(GROUP.second, s, i + 1); }
  }

  ghost function GroupCount(s: string, i: nat, max: nat): nat
    decreases |s| - i
  {
    if max == 0 || !IsGroup(s, i) then 0 else 1 + GroupCount(s, i + 5, max - 1)
  }

  lemma {:induction false} GroupCountIsCount(s: string, i: nat, max: nat)
    ensures Count(GROUP, s, 5, i, max) == GroupCount(s, i, max)
    decreases max
  {
    GroupMatches(s, i);
    if max > 0 && IsGroup(s, i) { GroupCountIsCount(s, i + 5, max - 1); }
  }

  lemma GroupsMatches(s: string, i: nat)
    ensures Matches(GROUPS, s, i) == Descent(i, 5, 2, GroupCount(s, i, 7))
  {
    forall j: nat
      ensures Matches(GROUP, s, j).Try? ==> Matches(GROUP, s, j) == Try(j + 5, Fail) && j + 5 <= |s|
    {
      GroupMatches(s, j);
    }
    FixedRepeat(GROUP, 2, 7, s, 5, i);
    GroupCountIsCount(s, i, 7);
  }

  /** The optional tail after the groups: with as many characters as it can take, then fewer, then none. */
  ghost function TailEnds(s: string, i: nat): Tries {
    Or(if HasAt(Only(' '), s, i) then Descent(i + 1, 1, 1, RunLength(s, i + 1, 4)) else Fail, Try(i, Fail))
  }

  lemma TailMatches(s: string, i: nat)
    ensures Matches(TAIL, s, i) == TailEnds(s, i)
  {
    var rest := Repeat(ALNUM, 1, AtMost(4));
    var one := Then(Chars(Only(' ')), rest);
    assert Matches(TAIL, s, i) == Or(More(one, 0, AtMost(0), s, i, Matches(one, s, i)), Try(i, Fail));
    if HasAt(Only(' '), s, i) {
      ThreadOne(rest, s, i + 1);
      AlnumRepeat(s, i + 1, 1, 4);
      MoreOnce(one, s, i, RunLength(s, i + 1, 4));
      assert Matches(one, s, i) == Descent(i + 1, 1, 1, RunLength(s, i + 1, 4));
    }
  }

  /** An optional item is not repeated: each of its ends stands for itself. */
  lemma {:induction false} MoreOnce(body: Pattern, s: string, i: nat, n: nat)
    requires n > 0 ==> i + 1 + n <= |s|
    ensures More(body, 0, AtMost(0), s, i, Descent(i + 1, 1, 1, n)) == Descent(i + 1, 1, 1, n)
    decreases n
  {
    if n > 0 {
      assert Repetitions(body, 0, AtMost(0), s, i + 1 + n) == Try(i + 1 + n, Fail);
      MoreOnce(body, s, i, n - 1);
      OrOne(i + 1 + n, Descent(i + 1, 1, 1, n - 1));
    }
  }

  /** The ends of the grouped form with at most g groups. */
  ghost function GroupedEnds(s: string, i: nat, g: nat): Tries {
    if g < 2 then Fail else Or(TailEnds(s, i + 5 * g), GroupedEnds(s, i, g - 1))
  }

  lemma {:induction false} ThreadTail(s: string, i: nat, g: nat)
    ensures Thread(TAIL, s, Descent(i, 5, 2, g)) == GroupedEnds(s, i, g)
  {
    if g >= 2 {
      TailMatches(s, i + 5 * g);
      ThreadTail(s, i, g - 1);
    }
  }

  ghost function BodyEnds(s: string, i: nat): Tries {
    Or(Descent(i, 1, 11, RunLength(s, i, 30)), GroupedEnds(s, i, GroupCount(s, i, 7)))
  }

  lemma BodyMatches(s: string, i: nat)
    ensures Matches(BODY, s, i) == BodyEnds(s, i)
  {
    AlnumRepeat(s, i, 11, 30);
    GroupsMatches(s, i);
    ThreadTail(s, i, GroupCount(s, i, 7));
  }

  lemma PatternMatches(s: string, i: nat)
    ensures Matches(IBAN_PATTERN, s, i) == if Header(s, i) then AtBoundary(s, BodyEnds(s, i + 4)) else Fail
  {
    var p3 := Then(BODY, Boundary);
    var p2 := Then(CHECK, p3);
    var p1 := Then(COUNTRY, p2);
    TwoChars(Upper, s, i);
    TwoChars(Digit, s, i + 2);
    ThreadOne(p1, s, i);
    ThreadOne(p2, s, i + 2);
    ThreadOne(p3, s, i + 4);
    BodyMatches(s, i + 4);
    ThreadBoundary(s, BodyEnds(s, i + 4));
  }

  // ----- The scanner -----

  predicate IsBoundary(s: string, i: nat)
    requires 0 < i <= |s|
    ensures IsBoundary(s, i) == BoundaryAt(s, i)
  {
    IsWord(s[i - 1]) != (i < |s| && IsWord(s[i]))
  }

  predicate CandidateText(s: string, i: nat, end: nat)
    requires end <= |s|
  {
    forall k :: i <= k < end ==> s[k] == ' ' || Has(UpperOrDigit, s[k])
  }

  /** end is the first of the tries, 0 standing for none. */
  ghost predicate IsFirst(end: nat, tries: Tries) { if end == 0 then tries.Fail? else tries.Try? && tries.end == end }

  /** The end of the match the backtracking engine returns, or 0 when there is none. */
  method CandidateEnd(s: string, start: nat) returns (end: nat)
    requires start <= |s|
    ensures IsFirst(end, Matches(IBAN_PATTERN, s, start))
    ensures end != 0 ==> start < end <= |s| && CandidateText(s, start, end)
  {
    hide Matches, AtBoundary, GroupedEnds, GroupCount, RunLength, Descent;
    PatternMatches(s, start);
    if start > 0 && IsWord(s[start - 1]) { return 0; }
    if start + 4 > |s| || !IsUpper(s[start]) || !IsUpper(s[start + 1]) ||
       !IsDigit(s[start + 2]) || !IsDigit(s[start + 3]) {
      return 0;
    }
    var rest := start + 4;
    AtBoundaryOr(s, Descent(rest, 1, 11, RunLength(s, rest, 30)), GroupedEnds(s, rest, GroupCount(s, rest, 7)));
    var compact := Run(s, rest, 30);
    end := LastBoundary(s, rest, 11, compact);
    if end == 0 { end := GroupedEnd(s, rest); }
  }

  method GroupedEnd(s: string, rest: nat) returns (end: nat)
    requires 0 < rest <= |s|
    ensures IsFirst(end, AtBoundary(s, GroupedEnds(s, rest, GroupCount(s, rest, 7))))
    ensures end != 0 ==> rest < end <= |s| && CandidateText(s, rest, end)
  {
    hide TailEnds, GroupCount, RunLength;
    var groups := CountGroups(s, rest);
    var g := groups;
    while g >= 2
      invariant g <= groups
      invariant AtBoundary(s, GroupedEnds(s, rest, groups)) == AtBoundary(s, GroupedEnds(s, rest, g))
    {
      AtBoundaryOr(s, TailEnds(s, rest + 5 * g), GroupedEnds(s, rest, g - 1));
      end := TailEnd(s, rest + 5 * g);
      if end != 0 { return; }
      g := g - 1;
    }
    end := 0;
  }

  method CountGroups(s: string, rest: nat) returns (groups: nat)
    requires rest <= |s|
    ensures groups == GroupCount(s, rest, 7) && rest + 5 * groups <= |s| && CandidateText(s, rest, rest + 5 * groups)
  {
    groups := 0;
    while groups < 7 && IsGroup(s, rest + 5 * groups)
      invariant groups <= 7 && rest + 5 * groups <= |s|
      invariant GroupCount(s, rest, 7) == groups + GroupCount(s, rest + 5 * groups, 7 - groups)
      invariant CandidateText(s, rest, rest + 5 * groups)
    {
      groups := groups + 1;
    }
  }

  /** The first end of the optional tail at which the closing \b holds, or 0. */
  method TailEnd(s: string, after: nat) returns (end: nat)
    requires 0 < after <= |s|
    ensures IsFirst(end, AtBoundary(s, TailEnds(s, after)))
    ensures end != 0 ==> after <= end <= |s| && CandidateText(s, after, end)
  {
    ghost var tails :=
      if HasAt(Only(' '), s, after) then Descent(after + 1, 1, 1, RunLength(s, after + 1, 4)) else Fail;
    AtBoundaryOr(s, tails, Try(after, Fail));
    if after < |s| && s[after] == ' ' {
      var tail := Run(s, after + 1, 4);
      end := LastBoundary(s, after + 1, 1, tail);
      if end != 0 { return; }
    }
    end := if IsBoundary(s, after) then after else 0;
  }

  /** Gives back one character at a time, from high to low, until a \b holds; 0 when none does. */
  method LastBoundary(s: string, i: nat, low: nat, high: nat) returns (end: nat)
    requires 0 < i && i + high <= |s| && 0 < low
    ensures IsFirst(end, AtBoundary(s, Descent(i, 1, low, high)))
    ensures end != 0 ==> i + low <= end <= i + high
  {
    var k := high;
    while k >= low
      invariant 0 <= k <= high
      invariant AtBoundary(s, Descent(i, 1, low, high)) == AtBoundary(s, Descent(i, 1, low, k))
    {
      if IsBoundary(s, i + k) { return i + k; }
      k := k - 1;
    }
    end := 0;
  }

  lemma RunStep(s: string, i: nat, max: nat)
    ensures RunLength(s, i, max) ==
            if max == 0 || !HasAt(UpperOrDigit, s, i) then 0 else 1 + RunLength(s, i + 1, max - 1)
  {
  }

  lemma RunIsCandidate(s: string, i: nat, max: nat)
    requires i <= |s|
    ensures i + RunLength(s, i, max) <= |s| && CandidateText(s, i, i + RunLength(s, i, max))
  {
    hide RunLength;
    forall k | i <= k < i + RunLength(s, i, max) ensures k < |s| && Has(UpperOrDigit, s[k]) {
      assert HasAt(UpperOrDigit, s, k);
    }
  }

  method Run(s: string, i: nat, max: nat) returns (n: nat)
    requires i <= |s|
    ensures n == RunLength(s, i, max) && i + n <= |s| && CandidateText(s, i, i + n)
  {
    hide RunLength;
    n := 0;
    RunStep(s, i, max);
    while n < max && i + n < |s| && Has(UpperOrDigit, s[i + n])
      invariant n <= max && i + n <= |s|
      invariant RunLength(s, i, max) == n + RunLength(s, i + n, max - n)
    {
      RunStep(s, i + n, max - n);
      n := n + 1;
    }
    RunStep(s, i + n, max - n);
    RunIsCandidate(s, i, max);
  }

  // ----- The scrubber -----

  ghost function Replacement(t: string): string {
    if IbanCheck.Candidate(t) && IbanCheck.IsIban(t) then LABEL else t
  }

  /** Every leftmost non-overlapping match of the pattern that passes the check is replaced, and
      nothing else is touched. */
  method Scrub(s: string) returns (out: string)
    ensures out == Rewrite(IBAN_PATTERN, Replacement, s, 0)
  {
    hide Matches, Rewrite, Replacement, CandidateText;
    out := "";
    var copied, i := 0, 0;
    ghost var done := "";
    while i < |s|
      invariant copied <= i <= |s|
      invariant done == out + s[copied..i] && Progress(IBAN_PATTERN, Replacement, s, i, done)
    {
      var end := CandidateEnd(s, i);
      if end == 0 {
        ProgressMiss(IBAN_PATTERN, Replacement, s, i, done);
        done := done + [s[i]];
        assert s[copied..i + 1] == s[copied..i] + [s[i]];
        i := i + 1;
      } else {
        ProgressHit(IBAN_PATTERN, Replacement, s, i, end, done);
        var passes := CandidatePasses(s, i, end);
        done := done + Replacement(s[i..end]);
        if passes {
          out := out + s[copied..i] + LABEL;
          copied := end;
        } else {
          assert s[copied..end] == s[copied..i] + s[i..end];
        }
        i := end;
      }
    }
    ProgressEnd(IBAN_PATTERN, Replacement, s, done);
    out := out + s[copied..];
  }

  method CandidatePasses(s: string, i: nat, end: nat) returns (passes: bool)
    requires i < end <= |s| && CandidateText(s, i, end)
    ensures Replacement(s[i..end]) == if passes then LABEL else s[i..end]
  {
    passes := IbanCheck.Passes(s[i..end]);
  }
}
