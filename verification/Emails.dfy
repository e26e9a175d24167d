/** The email scanner of src/strict_privacy.c. */
module Emails {
  import opened Ascii
  import opened Regex

  // [a-zA-Z0-9._%+-]+@[a-zA-Z0-9.-]+\.[a-zA-Z]{2,}

  const ENDING := Then(Chars(Only('.')), Repeat(Chars(Letter), 2, NoLimit))
  const DOMAIN := Then(Repeat(Chars(EmailDomain), 1, NoLimit), ENDING)
  const AT_DOMAIN := Then(Chars(Only('@')), DOMAIN)
  const EMAIL_PATTERN := Then(Repeat(Chars(EmailLocal), 1, NoLimit), AT_DOMAIN)

  // ----- Everything the engine would try, in closed form -----

  /** The "." at i and the letters after it, as many as there are first. */
  ghost function EndingEnds(s: string, i: nat): Tries {
    if HasAt(Only('.'), s, i) then Descent(i + 1, 1, 2, RunOf(Letter, s, i + 1)) else Fail
  }

  lemma EndingMatches(s: string, i: nat)
    ensures Matches(ENDING, s, i) == EndingEnds(s, i)
  {
    var letters := Repeat(Chars(Letter), 2, NoLimit);
    if HasAt(Only('.'), s, i) {
      ThreadOne(letters, s, i + 1);
      ManyChars(Letter, 2, s, i + 1);
    }
  }

  /** The endings after the first n, n - 1, ..., 1 characters of the domain that starts at i. */
  ghost function DomainEnds(s: string, i: nat, n: nat): Tries {
    if n == 0 then Fail else Or(EndingEnds(s, i + n), DomainEnds(s, i, n - 1))
  }

  lemma {:induction false} ThreadEnding(s: string, i: nat, n: nat)
    ensures Thread(ENDING, s, Descent(i, 1, 1, n)) == DomainEnds(s, i, n)
  {
    if n > 0 {
      EndingMatches(s, i + n);
      ThreadEnding(s, i, n - 1);
    }
  }

  lemma DomainMatches(s: string, i: nat)
    ensures Matches(DOMAIN, s, i) == DomainEnds(s, i, RunOf(EmailDomain, s, i))
  {
    ManyChars(EmailDomain, 1, s, i);
    ThreadEnding(s, i, RunOf(EmailDomain, s, i));
  }

  ghost function AtEnds(s: string, i: nat): Tries {
    if HasAt(Only('@'), s, i) then DomainEnds(s, i + 1, RunOf(EmailDomain, s, i + 1)) else Fail
  }

  lemma AtMatches(s: string, i: nat)
    ensures Matches(AT_DOMAIN, s, i) == AtEnds(s, i)
  {
    if HasAt(Only('@'), s, i) {
      ThreadOne(DOMAIN, s, i + 1);
      DomainMatches(s, i + 1);
    }
  }

  /** A shorter local part is followed by another of its characters and never by the '@'. */
  lemma {:induction false} GivingBackIsUseless(s: string, i: nat, n: nat)
    requires forall j :: i <= j < i + n ==> HasAt(EmailLocal, s, j)
    ensures Thread(AT_DOMAIN, s, Descent(i, 1, 1, n)) == if n == 0 then Fail else AtEnds(s, i + n)
  {
    if n > 0 {
      AtMatches(s, i + n);
      GivingBackIsUseless(s, i, n - 1);
      if n > 1 { assert HasAt(EmailLocal, s, i + n - 1); }
      OrFail(AtEnds(s, i + n));
    }
  }

  lemma PatternMatches(s: string, i: nat)
    ensures var n := RunOf(EmailLocal, s, i);
            Matches(EMAIL_PATTERN, s, i) == if n == 0 then Fail else AtEnds(s, i + n)
  {
    ManyChars(EmailLocal, 1, s, i);
    GivingBackIsUseless(s, i, RunOf(EmailLocal, s, i));
  }

  // ----- The scanner -----

  method RunEnd(k: Class, s: string, i: nat) returns (end: nat)
    requires i <= |s|
    ensures end == i + RunOf(k, s, i) && end <= |s|
  {
    end := i;
    while end < |s| && Has(k, s[end])
      invariant i <= end <= |s| && RunOf(k, s, i) == end - i + RunOf(k, s, end)
    {
      end := end + 1;
    }
  }

  /** The length of the engine's match at i, or 0; and where the local-part run ends. */
  method EmailAt(s: string, i: nat) returns (length: nat, localEnd: nat)
    requires i < |s|
    ensures localEnd == i + RunOf(EmailLocal, s, i) && localEnd <= |s|
    ensures length == 0 <==> Matches(EMAIL_PATTERN, s, i).Fail?
    ensures length != 0 ==> i + length <= |s| && Matches(EMAIL_PATTERN, s, i).end == i + length
  {
    hide Matches, RunOf, DomainEnds;
    PatternMatches(s, i);
    localEnd := RunEnd(EmailLocal, s, i);
    if localEnd == i || localEnd == |s| || s[localEnd] != '@' { return 0, localEnd; }
    var end := DomainEnd(s, localEnd + 1);
    length := if end == 0 then 0 else end - i;
  }

  /** Looking for a dot from the right end of the domain's run: the first with two letters behind it
      decides, and all its letters belong to the match. 0 when no dot does. */
  method DomainEnd(s: string, domainStart: nat) returns (end: nat)
    requires 0 < domainStart <= |s|
    ensures var tries := DomainEnds(s, domainStart, RunOf(EmailDomain, s, domainStart));
            if end == 0 then tries.Fail? else tries.Try? && tries.end == end && domainStart < end <= |s|
  {
    hide RunOf;
    var domainEnd := RunEnd(EmailDomain, s, domainStart);
    ghost var all := DomainEnds(s, domainStart, domainEnd - domainStart);
    LastEnding(s, domainStart, domainEnd);
    var dot := domainEnd;
    while dot > domainStart + 1
      invariant domainStart <= dot <= domainEnd
      invariant all == (if dot == domainStart then Fail else DomainEnds(s, domainStart, dot - 1 - domainStart))
    {
      var d := dot - 1;
      if s[d] == '.' {
        var lettersEnd := RunEnd(Letter, s, d + 1);
        if lettersEnd - (d + 1) >= 2 { return lettersEnd; }
      }
      dot := d;
    }
    end := 0;
  }

  /** The whole run is followed by no "." (a "." would belong to it). */
  lemma LastEnding(s: string, i: nat, end: nat)
    requires end == i + RunOf(EmailDomain, s, i) && i <= end <= |s|
    ensures DomainEnds(s, i, end - i) == if end == i then Fail else DomainEnds(s, i, end - i - 1)
  {
    assert !HasAt(EmailDomain, s, end);
  }

  ghost function Replacement(t: string): string { "<email>" }

  method ReplaceEmails(s: string) returns (out: string)
    ensures out == Rewrite(EMAIL_PATTERN, Replacement, s, 0)
  {
    hide Matches, Rewrite, RunOf;
    out := "";
    var i := 0;
    while i < |s|
      invariant i <= |s| && Progress(EMAIL_PATTERN, Replacement, s, i, out)
    {
      var localEnd, length := i, 0;
      if Has(EmailLocal, s[i]) { length, localEnd := EmailAt(s, i); } else { NoLocal(s, i); }
      if length > 0 {
        ProgressHit(EMAIL_PATTERN, Replacement, s, i, i + length, out);
        out := out + "<email>";
        i := i + length;
      } else {
        var copy := if localEnd > i then localEnd - i else 1;
        SkipLocal(s, i, copy, out);
        out := out + s[i..i + copy];
        i := i + copy;
      }
    }
    ProgressEnd(EMAIL_PATTERN, Replacement, s, out);
  }

  lemma NoLocal(s: string, i: nat)
    requires i < |s| && !Has(EmailLocal, s[i])
    ensures Matches(EMAIL_PATTERN, s, i).Fail? && RunOf(EmailLocal, s, i) == 0
  {
    PatternMatches(s, i);
  }

  /** A failed run can be copied whole: from anywhere inside it the engine would meet the very same
      rest, and fail again. */
  lemma {:induction false} SkipLocal(s: string, i: nat, copy: nat, out: string)
    requires i + copy <= |s| && copy > 0 && (copy == 1 || copy == RunOf(EmailLocal, s, i))
    requires Progress(EMAIL_PATTERN, Replacement, s, i, out) && Matches(EMAIL_PATTERN, s, i).Fail?
    ensures Progress(EMAIL_PATTERN, Replacement, s, i + copy, out + s[i..i + copy])
    decreases copy
  {
    hide Matches, Rewrite, RunOf;
    ProgressMiss(EMAIL_PATTERN, Replacement, s, i, out);
    if copy == 1 {
      assert s[i..i + 1] == [s[i]];
    } else {
      FailsAlike(s, i);
      SkipLocal(s, i + 1, copy - 1, out + [s[i]]);
      assert out + [s[i]] + s[i + 1..i + copy] == out + s[i..i + copy];
    }
  }

  lemma FailsAlike(s: string, i: nat)
    requires RunOf(EmailLocal, s, i) > 1
    ensures RunOf(EmailLocal, s, i) == 1 + RunOf(EmailLocal, s, i + 1)
    ensures Matches(EMAIL_PATTERN, s, i) == Matches(EMAIL_PATTERN, s, i + 1)
  {
    PatternMatches(s, i);
    PatternMatches(s, i + 1);
    hide Matches;
  }

  // ----- What is left is free of emails -----

  /** s[i..e] is an email: local part up to a, domain up to d, then "." and letters. */
  ghost predicate IsEmail(s: string, i: nat, a: nat, d: nat, e: nat) {
    && i < a && a + 1 < d && d + 3 <= e <= |s|
    && (forall k :: i <= k < a ==> Has(EmailLocal, s[k])) && s[a] == '@'
    && (forall k :: a < k < d ==> Has(EmailDomain, s[k])) && s[d] == '.'
    && (forall k :: d < k < e ==> Has(Letter, s[k]))
  }

  ghost predicate HasEmail(s: string, i: nat) { exists a: nat, d: nat, e: nat :: IsEmail(s, i, a, d, e) }

  lemma {:induction false} DomainHasEnding(s: string, i: nat, n: nat) returns (k: nat)
    requires DomainEnds(s, i, n).Try?
    ensures 0 < k <= n && EndingEnds(s, i + k).Try?
  {
    k := n;
    if EndingEnds(s, i + n).Fail? { k := DomainHasEnding(s, i, n - 1); }
  }

  lemma {:induction false} EndingIsTried(s: string, i: nat, n: nat, k: nat)
    requires 0 < k <= n && EndingEnds(s, i + k).Try?
    ensures DomainEnds(s, i, n).Try?
  {
    if k < n { EndingIsTried(s, i, n - 1, k); }
  }

  lemma MatchHasEmail(s: string, i: nat)
    requires Matches(EMAIL_PATTERN, s, i).Try?
    ensures HasEmail(s, i) && i < Matches(EMAIL_PATTERN, s, i).end <= |s|
  {
    hide Matches, RunOf;
    PatternMatches(s, i);
    var a := i + RunOf(EmailLocal, s, i);
    var n := RunOf(EmailDomain, s, a + 1);
    var k := DomainHasEnding(s, a + 1, n);
    DomainInRange(s, a + 1, n);
    var d := a + 1 + k;
    var e := d + 1 + RunOf(Letter, s, d + 1);
    RunIs(EmailLocal, s, i);
    RunIs(EmailDomain, s, a + 1);
    RunIs(Letter, s, d + 1);
    hide DomainEnds;
    assert IsEmail(s, i, a, d, e);
  }

  lemma {:induction false} DomainInRange(s: string, i: nat, n: nat)
    requires DomainEnds(s, i, n).Try?
    ensures i < DomainEnds(s, i, n).end <= |s|
  {
    hide RunOf;
    if EndingEnds(s, i + n).Fail? { DomainInRange(s, i, n - 1); }
  }

  lemma EmailIsMatched(s: string, i: nat, a: nat, d: nat, e: nat)
    requires IsEmail(s, i, a, d, e)
    ensures Matches(EMAIL_PATTERN, s, i).Try?
  {
    hide Matches, RunOf, DomainEnds;
    PatternMatches(s, i);
    RunUpTo(EmailLocal, s, i, a);
    RunAtLeast(EmailDomain, s, a + 1, d + 1);
    RunAtLeast(Letter, s, d + 1, e);
    hide Has, IsEmail;
    assert EndingEnds(s, a + 1 + (d - a - 1)).Try?;
    EndingIsTried(s, a + 1, RunOf(EmailDomain, s, a + 1), d - a - 1);
  }

  /** The engine matches at i exactly when an email starts there. */
  lemma MatchIsEmail(s: string, i: nat)
    ensures Matches(EMAIL_PATTERN, s, i).Try? <==> HasEmail(s, i)
    ensures Matches(EMAIL_PATTERN, s, i).Try? ==> i < Matches(EMAIL_PATTERN, s, i).end <= |s|
  {
    hide Matches, IsEmail;
    if Matches(EMAIL_PATTERN, s, i).Try? { MatchHasEmail(s, i); }
    if HasEmail(s, i) {
      var a: nat, d: nat, e: nat :| IsEmail(s, i, a, d, e);
      EmailIsMatched(s, i, a, d, e);
    }
  }

  lemma RunIs(k: Class, s: string, i: nat)
    ensures forall j :: i <= j < i + RunOf(k, s, i) && j < |s| ==> Has(k, s[j])
  {
    hide RunOf;
    forall j | i <= j < i + RunOf(k, s, i) && j < |s| ensures Has(k, s[j]) { assert HasAt(k, s, j); }
  }

  lemma {:induction false} RunAtLeast(k: Class, s: string, i: nat, end: nat)
    requires i <= end <= |s| && forall j :: i <= j < end ==> Has(k, s[j])
    ensures i + RunOf(k, s, i) >= end
    decreases end - i
  {
    if i < end { RunAtLeast(k, s, i + 1, end); }
  }

  lemma RunUpTo(k: Class, s: string, i: nat, end: nat)
    requires i <= end < |s| && !Has(k, s[end]) && forall j :: i <= j < end ==> Has(k, s[j])
    ensures i + RunOf(k, s, i) == end
  {
    hide RunOf;
    RunAtLeast(k, s, i, end);
    assert HasAt(k, s, end) == Has(k, s[end]);
  }

  /** As long as no "<" has been written, what was written is what was read. */
  lemma {:induction false} NothingReplacedYet(s: string, i: nat, n: nat)
    requires i <= |s|
    requires var out := Rewrite(EMAIL_PATTERN, Replacement, s, i);
             n <= |out| && forall k :: 0 <= k < n ==> out[k] != '<'
    ensures i + n <= |s| && Rewrite(EMAIL_PATTERN, Replacement, s, i)[..n] == s[i..i + n]
    decreases n
  {
    hide Matches, Rewrite;
    if n > 0 {
      var out := Rewrite(EMAIL_PATTERN, Replacement, s, i);
      var rest := Rewrite(EMAIL_PATTERN, Replacement, s, i + 1);
      assert out[0] != '<';
      NotReplacedHere(s, i);
      forall k | 0 <= k < n - 1 ensures rest[k] != '<' { assert rest[k] == out[k + 1]; }
      NothingReplacedYet(s, i + 1, n - 1);
      assert out[..n] == [s[i]] + rest[..n - 1];
      assert s[i..i + n] == [s[i]] + s[i + 1..i + n];
    }
  }

  lemma NotReplacedHere(s: string, i: nat)
    requires i <= |s|
    requires var out := Rewrite(EMAIL_PATTERN, Replacement, s, i); out != "" && out[0] != '<'
    ensures i < |s|
    ensures Rewrite(EMAIL_PATTERN, Replacement, s, i) == [s[i]] + Rewrite(EMAIL_PATTERN, Replacement, s, i + 1)
  {
    hide Matches;
  }

  lemma EmailInTail(a: string, b: string, i: nat)
    requires i >= |a| && HasEmail(a + b, i)
    ensures HasEmail(b, i - |a|)
  {
    hide IsEmail;
    var x: nat, d: nat, e: nat :| IsEmail(a + b, i, x, d, e);
    EmailExtent(a + b, i, x, d, e);
    assert (a + b)[i..e] == b[i - |a|..e - |a|];
    EmailMoves(a + b, i, x, d, e, b, i - |a|);
  }

  lemma NoEmailInLabel(b: string, i: nat)
    requires i < 7
    ensures !HasEmail("<email>" + b, i)
  {
    var t := "<email>" + b;
    assert t[0] == '<' && t[6] == '>' && t[1] == 'e' && t[2] == 'm' && t[3] == 'a' && t[4] == 'i' && t[5] == 'l';
  }

  /** An email at the front of what is written was there before. */
  lemma StillThere(s: string, i: nat)
    requires i <= |s| && HasEmail(Rewrite(EMAIL_PATTERN, Replacement, s, i), 0)
    ensures HasEmail(s, i)
  {
    hide Rewrite, IsEmail;
    var out := Rewrite(EMAIL_PATTERN, Replacement, s, i);
    var a: nat, d: nat, e: nat :| IsEmail(out, 0, a, d, e);
    EmailExtent(out, 0, a, d, e);
    NothingReplacedYet(s, i, e);
    assert out[0..e] == out[..e];
    EmailMoves(out, 0, a, d, e, s, i);
  }

  lemma EmailExtent(s: string, i: nat, a: nat, d: nat, e: nat)
    requires IsEmail(s, i, a, d, e)
    ensures i < e <= |s| && forall k :: i <= k < e ==> s[k] != '<'
  {
  }

  /** An email copied elsewhere is an email there. */
  lemma EmailMoves(t: string, j: nat, a: nat, d: nat, e: nat, s: string, i: nat)
    requires IsEmail(t, j, a, d, e) && i + (e - j) <= |s| && t[j..e] == s[i..i + (e - j)]
    ensures HasEmail(s, i)
  {
    var m := i - j;
    forall k | j <= k < e ensures s[k + m] == t[k] { assert t[j..e][k - j] == s[i..i + (e - j)][k - j]; }
    forall k | i <= k < a + m ensures Has(EmailLocal, s[k]) { assert s[k - m + m] == t[k - m]; }
    forall k | a + m < k < d + m ensures Has(EmailDomain, s[k]) { assert s[k - m + m] == t[k - m]; }
    forall k | d + m < k < e + m ensures Has(Letter, s[k]) { assert s[k - m + m] == t[k - m]; }
    assert s[a + m] == t[a] && s[d + m] == t[d];
    hide Has;
    assert IsEmail(s, i, a + m, d + m, e + m);
  }

  /** In the output of the scan no email starts anywhere. */
  lemma {:induction false} NoEmailLeft(s: string, i: nat, j: nat)
    requires i <= |s|
    ensures !HasEmail(Rewrite(EMAIL_PATTERN, Replacement, s, i), j)
    decreases |s| - i
  {
    hide Matches, IsEmail;
    if i < |s| {
      MatchIsEmail(s, i);
      var m := Matches(EMAIL_PATTERN, s, i);
      if m.Fail? {
        var rest := Rewrite(EMAIL_PATTERN, Replacement, s, i + 1);
        if j == 0 {
          if HasEmail([s[i]] + rest, 0) { StillThere(s, i); }
        } else {
          NoEmailLeft(s, i + 1, j - 1);
          if HasEmail([s[i]] + rest, j) { EmailInTail([s[i]], rest, j); }
        }
      } else {
        var rest := Rewrite(EMAIL_PATTERN, Replacement, s, m.end);
        if j < 7 {
          NoEmailInLabel(rest, j);
        } else {
          NoEmailLeft(s, m.end, j - 7);
          if HasEmail("<email>" + rest, j) { EmailInTail("<email>", rest, j); }
        }
      }
    } else {
      NoEmailInNothing(j);
    }
  }

  lemma NoEmailInNothing(j: nat)
    ensures !HasEmail("", j)
  {
  }

  /** Nothing in the output matches the pattern: one pass removes every email. */
  lemma OutputHasNoMatch(s: string, j: nat)
    ensures Matches(EMAIL_PATTERN, Rewrite(EMAIL_PATTERN, Replacement, s, 0), j).Fail?
  {
    hide Matches, Rewrite, HasEmail;
    NoEmailLeft(s, 0, j);
    MatchIsEmail(Rewrite(EMAIL_PATTERN, Replacement, s, 0), j);
  }
}
