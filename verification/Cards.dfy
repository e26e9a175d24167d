/** The card-number scrubber of src/pii_scrubber.c. */
module Cards {
  import opened Ascii
  import opened Regex
  import opened CardNumber

  const LABEL := "[CREDIT CARD FILTERED]"

  // ----- The runs: (?<![A-Za-z0-9_])\d(?:[ -]?\d)*(?![A-Za-z0-9_]) -----

  const NEXT_DIGIT := Then(Repeat(Chars(Separator), 0, AtMost(1)), Chars(Digit))
  const CARD_RUN := Then(NotAfter(Word), Then(Chars(Digit), Then(Repeat(NEXT_DIGIT, 0, NoLimit), NotBefore(Word))))

  /** Where the run goes on from i: past a digit, or past a separator and a digit; 0 when it stops. */
  function StepEnd(s: string, i: nat): (e: nat)
    ensures e == 0 || i < e <= |s|
  {
    if HasAt(Digit, s, i) then i + 1
    else if HasAt(Separator, s, i) && HasAt(Digit, s, i + 1) then i + 2
    else 0
  }

  lemma StepMatches(s: string, i: nat)
    ensures Matches(NEXT_DIGIT, s, i) == if StepEnd(s, i) != 0 then Try(StepEnd(s, i), Fail) else Fail
  {
    var sep := Repeat(Chars(Separator), 0, AtMost(1));
    CharsFixed(Separator, s);
    FixedRepeat(Chars(Separator), 0, 1, s, 1, i);
    if HasAt(Separator, s, i) {
      assert Count(Chars(Separator), s, 1, i, 1) == 1;
      assert Matches(sep, s, i) == Try(i + 1, Try(i, Fail));
      assert Thread(Chars(Digit), s, Try(i, Fail)) == Fail by { ThreadOne(Chars(Digit), s, i); }
      OrFail(Matches(Chars(Digit), s, i + 1));
    } else {
      assert Matches(sep, s, i) == Try(i, Fail);
      ThreadOne(Chars(Digit), s, i);
    }
  }

  /** Every place the run could stop, the farthest first. */
  ghost function RunEnds(s: string, i: nat): Tries
    decreases |s| - i
  {
    Or(if StepEnd(s, i) != 0 then RunEnds(s, StepEnd(s, i)) else Fail, Try(i, Fail))
  }

  lemma {:induction false} RunMatches(s: string, i: nat)
    ensures Repetitions(NEXT_DIGIT, 0, NoLimit, s, i) == RunEnds(s, i)
    decreases |s| - i
  {
    StepMatches(s, i);
    var e := StepEnd(s, i);
    if e != 0 {
      RunMatches(s, e);
      MoreAfterOne(NEXT_DIGIT, 0, NoLimit, s, i, e);
    }
  }

  /** The ends not followed by a word character. */
  ghost function Clear(s: string, ends: Tries): Tries {
    match ends
    case Fail => Fail
    case Try(e, rest) => if HasAt(Word, s, e) then Clear(s, rest) else Try(e, Clear(s, rest))
  }

  lemma ClearOr(s: string, a: Tries, b: Tries)
    ensures Clear(s, Or(a, b)) == Or(Clear(s, a), Clear(s, b))
  {
  }

  lemma {:induction false} ThreadClear(s: string, ends: Tries)
    ensures Thread(NotBefore(Word), s, ends) == Clear(s, ends)
    decreases ends
  {
    match ends
    case Fail =>
    case Try(e, rest) =>
      ThreadClear(s, rest);
      OrOne(e, Clear(s, rest));
  }

  lemma CardRunMatches(s: string, i: nat)
    ensures Matches(CARD_RUN, s, i) ==
            if !HasBefore(Word, s, i) && HasAt(Digit, s, i) then Clear(s, RunEnds(s, i + 1)) else Fail
  {
    var p2 := Then(Repeat(NEXT_DIGIT, 0, NoLimit), NotBefore(Word));
    var p1 := Then(Chars(Digit), p2);
    ThreadOne(p1, s, i);
    ThreadOne(p2, s, i + 1);
    RunMatches(s, i + 1);
    ThreadClear(s, RunEnds(s, i + 1));
  }

  /** s[i..end] is digits joined by single separators. */
  ghost predicate RunText(s: string, i: nat, end: nat) {
    && i < end <= |s| && IsDigit(s[i]) && IsDigit(s[end - 1])
    && (forall k :: i <= k < end ==> IsDigit(s[k]) || Has(Separator, s[k]))
    && (forall k :: i <= k < end - 1 ==> IsDigit(s[k]) || IsDigit(s[k + 1]))
  }

  ghost predicate IsRun(run: string) { RunText(run, 0, |run|) }

  lemma RunTextIsRun(s: string, i: nat, end: nat)
    requires RunText(s, i, end)
    ensures IsRun(s[i..end])
  {
    var run := s[i..end];
    forall k | 0 <= k < |run| - 1 ensures IsDigit(run[k]) || IsDigit(run[k + 1]) {
      assert run[k] == s[i + k] && run[k + 1] == s[i + k + 1];
    }
  }

  /** From a digit not preceded by a word character: the end of the engine's match, or, with no
      match, the end of the digits to skip. The loop remembers only the last separator. */
  method RunEnd(s: string, i: nat) returns (end: nat, matched: bool)
    requires i < |s| && IsDigit(s[i]) && !HasBefore(Word, s, i)
    ensures matched <==> Matches(CARD_RUN, s, i).Try?
    ensures i < end <= |s|
    ensures matched ==> Matches(CARD_RUN, s, i).end == end && RunText(s, i, end)
    ensures !matched ==> forall k :: i <= k < end ==> IsDigit(s[k])
  {
    hide Matches, Clear, RunEnds, RunText;
    CardRunMatches(s, i);
    RunTextStarts(s, i);
    OrFail(Clear(s, RunEnds(s, i + 1)));
    end := i + 1;
    var lastSeparator := 0;
    ghost var fallback := Fail;
    while end < |s|
      invariant i < end <= |s| && RunText(s, i, end)
      invariant Clear(s, RunEnds(s, i + 1)) == Or(Clear(s, RunEnds(s, end)), fallback)
      invariant lastSeparator == 0 ==> fallback == Fail && forall k :: i <= k < end ==> IsDigit(s[k])
      invariant lastSeparator != 0 ==> fallback.Try? && fallback.end == lastSeparator && RunText(s, i, lastSeparator)
    {
      GoOn(s, end);
      RunTextGrows(s, i, end);
      if IsDigit(s[end]) {
        end := end + 1;
      } else if (s[end] == ' ' || s[end] == '-') && end + 1 < |s| && IsDigit(s[end + 1]) {
        OrAssociative(Clear(s, RunEnds(s, end + 2)), Try(end, Fail), fallback);
        OrOne(end, fallback);
        fallback := Try(end, fallback);
        lastSeparator := end;
        end := end + 2;
      } else {
        break;
      }
    }
    GoOn(s, end);
    if end < |s| && IsWord(s[end]) {
      if lastSeparator == 0 { return end, false; }
      RunTextExtent(s, i, lastSeparator);
      end := lastSeparator;
    }
    matched := true;
  }

  lemma RunTextStarts(s: string, i: nat)
    requires i < |s| && IsDigit(s[i])
    ensures RunText(s, i, i + 1)
  {
  }

  lemma RunTextExtent(s: string, i: nat, end: nat)
    requires RunText(s, i, end)
    ensures i < end <= |s|
  {
  }

  lemma RunTextGrows(s: string, i: nat, end: nat)
    requires RunText(s, i, end) && end < |s|
    ensures i < end && (IsDigit(s[end]) ==> RunText(s, i, end + 1))
    ensures Has(Separator, s[end]) && end + 1 < |s| && IsDigit(s[end + 1]) ==> RunText(s, i, end + 2)
  {
  }

  /** Before another digit a run can not stop; before a separator it can. */
  lemma GoOn(s: string, end: nat)
    requires end <= |s|
    ensures Clear(s, RunEnds(s, end)) ==
            if HasAt(Digit, s, end) then Clear(s, RunEnds(s, end + 1))
            else if StepEnd(s, end) != 0 then Or(Clear(s, RunEnds(s, end + 2)), Try(end, Fail))
            else if HasAt(Word, s, end) then Fail else Try(end, Fail)
  {
    var e := StepEnd(s, end);
    if e != 0 {
      ClearOr(s, RunEnds(s, e), Try(end, Fail));
      OrFail(Clear(s, RunEnds(s, e)));
    }
  }

  // ----- One run: card numbers among its groups -----

  /** The digits of t, its separators dropped. */
  function Digits(t: string): (d: string)
    ensures AllDigits(d)
  {
    if t == "" then "" else Digits(t[..|t| - 1]) + (if IsDigit(t[|t| - 1]) then [t[|t| - 1]] else "")
  }

  ghost function Joined(run: string, g: nat, e: nat): (d: string)
    requires g <= e <= |run|
    ensures AllDigits(d)
  {
    Digits(run[g..e])
  }

  /** run[g..e] is a stretch of whole groups that, joined, is a card number. */
  ghost predicate CardStretch(run: string, g: nat, e: nat) {
    g < e <= |run| && (e == |run| || !IsDigit(run[e])) && IsCard(Digits(run[g..e]))
  }

  /** Where the longest such stretch from g ends, or 0. */
  ghost function Longest(run: string, g: nat, limit: nat): (e: nat)
    requires limit <= |run|
    ensures e != 0 ==> e <= limit && CardStretch(run, g, e)
    ensures forall x: nat :: x <= limit && CardStretch(run, g, x) ==> x <= e
    decreases limit
  {
    if limit == 0 then 0 else if CardStretch(run, g, limit) then limit else Longest(run, g, limit - 1)
  }

  function GroupEnd(run: string, g: nat): (e: nat)
    requires g <= |run|
    ensures g <= e <= |run| && (e == |run| || !IsDigit(run[e])) && forall k :: g <= k < e ==> IsDigit(run[k])
    decreases |run| - g
  {
    if g < |run| && IsDigit(run[g]) then GroupEnd(run, g + 1) else g
  }

  /** What becomes of the groups from g on. A card number that starts with this group goes, as long
      as it can be made; without one the group stays. Either way the next separator stays too. */
  ghost function ScrubGroups(run: string, g: nat): string
    requires g <= |run|
    decreases |run| - g
  {
    if g == |run| then ""
    else
      var e := Longest(run, g, |run|);
      var stop := if e != 0 then e else GroupEnd(run, g);
      (if e != 0 then LABEL else run[g..stop])
      + (if stop < |run| then [run[stop]] + ScrubGroups(run, stop + 1) else "")
  }

  ghost function ScrubRun(run: string): string { ScrubGroups(run, 0) }

  lemma {:induction false} DigitsSplit(a: string, b: string)
    ensures Digits(a + b) == Digits(a) + Digits(b)
    decreases |b|
  {
    if b == "" {
      assert a + b == a;
    } else {
      assert (a + b)[..|a + b| - 1] == a + b[..|b| - 1];
      DigitsSplit(a, b[..|b| - 1]);
    }
  }

  lemma {:induction false} DigitsOfDigits(d: string)
    requires AllDigits(d)
    ensures Digits(d) == d
  {
    if d != "" {
      var front, c := d[..|d| - 1], d[|d| - 1];
      assert d == front + [c] && IsDigit(c) && AllDigits(front);
      hide AllDigits;
      DigitsOfDigits(front);
    }
  }

  /** One more group: its digits are added, the separator before it is not. */
  lemma AddGroup(run: string, g: nat, pos: nat, e: nat)
    requires g <= pos <= e <= |run| && AllDigits(run[pos..e])
    ensures Digits(run[g..e]) == Digits(run[g..pos]) + run[pos..e]
  {
    assert run[g..e] == run[g..pos] + run[pos..e];
    DigitsSplit(run[g..pos], run[pos..e]);
    DigitsOfDigits(run[pos..e]);
  }

  lemma SkipSeparator(run: string, g: nat, e: nat)
    requires g <= e < |run| && !IsDigit(run[e])
    ensures Joined(run, g, e + 1) == Joined(run, g, e)
  {
    assert run[g..e + 1][..e - g] == run[g..e];
  }

  /** The 19-digit cut-off loses nothing: a longer stretch has at least as many digits. */
  lemma TooLong(run: string, g: nat, e: nat, x: nat)
    requires g <= e <= x <= |run| && |Digits(run[g..e])| > 19
    ensures !CardStretch(run, g, x)
  {
    assert run[g..x] == run[g..e] + run[e..x];
    DigitsSplit(run[g..e], run[e..x]);
  }

  method GroupEndAt(run: string, g: nat) returns (e: nat)
    requires g <= |run|
    ensures e == GroupEnd(run, g)
  {
    e := g;
    while e < |run| && IsDigit(run[e])
      invariant g <= e <= |run| && GroupEnd(run, g) == GroupEnd(run, e)
    {
      e := e + 1;
    }
  }

  /** The stretches are tried in growing order, the last card number wins, and the search stops as
      soon as there are more than 19 digits: still the longest. */
  method LongestStretch(run: string, group: nat) returns (found: nat)
    requires IsRun(run) && group < |run| && IsDigit(run[group])
    ensures found == Longest(run, group, |run|)
  {
    hide *;
    NoStretchBefore(run, group);
    var joined := "";
    found := 0;
    var pos := group;
    while pos < |run|
      invariant group <= pos <= |run| + 1
      invariant pos < |run| ==> IsDigit(run[pos]) && joined == Joined(run, group, pos)
      invariant pos == |run| ==> false
      invariant found == Longest(run, group, if pos == 0 then 0 else pos - 1)
    {
      var e := GroupEndAt(run, pos);
      GroupStep(run, group, pos);
      if |joined| + (e - pos) > 19 {
        CutOff(run, group, e);
        return;
      }
      joined := joined + run[pos..e];
      var card := IsCardNumber(joined);
      if card { found := e; }
      if e < |run| {
        AfterGroup(run, e);
        SkipSeparator(run, group, e);
      }
      pos := e + 1;
    }
  }

  lemma {:induction false} NoStretchBefore(run: string, g: nat)
    requires g <= |run|
    ensures Longest(run, g, g) == 0 && (g > 0 ==> Longest(run, g, g - 1) == 0) && Joined(run, g, g) == ""
  {
    assert forall x: nat :: x <= g ==> !CardStretch(run, g, x);
  }

  /** Taking in the group at pos adds its digits, and the stretch to its end as the only new one. */
  lemma GroupStep(run: string, g: nat, pos: nat)
    requires g <= pos < |run| && IsDigit(run[pos])
    ensures var e := GroupEnd(run, pos);
            && pos < e && AllDigits(run[pos..e])
            && Joined(run, g, e) == Joined(run, g, pos) + run[pos..e]
            && Longest(run, g, e) ==
               (if IsCard(Joined(run, g, e)) then e else Longest(run, g, if pos == 0 then 0 else pos - 1))
  {
    var e := GroupEnd(run, pos);
    AddGroup(run, g, pos, e);
    var below := if pos == 0 then 0 else pos - 1;
    forall x: nat | below < x < e ensures !CardStretch(run, g, x) { }
    LongestSkips(run, g, below, e - 1);
  }

  lemma {:induction false} LongestSkips(run: string, g: nat, low: nat, high: nat)
    requires low <= high <= |run| && forall x: nat :: low < x <= high ==> !CardStretch(run, g, x)
    ensures Longest(run, g, high) == Longest(run, g, low)
  {
    if low < high { LongestSkips(run, g, low, high - 1); }
  }

  lemma CutOff(run: string, g: nat, e: nat)
    requires g < e <= |run| && |Joined(run, g, e)| > 19
    ensures Longest(run, g, |run|) == Longest(run, g, e) && !IsCard(Joined(run, g, e))
  {
    forall x: nat | e < x <= |run| ensures !CardStretch(run, g, x) { TooLong(run, g, e, x); }
    LongestSkips(run, g, e, |run|);
  }

  lemma AfterGroup(run: string, e: nat)
    requires IsRun(run) && e < |run| && !IsDigit(run[e])
    ensures e + 1 < |run| && IsDigit(run[e + 1])
  {
  }

  method ScrubOneRun(run: string) returns (out: string)
    requires IsRun(run)
    ensures out == ScrubRun(run)
  {
    hide *;
    out := "";
    var group := 0;
    RunStarts(run);
    while group < |run|
      invariant group <= |run| + 1
      invariant group < |run| ==> IsDigit(run[group]) && ScrubRun(run) == out + ScrubGroups(run, group)
      invariant group >= |run| ==> ScrubRun(run) == out
    {
      var found := LongestStretch(run, group);
      var e := GroupEndAt(run, group);
      var stop := if found != 0 then found else e;
      StretchEnds(run, group, stop);
      var piece := if found != 0 then LABEL else run[group..e];
      ScrubGroupsStep(run, group, stop, piece, out);
      out := out + piece;
      if stop < |run| {
        AfterGroup(run, stop);
        out := out + [run[stop]];
      }
      group := stop + 1;
    }
  }

  lemma RunStarts(run: string)
    requires IsRun(run)
    ensures |run| > 0 && IsDigit(run[0]) && ScrubRun(run) == "" + ScrubGroups(run, 0)
  {
  }

  lemma StretchEnds(run: string, g: nat, stop: nat)
    requires g < |run| && stop == (if Longest(run, g, |run|) != 0 then Longest(run, g, |run|) else GroupEnd(run, g))
    ensures g <= stop <= |run| && (stop < |run| ==> !IsDigit(run[stop]))
  {
  }

  lemma ScrubGroupsStep(run: string, g: nat, stop: nat, piece: string, out: string)
    requires g < |run| && g <= stop <= |run|
    requires var e := Longest(run, g, |run|);
             stop == (if e != 0 then e else GroupEnd(run, g)) && piece == (if e != 0 then LABEL else run[g..stop])
    ensures out + ScrubGroups(run, g) ==
            if stop < |run| then out + piece + [run[stop]] + ScrubGroups(run, stop + 1) else out + piece
  {
    hide Longest, GroupEnd, CardStretch, LABEL, Digits, IsCard, ScrubGroups;
    ScrubGroupsUnfold(run, g, stop, piece);
    if stop < |run| {
      Reassociate(out, piece, [run[stop]], ScrubGroups(run, stop + 1));
    } else {
      assert piece + "" == piece;
    }
  }

  lemma ScrubGroupsUnfold(run: string, g: nat, stop: nat, piece: string)
    requires g < |run| && g <= stop <= |run|
    requires var e := Longest(run, g, |run|);
             stop == (if e != 0 then e else GroupEnd(run, g)) && piece == (if e != 0 then LABEL else run[g..stop])
    ensures ScrubGroups(run, g) == piece + (if stop < |run| then [run[stop]] + ScrubGroups(run, stop + 1) else "")
  {
    hide Longest, GroupEnd, CardStretch, LABEL, Digits, IsCard;
  }

  lemma Reassociate(a: string, b: string, c: string, d: string)
    ensures a + (b + (c + d)) == a + b + c + d
  {
  }

  /** src/pii_scrubber.c's scan: exactly the successive leftmost matches of the pattern, each
      rewritten by the groups rule, everything else kept. */
  method Scrub(s: string) returns (out: string)
    ensures out == Rewrite(CARD_RUN, ScrubRun, s, 0)
  {
    hide Matches, Rewrite, ScrubRun, IsRun, RunText;
    out := "";
    var copied, i := 0, 0;
    ghost var done := "";
    while i < |s|
      invariant copied <= i <= |s|
      invariant done == out + s[copied..i] && Progress(CARD_RUN, ScrubRun, s, i, done)
    {
      if !IsDigit(s[i]) || (i > 0 && IsWord(s[i - 1])) {
        CardRunMatches(s, i);
        ProgressMiss(CARD_RUN, ScrubRun, s, i, done);
        done := done + [s[i]];
        assert s[copied..i + 1] == s[copied..i] + [s[i]];
        i := i + 1;
      } else {
        var end, matched := RunEnd(s, i);
        if matched {
          ProgressHit(CARD_RUN, ScrubRun, s, i, end, done);
          RunTextIsRun(s, i, end);
          var scrubbed := ScrubOneRun(s[i..end]);
          out := out + s[copied..i] + scrubbed;
          done := done + scrubbed;
          copied := end;
        } else {
          SkipDigits(s, i, end, done);
          done := done + s[i..end];
          assert s[copied..end] == s[copied..i] + s[i..end];
        }
        i := end;
      }
    }
    ProgressEnd(CARD_RUN, ScrubRun, s, done);
    out := out + s[copied..];
  }

  /** No match starts inside a run of digits: each of its digits is preceded by another. */
  lemma {:induction false} SkipDigits(s: string, i: nat, end: nat, done: string)
    requires Progress(CARD_RUN, ScrubRun, s, i, done) && Matches(CARD_RUN, s, i).Fail?
    requires i < end <= |s| && forall k :: i <= k < end ==> IsDigit(s[k])
    ensures Progress(CARD_RUN, ScrubRun, s, end, done + s[i..end])
    decreases end - i
  {
    hide Matches, Rewrite;
    ProgressMiss(CARD_RUN, ScrubRun, s, i, done);
    if i + 1 < end {
      CardRunMatches(s, i + 1);
      SkipDigits(s, i + 1, end, done + [s[i]]);
      assert done + [s[i]] + s[i + 1..end] == done + s[i..end];
    } else {
      assert s[i..end] == [s[i]];
    }
  }
}
