/** Scrubbing card numbers twice is scrubbing them once: in what src/pii_scrubber.c's card scrubber
    writes, nothing would be recognised again. */
module CardsAgain {
  import opened Ascii
  import opened Regex
  import opened CardNumber
  import opened Cards

  // ----- The first run of a text, as the scanner finds it -----

  /** The scan for the run's end: `last` is the last separator passed, 0 when there was none. */
  ghost function ScanRun(t: string, end: nat, last: nat): nat
    decreases |t| - end
  {
    if HasAt(Digit, t, end) then ScanRun(t, end + 1, last)
    else if StepEnd(t, end) != 0 then ScanRun(t, end + 2, end)
    else if HasAt(Word, t, end) then last else end
  }

  ghost function FirstRun(t: string): nat { ScanRun(t, 1, 0) }

  ghost function FirstOf(m: Tries): nat { if m.Fail? then 0 else m.end }

  ghost function Shift(m: Tries, i: nat): Tries {
    match m
    case Fail => Fail
    case Try(e, rest) => Try(e + i, Shift(rest, i))
  }

  lemma ShiftOr(a: Tries, b: Tries, i: nat)
    ensures Shift(Or(a, b), i) == Or(Shift(a, i), Shift(b, i))
  {
  }

  /** The ends of a run depend only on the text from where it starts. */
  lemma {:induction false} RunEndsShift(s: string, i: nat, k: nat)
    requires i <= |s|
    ensures RunEnds(s, i + k) == Shift(RunEnds(s[i..], k), i)
    decreases |s| - k
  {
    var t := s[i..];
    assert forall c, x: nat :: HasAt(c, s, i + x) == HasAt(c, t, x);
    assert HasAt(Digit, s, i + (k + 1)) == HasAt(Digit, t, k + 1);
    var e := StepEnd(t, k);
    if e != 0 {
      RunEndsShift(s, i, e);
      ShiftOr(RunEnds(t, e), Try(k, Fail), i);
    }
  }

  lemma {:induction false} ClearShift(s: string, i: nat, m: Tries)
    requires i <= |s|
    ensures Clear(s, Shift(m, i)) == Shift(Clear(s[i..], m), i)
    decreases m
  {
    match m
    case Fail =>
    case Try(e, rest) =>
      assert HasAt(Word, s, e + i) == HasAt(Word, s[i..], e);
      ClearShift(s, i, rest);
  }

  lemma {:induction false} ScanFindsFirst(t: string, end: nat, fallback: Tries)
    requires 0 < end <= |t|
    ensures FirstOf(Or(Clear(t, RunEnds(t, end)), fallback)) == ScanRun(t, end, FirstOf(fallback))
    decreases |t| - end
  {
    GoOn(t, end);
    if HasAt(Digit, t, end) {
      ScanFindsFirst(t, end + 1, fallback);
    } else if StepEnd(t, end) != 0 {
      OrAssociative(Clear(t, RunEnds(t, end + 2)), Try(end, Fail), fallback);
      ScanFindsFirst(t, end + 2, Or(Try(end, Fail), fallback));
    }
  }

  lemma FirstRunIsMatch(s: string, i: nat)
    requires i < |s| && IsDigit(s[i]) && !HasBefore(Word, s, i)
    ensures FirstOf(Matches(CARD_RUN, s, i)) == if FirstRun(s[i..]) == 0 then 0 else i + FirstRun(s[i..])
    ensures Matches(CARD_RUN, s, i).Fail? <==> FirstRun(s[i..]) == 0
  {
    var t := s[i..];
    CardRunMatches(s, i);
    hide Matches, Clear, RunEnds;
    RunEndsShift(s, i, 1);
    ClearShift(s, i, RunEnds(t, 1));
    ScanFindsFirst(t, 1, Fail);
    OrFail(Clear(t, RunEnds(t, 1)));
    FirstNotZero(t, 1);
  }

  lemma {:induction false} FirstNotZero(t: string, end: nat)
    requires 0 < end <= |t|
    ensures Clear(t, RunEnds(t, end)).Try? ==> Clear(t, RunEnds(t, end)).end > 0
    decreases |t| - end
  {
    GoOn(t, end);
    if HasAt(Digit, t, end) {
      FirstNotZero(t, end + 1);
    } else if StepEnd(t, end) != 0 {
      FirstNotZero(t, end + 2);
    }
  }

  // ----- Its shape -----

  /** u goes on with one separator, digits, and then a word character that is not a digit. */
  ghost predicate BadGroup(u: string) {
    |u| > 0 && Has(Separator, u[0]) && BadDigits(u[1..])
  }

  ghost predicate BadDigits(u: string) {
    |u| > 0 && IsDigit(u[0]) && GroupEnd(u, 0) < |u| && IsWord(u[GroupEnd(u, 0)])
  }

  /** What can follow a run that is a match: its end, or nothing that would prolong it, or a last
      group the engine had to give back. */
  ghost predicate Stops(u: string) {
    || u == ""
    || (!IsWord(u[0]) && !(Has(Separator, u[0]) && |u| > 1 && IsDigit(u[1])))
    || BadGroup(u)
  }

  lemma {:induction false} ScanDigits(t: string, end: nat, last: nat)
    requires end <= |t|
    ensures ScanRun(t, end, last) == ScanRun(t, GroupEnd(t, end), last)
    decreases |t| - end
  {
    if HasAt(Digit, t, end) { ScanDigits(t, end + 1, last); }
  }

  /** A run followed by something that stops it is what the scan finds. */
  lemma {:induction false} ScanStops(r: string, u: string, end: nat, last: nat)
    requires IsRun(r) && Stops(u) && 0 < end <= |r| && IsDigit(r[end - 1])
    ensures ScanRun(r + u, end, last) == |r|
    decreases |r| - end
  {
    hide IsRun, Stops;
    var t := r + u;
    if end < |r| {
      assert t[end] == r[end];
      if IsDigit(r[end]) {
        ScanStops(r, u, end + 1, last);
      } else {
        SeparatorAt(r, end);
        assert t[end + 1] == r[end + 1];
        ScanStops(r, u, end + 2, end);
      }
    } else {
      ScanEnds(r, u, last);
    }
  }

  lemma SeparatorAt(run: string, e: nat)
    requires IsRun(run) && e < |run| && !IsDigit(run[e])
    ensures Has(Separator, run[e]) && GroupStart(run, e + 1)
  {
    AfterGroup(run, e);
  }

  ghost predicate GroupStart(run: string, g: nat) { g < |run| && IsDigit(run[g]) }

  lemma ScanEnds(r: string, u: string, last: nat)
    requires Stops(u)
    ensures ScanRun(r + u, |r|, last) == |r|
  {
    hide GroupEnd;
    var t, end := r + u, |r|;
    if u != "" {
      assert t[end] == u[0];
      if BadGroup(u) {
        GivesBackGroup(r, u);
      } else if |u| > 1 {
        assert t[end + 1] == u[1];
      }
    }
  }

  lemma GivesBackGroup(r: string, u: string)
    requires BadGroup(u)
    ensures StepEnd(r + u, |r|) == |r| + 2 && !HasAt(Digit, r + u, |r|) && ScanRun(r + u, |r| + 2, |r|) == |r|
  {
    var t, end := r + u, |r|;
    assert t[end] == u[0] && t[end + 1] == u[1];
    ScanDigits(t, end + 2, end);
    assert u[1..] == t[end + 1..];
    GroupEndShift(t, u[1..], end + 1, 0);
    assert GroupEnd(t, end + 1) == GroupEnd(t, end + 2);
    hide GroupEnd;
    var k := GroupEnd(u[1..], 0);
    assert t[end + 1 + k] == u[1..][k];
  }

  lemma {:induction false} GroupEndShift(t: string, u: string, i: nat, k: nat)
    requires i <= |t| && u == t[i..] && k <= |u|
    ensures GroupEnd(t, i + k) == i + GroupEnd(u, k)
    decreases |u| - k
  {
    if k < |u| && IsDigit(u[k]) { GroupEndShift(t, u, i, k + 1); }
  }

  /** What the scan has passed: a run, and since its last separator only digits. */
  ghost predicate Passed(t: string, end: nat, last: nat) {
    && RunText(t, 0, end) && last < end
    && (forall k :: (if last == 0 then 0 else last + 1) <= k < end ==> IsDigit(t[k]))
    && (last != 0 ==> RunText(t, 0, last) && Has(Separator, t[last]) && last + 1 < end)
  }

  lemma {:induction false} ScanShape(t: string, end: nat, last: nat)
    requires Passed(t, end, last)
    ensures var n := ScanRun(t, end, last);
            if n == 0 then BadDigits(t) else RunText(t, 0, n) && Stops(t[n..])
    decreases |t| - end
  {
    hide Passed, RunText, Stops, BadDigits;
    PassOn(t, end, last);
    if HasAt(Digit, t, end) {
      ScanShape(t, end + 1, last);
    } else if StepEnd(t, end) != 0 {
      ScanShape(t, end + 2, end);
    } else if HasAt(Word, t, end) {
      GivenBack(t, end, last);
    } else {
      StopsHere(t, end);
    }
  }

  lemma PassOn(t: string, end: nat, last: nat)
    requires Passed(t, end, last)
    ensures 0 < end <= |t| && last < end && RunText(t, 0, end) && (last != 0 ==> RunText(t, 0, last))
    ensures HasAt(Digit, t, end) ==> Passed(t, end + 1, last)
    ensures !HasAt(Digit, t, end) && StepEnd(t, end) != 0 ==> Passed(t, end + 2, end)
  {
  }

  lemma StopsHere(t: string, end: nat)
    requires end <= |t| && StepEnd(t, end) == 0 && !HasAt(Word, t, end)
    ensures Stops(t[end..])
  {
    var u := t[end..];
    if |u| > 1 { assert u[0] == t[end] && u[1] == t[end + 1]; }
  }

  lemma GivenBack(t: string, end: nat, last: nat)
    requires Passed(t, end, last) && end < |t| && IsWord(t[end]) && !IsDigit(t[end])
    ensures if last == 0 then BadDigits(t) else Stops(t[last..])
  {
    if last != 0 {
      var u := t[last..];
      assert u[1..] == t[last + 1..];
      GroupEndShift(t, u[1..], last + 1, 0);
      assert u[1..][end - last - 1] == t[end];
    }
  }

  lemma FirstRunShape(t: string)
    requires |t| > 0 && IsDigit(t[0])
    ensures var n := FirstRun(t);
            if n == 0 then BadDigits(t) else n <= |t| && IsRun(t[..n]) && Stops(t[n..])
  {
    ScanShape(t, 1, 0);
    var n := FirstRun(t);
    if n != 0 { RunTextIsRun(t, 0, n); }
  }

  lemma BadDigitsHaveNoRun(t: string)
    requires BadDigits(t)
    ensures FirstRun(t) == 0
  {
    ScanDigits(t, 1, 0);
    assert GroupEnd(t, 0) == GroupEnd(t, 1);
  }

  // ----- The scan over the text that is left -----

  /** The scrubbed text; `after` says whether a word character stands just before t. */
  ghost function Scan(after: bool, t: string): string
    decreases |t|
  {
    if t == "" then ""
    else
      var n := if after || !IsDigit(t[0]) then 0 else FirstRun(t);
      if n == 0 || n > |t| then [t[0]] + Scan(IsWord(t[0]), t[1..])
      else ScrubRun(t[..n]) + Scan(true, t[n..])
  }

  lemma {:induction false} RewriteIsScan(s: string, i: nat)
    requires i <= |s|
    ensures Rewrite(CARD_RUN, ScrubRun, s, i) == Scan(HasBefore(Word, s, i), s[i..])
    decreases |s| - i
  {
    hide Matches, FirstRun, ScrubRun;
    if i < |s| {
      var t := s[i..];
      var m := Matches(CARD_RUN, s, i);
      if HasBefore(Word, s, i) || !IsDigit(s[i]) {
        CardRunMatches(s, i);
      } else {
        FirstRunIsMatch(s, i);
        FirstRunShape(t);
      }
      if m.Fail? {
        RewriteIsScan(s, i + 1);
        assert t[1..] == s[i + 1..];
      } else {
        RunEndsInDigit(t);
        RewriteIsScan(s, m.end);
        assert t[..m.end - i] == s[i..m.end] && t[m.end - i..] == s[m.end..];
      }
    }
  }

  lemma RunEndsInDigit(t: string)
    requires |t| > 0 && IsDigit(t[0]) && FirstRun(t) != 0
    ensures 0 < FirstRun(t) <= |t| && IsDigit(t[FirstRun(t) - 1])
  {
    FirstRunShape(t);
    var r := t[..FirstRun(t)];
    assert r[|r| - 1] == t[FirstRun(t) - 1];
  }

  // ----- Scanning what the scan has written -----

  /** Text without digits is copied. */
  lemma {:induction false} ScanCopies(after: bool, a: string, b: string)
    requires a != "" && forall k :: 0 <= k < |a| ==> !IsDigit(a[k])
    ensures Scan(after, a + b) == a + Scan(IsWord(a[|a| - 1]), b)
    decreases |a|
  {
    hide FirstRun, ScrubRun;
    var t := a + b;
    assert t[1..] == a[1..] + b;
    if |a| == 1 {
      assert a[1..] + b == b;
      assert a == [a[0]];
    } else {
      ScanCopies(IsWord(a[0]), a[1..], b);
      assert [a[0]] + (a[1..] + Scan(IsWord(a[|a| - 1]), b)) == a + Scan(IsWord(a[|a| - 1]), b);
    }
  }

  /** So is everything up to the end of a word whose first character is already behind. */
  lemma {:induction false} ScanCopiesWord(t: string, m: nat)
    requires m <= |t| && forall k :: 0 <= k < m ==> IsWord(t[k])
    ensures Scan(true, t) == t[..m] + Scan(true, t[m..])
    decreases m
  {
    hide FirstRun, ScrubRun;
    if m == 0 {
      assert t[0..] == t && t[..0] == "";
    } else {
      ScanCopiesWord(t[1..], m - 1);
      assert t[1..][m - 1..] == t[m..];
      assert t[..m] == [t[0]] + t[1..][..m - 1];
    }
  }

  /** Digits that run into a word are copied, and still run into it. */
  lemma BadDigitsStay(t: string)
    requires BadDigits(t)
    ensures BadDigits(Scan(false, t))
    ensures Scan(false, t) == [t[0]] + Scan(true, t[1..])
  {
    hide FirstRun, ScrubRun, GroupEnd;
    BadDigitsHaveNoRun(t);
    var m := GroupEnd(t, 0);
    assert Scan(false, t) == [t[0]] + Scan(true, t[1..]);
    hide Scan;
    forall k | 0 <= k < m ensures IsWord(t[1..][k]) {
      assert t[1..][k] == t[k + 1];
    }
    ScanCopiesWord(t[1..], m);
    StillBad(t, m, Scan(true, t[1..][m..]));
  }

  lemma StillBad(t: string, m: nat, rest: string)
    requires BadDigits(t) && m == GroupEnd(t, 0)
    ensures BadDigits([t[0]] + (t[1..][..m] + rest))
  {
    hide GroupEnd;
    var out := [t[0]] + (t[1..][..m] + rest);
    assert out[0] == t[0] && forall k :: 0 < k <= m ==> out[k] == t[1..][k - 1] == t[k];
  }

  /** What stopped a run still stops it once it has been scrubbed. */
  lemma StopsStays(u: string)
    requires Stops(u)
    ensures Stops(Scan(true, u))
  {
    hide FirstRun, ScrubRun;
    if u != "" {
      var rest := Scan(false, u[1..]);
      assert Scan(true, u) == [u[0]] + rest;
      if BadGroup(u) {
        BadDigitsStay(u[1..]);
        assert ([u[0]] + rest)[1..] == rest;
      } else if |u| > 1 && !IsDigit(u[1]) {
        assert u[1..][0] == u[1];
        assert rest[0] == u[1];
      }
    }
  }

  /** The groups kept one after another from g on end here. */
  ghost function KeptEnd(run: string, g: nat): (k: nat)
    requires g < |run|
    ensures g <= k <= |run|
    decreases |run| - g
  {
    var stop := GroupEnd(run, g);
    if stop + 1 >= |run| || Longest(run, stop + 1, |run|) != 0 then stop else KeptEnd(run, stop + 1)
  }

  lemma KeepGroup(run: string, g: nat)
    requires g < |run| && Longest(run, g, |run|) == 0
    ensures var stop := GroupEnd(run, g);
            ScrubGroups(run, g) ==
            run[g..stop] + (if stop < |run| then [run[stop]] + ScrubGroups(run, stop + 1) else "")
  {
    hide Longest, GroupEnd, CardStretch, LABEL, Digits, IsCard, ScrubGroups;
    ScrubGroupsUnfold(run, g, GroupEnd(run, g), run[g..GroupEnd(run, g)]);
  }

  lemma JoinGroups(run: string, g: nat, stop: nat, k: nat, rest: string)
    requires g <= stop < k <= |run|
    ensures run[g..stop] + ([run[stop]] + (run[stop + 1..k] + rest)) == run[g..k] + rest
    ensures run[g..stop] + ([run[stop]] + run[stop + 1..k]) == run[g..k]
  {
  }

  /** From g to k the groups are kept, and at k + 1 a card number starts. */
  ghost predicate Kept(run: string, g: nat, k: nat) {
    && g < k <= |run| && (k < |run| ==> !IsDigit(run[k]) && GroupStart(run, k + 1) && Longest(run, k + 1, |run|) != 0)
    && ScrubGroups(run, g) == run[g..k] + (if k < |run| then [run[k]] + ScrubGroups(run, k + 1) else "")
  }

  lemma KeepOneMore(run: string, g: nat, stop: nat, k: nat)
    requires g < stop < |run| && stop == GroupEnd(run, g) && Longest(run, g, |run|) == 0 && Kept(run, stop + 1, k)
    ensures Kept(run, g, k)
  {
    hide Longest, GroupEnd, CardStretch, ScrubGroups, Digits, IsCard;
    KeepGroup(run, g);
    JoinGroups(run, g, stop, k, if k < |run| then [run[k]] + ScrubGroups(run, k + 1) else "");
  }

  lemma KeepLast(run: string, g: nat, stop: nat)
    requires g < stop <= |run| && stop == GroupEnd(run, g) && Longest(run, g, |run|) == 0
    requires stop < |run| ==> GroupStart(run, stop + 1) && Longest(run, stop + 1, |run|) != 0
    ensures Kept(run, g, stop)
  {
    hide Longest, GroupEnd, CardStretch, ScrubGroups, Digits, IsCard;
    KeepGroup(run, g);
  }

  lemma {:induction false} KeptText(run: string, g: nat)
    requires IsRun(run) && GroupStart(run, g) && Longest(run, g, |run|) == 0
    ensures Kept(run, g, KeptEnd(run, g))
    decreases |run| - g
  {
    hide Longest, CardStretch, ScrubGroups, IsRun, Kept, Digits, IsCard;
    var stop := GroupEnd(run, g);
    if stop < |run| { AfterGroup(run, stop); }
    if stop + 1 >= |run| || Longest(run, stop + 1, |run|) != 0 {
      KeepLast(run, g, stop);
    } else {
      KeptText(run, stop + 1);
      KeepOneMore(run, g, stop, KeptEnd(run, g));
    }
  }

  /** Taken by themselves, the kept groups are kept. */
  lemma {:induction false} KeptIsClean(run: string, g: nat, j: nat)
    requires IsRun(run) && g <= j && GroupStart(run, j) && Longest(run, j, |run|) == 0
    ensures var k := KeptEnd(run, j); ScrubGroups(run[g..k], j - g) == run[j..k]
    decreases |run| - j
  {
    hide Longest, CardStretch, ScrubGroups, IsRun, GroupEnd, Digits, IsCard;
    var k, stop := KeptEnd(run, j), GroupEnd(run, j);
    KeptText(run, j);
    CleanStep(run, g, j, k);
    if stop < k {
      AfterGroup(run, stop);
      KeptIsClean(run, g, stop + 1);
      JoinGroups(run, j, stop, k, "");
    }
  }

  lemma CleanStep(run: string, g: nat, j: nat, k: nat)
    requires g <= j < k <= |run| && (k == |run| || !IsDigit(run[k])) && Longest(run, j, |run|) == 0
    requires GroupEnd(run, j) <= k
    ensures var stop := GroupEnd(run, j);
            ScrubGroups(run[g..k], j - g) ==
            run[j..stop] + (if stop < k then [run[stop]] + ScrubGroups(run[g..k], stop + 1 - g) else "")
  {
    hide Longest, CardStretch, ScrubGroups, GroupEnd, Digits, IsCard;
    NoStretchInside(run, g, j, k);
    GroupEndInside(run, g, j, k);
    KeepGroup(run[g..k], j - g);
    SliceOfSlice(run, g, k, j - g, GroupEnd(run, j) - g);
  }

  lemma SliceOfSlice(s: string, a: nat, b: nat, c: nat, d: nat)
    requires a <= b <= |s| && c <= d <= b - a
    ensures s[a..b][c..d] == s[a + c..a + d]
  {
    forall i | 0 <= i < d - c ensures s[a..b][c..d][i] == s[a + c..a + d][i] {
      assert s[a..b][c..d][i] == s[a..b][c + i] == s[a + c + i];
    }
  }

  lemma NoStretchInside(run: string, g: nat, j: nat, k: nat)
    requires g <= j < k <= |run| && (k == |run| || !IsDigit(run[k])) && Longest(run, j, |run|) == 0
    ensures Longest(run[g..k], j - g, k - g) == 0
  {
    hide Longest, CardStretch;
    var e := Longest(run[g..k], j - g, k - g);
    if e != 0 {
      StretchOutside(run, g, j, k, e);
      assert false;
    }
  }

  lemma StretchOutside(run: string, g: nat, j: nat, k: nat, e: nat)
    requires g <= j < k <= |run| && (k == |run| || !IsDigit(run[k])) && CardStretch(run[g..k], j - g, e)
    ensures g + e <= |run| && CardStretch(run, j, g + e)
  {
    hide Digits, IsCard;
    SliceOfSlice(run, g, k, j - g, e);
    assert e < k - g ==> run[g..k][e] == run[g + e];
  }

  lemma {:induction false} GroupEndInside(run: string, g: nat, j: nat, k: nat)
    requires g <= j <= k <= |run| && GroupEnd(run, j) <= k
    ensures GroupEnd(run[g..k], j - g) == GroupEnd(run, j) - g
    decreases k - j
  {
    if j < k {
      assert run[g..k][j - g] == run[j];
      if IsDigit(run[j]) { GroupEndInside(run, g, j + 1, k); }
    }
  }

  lemma KeptIsRun(run: string, g: nat, k: nat)
    requires IsRun(run) && GroupStart(run, g) && g < k <= |run| && (k < |run| ==> !IsDigit(run[k]))
    ensures IsRun(run[g..k])
  {
    assert IsDigit(run[k - 1]);
    RunTextIsRun(run, g, k);
  }

  lemma FirstRunIs(r: string, u: string)
    requires IsRun(r) && Stops(u)
    ensures FirstRun(r + u) == |r| && |r| > 0 && IsDigit((r + u)[0])
  {
    ScanStops(r, u, 1, 0);
  }

  /** A run that is kept whole, followed by something that stops it, is scanned as it is. */
  lemma ScanKeeps(r: string, u: string)
    requires IsRun(r) && Stops(u) && ScrubRun(r) == r
    ensures Scan(false, r + u) == r + Scan(true, u)
  {
    hide FirstRun, ScrubRun, IsRun, Stops;
    FirstRunIs(r, u);
    assert (r + u)[..|r|] == r && (r + u)[|r|..] == u;
  }

  lemma LabelIsPlain()
    ensures LABEL != "" && (forall k :: 0 <= k < |LABEL| ==> !IsDigit(LABEL[k]))
    ensures LABEL[0] == '[' && LABEL[|LABEL| - 1] == ']'
  {
  }

  lemma StopsIsNoDigit(v: string)
    requires Stops(v)
    ensures Scan(false, v) == Scan(true, v)
  {
    hide FirstRun, ScrubRun;
  }

  /** After a card number was replaced: the label and the separator are copied. */
  lemma ScanLabel(sep: char, rest: string)
    requires Has(Separator, sep)
    ensures Scan(false, LABEL + ([sep] + rest)) == LABEL + ([sep] + Scan(false, rest))
  {
    LabelIsPlain();
    hide FirstRun, ScrubRun, LABEL, Scan;
    ScanCopies(false, LABEL, [sep] + rest);
    ScanCopies(false, [sep], rest);
  }

  lemma ReplaceStep(run: string, g: nat)
    requires g < |run| && Longest(run, g, |run|) != 0
    ensures var e := Longest(run, g, |run|);
            ScrubGroups(run, g) == LABEL + (if e < |run| then [run[e]] + ScrubGroups(run, e + 1) else "")
  {
    hide Longest, GroupEnd, LABEL, Digits, IsCard, ScrubGroups;
    ScrubGroupsUnfold(run, g, Longest(run, g, |run|), LABEL);
  }

  lemma StopsBeforeLabel(sep: char, rest: string, v: string)
    requires Has(Separator, sep)
    ensures Stops([sep] + ((LABEL + rest) + v))
  {
    var u := [sep] + ((LABEL + rest) + v);
    assert u[0] == sep && u[1] == LABEL[0];
  }

  /** Scanning a scrubbed run again changes nothing. */
  lemma {:induction false} ScanScrubbed(run: string, g: nat, v: string)
    requires IsRun(run) && GroupStart(run, g) && Stops(v)
    ensures Scan(false, ScrubGroups(run, g) + v) == ScrubGroups(run, g) + Scan(true, v)
    decreases |run| - g, 1
  {
    hide IsRun, Stops, Scan, ScrubGroups, Longest, CardStretch;
    if Longest(run, g, |run|) != 0 { ScanReplaced(run, g, v); } else { ScanKept(run, g, v); }
  }

  lemma {:induction false} ScanReplaced(run: string, g: nat, v: string)
    requires IsRun(run) && GroupStart(run, g) && Stops(v) && Longest(run, g, |run|) != 0
    ensures Scan(false, ScrubGroups(run, g) + v) == ScrubGroups(run, g) + Scan(true, v)
    decreases |run| - g, 0
  {
    var e := Longest(run, g, |run|);
    StretchEnds(run, g, e);
    ReplaceStep(run, g);
    hide IsRun, Stops, Scan, ScrubGroups, Longest, CardStretch, GroupEnd, LABEL;
    if e == |run| {
      LabelIsPlain();
      assert ScrubGroups(run, g) == LABEL;
      ScanCopies(false, LABEL, v);
      StopsIsNoDigit(v);
    } else {
      var rest := ScrubGroups(run, e + 1);
      SeparatorAt(run, e);
      ScanScrubbed(run, e + 1, v);
      ScanLabel(run[e], rest + v);
      Regroup(LABEL, [run[e]], rest, v);
      Regroup(LABEL, [run[e]], rest, Scan(true, v));
    }
  }

  lemma Regroup(a: string, b: string, c: string, d: string)
    ensures a + (b + c) + d == a + (b + (c + d))
  {
  }

  lemma {:induction false} ScanKept(run: string, g: nat, v: string)
    requires IsRun(run) && GroupStart(run, g) && Stops(v) && Longest(run, g, |run|) == 0
    ensures Scan(false, ScrubGroups(run, g) + v) == ScrubGroups(run, g) + Scan(true, v)
    decreases |run| - g, 0
  {
    hide IsRun, Stops, Scan, ScrubGroups, Longest, CardStretch, GroupEnd, LABEL, KeptEnd;
    var k := KeptEnd(run, g);
    KeptText(run, g);
    KeptIsClean(run, g, g);
    KeptIsRun(run, g, k);
    var r := run[g..k];
    if k == |run| {
      assert ScrubGroups(run, g) == r;
      ScanKeeps(r, v);
    } else {
      var rest := ScrubGroups(run, k + 1);
      SeparatorAt(run, k);
      ScanBeforeCard(run, k, v);
      ScanKeeps(r, [run[k]] + (rest + v));
      Regroup(r, [run[k]], rest, v);
      Regroup(r, [run[k]], rest, Scan(true, v));
    }
  }

  lemma {:induction false} ScanBeforeCard(run: string, k: nat, v: string)
    requires IsRun(run) && k < |run| && Has(Separator, run[k]) && GroupStart(run, k + 1) && Stops(v)
    requires Longest(run, k + 1, |run|) != 0
    ensures Stops([run[k]] + (ScrubGroups(run, k + 1) + v))
    ensures Scan(true, [run[k]] + (ScrubGroups(run, k + 1) + v)) == [run[k]] + (ScrubGroups(run, k + 1) + Scan(true, v))
    decreases |run| - k - 1, 2
  {
    hide IsRun, Stops, Scan, ScrubGroups, Longest, CardStretch, GroupEnd, LABEL;
    var e := Longest(run, k + 1, |run|);
    ReplaceStep(run, k + 1);
    StopsBeforeLabel(run[k], if e < |run| then [run[e]] + ScrubGroups(run, e + 1) else "", v);
    ScanScrubbed(run, k + 1, v);
    ScanCopies(true, [run[k]], ScrubGroups(run, k + 1) + v);
  }

  lemma {:induction false} ScanAgain(after: bool, t: string)
    ensures Scan(after, Scan(after, t)) == Scan(after, t)
    decreases |t|
  {
    hide FirstRun, ScrubRun, IsRun, Stops, BadDigits;
    if t != "" {
      if after || !IsDigit(t[0]) {
        ScanAgain(IsWord(t[0]), t[1..]);
        assert ([t[0]] + Scan(IsWord(t[0]), t[1..]))[1..] == Scan(IsWord(t[0]), t[1..]);
      } else {
        FirstRunShape(t);
        if FirstRun(t) == 0 { ScanBadAgain(t); } else { ScanRunAgain(t); }
      }
    }
  }

  lemma {:induction false} ScanBadAgain(t: string)
    requires BadDigits(t)
    ensures Scan(false, Scan(false, t)) == Scan(false, t)
    decreases |t|, 0
  {
    hide FirstRun, ScrubRun;
    BadDigitsStay(t);
    var out := Scan(false, t);
    BadDigitsStay(out);
    ScanAgain(true, t[1..]);
    assert out[1..] == Scan(true, t[1..]);
  }

  lemma {:induction false} ScanRunAgain(t: string)
    requires |t| > 0 && IsDigit(t[0])
    requires var n := FirstRun(t); 0 < n <= |t| && IsRun(t[..n]) && Stops(t[n..])
    ensures Scan(false, Scan(false, t)) == Scan(false, t)
    decreases |t|, 0
  {
    var n := FirstRun(t);
    var r, u := t[..n], t[n..];
    assert Scan(false, t) == ScrubRun(r) + Scan(true, u);
    hide FirstRun, IsRun, Stops, Scan, ScrubGroups;
    StopsStays(u);
    RunStarts(r);
    ScanScrubbed(r, 0, Scan(true, u));
    ScanAgain(true, u);
  }

  /** Card scrubbing is idempotent, on every text. */
  lemma ScrubIdempotent(s: string)
    ensures var once := Rewrite(CARD_RUN, ScrubRun, s, 0); Rewrite(CARD_RUN, ScrubRun, once, 0) == once
  {
    hide Rewrite, Scan, ScrubRun;
    var once := Rewrite(CARD_RUN, ScrubRun, s, 0);
    RewriteIsScan(s, 0);
    RewriteIsScan(once, 0);
    ScanAgain(false, s);
    assert s[0..] == s && once[0..] == once;
  }
}
