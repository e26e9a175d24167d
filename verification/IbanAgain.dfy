/** Scrubbing IBANs twice does no more than scrubbing them once (src/pii_scrubber.c). */
module IbanAgain {
  import opened Ascii
  import opened Regex
  import opened RegexShift
  import opened Iban

  // ----- A label further on -----

  /** s' is s up to j, where s' has the "[" of a label and no word comes before. */
  ghost predicate LabelAt(s: string, s': string, j: nat) {
    && 0 < j < |s| && j < |s'| && s[..j] == s'[..j] && s'[j] == '[' && !IsWord(s[j - 1])
  }

  lemma SameBefore(s: string, s': string, j: nat, k: nat)
    requires LabelAt(s, s', j) && k < j
    ensures s[k] == s'[k]
  {
    assert s[k] == s[..j][k] && s'[k] == s'[..j][k];
  }

  /** The ends before j. */
  ghost function Below(m: Tries, j: nat): Tries {
    match m
    case Fail => Fail
    case Try(e, rest) => if e < j then Try(e, Below(rest, j)) else Below(rest, j)
  }

  lemma BelowOr(a: Tries, b: Tries, j: nat)
    ensures Below(Or(a, b), j) == Or(Below(a, j), Below(b, j))
  {
  }

  lemma HeaderSame(s: string, s': string, j: nat, i: nat)
    requires LabelAt(s, s', j) && i < j
    ensures Header(s, i) == Header(s', i) && (Header(s, i) ==> i + 4 < j)
  {
    hide LabelAt;
    SameBefore(s, s', j, i);
    if i > 0 { SameBefore(s, s', j, i - 1); }
    NoWordThere(s, s', j);
    if i + 1 < j { SameBefore(s, s', j, i + 1); }
    if i + 2 < j { SameBefore(s, s', j, i + 2); }
    if i + 3 < j { SameBefore(s, s', j, i + 3); }
  }

  lemma NoWordThere(s: string, s': string, j: nat)
    requires LabelAt(s, s', j)
    ensures 0 < j < |s| && j < |s'| && s'[j] == '[' && s[j - 1] == s'[j - 1] && !IsWord(s[j - 1])
  {
    SameBefore(s, s', j, j - 1);
  }

  lemma {:induction false} RunSame(s: string, s': string, j: nat, i: nat, max: nat)
    requires LabelAt(s, s', j) && i < j
    ensures RunLength(s, i, max) == RunLength(s', i, max) && i + RunLength(s, i, max) < j
    decreases max
  {
    hide LabelAt;
    NoWordThere(s, s', j);
    SameBefore(s, s', j, i);
    if max > 0 && HasAt(UpperOrDigit, s, i) { RunSame(s, s', j, i + 1, max - 1); }
  }

  lemma GroupSame(s: string, s': string, j: nat, i: nat)
    requires LabelAt(s, s', j) && i < j
    ensures IsGroup(s', i) <==> IsGroup(s, i) && i + 5 < j
    ensures IsGroup(s, i) ==> i + 5 < j || i == j - 1
  {
    hide LabelAt;
    NoWordThere(s, s', j);
    forall k | i <= k < j ensures s[k] == s'[k] { SameBefore(s, s', j, k); }
    if i + 5 >= j {
      assert i < j - 1 ==> !Has(UpperOrDigit, s[j - 1]);
      assert !Has(UpperOrDigit, s'[j]);
    }
  }

  /** The groups before the label; where there were more, the first of them took the space before it. */
  lemma {:induction false} GroupsCut(s: string, s': string, j: nat, i: nat, max: nat)
    requires LabelAt(s, s', j) && i < j
    ensures var g, g' := GroupCount(s, i, max), GroupCount(s', i, max);
            i + 5 * g' < j && g' <= g && (g' < g ==> i + 5 * g' == j - 1)
    decreases max
  {
    hide LabelAt, IsGroup;
    GroupSame(s, s', j, i);
    if max > 0 && IsGroup(s', i) { GroupsCut(s, s', j, i + 5, max - 1); }
  }

  lemma {:induction false} DescentBelow(i: nat, low: nat, high: nat, j: nat)
    requires i + high < j
    ensures Below(Descent(i, 1, low, high), j) == Descent(i, 1, low, high)
    decreases high
  {
    if high >= low && high > 0 { DescentBelow(i, low, high - 1, j); }
  }

  lemma {:induction false} DescentAbove(i: nat, low: nat, high: nat, j: nat)
    requires i + low >= j
    ensures Below(Descent(i, 1, low, high), j) == Fail
    decreases high
  {
    if high >= low && high > 0 { DescentAbove(i, low, high - 1, j); }
  }

  lemma TailSame(s: string, s': string, j: nat, i: nat)
    requires LabelAt(s, s', j) && i < j
    ensures TailEnds(s', i) == Below(TailEnds(s, i), j)
  {
    hide LabelAt, Descent, RunLength;
    NoWordThere(s, s', j);
    SameBefore(s, s', j, i);
    var n := RunLength(s, i + 1, 4);
    var tails := if HasAt(Only(' '), s, i) then Descent(i + 1, 1, 1, n) else Fail;
    BelowOr(tails, Try(i, Fail), j);
    if i + 1 < j {
      RunSame(s, s', j, i + 1, 4);
      DescentBelow(i + 1, 1, n, j);
    } else {
      DescentAbove(i + 1, 1, n, j);
      NoTail(s', i);
    }
  }

  lemma NoTail(s: string, i: nat)
    requires i + 1 < |s| && s[i + 1] == '['
    ensures Descent(i + 1, 1, 1, RunLength(s, i + 1, 4)) == Fail
  {
  }

  lemma TailAbove(s: string, i: nat, j: nat)
    requires i >= j
    ensures Below(TailEnds(s, i), j) == Fail
  {
    hide Descent, RunLength;
    var n := RunLength(s, i + 1, 4);
    DescentAbove(i + 1, 1, n, j);
    BelowOr(if HasAt(Only(' '), s, i) then Descent(i + 1, 1, 1, n) else Fail, Try(i, Fail), j);
  }

  lemma {:induction false} GroupedSame(s: string, s': string, j: nat, i: nat, g: nat)
    requires LabelAt(s, s', j) && i + 5 * g < j
    ensures GroupedEnds(s', i, g) == Below(GroupedEnds(s, i, g), j)
  {
    hide LabelAt, TailEnds;
    if g >= 2 {
      TailSame(s, s', j, i + 5 * g);
      GroupedSame(s, s', j, i, g - 1);
      BelowOr(TailEnds(s, i + 5 * g), GroupedEnds(s, i, g - 1), j);
    }
  }

  lemma {:induction false} GroupedAbove(s: string, j: nat, i: nat, low: nat, g: nat)
    requires low <= g && i + 5 * low == j - 1
    ensures Below(GroupedEnds(s, i, g), j) == Below(GroupedEnds(s, i, low), j)
    decreases g
  {
    hide TailEnds;
    if low < g && g >= 2 {
      TailAbove(s, i + 5 * g, j);
      GroupedAbove(s, j, i, low, g - 1);
      BelowOr(TailEnds(s, i + 5 * g), GroupedEnds(s, i, g - 1), j);
    }
  }

  lemma BodySame(s: string, s': string, j: nat, i: nat)
    requires LabelAt(s, s', j) && i < j
    ensures BodyEnds(s', i) == Below(BodyEnds(s, i), j)
  {
    hide LabelAt, GroupedEnds, Descent, RunLength, GroupCount;
    var n, g, g' := RunLength(s, i, 30), GroupCount(s, i, 7), GroupCount(s', i, 7);
    RunSame(s, s', j, i, 30);
    DescentBelow(i, 11, n, j);
    GroupsCut(s, s', j, i, 7);
    GroupedSame(s, s', j, i, g');
    if g' < g { GroupedAbove(s, j, i, g', g); }
    BelowOr(Descent(i, 1, 11, n), GroupedEnds(s, i, g), j);
  }

  lemma {:induction false} BoundarySame(s: string, s': string, j: nat, m: Tries)
    requires LabelAt(s, s', j)
    ensures AtBoundary(s', Below(m, j)) == Below(AtBoundary(s, m), j)
    decreases m
  {
    hide LabelAt;
    if m.Try? {
      BoundarySame(s, s', j, m.rest);
      if m.end < j {
        NoWordThere(s, s', j);
        SameBefore(s, s', j, m.end);
        if m.end > 0 { SameBefore(s, s', j, m.end - 1); }
      }
    }
  }

  /** With a label at j, the engine tries before it what it tried before, as far as that ended before j. */
  lemma MatchesBelow(s: string, s': string, j: nat, i: nat)
    requires LabelAt(s, s', j) && i < j
    ensures Matches(IBAN_PATTERN, s', i) == Below(Matches(IBAN_PATTERN, s, i), j)
  {
    hide LabelAt, Matches, Header, BodyEnds;
    PatternMatches(s, i);
    PatternMatches(s', i);
    HeaderSame(s, s', j, i);
    if Header(s, i) {
      BodySame(s, s', j, i + 4);
      BoundarySame(s, s', j, BodyEnds(s, i + 4));
    }
  }

  // ----- Where a match ends -----

  /** Every end is past i, and just past a word character. */
  ghost predicate EndsWell(s: string, m: Tries, i: nat) {
    m.Try? ==> i < m.end <= |s| && IsWord(s[m.end - 1]) && EndsWell(s, m.rest, i)
  }

  lemma EndsWellOr(s: string, a: Tries, b: Tries, i: nat)
    requires EndsWell(s, a, i) && EndsWell(s, b, i)
    ensures EndsWell(s, Or(a, b), i)
  {
  }

  lemma EndsWellAtBoundary(s: string, m: Tries, i: nat)
    requires EndsWell(s, m, i)
    ensures EndsWell(s, AtBoundary(s, m), i)
  {
  }

  lemma {:induction false} DescentEndsWell(s: string, i: nat, low: nat, high: nat, from: nat)
    requires low > 0 && from <= i && forall k :: i <= k < i + high ==> HasAt(UpperOrDigit, s, k)
    ensures EndsWell(s, Descent(i, 1, low, high), from)
    decreases high
  {
    if high >= low {
      assert HasAt(UpperOrDigit, s, i + high - 1);
      DescentEndsWell(s, i, low, high - 1, from);
    }
  }

  lemma {:induction false} GroupAt(s: string, i: nat, max: nat, h: nat)
    requires h < GroupCount(s, i, max)
    ensures IsGroup(s, i + 5 * h)
    decreases h
  {
    if h > 0 { GroupAt(s, i + 5, max - 1, h - 1); }
  }

  lemma {:induction false} GroupedEndsWell(s: string, i: nat, g: nat)
    requires g <= GroupCount(s, i, 7)
    ensures EndsWell(s, GroupedEnds(s, i, g), i)
    decreases g
  {
    hide IsGroup, GroupCount, RunLength, Descent;
    if g >= 2 {
      var q := i + 5 * g;
      GroupAt(s, i, 7, g - 1);
      GroupEndsWell(s, i, q);
      DescentEndsWell(s, q + 1, 1, RunLength(s, q + 1, 4), i);
      var tails := if HasAt(Only(' '), s, q) then Descent(q + 1, 1, 1, RunLength(s, q + 1, 4)) else Fail;
      EndsWellOr(s, tails, Try(q, Fail), i);
      GroupedEndsWell(s, i, g - 1);
      EndsWellOr(s, TailEnds(s, q), GroupedEnds(s, i, g - 1), i);
    }
  }

  lemma GroupEndsWell(s: string, i: nat, q: nat)
    requires q >= i + 5 && IsGroup(s, q - 5)
    ensures EndsWell(s, Try(q, Fail), i)
  {
    assert Has(UpperOrDigit, s[q - 1]);
  }

  lemma MatchEndsWell(s: string, i: nat)
    ensures EndsWell(s, Matches(IBAN_PATTERN, s, i), i)
  {
    hide Matches, Header, RunLength, GroupCount, Descent, GroupedEnds;
    PatternMatches(s, i);
    if Header(s, i) {
      var r := i + 4;
      DescentEndsWell(s, r, 11, RunLength(s, r, 30), r);
      GroupedEndsWell(s, r, GroupCount(s, r, 7));
      EndsWellOr(s, Descent(r, 1, 11, RunLength(s, r, 30)), GroupedEnds(s, r, GroupCount(s, r, 7)), r);
      EndsWellAtBoundary(s, BodyEnds(s, r), r);
      hide BodyEnds, AtBoundary;
      EndsWellSooner(s, AtBoundary(s, BodyEnds(s, r)), r, i);
    }
  }

  lemma EndsWellSooner(s: string, m: Tries, i: nat, i': nat)
    requires EndsWell(s, m, i) && i' <= i
    ensures EndsWell(s, m, i')
  {
  }

  /** The engine's match starts where no word goes on, ends just past a word character, and no word
      character follows. */
  lemma MatchExtent(s: string, i: nat)
    requires Matches(IBAN_PATTERN, s, i).Try?
    ensures var e := Matches(IBAN_PATTERN, s, i).end;
            i < e <= |s| && IsWord(s[e - 1]) && !HasAt(Word, s, e) && !HasBefore(Word, s, i)
  {
    hide Matches, BodyEnds;
    MatchEndsWell(s, i);
    PatternMatches(s, i);
    FirstAtBoundary(s, BodyEnds(s, i + 4));
  }

  lemma FirstAtBoundary(s: string, m: Tries)
    ensures AtBoundary(s, m).Try? ==> BoundaryAt(s, AtBoundary(s, m).end)
  {
  }

  // ----- The second scan -----

  ghost function Scrubbed(s: string, i: nat): string { Rewrite(IBAN_PATTERN, Replacement, s, i) }

  lemma ScrubMiss(s: string, i: nat)
    requires i < |s| && Matches(IBAN_PATTERN, s, i).Fail?
    ensures Scrubbed(s, i) == [s[i]] + Scrubbed(s, i + 1)
  {
    hide Matches;
  }

  lemma ScrubHit(s: string, i: nat)
    requires i < |s| && Matches(IBAN_PATTERN, s, i).Try?
    ensures var e := Matches(IBAN_PATTERN, s, i).end;
            i < e <= |s| && Scrubbed(s, i) == Replacement(s[i..e]) + Scrubbed(s, e)
  {
    hide Matches, Replacement;
    MatchExtent(s, i);
  }

  lemma ReplacementIs(t: string)
    ensures Replacement(t) == t || Replacement(t) == LABEL
  {
  }

  /** Where the output first differs from the text: at a label, no word going on there. */
  lemma {:induction false} FirstChange(s: string, i: nat) returns (j: nat)
    requires i <= |s|
    ensures i <= j <= |s| && j - i <= |Scrubbed(s, i)| && Scrubbed(s, i)[..j - i] == s[i..j]
    ensures if j == |s| then Scrubbed(s, i) == s[i..]
            else |Scrubbed(s, i)| > j - i && Scrubbed(s, i)[j - i] == '[' && !HasBefore(Word, s, j)
    decreases |s| - i
  {
    hide Matches, Scrubbed, Replacement, LABEL, HasBefore;
    if i == |s| {
      NothingToScrub(s);
      return i;
    }
    var m := Matches(IBAN_PATTERN, s, i);
    var k := i + 1;
    if m.Fail? {
      ScrubMiss(s, i);
    } else {
      ScrubHit(s, i);
      MatchExtent(s, i);
      ReplacementIs(s[i..m.end]);
      k := m.end;
      if Replacement(s[i..k]) != s[i..k] {
        LabelStarts(Scrubbed(s, k));
        return i;
      }
    }
    j := FirstChange(s, k);
    assert [s[i]] == s[i..i + 1];
    Extends(s, i, k, j, s[i..k], Scrubbed(s, k));
  }

  lemma LabelStarts(rest: string)
    ensures |LABEL + rest| > 0 && (LABEL + rest)[0] == '['
  {
  }

  lemma NothingToScrub(s: string)
    ensures Scrubbed(s, |s|) == ""
  {
  }

  lemma Extends(s: string, i: nat, k: nat, j: nat, a: string, b: string)
    requires i <= k <= j <= |s| && a == s[i..k] && j - k <= |b| && b[..j - k] == s[k..j]
    ensures (a + b)[..j - i] == s[i..j] && (|b| > j - k ==> (a + b)[j - i] == b[j - k])
    ensures b == s[k..] ==> a + b == s[i..]
  {
    assert (a + b)[..j - i] == a + b[..j - k];
  }

  /** Before what is rewritten further on the engine does the same again. */
  lemma SameMatch(s: string, s': string, i: nat, k: nat)
    requires i < k <= |s| && s' == s[..k] + Scrubbed(s, k)
    requires var m := Matches(IBAN_PATTERN, s, i); m.Try? ==> m.end == k
    ensures var m, m' := Matches(IBAN_PATTERN, s, i), Matches(IBAN_PATTERN, s', i);
            m'.Fail? <==> m.Fail?
    ensures var m, m' := Matches(IBAN_PATTERN, s, i), Matches(IBAN_PATTERN, s', i);
            m.Try? && m'.Try? ==> m'.end == m.end
  {
    hide Matches, Scrubbed;
    var j := FirstChange(s, k);
    if j == |s| {
      assert s' == s;
    } else {
      assert s[..j] == s[..k] + s[k..j] && s'[..j] == s[..k] + Scrubbed(s, k)[..j - k];
      assert s'[j] == Scrubbed(s, k)[j - k];
      assert LabelAt(s, s', j);
      MatchesBelow(s, s', j, i);
      if Matches(IBAN_PATTERN, s, i).Try? { MatchExtent(s, i); }
    }
  }

  lemma NoHeaderInLabel(s: string, i: nat, k: nat)
    requires i + |LABEL| <= |s| && s[i..i + |LABEL|] == LABEL && k < |LABEL|
    ensures Matches(IBAN_PATTERN, s, i + k).Fail? && s[i + k] == LABEL[k]
  {
    hide Matches;
    PatternMatches(s, i + k);
    assert s[i + k] == s[i..i + |LABEL|][k];
    assert k + 1 < |LABEL| ==> s[i + k + 1] == s[i..i + |LABEL|][k + 1];
    assert k + 2 < |LABEL| ==> s[i + k + 2] == s[i..i + |LABEL|][k + 2];
  }

  lemma {:induction false} LabelKept(s: string, i: nat, k: nat)
    requires i + |LABEL| <= |s| && s[i..i + |LABEL|] == LABEL && k <= |LABEL|
    ensures Scrubbed(s, i + k) == LABEL[k..] + Scrubbed(s, i + |LABEL|)
    decreases |LABEL| - k
  {
    hide Matches, Scrubbed, LABEL;
    if k < |LABEL| {
      NoHeaderInLabel(s, i, k);
      ScrubMiss(s, i + k);
      LabelKept(s, i, k + 1);
      assert LABEL[k..] == [LABEL[k]] + LABEL[k + 1..];
    } else {
      assert LABEL[k..] == "";
    }
  }

  lemma NoWordNoMatch(s: string, i: nat)
    requires i < |s| && !IsWord(s[i])
    ensures Matches(IBAN_PATTERN, s, i).Fail?
  {
    hide Matches;
    PatternMatches(s, i);
  }

  lemma {:induction false} ScrubAgain(s: string, i: nat)
    requires i <= |s|
    ensures Scrubbed(s[..i] + Scrubbed(s, i), i) == Scrubbed(s, i)
    decreases |s| - i, 0
  {
    hide Matches, Scrubbed, Replacement, LABEL;
    var s' := s[..i] + Scrubbed(s, i);
    if i == |s| {
      NothingToScrub(s);
      assert s' == s;
    } else {
      var m := Matches(IBAN_PATTERN, s, i);
      if m.Fail? {
        ScrubMiss(s, i);
        KeepAgain(s, s', i, i + 1);
        ScrubMiss(s', i);
      } else {
        ScrubHit(s, i);
        ReplacementIs(s[i..m.end]);
        if Replacement(s[i..m.end]) == s[i..m.end] {
          KeepAgain(s, s', i, m.end);
          ScrubHit(s', i);
        } else {
          LabelAgain(s, s', i, m.end);
        }
      }
    }
  }

  /** Text that was kept, matched or not. */
  lemma {:induction false} KeepAgain(s: string, s': string, i: nat, k: nat)
    requires i < k <= |s| && s' == s[..i] + (s[i..k] + Scrubbed(s, k))
    requires var m := Matches(IBAN_PATTERN, s, i); m.Try? ==> m.end == k
    ensures |s'| >= k && s'[i..k] == s[i..k] && Scrubbed(s', k) == Scrubbed(s, k)
    ensures var m, m' := Matches(IBAN_PATTERN, s, i), Matches(IBAN_PATTERN, s', i);
            (m'.Fail? <==> m.Fail?) && (m.Try? && m'.Try? ==> m'.end == m.end)
    decreases |s| - k, 1
  {
    hide Matches, Scrubbed;
    assert s' == s[..k] + Scrubbed(s, k) by { assert s[..k] == s[..i] + s[i..k]; }
    SameMatch(s, s', i, k);
    ScrubAgain(s, k);
  }

  /** An IBAN that was replaced by the label. */
  lemma {:induction false} LabelAgain(s: string, s': string, i: nat, e: nat)
    requires i < e <= |s| && s' == s[..i] + (LABEL + Scrubbed(s, e))
    requires Matches(IBAN_PATTERN, s, i).Try? && Matches(IBAN_PATTERN, s, i).end == e
    ensures Scrubbed(s', i) == LABEL + Scrubbed(s, e)
    decreases |s| - e, 1
  {
    hide Matches, Scrubbed, LABEL;
    var front, rest := s[..i] + LABEL, Scrubbed(s, e);
    var k := |front|;
    assert s' == front + rest && s'[i..k] == LABEL && LABEL[0..] == LABEL;
    LabelKept(s', i, 0);
    if e == |s| {
      NothingToScrub(s);
      NothingToScrub(s');
    } else {
      MatchExtent(s, i);
      NoWordNoMatch(s, e);
      ScrubMiss(s, e);
      NoWordNoMatch(s', k);
      ScrubMiss(s', k);
      ScrubAgain(s, e + 1);
      SameAfter(s, e, front, Scrubbed(s, e + 1));
    }
  }

  /** After the same character the same follows. */
  lemma SameAfter(s: string, e: nat, front: string, rest: string)
    requires e < |s|
    ensures Scrubbed(front + ([s[e]] + rest), |front| + 1) == Scrubbed(s[..e + 1] + rest, e + 1)
  {
    hide Rewrite;
    var tail := [s[e]] + rest;
    RewriteAfter(IBAN_PATTERN, Replacement, front, tail, 1);
    RewriteAfter(IBAN_PATTERN, Replacement, s[..e], tail, 1);
    assert s[..e] + tail == s[..e + 1] + rest;
  }

  /** IBAN scrubbing is idempotent, on every text. */
  lemma ScrubIdempotent(s: string)
    ensures var once := Rewrite(IBAN_PATTERN, Replacement, s, 0); Rewrite(IBAN_PATTERN, Replacement, once, 0) == once
  {
    hide Rewrite;
    ScrubAgain(s, 0);
    assert s[..0] + Scrubbed(s, 0) == Scrubbed(s, 0);
  }
}
