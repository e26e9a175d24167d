/** Card numbers are found: what src/pii_scrubber.c is there to replace is replaced. */
module CardsFound {
  import opened Ascii
  import opened Regex
  import opened CardNumber
  import opened Cards
  import opened CardsAgain

  /** A card number in groups, however they are cut, is the longest stretch of itself. */
  lemma WholeRunIsLongest(run: string)
    requires IsRun(run) && IsCard(Digits(run))
    ensures Longest(run, 0, |run|) == |run| && ScrubRun(run) == LABEL
  {
    hide Digits, IsCard, IsRun;
    RunStarts(run);
    assert run[0..|run|] == run;
    assert CardStretch(run, 0, |run|);
    ScrubGroupsUnfold(run, 0, |run|, LABEL);
  }

  /** A card number in groups of any lengths joined by single spaces or dashes, standing at the end of a
      text without other digits and not joined to a word, is replaced by the label. */
  lemma CardIsReplaced(front: string, run: string)
    requires IsRun(run) && IsCard(Digits(run))
    requires (forall k :: 0 <= k < |front| ==> !IsDigit(front[k])) && (front == "" || !IsWord(front[|front| - 1]))
    ensures Rewrite(CARD_RUN, ScrubRun, front + run, 0) == front + LABEL
  {
    hide *;
    var s := front + run;
    RewriteIsScan(s, 0);
    assert s[0..] == s;
    NothingBefore(s);
    if front == "" { assert front + run == run; } else { ScanCopies(false, front, run); }
    ScanCard(run);
    assert "" + LABEL == LABEL;
  }

  lemma NothingBefore(s: string)
    ensures !HasBefore(Word, s, 0)
  {
  }

  lemma ScanCard(run: string)
    requires IsRun(run) && IsCard(Digits(run))
    ensures Scan(false, run) == LABEL
  {
    WholeRunIsLongest(run);
    hide FirstRun, ScrubRun, IsRun, IsCard, Digits;
    FirstRunIs(run, "");
    assert run + "" == run && run[..|run|] == run && run[|run|..] == "";
  }

  // ----- And nothing else is touched -----

  /** out is t with some stretches that are card numbers replaced by the label, and every other byte
      kept in its place. */
  ghost predicate Replaces(t: string, out: string)
    decreases |t|
  {
    || (t == "" && out == "")
    || (t != "" && out != "" && t[0] == out[0] && Replaces(t[1..], out[1..]))
    || (exists k :: 0 < k <= |t| && IsCard(Digits(t[..k])) && LABEL <= out && Replaces(t[k..], out[|LABEL|..]))
  }

  lemma {:induction false} ReplacesKept(a: string, t: string, out: string)
    requires Replaces(t, out)
    ensures Replaces(a + t, a + out)
    decreases |a|
  {
    hide IsCard, Digits, LABEL;
    if a == "" {
      assert a + t == t && a + out == out;
    } else {
      ReplacesKept(a[1..], t, out);
      assert (a + t)[1..] == a[1..] + t && (a + out)[1..] == a[1..] + out;
    }
  }

  lemma ReplacesCard(c: string, t: string, out: string)
    requires c != "" && IsCard(Digits(c)) && Replaces(t, out)
    ensures Replaces(c + t, LABEL + out)
  {
    hide IsCard, Digits, LABEL;
    LabelIsLong();
    assert (c + t)[..|c|] == c && (c + t)[|c|..] == t && (LABEL + out)[|LABEL|..] == out;
    assert LABEL <= LABEL + out;
  }

  lemma LabelIsLong()
    ensures LABEL != ""
  {
  }

  lemma {:induction false} GroupsReplaced(run: string, g: nat)
    requires g <= |run|
    ensures Replaces(run[g..], ScrubGroups(run, g))
    decreases |run| - g
  {
    hide IsCard, Digits, LABEL, Replaces, Longest, CardStretch, ScrubGroups;
    if g == |run| {
      NothingReplaced(run);
    } else {
      var e := Longest(run, g, |run|);
      var stop := if e != 0 then e else GroupEnd(run, g);
      StretchEnds(run, g, stop);
      var piece := if e != 0 then LABEL else run[g..stop];
      ScrubGroupsUnfold(run, g, stop, piece);
      AfterPiece(run, stop);
      if stop < |run| {
        GroupsReplaced(run, stop + 1);
        ReplacesKept([run[stop]], run[stop + 1..], ScrubGroups(run, stop + 1));
        assert run[stop..] == [run[stop]] + run[stop + 1..];
      }
      var rest := if stop < |run| then [run[stop]] + ScrubGroups(run, stop + 1) else "";
      assert run[g..] == run[g..stop] + run[stop..];
      if e != 0 {
        StretchIsCard(run, g);
        ReplacesCard(run[g..stop], run[stop..], rest);
      } else {
        ReplacesKept(run[g..stop], run[stop..], rest);
      }
    }
  }

  lemma NothingReplaced(run: string)
    ensures run[|run|..] == "" && ScrubGroups(run, |run|) == "" && Replaces("", "")
  {
  }

  lemma AfterPiece(run: string, stop: nat)
    requires stop <= |run|
    ensures stop == |run| ==> run[stop..] == "" && Replaces(run[stop..], "")
  {
  }

  lemma StretchIsCard(run: string, g: nat)
    requires g < |run| && Longest(run, g, |run|) != 0
    ensures var e := Longest(run, g, |run|); g < e <= |run| && run[g..e] != "" && IsCard(Digits(run[g..e]))
  {
    hide IsCard, Digits;
    assert CardStretch(run, g, Longest(run, g, |run|));
  }

  lemma {:induction false} TextReplaced(s: string, i: nat)
    requires i <= |s|
    ensures Replaces(s[i..], Rewrite(CARD_RUN, ScrubRun, s, i))
    decreases |s| - i
  {
    hide Matches, Replaces, ScrubGroups;
    if i == |s| {
      EndReplaced(s);
    } else {
      var m := Matches(CARD_RUN, s, i);
      if m.Fail? || !(i < m.end <= |s|) {
        TextReplaced(s, i + 1);
        ReplacesKept([s[i]], s[i + 1..], Rewrite(CARD_RUN, ScrubRun, s, i + 1));
        assert s[i..] == [s[i]] + s[i + 1..];
      } else {
        var run := s[i..m.end];
        TextReplaced(s, m.end);
        GroupsReplaced(run, 0);
        assert run[0..] == run && s[i..] == run + s[m.end..];
        ReplacesBoth(run, ScrubRun(run), s[m.end..], Rewrite(CARD_RUN, ScrubRun, s, m.end));
      }
    }
  }

  lemma EndReplaced(s: string)
    ensures s[|s|..] == "" && Rewrite(CARD_RUN, ScrubRun, s, |s|) == "" && Replaces("", "")
  {
  }

  lemma {:induction false} ReplacesBoth(t: string, out: string, t': string, out': string)
    requires Replaces(t, out) && Replaces(t', out')
    ensures Replaces(t + t', out + out')
    decreases |t|
  {
    hide IsCard, Digits, LABEL;
    if t == "" && out == "" {
      assert t + t' == t' && out + out' == out';
    } else if t != "" && out != "" && t[0] == out[0] && Replaces(t[1..], out[1..]) {
      ReplacesBoth(t[1..], out[1..], t', out');
      assert (t + t')[1..] == t[1..] + t' && (out + out')[1..] == out[1..] + out';
    } else {
      var k :| 0 < k <= |t| && IsCard(Digits(t[..k])) && LABEL <= out && Replaces(t[k..], out[|LABEL|..]);
      ReplacesBoth(t[k..], out[|LABEL|..], t', out');
      assert (t + t')[..k] == t[..k] && (t + t')[k..] == t[k..] + t';
      assert LABEL <= out + out' && (out + out')[|LABEL|..] == out[|LABEL|..] + out';
    }
  }

  /** Scrubbing a text puts the label in the place of some card numbers, and changes nothing else. */
  lemma OnlyCardsReplaced(s: string)
    ensures Replaces(s, Rewrite(CARD_RUN, ScrubRun, s, 0))
  {
    hide Replaces, Rewrite;
    TextReplaced(s, 0);
    assert s[0..] == s;
  }

  // ----- The number the source's comments use -----

  function FortyTwos(n: nat): (d: string)
    ensures |d| == 2 * n && AllDigits(d)
  {
    if n == 0 then "" else "42" + FortyTwos(n - 1)
  }

  lemma {:induction false} FortyTwoSum(n: nat)
    ensures LuhnSum(FortyTwos(n)) == 10 * n
  {
    if n > 0 {
      var d, rest := FortyTwos(n), FortyTwos(n - 1);
      FortyTwoSum(n - 1);
      assert d[0] == '4' && d[1..] == "2" + rest;
      assert d[1..][0] == '2' && d[1..][1..] == rest;
    }
  }

  /** 4242 4242 4242 4242 is a card number (n is 8), and so are the next shorter and the next longer. */
  lemma FortyTwosAreCard(n: nat)
    requires 7 <= n <= 9
    ensures IsCard(FortyTwos(n))
  {
    hide LuhnSum, FortyTwos;
    var d := FortyTwos(n);
    FortyTwoSum(n);
    StartsWithFour(n);
    assert Leading(d, 1) == Leading(d, 0) * 10 + DigitValue(d[0]) == 4;
  }

  lemma StartsWithFour(n: nat)
    requires n > 0
    ensures FortyTwos(n)[0] == '4'
  {
  }

  lemma Example(front: string, n: nat)
    requires (forall k :: 0 <= k < |front| ==> !IsDigit(front[k])) && (front == "" || !IsWord(front[|front| - 1]))
    requires 7 <= n <= 9
    ensures Rewrite(CARD_RUN, ScrubRun, front + FortyTwos(n), 0) == front + "[CREDIT CARD FILTERED]"
  {
    hide Rewrite, ScrubRun, IsCard, FortyTwos;
    FortyTwosAreCard(n);
    var d := FortyTwos(n);
    PlainRun(d);
    CardIsReplaced(front, d);
  }

  lemma PlainRun(d: string)
    requires AllDigits(d) && d != ""
    ensures IsRun(d) && Digits(d) == d
  {
    DigitsOfDigits(d);
    hide Digits;
  }

  // ----- How long a card number is -----

  function Zeros(n: nat): (d: string)
    ensures |d| == n && AllDigits(d)
  {
    if n == 0 then "" else "0" + Zeros(n - 1)
  }

  /** A four, zeros, and the digit that makes the sum come out: n + 2 digits. */
  function RoundNumber(n: nat): (d: string)
    ensures |d| == n + 2 && AllDigits(d)
  {
    "4" + Zeros(n) + (if n % 2 == 1 then "6" else "2")
  }

  lemma {:induction false} ZeroSum(n: nat)
    ensures LuhnSum(Zeros(n)) == 0
  {
    if n > 0 {
      ZeroSum(n - 1);
      assert Zeros(n)[0] == '0' && Zeros(n)[1..] == Zeros(n - 1);
    }
  }

  lemma {:induction false} ZerosPush(n: nat)
    ensures Zeros(n) + "0" == Zeros(n + 1)
  {
    if n > 0 {
      ZerosPush(n - 1);
      assert Zeros(n) + "0" == "0" + (Zeros(n - 1) + "0");
    }
  }

  lemma RoundSum(n: nat)
    ensures LuhnSum(RoundNumber(n)) == 10
  {
    hide LuhnSum, Zeros;
    var c := if n % 2 == 1 then '6' else '2';
    var rest := Zeros(n) + [c];
    LastDigitCounts(Zeros(n), c);
    ZerosPush(n);
    ZeroSum(n + 1);
    var d := RoundNumber(n);
    assert d == "4" + rest && d[1..] == rest && d[0] == '4';
    LuhnFirst(d);
  }

  /** Of these exactly the ones of 13 to 19 digits are card numbers. */
  lemma CardLengths(n: nat)
    ensures IsCard(RoundNumber(n)) <==> 13 <= n + 2 <= 19
  {
    hide LuhnSum, Zeros;
    var d := RoundNumber(n);
    RoundSum(n);
    if |d| >= 4 {
      assert d[0] == '4';
      assert Leading(d, 1) == Leading(d, 0) * 10 + DigitValue(d[0]) == 4;
    }
  }
}
