/** What the SQL masker of src/sql_statement.c takes where, stated without its own rules: literals by a
    regular expression, numbers by their grammar, dollar bodies by their tags. */
module SqlRules {
  import opened Ascii
  import opened Regex
  import opened SqlMask
  import opened SqlNumber

  // ----- Where a literal opens: (?<![A-Za-z0-9_$])(?:[EeXxNnBb]|[Uu]&)'|' -----

  const QUOTE := Chars(Only('\''))
  const MARKER := Either(Chars(OneOf("EeXxNnBb")), Then(Chars(OneOf("Uu")), Chars(Only('&'))))
  const OPENING := Either(Then(NotAfter(WordOrDollar), Then(MARKER, QUOTE)), QUOTE)

  lemma MarkerMatches(s: string, i: nat)
    ensures Matches(MARKER, s, i) ==
            if HasAt(OneOf("EeXxNnBb"), s, i) then Try(i + 1, Fail)
            else if HasAt(OneOf("Uu"), s, i) && HasAt(Only('&'), s, i + 1) then Try(i + 2, Fail)
            else Fail
  {
    var one, two := Chars(OneOf("EeXxNnBb")), Then(Chars(OneOf("Uu")), Chars(Only('&')));
    var u := Matches(Chars(OneOf("Uu")), s, i);
    ThreadOne(Chars(Only('&')), s, i + 1);
    assert Matches(two, s, i) == Thread(Chars(Only('&')), s, u);
    assert Matches(MARKER, s, i) == Or(Matches(one, s, i), Matches(two, s, i));
    if HasAt(OneOf("EeXxNnBb"), s, i) {
      assert !HasAt(OneOf("Uu"), s, i);
      assert Thread(Chars(Only('&')), s, Fail) == Fail;
      OrFail(Matches(one, s, i));
    } else {
      assert Or(Fail, Matches(two, s, i)) == Matches(two, s, i);
    }
  }

  /** The masker sees a literal open exactly where that expression matches, at the same quote. */
  lemma OpeningIsMatch(s: string, i: nat)
    requires i < |s|
    ensures var p := Prefix(Before('\0', s, i), s[i..]);
            Matches(OPENING, s, i) == if p >= 0 then Try(i + p + 1, Fail) else Fail
  {
    hide Matches;
    MarkedMatches(s, i);
    QuoteMatches(s, i);
    EitherMatches(s, i);
    PrefixIs(s, i);
    if HasAt(Only('\''), s, i) { assert Or(Fail, Try(i + 1, Fail)) == Try(i + 1, Fail); } else { OrFail(Marked(s, i)); }
  }

  /** The end of a marked quote, as a list of one or none. */
  ghost function Marked(s: string, i: nat): Tries {
    if HasBefore(WordOrDollar, s, i) then Fail
    else if HasAt(OneOf("EeXxNnBb"), s, i) then if HasAt(Only('\''), s, i + 1) then Try(i + 2, Fail) else Fail
    else if HasAt(OneOf("Uu"), s, i) && HasAt(Only('&'), s, i + 1) && HasAt(Only('\''), s, i + 2) then Try(i + 3, Fail)
    else Fail
  }

  lemma MarkedMatches(s: string, i: nat)
    ensures Matches(OPENING.first, s, i) == Marked(s, i)
  {
    var rest := Then(MARKER, QUOTE);
    MarkerMatches(s, i);
    ThreadOne(rest, s, i);
    ThreadOne(QUOTE, s, i + 1);
    ThreadOne(QUOTE, s, i + 2);
    assert Matches(rest, s, i) == Thread(QUOTE, s, Matches(MARKER, s, i));
  }

  lemma QuoteMatches(s: string, i: nat)
    ensures Matches(QUOTE, s, i) == if HasAt(Only('\''), s, i) then Try(i + 1, Fail) else Fail
  {
  }

  lemma EitherMatches(s: string, i: nat)
    ensures Matches(OPENING, s, i) == Or(Matches(OPENING.first, s, i), Matches(QUOTE, s, i))
  {
  }

  lemma PrefixIs(s: string, i: nat)
    requires i < |s|
    ensures var p := Prefix(Before('\0', s, i), s[i..]);
            && (HasAt(Only('\''), s, i) ==> p == 0 && Marked(s, i) == Fail)
            && (!HasAt(Only('\''), s, i) ==> Marked(s, i) == if p >= 0 then Try(i + p + 1, Fail) else Fail)
  {
  }

  // ----- Where a literal closes -----

  /** The quote at k closes the literal: an escaped text stands before it, no second quote after it. */
  predicate Closes(quote: char, u: string, k: nat) {
    k < |u| && u[k] == quote && Escaped(quote, u[..k]) && (k + 1 == |u| || u[k + 1] != quote)
  }

  lemma {:induction false} ClosesLater(quote: char, u: string, k: nat, n: nat)
    requires quote != '\\' && n <= |u| && Closes(quote, u[n..], k)
    requires (n == 1 && |u| >= 1 && u[0] != '\\' && u[0] != quote)
             || (n == 2 && |u| >= 2 && (u[0] == '\\' || (u[0] == quote && u[1] == quote)))
    ensures Closes(quote, u, k + n)
  {
    assert u[..k + n][n..] == u[n..][..k];
    assert u[..k + n][0] == u[0];
    if n == 2 { assert u[..k + n][1] == u[1]; }
  }

  /** A literal ends at a quote that closes it, or takes everything. */
  lemma {:induction false} QuotedEnds(quote: char, u: string)
    requires quote != '\\'
    ensures var n := Quoted(quote, u); n == |u| || (n > 0 && Closes(quote, u, n - 1))
    decreases |u|
  {
    hide Closes, Escaped;
    if u != "" {
      var plain := u[0] != '\\' && u[0] != quote;
      if plain {
        QuotedEnds(quote, u[1..]);
        var n := Quoted(quote, u[1..]);
        if n != |u[1..]| { ClosesLater(quote, u, n - 1, 1); }
      } else if |u| > 1 && (u[0] == '\\' || u[1] == quote) {
        QuotedEnds(quote, u[2..]);
        var n := Quoted(quote, u[2..]);
        if n != |u[2..]| { ClosesLater(quote, u, n - 1, 2); }
      } else {
        ClosesHere(quote, u);
      }
    }
  }

  lemma ClosesHere(quote: char, u: string)
    requires u != "" && (u[0] == quote ==> |u| == 1 || u[1] != quote)
    ensures u[0] == quote ==> Closes(quote, u, 0)
  {
  }

  /** So it ends at the one quote that closes it, and takes everything exactly when there is none, or it
      is the last character. */
  lemma QuotedIs(quote: char, u: string, k: nat)
    requires quote != '\\'
    ensures Closes(quote, u, k) ==> Quoted(quote, u) == k + 1
    ensures Quoted(quote, u) < |u| ==> Quoted(quote, u) > 0 && Closes(quote, u, Quoted(quote, u) - 1)
  {
    hide Escaped, Quoted;
    QuotedEnds(quote, u);
    if Closes(quote, u, k) {
      assert u == u[..k] + [quote] + u[k + 1..];
      EscapedIsClosed(quote, u[..k], u[k + 1..]);
    }
  }

  // ----- Where a dollar body opens and closes -----

  /** "$", letters or underscores, "$". */
  predicate IsTag(t: string) { |t| >= 2 && t[0] == '$' && t[|t| - 1] == '$' && AllOf(Tag, t[1..|t| - 1]) }

  lemma DollarOpensIff(u: string, j: nat)
    requires u != "" && u[0] == '$' && j == 1 + Run(Tag, u[1..])
    ensures j < |u| && u[j] == '$' ==> IsTag(u[..j + 1]) && Dollar(u) == j + 1 + Closing(u[..j + 1], u[j + 1..])
    ensures !(j < |u| && u[j] == '$') ==> Dollar(u) == 0 && forall n :: 0 <= n <= |u| ==> !IsTag(u[..n])
  {
    hide Run, Closing;
    RunAll(Tag, u[1..]);
    if j < |u| && u[j] == '$' {
      assert u[..j + 1][1..j] == u[1..][..j - 1];
    } else {
      forall n | 0 <= n <= |u| ensures !IsTag(u[..n]) {
        if IsTag(u[..n]) {
          var t := u[..n];
          assert t[1..n - 1] == u[1..][..n - 2] && t[n - 1] == u[n - 1] == u[1..][n - 2];
          RunIs(Tag, u[1..], n - 2);
          assert false;
        }
      }
    }
  }

  predicate Occurs(tag: string, u: string, k: nat) { k + |tag| <= |u| && u[k..k + |tag|] == tag }

  /** The body ends with the first occurrence of its tag, or with the statement. */
  lemma {:induction false} ClosingIsFirst(tag: string, u: string)
    requires tag != ""
    ensures forall k: nat :: Occurs(tag, u, k) ==> Closing(tag, u) <= k + |tag|
    ensures Closing(tag, u) == |u| || (Closing(tag, u) >= |tag| && Occurs(tag, u, Closing(tag, u) - |tag|))
    decreases |u|
  {
    if |u| >= |tag| {
      assert tag <= u <==> Occurs(tag, u, 0);
      if !(tag <= u) {
        ClosingIsFirst(tag, u[1..]);
        forall k: nat | Occurs(tag, u, k) ensures Closing(tag, u) <= k + |tag| {
          assert u[1..][k - 1..k - 1 + |tag|] == u[k..k + |tag|];
          assert Occurs(tag, u[1..], k - 1);
        }
        var c := Closing(tag, u[1..]);
        if c != |u[1..]| { assert u[1..][c - |tag|..c] == u[c + 1 - |tag|..c + 1]; }
      }
    }
  }

  /** The characters numbers and tags are made of, spelled out. */
  lemma KindsSpelledOut(c: char)
    ensures Of(Decimal, c) <==> c in "0123456789"
    ensures Of(Hex, c) <==> c in "0123456789" || c in "abcdef" || c in "ABCDEF"
    ensures Of(Binary, c) <==> c in "01"
    ensures Of(Tag, c) <==> c in LOWER || c in UPPER || c == '_'
  {
    hide LOWER, UPPER;
    LowerSpelledOut(c);
    UpperSpelledOut(c);
  }

  // ----- One step, by these alone -----

  /** The masker's step at i of a statement. */
  ghost function StepAt(s: string, i: nat, doubleQuoted: bool): Step
    requires i < |s|
  {
    Next(Before('\0', s, i), s[i..], doubleQuoted)
  }

  ghost predicate StartsNumber(s: string, i: nat, n: nat) {
    && i < |s| && (IsDigit(s[i]) || s[i] == '.') && !HasBefore(WordOrDollar, s, i) && !HasBefore(Only('.'), s, i)
    && n > 0 && Standalone(s[i..], n) && forall m: nat :: Standalone(s[i..], m) ==> m <= n
  }

  /** A literal that opens is taken from its marker to its closing quote. */
  lemma LiteralStep(s: string, i: nat, doubleQuoted: bool)
    requires i < |s| && Matches(OPENING, s, i).Try?
    ensures var open := Matches(OPENING, s, i).end - 1;
            && i <= open < |s| && s[open] == '\''
            && StepAt(s, i, doubleQuoted) == Step("?", open + 1 - i + Quoted('\'', s[open + 1..]))
  {
    hide Matches, Quoted, Dollar, Number;
    OpeningIsMatch(s, i);
    var open := Matches(OPENING, s, i).end - 1;
    assert s[i..][open - i + 1..] == s[open + 1..];
  }

  /** A number is masked whole where no literal opens. */
  lemma NumberStep(s: string, i: nat, n: nat, doubleQuoted: bool)
    requires StartsNumber(s, i, n)
    ensures StepAt(s, i, doubleQuoted) == Step("?", n)
  {
    hide Quoted, Dollar, Number, Standalone, Next;
    NumberIsLongest(s[i..]);
    assert Number(s[i..]) == n;
    NumberNext(Before('\0', s, i), s[i..], doubleQuoted);
  }

  lemma NumberNext(prev: char, u: string, doubleQuoted: bool)
    requires u != "" && (IsDigit(u[0]) || u[0] == '.') && Number(u) > 0 && !IsWord(prev) && prev != '$' && prev != '.'
    ensures Next(prev, u, doubleQuoted) == Step("?", Number(u))
  {
    hide Quoted, Dollar, Number, Opening;
    NoLiteralAtNumber(prev, u, doubleQuoted);
  }

  lemma NoLiteralAtNumber(prev: char, u: string, doubleQuoted: bool)
    requires u != "" && (IsDigit(u[0]) || u[0] == '.')
    ensures Opening(prev, u, doubleQuoted) < 0
  {
    var c := u[0];
    assert c < 'A' && c != '\'' && c != '"';
    assert c !in "EeXxNnBb" && c !in "Uu";
  }

  /** Everything else is written as it is: what opens no literal, no dollar body and no number. */
  lemma PlainStep(s: string, i: nat, doubleQuoted: bool)
    requires i < |s| && Matches(OPENING, s, i).Fail? && !(doubleQuoted && s[i] == '"')
    requires s[i] == '$' ==> forall n :: 0 <= n <= |s| - i ==> !IsTag(s[i..][..n])
    requires forall n: nat :: !StartsNumber(s, i, n)
    ensures StepAt(s, i, doubleQuoted) == Step([s[i]], 1)
  {
    hide Matches, Quoted, Dollar, Number, Standalone;
    var u := s[i..];
    OpeningIsMatch(s, i);
    if u[0] == '$' {
      DollarOpensIff(u, 1 + Run(Tag, u[1..]));
    } else if IsDigit(u[0]) || u[0] == '.' {
      NumberIsLongest(u);
      NumberNotEmpty(u);
      if Number(u) > 0 { assert !StartsNumber(s, i, Number(u)); }
    }
  }

  lemma NumberNotEmpty(u: string)
    ensures Number(u) != 0
  {
    hide Run;
  }

  // ----- The cut -----

  /** Up to 4000 bytes the output is as it is; a longer one is cut after the last character that ends
      within them, and dots are put behind it. */
  lemma CutIs(out: string)
    ensures |out| <= 4000 ==> Cut(out) == out
    ensures |out| > 4000 ==>
              exists n :: 0 <= n <= 4000 && Cut(out) == out[..n] + "..." && (n == 0 || !IsContinuation(out[n]))
                          && forall k :: n < k <= 4000 ==> IsContinuation(out[k])
  {
    if |out| > 4000 { assert Cut(out) == out[..BackUp(out, 4000)] + "..."; }
  }

  // ----- Words come out as they went in -----

  /** After a character of a word, or a "$", anything but a quote or a "$" is written as it is. */
  lemma InsideWord(prev: char, u: string, doubleQuoted: bool)
    requires u != "" && (IsWord(prev) || prev == '$')
    requires u[0] != '\'' && u[0] != '$' && !(doubleQuoted && u[0] == '"')
    ensures Next(prev, u, doubleQuoted) == Step([u[0]], 1)
  {
    hide Quoted, Dollar, Number;
  }

  /** A word that has begun goes into the output whole, up to whatever follows it. */
  lemma {:induction false} WordIsKept(prev: char, w: string, rest: string, doubleQuoted: bool)
    requires w != "" && (IsWord(prev) || prev == '$') && forall k :: 0 <= k < |w| ==> IsWord(w[k])
    ensures Masked(prev, w + rest, doubleQuoted) == w + Masked(w[|w| - 1], rest, doubleQuoted)
    decreases |w|
  {
    hide Next, Masked;
    var u := w + rest;
    InsideWord(prev, u, doubleQuoted);
    MaskedStep(prev, u, doubleQuoted);
    assert u[0] == w[0] && u[1..] == w[1..] + rest;
    if |w| > 1 {
      WordIsKept(w[0], w[1..], rest, doubleQuoted);
      assert [w[0]] + (w[1..] + Masked(w[|w| - 1], rest, doubleQuoted)) == w + Masked(w[|w| - 1], rest, doubleQuoted);
    } else {
      assert w[1..] + rest == rest && w == [w[0]];
    }
  }

  /** A word right before a string keeps its last letter, even one that would mark the string: LIKE'%x%'
      comes out as LIKE?, whatever the string says. */
  lemma WordBeforeString(first: char, w: string, text: string, doubleQuoted: bool)
    requires IsWord(first) && w != "" && (forall k :: 0 <= k < |w| ==> IsWord(w[k]))
    requires Escaped('\'', text)
    ensures Masked(first, w + ("'" + text + "'"), doubleQuoted) == w + "?"
  {
    hide Masked, Quoted, Escaped, Next;
    var u := "'" + text + "'";
    WordIsKept(first, w, u, doubleQuoted);
    EscapedIsClosed('\'', text, "");
    assert u[1..] == text + ['\''] + "";
    StringStep(w[|w| - 1], u, doubleQuoted);
    MaskedStep(w[|w| - 1], u, doubleQuoted);
    MaskedNothing('?', u[|u| - 1], doubleQuoted);
    NothingMasked(u[|u| - 1], doubleQuoted);
    assert u[|u|..] == "";
    assert "?" + "" == "?";
  }

  lemma NothingMasked(p: char, doubleQuoted: bool)
    ensures Masked(p, "", doubleQuoted) == ""
  {
  }

  lemma StringStep(prev: char, u: string, doubleQuoted: bool)
    requires u != "" && u[0] == '\'' && 1 + Quoted('\'', u[1..]) == |u|
    ensures Next(prev, u, doubleQuoted) == Step("?", |u|)
  {
    hide Quoted, Dollar, Number;
  }
}
