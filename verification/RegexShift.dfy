/** A match looks one character back at most: what stands further in front changes nothing but the
    places. */
module RegexShift {
  import opened Regex

  /** The same ends, one further on. */
  ghost function Up(m: Tries): Tries {
    match m
    case Fail => Fail
    case Try(e, rest) => Try(e + 1, Up(rest))
  }

  ghost predicate Positive(m: Tries) { m.Try? ==> m.end >= 1 && Positive(m.rest) }

  lemma {:induction false} UpOr(a: Tries, b: Tries)
    requires Positive(a) && Positive(b)
    ensures Up(Or(a, b)) == Or(Up(a), Up(b)) && Positive(Or(a, b))
    decreases a
  {
    if a.Try? { UpOr(a.rest, b); }
  }

  lemma OneFurther(k: Class, c: char, s: string, i: nat)
    requires i >= 1
    ensures HasAt(k, [c] + s, i + 1) == HasAt(k, s, i) && HasBefore(k, [c] + s, i + 1) == HasBefore(k, s, i)
  {
  }

  lemma {:induction false} MatchesUp(p: Pattern, c: char, s: string, i: nat)
    requires i >= 1
    ensures Positive(Matches(p, s, i)) && Matches(p, [c] + s, i + 1) == Up(Matches(p, s, i))
    decreases p, 0, |s|
  {
    match p
    case Chars(k) => OneFurther(k, c, s, i);
    case NotAfter(k) => OneFurther(k, c, s, i);
    case NotBefore(k) => OneFurther(k, c, s, i);
    case Boundary => OneFurther(Word, c, s, i);
    case Then(a, b) =>
      MatchesUp(a, c, s, i);
      ThreadUp(b, c, s, Matches(a, s, i));
    case Either(a, b) =>
      MatchesUp(a, c, s, i);
      MatchesUp(b, c, s, i);
      UpOr(Matches(a, s, i), Matches(b, s, i));
    case Repeat(body, min, max) => RepetitionsUp(body, min, max, c, s, i);
  }

  lemma {:induction false} ThreadUp(p: Pattern, c: char, s: string, starts: Tries)
    requires Positive(starts)
    ensures Positive(Thread(p, s, starts)) && Thread(p, [c] + s, Up(starts)) == Up(Thread(p, s, starts))
    decreases p, 1, starts
  {
    match starts
    case Fail =>
    case Try(i, rest) =>
      MatchesUp(p, c, s, i);
      ThreadUp(p, c, s, rest);
      UpOr(Matches(p, s, i), Thread(p, s, rest));
  }

  lemma {:induction false} RepetitionsUp(body: Pattern, min: nat, max: Limit, c: char, s: string, i: nat)
    requires i >= 1
    ensures Positive(Repetitions(body, min, max, s, i))
    ensures Repetitions(body, min, max, [c] + s, i + 1) == Up(Repetitions(body, min, max, s, i))
    decreases body, 2, if i <= |s| then |s| - i else 0, 1
  {
    var stop := if min == 0 then Try(i, Fail) else Fail;
    if max.Done() {
      UpOr(Fail, stop);
    } else {
      MatchesUp(body, c, s, i);
      MoreUp(body, Pred(min), max.Less(), c, s, i, Matches(body, s, i));
      UpOr(More(body, Pred(min), max.Less(), s, i, Matches(body, s, i)), stop);
    }
  }

  lemma {:induction false} MoreUp(body: Pattern, min: nat, max: Limit, c: char, s: string, i: nat, ends: Tries)
    requires i >= 1 && Positive(ends)
    ensures Positive(More(body, min, max, s, i, ends))
    ensures More(body, min, max, [c] + s, i + 1, Up(ends)) == Up(More(body, min, max, s, i, ends))
    decreases body, 2, if i <= |s| then |s| - i else 0, 0, ends
  {
    match ends
    case Fail =>
    case Try(e, rest) =>
      MoreUp(body, min, max, c, s, i, rest);
      if i < e <= |s| { RepetitionsUp(body, min, max, c, s, e); }
      UpOr(if i < e <= |s| then Repetitions(body, min, max, s, e) else Fail, More(body, min, max, s, i, rest));
  }

  lemma {:induction false} RewriteUp(p: Pattern, f: string -> string, c: char, s: string, i: nat)
    requires i >= 1
    ensures Rewrite(p, f, [c] + s, i + 1) == Rewrite(p, f, s, i)
    decreases |s| - i
  {
    hide Matches, Rewrite;
    var t, m := [c] + s, Matches(p, s, i);
    RewriteStep(p, f, s, i);
    RewriteStep(p, f, t, i + 1);
    if i < |s| {
      MatchesUp(p, c, s, i);
      if m.Fail? || !(i < m.end <= |s|) {
        RewriteUp(p, f, c, s, i + 1);
      } else {
        assert t[i + 1..m.end + 1] == s[i..m.end];
        RewriteUp(p, f, c, s, m.end);
      }
    }
  }

  lemma RewriteStep(p: Pattern, f: string -> string, s: string, i: nat)
    ensures Rewrite(p, f, s, i) ==
            if i >= |s| then ""
            else
              var m := Matches(p, s, i);
              if m.Fail? || !(i < m.end <= |s|) then [s[i]] + Rewrite(p, f, s, i + 1)
              else f(s[i..m.end]) + Rewrite(p, f, s, m.end)
  {
    hide Matches;
  }

  lemma {:induction false} RewriteAfter(p: Pattern, f: string -> string, front: string, s: string, i: nat)
    requires i >= 1
    ensures Rewrite(p, f, front + s, |front| + i) == Rewrite(p, f, s, i)
    decreases |front|
  {
    hide Rewrite;
    if front == "" {
      assert front + s == s;
    } else {
      RewriteAfter(p, f, front[1..], s, i);
      RewriteUp(p, f, front[0], front[1..] + s, |front| - 1 + i);
      assert [front[0]] + (front[1..] + s) == front + s;
    }
  }
}
