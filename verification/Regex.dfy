/** Regular expressions as an engine that backtracks tries them. `Matches` lists the ends of all matches
    from a position on, the most preferred first: an alternative's left side before its right, a longer
    repetition before a shorter one. The engine returns the first of the list; there is no match
    exactly when the list is empty. */
module Regex {
  import opened Ascii

  datatype Class =
    | Digit | Upper | UpperOrDigit | Letter | Word | Separator | EmailLocal | EmailDomain
    | WordOrDollar | Only(c: char) | OneOf(chars: string)

  predicate Has(k: Class, c: char) {
    match k
    case Digit => IsDigit(c)
    case Upper => IsUpper(c)
    case UpperOrDigit => IsUpper(c) || IsDigit(c)
    case Letter => IsAlpha(c)
    case Word => IsWord(c)
    case Separator => c == ' ' || c == '-'
    case EmailLocal => IsAlpha(c) || IsDigit(c) || c in "._%+-"
    case EmailDomain => IsAlpha(c) || IsDigit(c) || c in ".-"
    case WordOrDollar => IsWord(c) || c == '$'
    case Only(d) => c == d
    case OneOf(chars) => c in chars
  }

  const LOWER := "abcdefghijklmnopqrstuvwxyz"
  const UPPER := "ABCDEFGHIJKLMNOPQRSTUVWXYZ"
  const DIGITS := "0123456789"

  lemma LowerSpelledOut(c: char)
    ensures IsLower(c) <==> c in LOWER
  {
  }

  lemma UpperSpelledOut(c: char)
    ensures IsUpper(c) <==> c in UPPER
  {
  }

  lemma DigitsSpelledOut(c: char)
    ensures IsDigit(c) <==> c in DIGITS
  {
  }

  /** The classes of the patterns, spelled out. */
  lemma ClassesSpelledOut(c: char)
    ensures Has(Letter, c) <==> c in LOWER || c in UPPER
    ensures Has(Word, c) <==> c in LOWER || c in UPPER || c in DIGITS || c == '_'
    ensures Has(UpperOrDigit, c) <==> c in UPPER || c in DIGITS
    ensures Has(EmailLocal, c) <==> c in LOWER || c in UPPER || c in DIGITS || c in "._%+-"
    ensures Has(EmailDomain, c) <==> c in LOWER || c in UPPER || c in DIGITS || c in ".-"
  {
    hide LOWER, UPPER, DIGITS;
    LowerSpelledOut(c);
    UpperSpelledOut(c);
    DigitsSpelledOut(c);
  }

  datatype Limit = AtMost(n: nat) | NoLimit {
    predicate Done() { this == AtMost(0) }
    function Less(): Limit
      requires !Done()
    {
      if AtMost? then AtMost(n - 1) else NoLimit
    }
  }

  datatype Pattern =
    | Chars(k: Class)                                // one character of the class
    | Then(first: Pattern, second: Pattern)
    | Either(first: Pattern, second: Pattern)        // first branch tried first
    | Repeat(body: Pattern, min: nat, max: Limit)    // greedy
    | Boundary                                       // \b
    | NotAfter(k: Class)                             // (?<!k)
    | NotBefore(k: Class)                            // (?!k)

  predicate HasBefore(k: Class, s: string, i: nat) { 0 < i <= |s| && Has(k, s[i - 1]) }

  predicate HasAt(k: Class, s: string, i: nat) { i < |s| && Has(k, s[i]) }

  /** Ends of matches, most preferred first. */
  datatype Tries = Fail | Try(end: nat, rest: Tries)

  ghost function Or(a: Tries, b: Tries): Tries {
    match a
    case Fail => b
    case Try(e, rest) => Try(e, Or(rest, b))
  }

  /** Where a match of p starting at i can end. */
  ghost function Matches(p: Pattern, s: string, i: nat): Tries
    decreases p, 0, |s|
  {
    match p
    case Chars(k) => if HasAt(k, s, i) then Try(i + 1, Fail) else Fail
    case Then(a, b) => Thread(b, s, Matches(a, s, i))
    case Either(a, b) => Or(Matches(a, s, i), Matches(b, s, i))
    case Repeat(body, min, max) => Repetitions(body, min, max, s, i)
    case Boundary => if HasBefore(Word, s, i) != HasAt(Word, s, i) then Try(i, Fail) else Fail
    case NotAfter(k) => if HasBefore(k, s, i) then Fail else Try(i, Fail)
    case NotBefore(k) => if HasAt(k, s, i) then Fail else Try(i, Fail)
  }

  /** p tried from each of the starts in turn. */
  ghost function Thread(p: Pattern, s: string, starts: Tries): Tries
    decreases p, 1, starts
  {
    match starts
    case Fail => Fail
    case Try(i, rest) => Or(Matches(p, s, i), Thread(p, s, rest))
  }

  /** One more repetition first (greedy), then stopping here. */
  ghost function Repetitions(body: Pattern, min: nat, max: Limit, s: string, i: nat): Tries
    decreases body, 2, if i <= |s| then |s| - i else 0, 1
  {
    Or(if max.Done() then Fail else More(body, Pred(min), max.Less(), s, i, Matches(body, s, i)),
       if min == 0 then Try(i, Fail) else Fail)
  }

  /** The further repetitions after each of the ends; one that consumed nothing is not repeated. */
  ghost function More(body: Pattern, min: nat, max: Limit, s: string, i: nat, ends: Tries): Tries
    decreases body, 2, if i <= |s| then |s| - i else 0, 0, ends
  {
    match ends
    case Fail => Fail
    case Try(e, rest) =>
      Or(if i < e <= |s| then Repetitions(body, min, max, s, e) else Fail, More(body, min, max, s, i, rest))
  }

  function Pred(n: nat): nat { if n == 0 then 0 else n - 1 }

  /** Left to right, every leftmost match rewritten by f and every other byte kept: the pattern is
      tried at each place, and after a (non-empty) match the scan goes on at its end. */
  ghost function Rewrite(p: Pattern, f: string -> string, s: string, i: nat): string
    decreases |s| - i
  {
    if i >= |s| then ""
    else
      var m := Matches(p, s, i);
      if m.Fail? || !(i < m.end <= |s|) then [s[i]] + Rewrite(p, f, s, i + 1)
      else f(s[i..m.end]) + Rewrite(p, f, s, m.end)
  }

  // ----- Laws -----

  /** What a scanner has produced so far, followed by what the rest of the scan gives. */
  ghost predicate Progress(p: Pattern, f: string -> string, s: string, i: nat, done: string) {
    i <= |s| && Rewrite(p, f, s, 0) == done + Rewrite(p, f, s, i)
  }

  lemma ProgressMiss(p: Pattern, f: string -> string, s: string, i: nat, done: string)
    requires i < |s| && Progress(p, f, s, i, done) && Matches(p, s, i).Fail?
    ensures Progress(p, f, s, i + 1, done + [s[i]])
  {
    assert done + ([s[i]] + Rewrite(p, f, s, i + 1)) == done + [s[i]] + Rewrite(p, f, s, i + 1);
  }

  lemma ProgressEnd(p: Pattern, f: string -> string, s: string, done: string)
    requires Progress(p, f, s, |s|, done)
    ensures Rewrite(p, f, s, 0) == done
  {
    assert done + "" == done;
  }

  lemma ProgressHit(p: Pattern, f: string -> string, s: string, i: nat, end: nat, done: string)
    requires Progress(p, f, s, i, done)
    requires Matches(p, s, i).Try? && Matches(p, s, i).end == end && i < end <= |s|
    ensures Progress(p, f, s, end, done + f(s[i..end]))
  {
    assert done + (f(s[i..end]) + Rewrite(p, f, s, end)) == done + f(s[i..end]) + Rewrite(p, f, s, end);
  }

  lemma OrFail(a: Tries)
    ensures Or(a, Fail) == a
  {
  }

  lemma OrOne(e: nat, b: Tries)
    ensures Or(Try(e, Fail), b) == Try(e, b)
  {
    assert Or(Fail, b) == b;
  }

  lemma OrAssociative(a: Tries, b: Tries, c: Tries)
    ensures Or(Or(a, b), c) == Or(a, Or(b, c))
  {
  }

  lemma {:induction false} ThreadOr(p: Pattern, s: string, a: Tries, b: Tries)
    ensures Thread(p, s, Or(a, b)) == Or(Thread(p, s, a), Thread(p, s, b))
    decreases a
  {
    match a
    case Fail =>
    case Try(i, rest) =>
      ThreadOr(p, s, rest, b);
      OrAssociative(Matches(p, s, i), Thread(p, s, rest), Thread(p, s, b));
  }

  lemma ThreadOne(p: Pattern, s: string, i: nat)
    ensures Thread(p, s, Try(i, Fail)) == Matches(p, s, i)
  {
    OrFail(Matches(p, s, i));
  }

  lemma MoreAfterOne(body: Pattern, min: nat, max: Limit, s: string, i: nat, e: nat)
    requires i < e <= |s|
    ensures More(body, min, max, s, i, Try(e, Fail)) == Repetitions(body, min, max, s, e)
  {
    OrFail(Repetitions(body, min, max, s, e));
  }

  /** i + w*high, ..., i + w*low: greedy repetition of a body w characters wide. */
  ghost function Descent(i: nat, w: nat, low: nat, high: nat): Tries
    decreases high
  {
    if high < low then Fail
    else Try(i + w * high, if high == 0 then Fail else Descent(i, w, low, high - 1))
  }

  /** The same list, built from the far end as repetition builds it. */
  ghost function Climb(i: nat, w: nat, low: nat, n: nat): Tries
    decreases n
  {
    Or(if n == 0 then Fail else Climb(i + w, w, Pred(low), n - 1), if low == 0 then Try(i, Fail) else Fail)
  }

  lemma {:induction false} DescentShift(i: nat, w: nat, low: nat, high: nat)
    ensures Descent(i, w, low + 1, high + 1) == Descent(i + w, w, low, high)
    decreases high
  {
    assert i + w * (high + 1) == i + w + w * high;
    if low <= high && high > 0 { DescentShift(i, w, low, high - 1); }
  }

  lemma {:induction false} DescentLast(i: nat, w: nat, high: nat)
    ensures Descent(i, w, 0, high) == Or(Descent(i, w, 1, high), Try(i, Fail))
    decreases high
  {
    if high == 0 { assert i + w * high == i; } else { DescentLast(i, w, high - 1); }
  }

  lemma {:induction false} ClimbIsDescent(i: nat, w: nat, low: nat, n: nat)
    ensures Climb(i, w, low, n) == Descent(i, w, low, n)
    decreases n
  {
    if n == 0 {
      assert i + w * n == i;
    } else {
      ClimbIsDescent(i + w, w, Pred(low), n - 1);
      DescentShift(i, w, Pred(low), n - 1);
      if low == 0 { DescentLast(i, w, n); } else { OrFail(Climb(i + w, w, low - 1, n - 1)); }
    }
  }

  /** Every match of body is w characters long, and there is at most one from any start. */
  ghost predicate FixedWidth(body: Pattern, s: string, w: nat) {
    forall i: nat :: Matches(body, s, i).Try? ==> Matches(body, s, i) == Try(i + w, Fail) && i + w <= |s|
  }

  /** How many times body can be repeated from i, up to max. */
  ghost function Count(body: Pattern, s: string, w: nat, i: nat, max: nat): (n: nat)
    ensures n <= max
    decreases |s| - i
  {
    if max == 0 || Matches(body, s, i).Fail? || w == 0 || i + w > |s| then 0 else 1 + Count(body, s, w, i + w, max - 1)
  }

  lemma {:induction false} RepeatClimbs(body: Pattern, min: nat, max: nat, s: string, w: nat, i: nat)
    requires FixedWidth(body, s, w) && w > 0
    ensures Repetitions(body, min, AtMost(max), s, i) == Climb(i, w, min, Count(body, s, w, i, max))
    decreases max
  {
    if max > 0 && Matches(body, s, i).Try? {
      MoreAfterOne(body, Pred(min), AtMost(max - 1), s, i, i + w);
      RepeatClimbs(body, Pred(min), max - 1, s, w, i + w);
    }
  }

  lemma FixedRepeat(body: Pattern, min: nat, max: nat, s: string, w: nat, i: nat)
    requires FixedWidth(body, s, w) && w > 0
    ensures Matches(Repeat(body, min, AtMost(max)), s, i) == Descent(i, w, min, Count(body, s, w, i, max))
  {
    RepeatClimbs(body, min, max, s, w, i);
    ClimbIsDescent(i, w, min, Count(body, s, w, i, max));
  }

  /** How many characters of the class follow i. */
  ghost function RunOf(k: Class, s: string, i: nat): (n: nat)
    ensures n > 0 ==> i + n <= |s|
    ensures forall j :: i <= j < i + n ==> HasAt(k, s, j)
    ensures !HasAt(k, s, i + n)
    decreases |s| - i
  {
    if HasAt(k, s, i) then 1 + RunOf(k, s, i + 1) else 0
  }

  lemma {:induction false} ManyClimbs(k: Class, min: nat, s: string, i: nat)
    ensures Repetitions(Chars(k), min, NoLimit, s, i) == Climb(i, 1, min, RunOf(k, s, i))
    decreases |s| - i
  {
    if HasAt(k, s, i) {
      MoreAfterOne(Chars(k), Pred(min), NoLimit, s, i, i + 1);
      ManyClimbs(k, Pred(min), s, i + 1);
    }
  }

  lemma ManyChars(k: Class, min: nat, s: string, i: nat)
    ensures Matches(Repeat(Chars(k), min, NoLimit), s, i) == Descent(i, 1, min, RunOf(k, s, i))
  {
    ManyClimbs(k, min, s, i);
    ClimbIsDescent(i, 1, min, RunOf(k, s, i));
  }

  lemma CharsFixed(k: Class, s: string)
    ensures FixedWidth(Chars(k), s, 1)
  {
  }
}
