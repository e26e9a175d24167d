/** The cursor loops of src/sql_statement.c, against the rules in SqlMask. */
module SqlScan {
  import opened Common
  import opened Ascii
  import opened SqlMask
  import opened SqlNumber
  import opened SqlRules
  import opened Regex

  lemma RunStep(k: Kind, s: string, i: nat)
    requires i <= |s|
    ensures Run(k, s[i..]) == if i < |s| && Of(k, s[i]) then 1 + Run(k, s[i + 1..]) else 0
  {
    if i < |s| { assert s[i..][1..] == s[i + 1..]; }
  }

  method RunEnd(k: Kind, s: string, i: nat) returns (end: nat)
    requires i <= |s|
    ensures end == i + Run(k, s[i..])
  {
    hide Run;
    end := i;
    RunStep(k, s, end);
    while end < |s| && Of(k, s[end])
      invariant i <= end <= |s| && Run(k, s[i..]) == end - i + Run(k, s[end..])
    {
      RunStep(k, s, end);
      end := end + 1;
    }
    RunStep(k, s, end);
  }

  lemma QuotedStep(quote: char, s: string, j: nat)
    requires j < |s|
    ensures Quoted(quote, s[j..]) ==
            if s[j] == '\\' then if j + 1 == |s| then 1 else 2 + Quoted(quote, s[j + 2..])
            else if s[j] == quote then if j + 1 == |s| || s[j + 1] != quote then 1 else 2 + Quoted(quote, s[j + 2..])
            else 1 + Quoted(quote, s[j + 1..])
  {
    assert s[j..][1..] == s[j + 1..];
    if j + 1 < |s| { assert s[j..][2..] == s[j + 2..]; }
  }

  method QuotedEnd(s: string, open: nat) returns (end: nat)
    requires open < |s|
    ensures end == open + 1 + Quoted(s[open], s[open + 1..])
  {
    hide Quoted;
    var quote := s[open];
    var j := open + 1;
    ghost var all := Quoted(quote, s[open + 1..]);
    while j < |s|
      invariant open < j <= |s| + 1
      invariant if j <= |s| then all == j - (open + 1) + Quoted(quote, s[j..]) else all == |s| - (open + 1)
    {
      QuotedStep(quote, s, j);
      if s[j] == '\\' {
        j := j + 2;
      } else if s[j] == quote {
        if j + 1 >= |s| || s[j + 1] != quote { return j + 1; }
        j := j + 2;
      } else {
        j := j + 1;
      }
    }
    end := |s|;
  }

  lemma ClosingStep(tag: string, s: string, k: nat)
    requires k <= |s|
    ensures Closing(tag, s[k..]) ==
            if |s| - k < |tag| then |s| - k
            else if s[k..k + |tag|] == tag then |tag|
            else if k == |s| then Closing(tag, s[k..]) else 1 + Closing(tag, s[k + 1..])
  {
    var u := s[k..];
    if |s| - k >= |tag| {
      assert u[..|tag|] == s[k..k + |tag|];
      assert tag <= u <==> u[..|tag|] == tag;
      if k < |s| { assert u[1..] == s[k + 1..]; }
    }
  }

  /** Where the dollar-quoted body starting at i ends; found is false when none starts there. */
  method DollarEnd(s: string, i: nat) returns (end: nat, found: bool)
    requires i < |s| && s[i] == '$'
    ensures found <==> Dollar(s[i..]) > 0
    ensures found ==> end == i + Dollar(s[i..])
  {
    hide Dollar, Run, Closing;
    var j := RunEnd(Tag, s, i + 1);
    DollarIs(s, i, j);
    end, found := i, false;
    if j < |s| && s[j] == '$' {
      end := ClosingEnd(s[i..j + 1], s, j + 1);
      found := true;
    }
  }

  method ClosingEnd(tag: string, s: string, from: nat) returns (end: nat)
    requires from <= |s| && tag != ""
    ensures end == from + Closing(tag, s[from..])
  {
    hide Closing;
    var k := from;
    while k + |tag| <= |s|
      invariant from <= k <= |s| && Closing(tag, s[from..]) == k - from + Closing(tag, s[k..])
    {
      ClosingStep(tag, s, k);
      if s[k..k + |tag|] == tag { return k + |tag|; }
      k := k + 1;
    }
    ClosingStep(tag, s, k);
    end := |s|;
  }

  lemma DollarIs(s: string, i: nat, j: nat)
    requires i < |s| && s[i] == '$' && j == i + 1 + Run(Tag, s[i + 1..])
    ensures Dollar(s[i..]) == if j < |s| && s[j] == '$' then j + 1 - i + Closing(s[i..j + 1], s[j + 1..]) else 0
  {
    hide Run, Closing;
    var u := s[i..];
    assert u[1..] == s[i + 1..];
    if j < |s| {
      assert u[..j - i + 1] == s[i..j + 1] && u[j - i + 1..] == s[j + 1..];
    }
  }

  predicate EndsAt(s: string, k: nat)
    requires k <= |s|
    ensures EndsAt(s, k) == EndsHere(s[k..])
  {
    k == |s| || !IsWord(s[k])
  }

  method FractionEnd(s: string, dot: nat) returns (end: int)
    requires dot <= |s|
    ensures end == if Fraction(s[dot..]) >= 0 then dot + Fraction(s[dot..]) else -1
  {
    if dot + 1 < |s| && s[dot] == '.' && IsDigit(s[dot + 1]) {
      assert s[dot..][1..] == s[dot + 1..];
      end := RunEnd(Decimal, s, dot + 1);
    } else {
      end := -1;
    }
  }

  method ExponentEnd(s: string, i: nat) returns (end: int)
    requires i <= |s|
    ensures end == if Exponent(s[i..]) >= 0 then i + Exponent(s[i..]) else -1
  {
    if i >= |s| || (s[i] != 'e' && s[i] != 'E') { return -1; }
    var k := i + 1;
    if k < |s| && (s[k] == '+' || s[k] == '-') { k := k + 1; }
    assert s[i..][k - i..] == s[k..];
    var e := RunEnd(Decimal, s, k);
    end := if e > k then e else -1;
  }

  /** A mantissa ending at m (or -1), with its exponent, then without. */
  method MantissaEnd(s: string, i: nat, m: int) returns (end: int)
    requires i <= |s| && m <= |s| && (m >= 0 ==> i <= m)
    ensures var n := WithExponent(s[i..], if m < 0 then -1 else m - i); end == if n >= 0 then i + n else -1
  {
    hide Exponent;
    if m < 0 { return -1; }
    assert s[i..][m - i..] == s[m..];
    var e := ExponentEnd(s, m);
    if e >= 0 {
      assert s[i..][e - i..] == s[e..];
      if EndsAt(s, e) { return e; }
    }
    end := if EndsAt(s, m) then m else -1;
  }

  method RadixEnd(s: string, i: nat) returns (end: int)
    requires i <= |s|
    ensures end == if Radix(s[i..]) >= 0 then i + Radix(s[i..]) else -1
  {
    if i + 1 < |s| && s[i] == '0' && s[i + 1] in "xXbB" {
      assert s[i..][2..] == s[i + 2..];
      var k := RunEnd(if s[i + 1] in "xX" then Hex else Binary, s, i + 2);
      assert s[i..][k - i..] == s[k..];
      if k > i + 2 && EndsAt(s, k) { return k; }
    }
    end := -1;
  }

  /** Where the longest standalone number that starts at i ends, or -1. */
  method NumberEnd(s: string, i: nat) returns (end: int)
    requires i < |s|
    ensures end == if Number(s[i..]) >= 0 then i + Number(s[i..]) else -1
    ensures end >= 0 ==> end >= i && Standalone(s[i..], end - i)
    ensures forall n: nat :: Standalone(s[i..], n) ==> i + n <= end
  {
    NumberIsLongest(s[i..]);
    end := FirstReading(s, i);
  }

  /** The readings in the order they are tried, the first that stands alone. */
  method FirstReading(s: string, i: nat) returns (end: int)
    requires i < |s|
    ensures end == if Number(s[i..]) >= 0 then i + Number(s[i..]) else -1
  {
    hide Radix, Fraction, WithExponent, Run;
    end := RadixEnd(s, i);
    if end >= 0 { return; }
    var whole := RunEnd(Decimal, s, i);
    assert s[i..][whole - i..] == s[whole..];
    var fraction := FractionEnd(s, whole);
    FractionFits(s, whole);
    end := MantissaEnd(s, i, fraction);
    if end < 0 { end := MantissaEnd(s, i, if whole > i then whole else -1); }
  }

  lemma FractionFits(s: string, i: nat)
    requires i <= |s|
    ensures Fraction(s[i..]) <= |s| - i
  {
  }

  /** The position of the quote that opens the literal starting at i; -1 for no literal. */
  method StringQuote(s: string, i: nat) returns (quote: int)
    requires i < |s|
    ensures var p := Prefix(Before('\0', s, i), s[i..]); quote == if p >= 0 then i + p else -1
    ensures var m := Matches(OPENING, s, i); quote == if m.Try? then m.end - 1 else -1
  {
    OpeningIsMatch(s, i);
    quote := FindQuote(s, i);
  }

  method FindQuote(s: string, i: nat) returns (quote: int)
    requires i < |s|
    ensures var p := Prefix(Before('\0', s, i), s[i..]); quote == if p >= 0 then i + p else -1
  {
    if s[i] == '\'' { return i; }
    if i > 0 && (IsWord(s[i - 1]) || s[i - 1] == '$') { return -1; }
    var at := i;
    if s[i] in "EeXxNnBb" {
      at := i + 1;
    } else if (s[i] == 'U' || s[i] == 'u') && i + 1 < |s| && s[i + 1] == '&' {
      at := i + 2;
    } else {
      return -1;
    }
    quote := if at < |s| && s[at] == '\'' then at else -1;
  }

  method OpeningAt(s: string, i: nat, doubleQuoted: bool) returns (quote: int)
    requires i < |s|
    ensures var q := Opening(Before('\0', s, i), s[i..], doubleQuoted); quote == if q >= 0 then i + q else -1
  {
    hide Prefix;
    quote := StringQuote(s, i);
    if quote < 0 && doubleQuoted && s[i] == '"' { quote := i; }
  }

  lemma NextIs(prev: char, u: string, doubleQuoted: bool)
    requires u != ""
    ensures var q, next := Opening(prev, u, doubleQuoted), Next(prev, u, doubleQuoted);
            && (q >= 0 ==> next == Step("?", q + 1 + Quoted(u[q], u[q + 1..])))
            && (q < 0 && u[0] == '$' ==> next == if Dollar(u) > 0 then Step("?", Dollar(u)) else Step([u[0]], 1))
            && (q < 0 && (IsDigit(u[0]) || u[0] == '.') ==>
                  next == if IsWord(prev) || prev == '$' || prev == '.' || Number(u) <= 0 then Step([u[0]], 1)
                          else Step("?", Number(u)))
            && (q < 0 && u[0] != '$' && !IsDigit(u[0]) && u[0] != '.' ==> next == Step([u[0]], 1))
  {
    hide Opening, Quoted, Dollar, Number;
  }

  /** One turn of the main loop at i. */
  method Turn(s: string, i: nat, doubleQuoted: bool) returns (text: string, end: nat)
    requires i < |s|
    ensures i < end <= |s| && Next(Before('\0', s, i), s[i..], doubleQuoted) == Step(text, end - i)
  {
    hide Opening, Quoted, Dollar, Number, Next, Standalone, Matches;
    var c := s[i];
    ghost var prev, u := Before('\0', s, i), s[i..];
    NextIs(prev, u, doubleQuoted);
    var quote := OpeningAt(s, i, doubleQuoted);
    if quote >= 0 {
      assert s[i..][quote - i + 1..] == s[quote + 1..];
      end := QuotedEnd(s, quote);
      return "?", end;
    } else if c == '$' {
      var dollarEnd, found := DollarEnd(s, i);
      if found { return "?", dollarEnd; }
    } else if IsDigit(c) || c == '.' {
      var partOfSomething := i > 0 && (IsWord(s[i - 1]) || s[i - 1] == '$' || s[i - 1] == '.');
      var numberEnd := -1;
      if !partOfSomething { numberEnd := NumberEnd(s, i); }
      NumberIsLong(s[i..]);
      if numberEnd >= 0 { return "?", numberEnd; }
    }
    text, end := [c], i + 1;
  }

  /** A number that was found is not empty. */
  lemma NumberIsLong(u: string)
    ensures Number(u) != 0
  {
    hide Run;
  }

  /** forgeops_sql_mask_for_system, doubleQuoted saying whether the system is MySQL or MariaDB. */
  method MaskStatement(s: string, doubleQuoted: bool) returns (r: Option<string>)
    ensures r == Mask(s, doubleQuoted)
  {
    hide Masked, Next, Cut;
    var first := 0;
    while first < |s| && IsSpace(s[first])
      invariant first <= |s| && Blank(s[..first])
    {
      first := first + 1;
    }
    if first == |s| {
      assert s[..|s|] == s;
      return None;
    }
    assert !IsSpace(s[first]);
    var out := "";
    var i := 0;
    assert s[0..] == s;
    while i < |s|
      invariant i <= |s| && Masked('\0', s, doubleQuoted) == out + Masked(Before('\0', s, i), s[i..], doubleQuoted)
    {
      var text, end := Turn(s, i, doubleQuoted);
      MaskedStep(Before('\0', s, i), s[i..], doubleQuoted);
      Slices(s, i, end);
      out := out + text;
      i := end;
    }
    AllMasked(Before('\0', s, i), doubleQuoted);
    assert s[i..] == "" && out + "" == out;
    out := CutBack(out);
    r := Some(out);
  }

  method CutBack(out: string) returns (r: string)
    ensures r == Cut(out)
  {
    r := out;
    if |out| > MAX_SQL_LENGTH {
      hide BackUp;
      var cut: nat := MAX_SQL_LENGTH;
      while cut > 0 && IsContinuation(out[cut])
        invariant cut <= MAX_SQL_LENGTH && BackUp(out, MAX_SQL_LENGTH) == BackUp(out, cut)
      {
        BackStep(out, cut);
        cut := cut - 1;
      }
      BackStep(out, cut);
      r := out[..cut] + "...";
    }
  }

  lemma BackStep(out: string, n: nat)
    requires n < |out|
    ensures BackUp(out, n) == if n > 0 && IsContinuation(out[n]) then BackUp(out, n - 1) else n
  {
  }

  lemma AllMasked(p: char, doubleQuoted: bool)
    ensures Masked(p, "", doubleQuoted) == ""
  {
  }
}
