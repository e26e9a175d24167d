/** The SQL masker of src/sql_statement.c. What each rule takes is stated on the text that is left
    and the character just before it ('\0' at the start of the statement). */
module SqlMask {
  import opened Common
  import opened Ascii

  const MAX_SQL_LENGTH: nat := 4000

  predicate IsSpace(c: char) { c == ' ' || '\t' <= c <= '\r' }
  predicate IsHex(c: char) { IsDigit(c) || 'a' <= c <= 'f' || 'A' <= c <= 'F' }
  predicate IsBinary(c: char) { c == '0' || c == '1' }
  predicate IsTagChar(c: char) { c == '_' || IsAlpha(c) }

  datatype Kind = Decimal | Hex | Binary | Tag

  predicate Of(k: Kind, c: char) {
    match k
    case Decimal => IsDigit(c)
    case Hex => IsHex(c)
    case Binary => IsBinary(c)
    case Tag => IsTagChar(c)
  }

  /** How many characters of the kind u starts with. */
  function Run(k: Kind, u: string): (n: nat)
    ensures n <= |u| && (forall i :: 0 <= i < n ==> Of(k, u[i])) && (n < |u| ==> !Of(k, u[n]))
  {
    if u != "" && Of(k, u[0]) then 1 + Run(k, u[1..]) else 0
  }

  // ----- Literals -----

  /** The number of characters in front of the quote that opens a string: none, or those of a marker
      like E or U& that stands free. -1 if u does not begin with a string. */
  function Prefix(prev: char, u: string): (n: int)
    requires u != ""
    ensures n <= 2 && (n >= 0 ==> n < |u| && u[n] == '\'') && (u[0] == '\'' ==> n == 0)
  {
    if u[0] == '\'' then 0
    else if IsWord(prev) || prev == '$' then -1
    else if u[0] in "EeXxNnBb" then if |u| > 1 && u[1] == '\'' then 1 else -1
    else if u[0] in "Uu" && |u| > 1 && u[1] == '&' then if |u| > 2 && u[2] == '\'' then 2 else -1
    else -1
  }

  /** How much of u, the text after an opening quote, belongs to the literal, its closing quote
      included: a backslash escapes the next character, a doubled quote is one quote, and a literal
      that is not closed takes everything. */
  function Quoted(quote: char, u: string): (n: nat)
    ensures n <= |u| && (u != "" ==> n > 0)
  {
    if u == "" then 0
    else if u[0] == '\\' then if |u| == 1 then 1 else 2 + Quoted(quote, u[2..])
    else if u[0] == quote then if |u| == 1 || u[1] != quote then 1 else 2 + Quoted(quote, u[2..])
    else 1 + Quoted(quote, u[1..])
  }

  /** Where tag first ends in u, or all of u. */
  function Closing(tag: string, u: string): (n: nat)
    ensures n <= |u| && (n < |u| ==> n >= |tag|)
  {
    if |u| < |tag| then |u| else if tag <= u then |tag| else 1 + Closing(tag, u[1..])
  }

  /** How long the dollar-quoted body is that starts with the "$" u starts with, or 0. */
  function Dollar(u: string): (n: nat)
    requires u != "" && u[0] == '$'
    ensures n <= |u|
  {
    var j := 1 + Run(Tag, u[1..]);
    if j < |u| && u[j] == '$' then j + 1 + Closing(u[..j + 1], u[j + 1..]) else 0
  }

  // ----- Numbers: lengths, -1 when there is none -----

  function Fraction(u: string): int { if |u| > 1 && u[0] == '.' && IsDigit(u[1]) then 1 + Run(Decimal, u[1..]) else -1 }

  function Exponent(u: string): (n: int)
    ensures n <= |u|
  {
    if u == "" || u[0] !in "eE" then -1
    else
      var k := if |u| > 1 && u[1] in "+-" then 2 else 1;
      var digits := Run(Decimal, u[k..]);
      if digits > 0 then k + digits else -1
  }

  predicate EndsHere(u: string) { u == "" || !IsWord(u[0]) }

  /** A mantissa of length m, with its exponent if that leaves a standalone number, then without. */
  function WithExponent(u: string, m: int): (n: int)
    requires m <= |u|
    ensures n <= |u| && (n >= 0 ==> m >= 0)
  {
    if m < 0 then -1
    else
      var e := Exponent(u[m..]);
      if e >= 0 && EndsHere(u[m + e..]) then m + e
      else if EndsHere(u[m..]) then m
      else -1
  }

  function Radix(u: string): (n: int)
    ensures n <= |u|
  {
    if |u| > 1 && u[0] == '0' && u[1] in "xXbB" then
      var digits := Run(if u[1] in "xX" then Hex else Binary, u[2..]);
      if digits > 0 && EndsHere(u[2 + digits..]) then 2 + digits else -1
    else -1
  }

  function Number(u: string): (n: int)
    ensures n <= |u|
  {
    if Radix(u) >= 0 then Radix(u)
    else
      var whole := Run(Decimal, u);
      var fraction := Fraction(u[whole..]);
      var long := WithExponent(u, if fraction >= 0 then whole + fraction else -1);
      if long >= 0 then long else WithExponent(u, if whole > 0 then whole else -1)
  }

  // ----- One step of the scan, and the scan -----

  datatype Step = Step(text: string, length: nat)

  /** Where the opening quote of the literal starting here is, or -1. */
  function Opening(prev: char, u: string, doubleQuoted: bool): (n: int)
    requires u != ""
    ensures n <= 2 && (n >= 0 ==> n < |u| && (u[n] == '\'' || (doubleQuoted && n == 0 && u[n] == '"')))
    ensures u[0] == '\'' || (doubleQuoted && u[0] == '"') ==> n >= 0
  {
    if Prefix(prev, u) >= 0 then Prefix(prev, u) else if doubleQuoted && u[0] == '"' then 0 else -1
  }

  function Next(prev: char, u: string, doubleQuoted: bool): (st: Step)
    requires u != ""
    ensures 0 < st.length <= |u|
  {
    var q := Opening(prev, u, doubleQuoted);
    if q >= 0 then Step("?", q + 1 + Quoted(u[q], u[q + 1..]))
    else if u[0] == '$' then if Dollar(u) > 0 then Step("?", Dollar(u)) else Step([u[0]], 1)
    else if IsDigit(u[0]) || u[0] == '.' then
      if IsWord(prev) || prev == '$' || prev == '.' || Number(u) <= 0 then Step([u[0]], 1) else Step("?", Number(u))
    else Step([u[0]], 1)
  }

  function Masked(prev: char, u: string, doubleQuoted: bool): string
    decreases |u|
  {
    if u == "" then ""
    else
      var st := Next(prev, u, doubleQuoted);
      st.text + Masked(u[st.length - 1], u[st.length..], doubleQuoted)
  }

  /** Output over the limit ends in dots, after its last whole character that fits. */
  function Cut(out: string): string {
    if |out| <= MAX_SQL_LENGTH then out else out[..BackUp(out, MAX_SQL_LENGTH)] + "..."
  }

  predicate Blank(s: string) { forall i :: 0 <= i < |s| ==> IsSpace(s[i]) }

  function Mask(s: string, doubleQuoted: bool): Option<string> {
    if Blank(s) then None else Some(Cut(Masked('\0', s, doubleQuoted)))
  }

  // ----- No quote is ever left -----

  lemma NextText(prev: char, u: string, doubleQuoted: bool)
    requires u != ""
    ensures var st := Next(prev, u, doubleQuoted);
            st.text == "?" || (st.text == [u[0]] && u[0] != '\'' && !(doubleQuoted && u[0] == '"'))
  {
    hide Opening, Number, Dollar, Quoted;
  }

  lemma {:induction false} MaskedHasNoQuote(prev: char, u: string, doubleQuoted: bool)
    ensures '\'' !in Masked(prev, u, doubleQuoted)
    ensures doubleQuoted ==> '"' !in Masked(prev, u, doubleQuoted)
    decreases |u|
  {
    hide Next;
    if u != "" {
      var st := Next(prev, u, doubleQuoted);
      NextText(prev, u, doubleQuoted);
      MaskedHasNoQuote(u[st.length - 1], u[st.length..], doubleQuoted);
    }
  }

  /** The output holds no single quote, and for MySQL and MariaDB no double quote either. */
  lemma NoQuoteLeft(s: string, doubleQuoted: bool)
    requires !Blank(s)
    ensures '\'' !in Mask(s, doubleQuoted).value
    ensures doubleQuoted ==> '"' !in Mask(s, doubleQuoted).value
  {
    hide Masked, BackUp;
    MaskedHasNoQuote('\0', s, doubleQuoted);
  }

  // ----- What a literal says does not matter -----

  /** Starting from u, the scan comes to stand n characters further on. */
  ghost predicate Reaches(prev: char, u: string, doubleQuoted: bool, n: nat)
    decreases |u|
  {
    || n == 0
    || (u != "" &&
        var st := Next(prev, u, doubleQuoted);
        st.length <= n && Reaches(u[st.length - 1], u[st.length..], doubleQuoted, n - st.length))
  }

  /** u and v are the same up to and including a quote at m. */
  ghost predicate SameTo(u: string, v: string, m: nat) {
    m < |u| && m < |v| && u[..m + 1] == v[..m + 1] && (u[m] == '\'' || u[m] == '"')
  }

  lemma SameAt(u: string, v: string, m: nat, i: nat)
    requires SameTo(u, v, m) && i <= m
    ensures i < |u| && i < |v| && u[i] == v[i]
  {
    assert u[i] == u[..m + 1][i] && v[i] == v[..m + 1][i];
  }

  lemma SameFrom(u: string, v: string, m: nat, i: nat)
    requires SameTo(u, v, m) && i <= m
    ensures i < |u| && i < |v| && SameTo(u[i..], v[i..], m - i)
  {
    assert u[i..][..m - i + 1] == u[..m + 1][i..];
    assert v[i..][..m - i + 1] == v[..m + 1][i..];
  }

  /** A run stops at the quote at the latest, and so does not see beyond it. */
  lemma RunSame(k: Kind, u: string, v: string, m: nat)
    requires SameTo(u, v, m)
    ensures Run(k, u) == Run(k, v) <= m
  {
    hide Run;
    var a, b := Run(k, u), Run(k, v);
    SameAt(u, v, m, m);
    assert a <= m && b <= m;
    SameAt(u, v, m, a);
    SameAt(u, v, m, b);
  }

  lemma PrefixSame(prev: char, u: string, v: string, m: nat)
    requires SameTo(u, v, m)
    ensures Prefix(prev, u) == Prefix(prev, v)
  {
    SameAt(u, v, m, 0);
    if m > 0 { SameAt(u, v, m, 1); }
    if m > 1 { SameAt(u, v, m, 2); }
  }

  lemma {:induction false} QuotedSame(quote: char, u: string, v: string, m: nat)
    requires SameTo(u, v, m) && Quoted(quote, u) <= m
    ensures Quoted(quote, v) == Quoted(quote, u)
    decreases |u|
  {
    SameAt(u, v, m, 0);
    if m > 0 { SameAt(u, v, m, 1); }
    if u[0] == '\\' {
      if m > 1 {
        SameFrom(u, v, m, 2);
        QuotedSame(quote, u[2..], v[2..], m - 2);
      }
    } else if u[0] == quote {
      if m > 1 && u[1] == quote {
        SameFrom(u, v, m, 2);
        QuotedSame(quote, u[2..], v[2..], m - 2);
      }
    } else if m > 0 {
      SameFrom(u, v, m, 1);
      QuotedSame(quote, u[1..], v[1..], m - 1);
    }
  }

  lemma {:induction false} ClosingSame(tag: string, u: string, v: string, m: nat)
    requires SameTo(u, v, m) && Closing(tag, u) <= m && tag != ""
    ensures Closing(tag, v) == Closing(tag, u)
    decreases |u|
  {
    if |tag| <= m { TagSame(tag, u, v, m); }
    if !(tag <= u) {
      SameFrom(u, v, m, 1);
      ClosingSame(tag, u[1..], v[1..], m - 1);
    }
  }

  lemma TagSame(tag: string, u: string, v: string, m: nat)
    requires SameTo(u, v, m) && |tag| <= m
    ensures tag <= u <==> tag <= v
  {
    assert forall i :: 0 <= i < |tag| ==> u[i] == u[..m + 1][i] == v[..m + 1][i] == v[i];
  }

  lemma NoDollarThere(u: string, v: string, m: nat)
    requires SameTo(u, v, m)
    ensures m < |u| && u[m] != '$'
  {
  }

  lemma SameTag(u: string, v: string, m: nat, j: nat)
    requires SameTo(u, v, m) && j <= m
    ensures u[..j + 1] == v[..j + 1]
  {
    assert u[..j + 1] == u[..m + 1][..j + 1] && v[..j + 1] == v[..m + 1][..j + 1];
  }

  lemma DollarSame(u: string, v: string, m: nat)
    requires SameTo(u, v, m) && u[0] == '$' && Dollar(u) <= m
    ensures v[0] == '$' && Dollar(v) == Dollar(u)
  {
    hide Run, Closing, SameTo;
    NoDollarThere(u, v, m);
    SameAt(u, v, m, 0);
    SameFrom(u, v, m, 1);
    RunSame(Tag, u[1..], v[1..], m - 1);
    var j := 1 + Run(Tag, u[1..]);
    SameAt(u, v, m, j);
    if u[j] == '$' {
      SameFrom(u, v, m, j + 1);
      SameTag(u, v, m, j);
      ClosingSame(u[..j + 1], u[j + 1..], v[j + 1..], m - j - 1);
    }
  }

  lemma FractionSame(u: string, v: string, m: nat)
    requires SameTo(u, v, m)
    ensures Fraction(u) == Fraction(v) <= m
  {
    hide Run;
    SameAt(u, v, m, 0);
    if m > 0 {
      SameAt(u, v, m, 1);
      SameFrom(u, v, m, 1);
      RunSame(Decimal, u[1..], v[1..], m - 1);
    }
  }

  lemma ExponentSame(u: string, v: string, m: nat)
    requires SameTo(u, v, m)
    ensures Exponent(u) == Exponent(v) <= m
  {
    hide Run;
    SameAt(u, v, m, 0);
    if m > 0 {
      SameAt(u, v, m, 1);
      var k := if u[1] in "+-" then 2 else 1;
      if u[0] in "eE" && k <= m {
        SameFrom(u, v, m, k);
        RunSame(Decimal, u[k..], v[k..], m - k);
      }
    }
  }

  lemma EndsSame(u: string, v: string, m: nat, k: nat)
    requires SameTo(u, v, m) && k <= m
    ensures EndsHere(u[k..]) == EndsHere(v[k..])
  {
    SameAt(u, v, m, k);
  }

  lemma WithExponentSame(u: string, v: string, m: nat, k: int)
    requires SameTo(u, v, m) && k <= m
    ensures WithExponent(u, k) == WithExponent(v, k)
  {
    hide Exponent, EndsHere;
    if k >= 0 {
      SameFrom(u, v, m, k);
      ExponentSame(u[k..], v[k..], m - k);
      EndsSame(u, v, m, k);
      var e := Exponent(u[k..]);
      if e >= 0 { EndsSame(u, v, m, k + e); }
    }
  }

  lemma RadixSame(u: string, v: string, m: nat)
    requires SameTo(u, v, m)
    ensures Radix(u) == Radix(v)
  {
    hide Run, EndsHere;
    SameAt(u, v, m, 0);
    if m > 0 { SameAt(u, v, m, 1); }
    if m > 1 {
      SameFrom(u, v, m, 2);
      var k := if u[1] in "xX" then Hex else Binary;
      RunSame(k, u[2..], v[2..], m - 2);
      EndsSame(u, v, m, 2 + Run(k, u[2..]));
    }
  }

  lemma NumberSame(u: string, v: string, m: nat)
    requires SameTo(u, v, m)
    ensures Number(u) == Number(v)
  {
    hide Run, Fraction, Radix, WithExponent;
    RadixSame(u, v, m);
    RunSame(Decimal, u, v, m);
    var whole := Run(Decimal, u);
    SameFrom(u, v, m, whole);
    FractionSame(u[whole..], v[whole..], m - whole);
    var fraction := Fraction(u[whole..]);
    WithExponentSame(u, v, m, if fraction >= 0 then whole + fraction else -1);
    WithExponentSame(u, v, m, if whole > 0 then whole else -1);
  }

  lemma OpeningSame(prev: char, u: string, v: string, doubleQuoted: bool, m: nat)
    requires SameTo(u, v, m)
    ensures Opening(prev, u, doubleQuoted) == Opening(prev, v, doubleQuoted)
  {
    hide Prefix;
    PrefixSame(prev, u, v, m);
    SameAt(u, v, m, 0);
  }

  /** A step that ends before the literal is the same whatever the literal says. */
  lemma NextSame(prev: char, u: string, v: string, doubleQuoted: bool, m: nat)
    requires SameTo(u, v, m) && Next(prev, u, doubleQuoted).length <= m
    ensures Next(prev, v, doubleQuoted) == Next(prev, u, doubleQuoted)
  {
    hide Opening, Quoted, Dollar, Number;
    OpeningSame(prev, u, v, doubleQuoted, m);
    SameAt(u, v, m, 0);
    var q := Opening(prev, u, doubleQuoted);
    if q >= 0 {
      SameAt(u, v, m, q);
      SameFrom(u, v, m, q + 1);
      QuotedSame(u[q], u[q + 1..], v[q + 1..], m - q - 1);
    } else if u[0] == '$' {
      DollarSame(u, v, m);
    } else {
      NumberSame(u, v, m);
    }
  }

  function Before(prev: char, u: string, n: nat): char
    requires n <= |u|
  {
    if n == 0 then prev else u[n - 1]
  }

  /** Up to where both stand before the literal, both have written the same. */
  lemma {:induction false} MaskedSame(prev: char, u: string, v: string, doubleQuoted: bool, n: nat, m: nat)
    requires SameTo(u, v, m) && n <= m && Reaches(prev, u, doubleQuoted, n)
    requires var p := Before(prev, u, n); Masked(p, u[n..], doubleQuoted) == Masked(p, v[n..], doubleQuoted)
    ensures Masked(prev, u, doubleQuoted) == Masked(prev, v, doubleQuoted)
    decreases n
  {
    hide Next, Masked, Reaches;
    if n == 0 {
      assert u[0..] == u && v[0..] == v;
    } else {
      ReachesFurther(prev, u, doubleQuoted, n);
      var k := Next(prev, u, doubleQuoted).length;
      NextSame(prev, u, v, doubleQuoted, m);
      SameFrom(u, v, m, k);
      SameAt(u, v, m, k - 1);
      MaskedStep(prev, u, doubleQuoted);
      MaskedStep(prev, v, doubleQuoted);
      Slices(u, k, n);
      Slices(v, k, n);
      MaskedSame(u[k - 1], u[k..], v[k..], doubleQuoted, n - k, m - k);
    }
  }

  lemma ReachesFurther(prev: char, u: string, doubleQuoted: bool, n: nat)
    requires Reaches(prev, u, doubleQuoted, n) && n > 0 && n < |u|
    ensures var k := Next(prev, u, doubleQuoted).length; k <= n && Reaches(u[k - 1], u[k..], doubleQuoted, n - k)
  {
    hide Next;
  }

  lemma MaskedStep(prev: char, u: string, doubleQuoted: bool)
    requires u != ""
    ensures var st := Next(prev, u, doubleQuoted);
            Masked(prev, u, doubleQuoted) == st.text + Masked(u[st.length - 1], u[st.length..], doubleQuoted)
  {
    hide Next;
  }

  lemma Slices(u: string, k: nat, n: nat)
    requires k <= n <= |u|
    ensures u[k..][n - k..] == u[n..] && (n > k ==> u[k..][n - k - 1] == u[n - 1])
  {
  }

  /** A literal starts n characters into s, its opening quote at m. */
  ghost predicate LiteralAt(s: string, doubleQuoted: bool, n: nat, m: nat) {
    && n <= m < |s| && Reaches('\0', s, doubleQuoted, n)
    && Opening(Before('\0', s, n), s[n..], doubleQuoted) == m - n
  }

  lemma QuoteIsNotBlank(s: string, m: nat)
    requires m < |s| && (s[m] == '\'' || s[m] == '"')
    ensures !Blank(s)
  {
    assert !IsSpace(s[m]);
  }

  lemma MaskLiteral(p: char, w: string, doubleQuoted: bool, q: nat, text: string, rest: string)
    requires w != "" && Opening(p, w, doubleQuoted) == q && w[q + 1..] == text + rest
             && Quoted(w[q], text + rest) == |text|
    ensures Masked(p, w, doubleQuoted) ==
            "?" + Masked(if text == "" then w[q] else text[|text| - 1], rest, doubleQuoted)
  {
    hide Opening, Quoted, Masked, Number, Dollar;
    var k := q + 1 + |text|;
    assert Next(p, w, doubleQuoted) == Step("?", k);
    MaskedStep(p, w, doubleQuoted);
    Slices(w, q + 1, k);
    assert (text + rest)[|text|..] == rest;
  }

  /** The literal itself, whichever of the two texts it holds, gives "?" and the same rest. */
  lemma LiteralSame(p: char, w: string, w': string, doubleQuoted: bool, q: nat, text: string, text': string,
                    rest: string)
    requires SameTo(w, w', q) && Opening(p, w, doubleQuoted) == q && w[q + 1..] == text + rest
             && w'[q + 1..] == text' + rest
    requires Quoted(w[q], text + rest) == |text| && Quoted(w[q], text' + rest) == |text'|
    requires rest == "" || (text != "" && text' != "" && text[|text| - 1] == text'[|text'| - 1])
    ensures Masked(p, w, doubleQuoted) == Masked(p, w', doubleQuoted)
  {
    hide Opening, Quoted, Masked;
    OpeningSame(p, w, w', doubleQuoted, q);
    SameAt(w, w', q, q);
    MaskLiteral(p, w, doubleQuoted, q, text, rest);
    MaskLiteral(p, w', doubleQuoted, q, text', rest);
    if rest == "" {
      MaskedNothing(if text == "" then w[q] else text[|text| - 1],
                    if text' == "" then w[q] else text'[|text'| - 1], doubleQuoted);
    }
  }

  /** Two statements that differ only in what a literal says, its closing quote included, mask
      alike; when the literal is cut off (nothing follows it) it may also end in any way. */
  lemma LiteralIgnored(front: string, doubleQuoted: bool, n: nat, text: string, text': string, rest: string)
    requires front != "" && LiteralAt(front + (text + rest), doubleQuoted, n, |front| - 1)
    requires var quote := front[|front| - 1];
             Quoted(quote, text + rest) == |text| && Quoted(quote, text' + rest) == |text'|
    requires rest == "" || (text != "" && text' != "" && text[|text| - 1] == text'[|text'| - 1])
    ensures Mask(front + (text + rest), doubleQuoted) == Mask(front + (text' + rest), doubleQuoted)
  {
    hide *;
    SameWith(front, text + rest, text' + rest, doubleQuoted, n, text, text', rest);
  }

  lemma SameWith(front: string, a: string, b: string, doubleQuoted: bool, n: nat, text: string, text': string,
                 rest: string)
    requires front != "" && LiteralAt(front + a, doubleQuoted, n, |front| - 1)
    requires a == text + rest && b == text' + rest
    requires var quote := front[|front| - 1]; Quoted(quote, a) == |text| && Quoted(quote, b) == |text'|
    requires rest == "" || (text != "" && text' != "" && text[|text| - 1] == text'[|text'| - 1])
    ensures Mask(front + a, doubleQuoted) == Mask(front + b, doubleQuoted)
  {
    hide Masked, Next, Quoted, Opening, Reaches, Blank, Cut, SameTo, Mask, Before;
    var m := |front| - 1;
    var s, s' := front + a, front + b;
    LiteralQuote(s, doubleQuoted, n, m);
    TailsAfter(front, a, n);
    TailsAfter(front, b, n);
    SameFront(front, a, b);
    SameFrom(s, s', m, n);
    SameAround(s, s', s[n..], s'[n..], doubleQuoted, n, m, text, text', rest);
  }

  lemma SameAround(s: string, s': string, w: string, w': string, doubleQuoted: bool, n: nat, m: nat,
                   text: string, text': string, rest: string)
    requires SameTo(s, s', m) && n <= m < |s| && m < |s'| && w == s[n..] && w' == s'[n..]
    requires SameTo(w, w', m - n) && Reaches('\0', s, doubleQuoted, n)
    requires m - n < |w| && m - n < |w'| && w[m - n + 1..] == text + rest && w'[m - n + 1..] == text' + rest
    requires Opening(Before('\0', s, n), w, doubleQuoted) == m - n
    requires Quoted(w[m - n], text + rest) == |text| && Quoted(w[m - n], text' + rest) == |text'|
    requires rest == "" || (text != "" && text' != "" && text[|text| - 1] == text'[|text'| - 1])
    ensures Mask(s, doubleQuoted) == Mask(s', doubleQuoted)
  {
    hide Masked, Next, Quoted, Opening, Reaches, Blank, Cut, SameTo, Mask;
    LiteralSame(Before('\0', s, n), w, w', doubleQuoted, m - n, text, text', rest);
    SameRest(s, s', doubleQuoted, n, m);
  }

  lemma LiteralQuote(s: string, doubleQuoted: bool, n: nat, m: nat)
    requires LiteralAt(s, doubleQuoted, n, m)
    ensures n <= m < |s| && (s[m] == '\'' || s[m] == '"')
  {
    hide Opening, Reaches;
    assert s[n..][m - n] == s[m];
  }

  lemma SameRest(s: string, s': string, doubleQuoted: bool, n: nat, m: nat)
    requires SameTo(s, s', m) && n <= m < |s| && m < |s'| && Reaches('\0', s, doubleQuoted, n)
    requires var p := Before('\0', s, n); Masked(p, s[n..], doubleQuoted) == Masked(p, s'[n..], doubleQuoted)
    ensures Mask(s, doubleQuoted) == Mask(s', doubleQuoted)
  {
    SameAt(s, s', m, m);
    hide Masked, Next, Reaches, Blank, Cut;
    QuoteIsNotBlank(s, m);
    QuoteIsNotBlank(s', m);
    MaskedSame('\0', s, s', doubleQuoted, n, m);
  }

  lemma SameFront(front: string, a: string, b: string)
    requires front != "" && (front[|front| - 1] == '\'' || front[|front| - 1] == '"')
    ensures SameTo(front + a, front + b, |front| - 1)
  {
    assert (front + a)[..|front|] == front && (front + b)[..|front|] == front;
  }

  lemma TailsAfter(front: string, tail: string, n: nat)
    requires n < |front|
    ensures var s, m := front + tail, |front| - 1;
            s[m] == front[m] && s[n..][m - n] == s[m] && s[n..][m - n + 1..] == tail
  {
    assert (front + tail)[n..] == front[n..] + tail;
  }

  lemma MaskedNothing(p: char, p': char, doubleQuoted: bool)
    ensures Masked(p, "", doubleQuoted) == Masked(p', "", doubleQuoted)
  {
  }

  /** The inside of a closed literal: every quote doubled or behind a backslash. */
  predicate Escaped(quote: char, body: string) {
    if body == "" then true
    else if body[0] == '\\' then |body| > 1 && Escaped(quote, body[2..])
    else if body[0] == quote then |body| > 1 && body[1] == quote && Escaped(quote, body[2..])
    else Escaped(quote, body[1..])
  }

  /** A properly escaped text is closed by the quote after it; and, unless the statement ends
      there, only such a text is. */
  lemma {:induction false} EscapedIsClosed(quote: char, body: string, post: string)
    requires quote != '\\' && (post == "" || post[0] != quote)
    ensures Escaped(quote, body) ==> Quoted(quote, body + [quote] + post) == |body| + 1
    ensures post != "" && Quoted(quote, body + [quote] + post) == |body| + 1 ==> Escaped(quote, body)
    decreases |body|
  {
    var u := body + [quote] + post;
    if body == "" {
      assert u[0] == quote && (|u| > 1 ==> u[1] == post[0]);
    } else {
      assert u[0] == body[0] && u[1..] == body[1..] + [quote] + post;
      if |body| > 1 {
        assert u[1] == body[1] && u[2..] == body[2..] + [quote] + post;
        EscapedIsClosed(quote, body[2..], post);
      } else {
        assert u[1] == quote && u[2..] == post;
      }
      EscapedIsClosed(quote, body[1..], post);
    }
  }

  /** Replacing the inside of any quoted literal the masker reaches by any other properly escaped
      text leaves the whole masked statement as it is, truncation included. */
  lemma LiteralTextDoesNotMatter(pre: string, quote: char, body: string, body': string, post: string,
                                 doubleQuoted: bool, n: nat)
    requires LiteralAt(pre + [quote] + (body + [quote] + post), doubleQuoted, n, |pre|)
    requires Escaped(quote, body) && Escaped(quote, body') && (post == "" || post[0] != quote)
    ensures Mask(pre + [quote] + (body + [quote] + post), doubleQuoted) ==
            Mask(pre + [quote] + (body' + [quote] + post), doubleQuoted)
  {
    hide Masked, Next, Quoted, Reaches, Blank, Cut, Mask;
    TailsAfter(pre + [quote], body + [quote] + post, n);
    EscapedIsClosed(quote, body, post);
    EscapedIsClosed(quote, body', post);
    LiteralIgnored(pre + [quote], doubleQuoted, n, body + [quote], body' + [quote], post);
  }
}
