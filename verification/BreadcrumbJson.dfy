/** Reading an encoded breadcrumb back as JSON (RFC 8259): what src/breadcrumbs.c writes is not only
    one line that fits its slot, it says exactly what was put in. */
module BreadcrumbJson {
  import opened Ascii
  import opened BreadcrumbEntry

  // ----- A reader for the JSON the encoder uses: objects of strings, no white space -----

  function HexValue(c: char): nat {
    if '0' <= c <= '9' then c as int - '0' as int else if 'a' <= c <= 'f' then c as int - 'a' as int + 10 else 0
  }

  function Unescaped(c: char): char {
    if c == 'n' then '\n' else if c == 'r' then '\r' else if c == 't' then '\t' else c
  }

  datatype Read = Read(value: string, rest: string) {
    function After(c: char): Read { Read([c] + value, rest) }
  }

  /** The string whose opening quote has been read, and what follows its closing quote. */
  function ReadString(t: string): (r: Read)
    ensures |r.rest| <= |t|
    decreases |t|
  {
    if t == "" || t[0] == '"' then Read("", if t == "" then "" else t[1..])
    else if t[0] != '\\' || |t| == 1 then ReadString(t[1..]).After(t[0])
    else if t[1] == 'u' && |t| >= 6 then ReadString(t[6..]).After((HexValue(t[4]) * 16 + HexValue(t[5])) as char)
    else ReadString(t[2..]).After(Unescaped(t[1]))
  }

  /** What follows the expected text. */
  function Skip(t: string, expected: string): (r: string)
    ensures |r| <= |t|
  {
    if expected <= t then t[|expected|..] else ""
  }

  /** The string that stands after the name. */
  function ReadAfter(t: string, name: string): (r: Read)
    ensures |r.rest| <= |t|
  {
    ReadString(Skip(t, name + "\""))
  }

  datatype Members = Members(pairs: seq<Pair>, rest: string)

  function ReadPairs(t: string): Members
    decreases |t|
  {
    if !("\"" <= t) then Members([], t)
    else
      var key := ReadString(t[1..]);
      var value := ReadAfter(key.rest, ":");
      var pair := Pair(key.value, value.value);
      if "," <= value.rest then
        var more := ReadPairs(value.rest[1..]);
        Members([pair] + more.pairs, more.rest)
      else Members([pair], value.rest)
  }

  datatype Document = Document(entry: Entry, pairs: seq<Pair>, end: string)

  function ReadEntry(t: string): Document {
    var category := ReadAfter(t, "{\"category\":");
    var message := ReadAfter(category.rest, ",\"message\":");
    var level := ReadAfter(message.rest, ",\"level\":");
    var stamp := ReadAfter(level.rest, ",\"timestamp\":");
    var data := ReadPairs(Skip(stamp.rest, ",\"data\":{"));
    Document(Entry(message.value, category.value, level.value, stamp.value), data.pairs, data.rest)
  }

  // ----- Strings -----

  lemma ReadEscapedChar(c: char, t: string)
    ensures ReadString(EscapeChar(c) + t) == ReadString(t).After(c)
  {
    hide ReadString, HexDigit;
    if c in "\"\\\n\r\t" {
      ReadTwoChars(EscapeChar(c)[1], t);
    } else if c < ' ' {
      ReadUnicode(c, t);
    } else {
      ReadPlain(c, t);
    }
  }

  lemma ReadTwoChars(d: char, t: string)
    requires d != 'u'
    ensures ReadString(['\\', d] + t) == ReadString(t).After(Unescaped(d))
  {
    assert (['\\', d] + t)[2..] == t;
  }

  lemma ReadPlain(c: char, t: string)
    requires c != '"' && c != '\\'
    ensures ReadString([c] + t) == ReadString(t).After(c)
  {
    assert ([c] + t)[1..] == t;
  }

  lemma ReadUnicode(c: char, t: string)
    requires c < ' '
    ensures ReadString("\\u00" + [HexDigit(c as int / 16), HexDigit(c as int % 16)] + t) == ReadString(t).After(c)
  {
    hide HexDigit, HexValue;
    var s := "\\u00" + [HexDigit(c as int / 16), HexDigit(c as int % 16)] + t;
    assert s[0] == '\\' && s[1] == 'u' && s[4] == HexDigit(c as int / 16) && s[5] == HexDigit(c as int % 16)
           && s[6..] == t;
    HexRoundTrip(c as int);
  }

  lemma HexRoundTrip(n: nat)
    requires n < 256
    ensures HexValue(HexDigit(n / 16)) * 16 + HexValue(HexDigit(n % 16)) == n
  {
    HexDigitRoundTrip(n / 16);
    HexDigitRoundTrip(n % 16);
  }

  lemma HexDigitRoundTrip(n: nat)
    requires n < 16
    ensures HexValue(HexDigit(n)) == n
  {
  }

  lemma {:induction false} ReadEscaped(v: string, t: string)
    ensures ReadString(Escape(v) + t) == Read(v + ReadString(t).value, ReadString(t).rest)
    decreases |v|
  {
    hide ReadString, EscapeChar;
    if v == "" {
      assert Escape(v) + t == t && v + ReadString(t).value == ReadString(t).value;
    } else {
      var front, c := v[..|v| - 1], v[|v| - 1];
      assert Escape(v) + t == Escape(front) + (EscapeChar(c) + t);
      ReadEscaped(front, EscapeChar(c) + t);
      ReadEscapedChar(c, t);
      assert v == front + [c];
      assert front + ([c] + ReadString(t).value) == v + ReadString(t).value;
    }
  }

  ghost function Cut(v: string, max: nat): string { v[..Kept(v, max)] }

  /** A quoted string is read back as it was, up to where it was cut. */
  lemma ReadQuoted(v: string, max: nat, t: string)
    ensures JsonString(v, max) + t == "\"" + (Escape(Cut(v, max)) + ("\"" + t))
    ensures ReadString(Escape(Cut(v, max)) + ("\"" + t)) == Read(Cut(v, max), t)
  {
    ReadEscaped(Cut(v, max), "\"" + t);
    assert ("\"" + t)[1..] == t;
    assert ReadString("\"" + t) == Read("", t);
    assert Cut(v, max) + "" == Cut(v, max);
  }

  /** The same, with the text that stands before the string. */
  lemma ReadField(name: string, v: string, max: nat, t: string)
    ensures ReadAfter(name + JsonString(v, max) + t, name) == Read(Cut(v, max), t)
  {
    hide ReadString, JsonString, Cut;
    ReadQuoted(v, max, t);
    var text := Escape(Cut(v, max)) + ("\"" + t);
    assert name + JsonString(v, max) + t == name + (JsonString(v, max) + t);
    assert name + ("\"" + text) == (name + "\"") + text;
    assert ((name + "\"") + text)[|name + "\""|..] == text;
  }

  // ----- Data pairs -----

  ghost function CutPair(p: Pair): Pair { Pair(Cut(p.key, MAX_TAG_BYTES), Cut(p.value, MAX_MESSAGE_BYTES)) }

  ghost function CutPairs(ps: seq<Pair>): (r: seq<Pair>)
    ensures |r| == |ps| && forall i :: 0 <= i < |ps| ==> r[i] == CutPair(ps[i])
  {
    seq(|ps|, i requires 0 <= i < |ps| => CutPair(ps[i]))
  }

  /** The same text, the first pair taken off. */
  lemma {:induction false} PairsFront(p: Pair, ps: seq<Pair>)
    ensures Pairs([p] + ps) == PairText(p) + (if ps == [] then "" else "," + Pairs(ps))
    decreases |ps|
  {
    hide PairText;
    var all := [p] + ps;
    if ps == [] {
      assert all[..0] == [] && all[0] == p;
      assert Pairs([]) == "";
    } else {
      var front, q := ps[..|ps| - 1], ps[|ps| - 1];
      assert all[..|all| - 1] == [p] + front && all[|all| - 1] == q;
      PairsFront(p, front);
      PairsBack(all);
      PairsBack(ps);
    }
  }

  lemma PairsBack(ps: seq<Pair>)
    requires ps != []
    ensures var n := |ps| - 1; Pairs(ps) == Pairs(ps[..n]) + (if n > 0 then "," else "") + PairText(ps[n])
  {
    hide PairText;
  }

  lemma ReadPair(p: Pair, t: string)
    ensures var s := PairText(p) + t;
            && "\"" <= s
            && var key := ReadString(s[1..]);
               key.value == CutPair(p).key && ReadAfter(key.rest, ":") == Read(CutPair(p).value, t)
  {
    hide ReadString, ReadAfter, JsonString, Cut;
    var value := JsonString(p.value, MAX_MESSAGE_BYTES);
    var s := PairText(p) + t;
    var after := ":" + value + t;
    assert s == JsonString(p.key, MAX_TAG_BYTES) + after;
    ReadQuoted(p.key, MAX_TAG_BYTES, after);
    var text := Escape(Cut(p.key, MAX_TAG_BYTES)) + ("\"" + after);
    assert s == "\"" + text && s[1..] == text;
    ReadField(":", p.value, MAX_MESSAGE_BYTES, t);
  }

  lemma {:induction false} ReadAllPairs(ps: seq<Pair>, t: string)
    requires t != "" && t[0] != '"' && t[0] != ','
    ensures ReadPairs(Pairs(ps) + t) == Members(CutPairs(ps), t)
    decreases |ps|
  {
    hide ReadString, ReadAfter, JsonString, Cut, Pairs, CutPairs;
    if ps == [] {
      NoPairs(t);
      assert CutPairs([]) == [];
    } else {
      var p, rest := ps[0], ps[1..];
      assert ps == [p] + rest;
      PairsFront(p, rest);
      var after := if rest == [] then t else "," + (Pairs(rest) + t);
      assert Pairs(ps) + t == PairText(p) + after;
      ReadPair(p, after);
      assert CutPairs(ps) == [CutPair(p)] + CutPairs(rest);
      if rest == [] {
        assert CutPairs(rest) == [];
      } else {
        assert after[1..] == Pairs(rest) + t;
        ReadAllPairs(rest, t);
      }
    }
  }

  lemma NoPairs(t: string)
    ensures Pairs([]) + t == t
  {
  }

  // ----- The entry -----

  /** Reading the encoded entry gives back every field and every data pair, each up to where it was
      cut, and nothing is left over but the closing braces. */
  lemma EntryRoundTrip(e: Entry, messageBytes: nat, ps: seq<Pair>)
    ensures ReadEntry(Encode(e, messageBytes, ps)) ==
            Document(Entry(Cut(e.message, messageBytes), Cut(e.category, MAX_TAG_BYTES), Cut(e.level, MAX_TAG_BYTES),
              Cut(e.stamp, 32)),
                     CutPairs(ps), "}}")
  {
    hide ReadAfter, ReadPairs, JsonString, Cut, Pairs, CutPairs;
    var data := Pairs(ps) + "}}";
    var t4 := ",\"data\":{" + data;
    var t3 := ",\"timestamp\":" + JsonString(e.stamp, 32) + t4;
    var t2 := ",\"level\":" + JsonString(e.level, MAX_TAG_BYTES) + t3;
    var t1 := ",\"message\":" + JsonString(e.message, messageBytes) + t2;
    EncodeAll(e, messageBytes, ps);
    ReadField("{\"category\":", e.category, MAX_TAG_BYTES, t1);
    ReadField(",\"message\":", e.message, messageBytes, t2);
    ReadField(",\"level\":", e.level, MAX_TAG_BYTES, t3);
    ReadField(",\"timestamp\":", e.stamp, 32, t4);
    assert t4[9..] == data;
    ReadAllPairs(ps, "}}");
  }

  lemma EncodeAll(e: Entry, messageBytes: nat, ps: seq<Pair>)
    ensures var t4 := ",\"data\":{" + (Pairs(ps) + "}}");
            var t3 := ",\"timestamp\":" + JsonString(e.stamp, 32) + t4;
            var t2 := ",\"level\":" + JsonString(e.level, MAX_TAG_BYTES) + t3;
            var t1 := ",\"message\":" + JsonString(e.message, messageBytes) + t2;
            Encode(e, messageBytes, ps) == "{\"category\":" + JsonString(e.category, MAX_TAG_BYTES) + t1
  {
    hide JsonString, Pairs;
  }

  // ----- How much of a text comes back -----

  /** A place where v may be cut: its end, or the first byte of a character. */
  predicate IsBoundary(v: string, k: nat) { k <= |v| && (k == |v| || k == 0 || !IsContinuation(v[k])) }

  /** Nothing is cut that need not be: what comes back ends at a boundary, and no longer part of the text
      within the limit does. */
  lemma CutIsLongest(v: string, max: nat, k: nat)
    ensures Cut(v, max) <= v && |Cut(v, max)| <= max && IsBoundary(v, |Cut(v, max)|)
    ensures IsBoundary(v, k) && k <= max ==> k <= |Cut(v, max)|
  {
  }

  /** A message of one-byte characters comes back up to the limit, byte for byte. */
  lemma PlainMessageComesBack(e: Entry, messageBytes: nat, ps: seq<Pair>)
    requires forall k :: 0 <= k < |e.message| ==> !IsContinuation(e.message[k])
    ensures ReadEntry(Encode(e, messageBytes, ps)).entry.message ==
            if |e.message| <= messageBytes then e.message else e.message[..messageBytes]
  {
    hide ReadEntry, Encode;
    EntryRoundTrip(e, messageBytes, ps);
    if |e.message| > messageBytes { CutIsLongest(e.message, messageBytes, messageBytes); }
  }
}
