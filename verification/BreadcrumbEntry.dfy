/** How src/breadcrumbs.c encodes one entry as JSON and fits it to its slot. */
module BreadcrumbEntry {
  import opened Ascii

  const SLOT_SIZE: nat := 1024
  const MAX_MESSAGE_BYTES: nat := 300
  const MAX_TAG_BYTES: nat := 64

  // ----- Escaping (section 7 of RFC 8259) -----

  function HexDigit(n: nat): char
    requires n < 16
  {
    if n < 10 then '0' + n as char else 'a' + (n - 10) as char
  }

  function EscapeChar(c: char): (r: string)
    ensures 1 <= |r| <= 6
    ensures forall k :: 0 <= k < |r| ==> r[k] >= ' '
  {
    if c == '"' then "\\\""
    else if c == '\\' then "\\\\"
    else if c == '\n' then "\\n"
    else if c == '\r' then "\\r"
    else if c == '\t' then "\\t"
    else if c < ' ' then "\\u00" + [HexDigit(c as int / 16), HexDigit(c as int % 16)]
    else [c]
  }

  ghost function Escape(v: string): string {
    if v == "" then "" else Escape(v[..|v| - 1]) + EscapeChar(v[|v| - 1])
  }

  /** How much of v is kept: at most max bytes, and never part of a UTF-8 sequence. */
  function Kept(v: string, max: nat): (n: nat)
    ensures n <= |v| && n <= max
    ensures n < |v| ==> n == 0 || !IsContinuation(v[n])
    ensures |v| <= max ==> n == |v|
    ensures |v| > max ==> forall k :: n < k <= max ==> IsContinuation(v[k])
  {
    if |v| <= max then |v| else BackUp(v, max)
  }

  ghost function JsonString(v: string, max: nat): string { "\"" + Escape(v[..Kept(v, max)]) + "\"" }

  datatype Pair = Pair(key: string, value: string)

  datatype Entry = Entry(message: string, category: string, level: string, stamp: string)

  ghost function PairText(p: Pair): string {
    JsonString(p.key, MAX_TAG_BYTES) + ":" + JsonString(p.value, MAX_MESSAGE_BYTES)
  }

  ghost function Pairs(ps: seq<Pair>): string {
    if ps == [] then ""
    else
      var n := |ps| - 1;
      Pairs(ps[..n]) + (if n > 0 then "," else "") + PairText(ps[n])
  }

  ghost function Head(e: Entry, messageBytes: nat): string {
    "{\"category\":" + JsonString(e.category, MAX_TAG_BYTES)
    + ",\"message\":" + JsonString(e.message, messageBytes)
    + ",\"level\":" + JsonString(e.level, MAX_TAG_BYTES)
    + ",\"timestamp\":" + JsonString(e.stamp, 32)
    + ",\"data\":{"
  }

  ghost function Encode(e: Entry, messageBytes: nat, ps: seq<Pair>): string {
    Head(e, messageBytes) + Pairs(ps) + "}}"
  }

  // ----- The encoder -----

  method AppendEscaped(out: string, value: string, max: nat) returns (r: string)
    ensures r == out + JsonString(value, max)
  {
    hide EscapeChar;
    var length := KeptLength(value, max);
    var open := out + "\"";
    r := open;
    for i := 0 to length
      invariant r == open + Escape(value[..i])
    {
      assert value[..i + 1][..i] == value[..i];
      r := r + EscapeChar(value[i]);
    }
    r := r + "\"";
  }

  method KeptLength(value: string, max: nat) returns (length: nat)
    ensures length == Kept(value, max)
    ensures |value| > max ==> forall k :: length < k <= max ==> IsContinuation(value[k])
  {
    length := |value|;
    if length > max {
      length := max;
      while length > 0 && IsContinuation(value[length])
        invariant length <= max && BackUp(value, max) == BackUp(value, length)
      {
        length := length - 1;
      }
    }
  }

  method EncodeEntry(e: Entry, messageBytes: nat, ps: seq<Pair>) returns (r: string)
    ensures r == Encode(e, messageBytes, ps)
  {
    hide JsonString;
    r := AppendEscaped("{\"category\":", e.category, MAX_TAG_BYTES);
    r := AppendEscaped(r + ",\"message\":", e.message, messageBytes);
    r := AppendEscaped(r + ",\"level\":", e.level, MAX_TAG_BYTES);
    r := AppendEscaped(r + ",\"timestamp\":", e.stamp, 32);
    var head := r + ",\"data\":{";
    r := head;
    for i := 0 to |ps|
      invariant r == head + Pairs(ps[..i])
    {
      assert ps[..i + 1][..i] == ps[..i];
      if i > 0 { r := r + ","; }
      r := AppendEscaped(r, ps[i].key, MAX_TAG_BYTES);
      r := AppendEscaped(r + ":", ps[i].value, MAX_MESSAGE_BYTES);
    }
    assert ps[..|ps|] == ps;
    r := r + "}}";
  }

  // ----- Fitting the slot -----

  /** What strftime writes: at most 31 characters, none of which is escaped. */
  predicate IsStamp(t: string) { |t| <= 31 && forall k :: 0 <= k < |t| ==> IsDigit(t[k]) || t[k] in "-:TZ" }

  lemma {:induction false} EscapeBound(v: string)
    ensures |Escape(v)| <= 6 * |v|
  {
    if v != "" { EscapeBound(v[..|v| - 1]); }
  }

  lemma {:induction false} EscapePlain(v: string)
    requires forall k :: 0 <= k < |v| ==> IsDigit(v[k]) || v[k] in "-:TZ"
    ensures Escape(v) == v
  {
    hide EscapeChar;
    if v != "" {
      var front, c := v[..|v| - 1], v[|v| - 1];
      assert v == front + [c];
      PlainChar(c);
      EscapePlain(front);
    }
  }

  lemma PlainChar(c: char)
    requires IsDigit(c) || c in "-:TZ"
    ensures EscapeChar(c) == [c]
  {
  }

  lemma JsonBound(v: string, max: nat)
    ensures |JsonString(v, max)| <= 2 + 6 * max
  {
    EscapeBound(v[..Kept(v, max)]);
  }

  /** Six-fold escaping of both tags and of 18 bytes of message still leaves room: 971 bytes. */
  lemma EighteenBytesFit(e: Entry, messageBytes: nat)
    requires IsStamp(e.stamp) && messageBytes <= 18
    ensures |Encode(e, messageBytes, [])| <= 971
  {
    JsonBound(e.category, MAX_TAG_BYTES);
    JsonBound(e.message, messageBytes);
    JsonBound(e.level, MAX_TAG_BYTES);
    assert e.stamp[..Kept(e.stamp, 32)] == e.stamp;
    EscapePlain(e.stamp);
  }

  /** The loop tried every longer message, without data, in vain. */
  ghost predicate Tried(e: Entry, messageBytes: nat) {
    && (messageBytes < 300 ==> |Encode(e, 300, [])| >= SLOT_SIZE)
    && (messageBytes < 150 ==> |Encode(e, 150, [])| >= SLOT_SIZE)
    && (messageBytes < 75 ==> |Encode(e, 75, [])| >= SLOT_SIZE)
    && (messageBytes < 37 ==> |Encode(e, 37, [])| >= SLOT_SIZE)
  }

  /** The loop first drops data pairs from the end, then halves the message. It always ends with an
      entry that fits, and with the first one that does: giving up is never reached. */
  method Fit(e: Entry, ps: seq<Pair>) returns (encoded: string, ghost messageBytes: nat, ghost pairCount: nat)
    requires IsStamp(e.stamp)
    ensures pairCount <= |ps| && encoded == Encode(e, messageBytes, ps[..pairCount]) && |encoded| < 1024
    ensures IsEncoded(encoded)
    ensures forall p :: pairCount < p <= |ps| ==> |Encode(e, MAX_MESSAGE_BYTES, ps[..p])| >= SLOT_SIZE
    ensures messageBytes in {300, 150, 75, 37, 18} && (messageBytes < 300 ==> pairCount == 0) && Tried(e, messageBytes)
  {
    hide Encode;
    var bytes: nat, count: nat := MAX_MESSAGE_BYTES, |ps|;
    while true
      invariant count <= |ps| && bytes in {300, 150, 75, 37, 18} && (bytes < 300 ==> count == 0)
      invariant forall p :: count < p <= |ps| ==> |Encode(e, MAX_MESSAGE_BYTES, ps[..p])| >= SLOT_SIZE
      invariant Tried(e, bytes)
      decreases count + bytes
    {
      encoded := EncodeEntry(e, bytes, ps[..count]);
      if |encoded| < SLOT_SIZE {
        EncodedShape(e, bytes, ps[..count]);
        messageBytes, pairCount := bytes, count;
        return;
      }
      if count > 0 {
        count := count - 1;
      } else if bytes > 16 {
        assert ps[..0] == [];
        if bytes == 18 {
          EighteenBytesFit(e, bytes);
          assert false;
        }
        bytes := bytes / 2;
      } else {
        assert false; // the source gives the entry up here
      }
    }
  }

  // ----- The shape of what was encoded -----

  ghost predicate Printable(t: string) { forall k :: 0 <= k < |t| ==> t[k] >= ' ' }

  lemma {:induction false} EscapePrintable(v: string)
    ensures Printable(Escape(v))
  {
    hide EscapeChar;
    if v != "" { EscapePrintable(v[..|v| - 1]); }
  }

  lemma JsonPrintable(v: string, max: nat)
    ensures Printable(JsonString(v, max))
  {
    EscapePrintable(v[..Kept(v, max)]);
  }

  lemma {:induction false} PairsPrintable(ps: seq<Pair>)
    ensures Printable(Pairs(ps))
  {
    hide JsonString;
    if ps != [] {
      var n := |ps| - 1;
      PairsPrintable(ps[..n]);
      JsonPrintable(ps[n].key, MAX_TAG_BYTES);
      JsonPrintable(ps[n].value, MAX_MESSAGE_BYTES);
    }
  }

  /** A whole entry: a JSON object on one line, no control character in it. */
  ghost predicate IsEncoded(t: string) {
    Printable(t) && 2 <= |t| < SLOT_SIZE && t[0] == '{' && t[|t| - 1] == '}'
  }

  lemma HeadShape(e: Entry, messageBytes: nat)
    ensures Printable(Head(e, messageBytes)) && |Head(e, messageBytes)| > 0 && Head(e, messageBytes)[0] == '{'
  {
    hide JsonString;
    JsonPrintable(e.category, MAX_TAG_BYTES);
    JsonPrintable(e.message, messageBytes);
    JsonPrintable(e.level, MAX_TAG_BYTES);
    JsonPrintable(e.stamp, 32);
  }

  lemma EncodedShape(e: Entry, messageBytes: nat, ps: seq<Pair>)
    requires |Encode(e, messageBytes, ps)| < SLOT_SIZE
    ensures IsEncoded(Encode(e, messageBytes, ps))
  {
    hide Head, Pairs;
    HeadShape(e, messageBytes);
    PairsPrintable(ps);
  }
}
