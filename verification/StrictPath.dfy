/** Paths under strict privacy (src/strict_privacy.c): a route template is kept, a raw path keeps
    only its first segment. */
module StrictPath {
  import opened Ascii

  const MAX_SEGMENT_CHARACTERS: nat := 40

  // ----- What the result is, segment by segment -----

  predicate Stops(c: char) { c == '?' || c == '#' }

  /** Everything before the query or the fragment. */
  function BeforeQuery(path: string): (r: string)
    ensures forall k :: 0 <= k < |r| ==> !Stops(r[k])
    ensures r <= path && (|r| == |path| || Stops(path[|r|]))
  {
    if path == "" || Stops(path[0]) then "" else [path[0]] + BeforeQuery(path[1..])
  }

  function SegmentEnd(p: string): (e: nat)
    ensures e <= |p| && (e < |p| ==> p[e] == '/') && '/' !in p[..e]
  {
    if p == "" || p[0] == '/' then 0 else
      var e := 1 + SegmentEnd(p[1..]);
      assert p[..e] == [p[0]] + p[1..][..e - 1];
      e
  }

  function Split(p: string): seq<string> {
    var e := SegmentEnd(p);
    if e == |p| then [p] else [p[..e]] + Split(p[e + 1..])
  }

  predicate NoNewline(s: string) { '\n' !in s }

  /** ":id", "{id}", "<int:id>", "[slug]" or "*path". */
  predicate IsRouteParameter(s: string) {
    if |s| >= 2 && s[0] == ':' then NoNewline(s[1..])
    else if |s| >= 1 && s[0] == '*' then NoNewline(s[1..])
    else
      && |s| >= 3
      && (|| (s[0] == '{' && s[|s| - 1] == '}')
          || (s[0] == '<' && s[|s| - 1] == '>')
          || (s[0] == '[' && s[|s| - 1] == ']'))
      && NoNewline(s[1..|s| - 1])
  }

  /** One of the five shapes: a colon and something, a star and anything, or something in braces, angle
      or square brackets; all on one line. */
  ghost predicate HasShape(s: string) {
    exists x: string :: NoNewline(x) && IsShapeOf(s, x)
  }

  predicate IsShapeOf(s: string, x: string) {
    s == "*" + x || (x != "" && s in {":" + x, "{" + x + "}", "<" + x + ">", "[" + x + "]"})
  }

  lemma RouteParameterIffShape(s: string)
    ensures IsRouteParameter(s) <==> HasShape(s)
  {
    if IsRouteParameter(s) { ParameterHasShape(s); }
    if HasShape(s) {
      var x: string :| NoNewline(x) && IsShapeOf(s, x);
      ShapeIsParameter(s, x);
    }
  }

  lemma ParameterHasShape(s: string)
    requires IsRouteParameter(s)
    ensures HasShape(s)
  {
    if s[0] == ':' {
      assert s == ":" + s[1..] && IsShapeOf(s, s[1..]);
    } else if s[0] == '*' {
      assert s == "*" + s[1..] && IsShapeOf(s, s[1..]);
    } else {
      var x := s[1..|s| - 1];
      assert s == [s[0]] + x + [s[|s| - 1]];
      assert IsShapeOf(s, x);
    }
  }

  lemma ShapeIsParameter(s: string, x: string)
    requires NoNewline(x) && IsShapeOf(s, x)
    ensures IsRouteParameter(s)
  {
    if s == "*" + x || s == ":" + x { assert s[1..] == x; } else { assert s[1..|s| - 1] == x; }
  }

  /** How many UTF-8 characters: the bytes that are no continuation bytes. */
  function Characters(s: string): nat {
    if s == "" then 0 else Characters(s[..|s| - 1]) + (if IsContinuation(s[|s| - 1]) then 0 else 1)
  }

  predicate HasDigit(s: string) { exists k :: 0 <= k < |s| && IsDigit(s[k]) }

  predicate IsIdSegment(s: string) { HasDigit(s) || Characters(s) > MAX_SEGMENT_CHARACTERS }

  predicate IsTemplate(p: string) { exists s <- Split(p) :: IsRouteParameter(s) }

  function NonEmpty(segments: seq<string>): (r: seq<string>)
    ensures forall s <- r :: s != "" && s in segments
  {
    if segments == [] then []
    else (if segments[0] == "" then [] else [segments[0]]) + NonEmpty(segments[1..])
  }

  function Shown(segment: string): string { if IsIdSegment(segment) then ":id" else segment }

  /** A raw path: its leading slash, its first non-empty segment, and whether anything follows. */
  function Raw(leadingSlash: bool, first: string, more: bool): string {
    (if leadingSlash then "/" else "") + Shown(first) + (if more then "/:path" else "")
  }

  function StrictPath(path: string): string {
    var p := BeforeQuery(path);
    if IsTemplate(p) then p
    else
      var segments := NonEmpty(Split(p));
      if segments == [] then "/" else Raw(p != "" && p[0] == '/', segments[0], |segments| > 1)
  }

  /** The segments, slashes between them, are the path again. */
  ghost function Joined(segments: seq<string>): string {
    if segments == [] then "" else if |segments| == 1 then segments[0] else segments[0] + "/" + Joined(segments[1..])
  }

  lemma {:induction false} SplitJoins(p: string)
    ensures Split(p) != [] && Joined(Split(p)) == p && forall s <- Split(p) :: '/' !in s
    decreases |p|
  {
    var e := SegmentEnd(p);
    if e < |p| {
      SplitJoins(p[e + 1..]);
      var rest := Split(p[e + 1..]);
      assert ([p[..e]] + rest)[1..] == rest;
      assert p == p[..e] + "/" + p[e + 1..];
    } else {
      assert p[..e] == p;
    }
  }

  /** A path with a segment in one of the five shapes comes out as it is, up to any query. */
  lemma TemplateIsKept(path: string, segment: string)
    requires segment in Split(BeforeQuery(path)) && HasShape(segment)
    ensures StrictPath(path) == BeforeQuery(path)
  {
    hide Split, BeforeQuery, IsRouteParameter, HasShape;
    RouteParameterIffShape(segment);
  }

  // ----- Applying it twice -----

  lemma {:induction false} SegmentEndIs(a: string, rest: string)
    requires '/' !in a && (rest == "" || rest[0] == '/')
    ensures SegmentEnd(a + rest) == |a|
  {
    if a != "" {
      assert (a + rest)[0] == a[0] && (a + rest)[1..] == a[1..] + rest;
      SegmentEndIs(a[1..], rest);
    } else {
      assert a + rest == rest;
    }
  }

  lemma SplitOne(a: string)
    requires '/' !in a
    ensures Split(a) == [a]
  {
    SegmentEndIs(a, "");
    assert a + "" == a;
  }

  lemma SplitFirst(a: string, b: string)
    requires '/' !in a
    ensures Split(a + "/" + b) == [a] + Split(b)
  {
    SegmentEndIs(a, "/" + b);
    var p := a + "/" + b;
    assert p == a + ("/" + b);
    assert p[..|a|] == a && p[|a| + 1..] == b;
  }

  lemma {:induction false} SegmentsHaveNoSlash(p: string)
    ensures forall s <- Split(p) :: '/' !in s
    ensures (forall k :: 0 <= k < |p| ==> !Stops(p[k])) ==>
              forall s <- Split(p) :: forall k :: 0 <= k < |s| ==> !Stops(s[k])
    decreases |p|
  {
    var e := SegmentEnd(p);
    if e < |p| {
      SegmentsHaveNoSlash(p[e + 1..]);
    } else {
      assert p[..e] == p;
    }
  }

  lemma {:induction false} BeforeQueryKeeps(p: string)
    requires forall k :: 0 <= k < |p| ==> !Stops(p[k])
    ensures BeforeQuery(p) == p
  {
    if p != "" { BeforeQueryKeeps(p[1..]); }
  }

  lemma Placeholders()
    ensures IsRouteParameter(":id") && IsRouteParameter(":path") && !IsRouteParameter("")
    ensures '/' !in ":id" && '/' !in ":path"
  {
  }

  /** A raw result with a placeholder in it is a template; one without has just its segment. */
  lemma RawSegments(leadingSlash: bool, first: string, more: bool)
    requires '/' !in first && first != "" && !IsRouteParameter(first)
    ensures IsTemplate(Raw(leadingSlash, first, more)) <==> IsIdSegment(first) || more
    ensures !IsIdSegment(first) && !more ==> NonEmpty(Split(Raw(leadingSlash, first, more))) == [first]
  {
    hide Split, IsIdSegment, IsRouteParameter, SegmentEnd, Raw;
    Placeholders();
    var shown := Shown(first);
    var rest := if more then [shown, ":path"] else [shown];
    var all := if leadingSlash then [""] + rest else rest;
    RawSplit(leadingSlash, first, more);
    assert shown in all && (more ==> ":path" in all);
    assert forall s <- all :: s == "" || s == shown || (more && s == ":path");
    if !IsIdSegment(first) && !more {
      assert all[|all| - 1] == first;
      if leadingSlash { assert all == ["", first] && all[1..] == [first]; }
      assert [first][1..] == [];
      assert NonEmpty([first]) == [first] + NonEmpty([]);
    }
  }

  lemma RawSplit(leadingSlash: bool, first: string, more: bool)
    requires '/' !in first
    ensures var rest := if more then [Shown(first), ":path"] else [Shown(first)];
            Split(Raw(leadingSlash, first, more)) == if leadingSlash then [""] + rest else rest
  {
    hide Split, IsIdSegment;
    var shown := Shown(first);
    SplitOne(shown);
    SplitFirst(shown, ":path");
    SplitOne(":path");
    var body := shown + (if more then "/:path" else "");
    assert more ==> body == shown + "/" + ":path";
    assert !more ==> body == shown;
    SplitFirst("", body);
    assert "" + "/" + body == "/" + body;
    assert Raw(leadingSlash, first, more) == if leadingSlash then "/" + body else body;
  }

  lemma RawHasNoQuery(leadingSlash: bool, first: string, more: bool)
    requires forall k :: 0 <= k < |first| ==> !Stops(first[k])
    ensures forall k :: 0 <= k < |Raw(leadingSlash, first, more)| ==> !Stops(Raw(leadingSlash, first, more)[k])
  {
    hide IsIdSegment;
  }

  lemma SlashIsRaw()
    ensures StrictPath("/") == "/"
  {
    hide Split, SegmentEnd, BeforeQuery, IsRouteParameter;
    Placeholders();
    BeforeQueryKeeps("/");
    SplitFirst("", "");
    SplitOne("");
    assert "" + "/" + "" == "/";
    assert Split("/") == ["", ""];
    assert ["", ""][1..] == [""] && [""][1..] == [];
    assert NonEmpty([""]) == [];
    assert NonEmpty(["", ""]) == [];
  }

  /** What is written already says no more than it should: a second pass changes nothing. */
  lemma Idempotent(path: string)
    ensures StrictPath(StrictPath(path)) == StrictPath(path)
  {
    var p := BeforeQuery(path);
    if IsTemplate(p) {
      hide IsTemplate, BeforeQuery, Split;
      BeforeQueryKeeps(p);
    } else {
      RawIdempotent(p);
      hide Split, BeforeQuery;
    }
  }

  lemma RawIdempotent(p: string)
    requires !IsTemplate(p) && forall k :: 0 <= k < |p| ==> !Stops(p[k])
    ensures var segments := NonEmpty(Split(p));
            if segments == [] then StrictPath("/") == "/"
            else var out := Raw(p != "" && p[0] == '/', segments[0], |segments| > 1); StrictPath(out) == out
  {
    hide IsRouteParameter, IsIdSegment, Split, SegmentEnd, BeforeQuery;
    SlashIsRaw();
    var segments := NonEmpty(Split(p));
    if segments != [] {
      var slash, first, more := p != "" && p[0] == '/', segments[0], |segments| > 1;
      assert first in segments;
      SegmentsHaveNoSlash(p);
      RawHasNoQuery(slash, first, more);
      BeforeQueryKeeps(Raw(slash, first, more));
      RawSegments(slash, first, more);
    }
  }

  // ----- The loops -----

  lemma SplitStep(p: string, i: nat)
    requires i <= |p|
    ensures var e := i + SegmentEnd(p[i..]);
            && e <= |p| && Split(p[i..]) == [p[i..e]] + (if e == |p| then [] else Split(p[e + 1..]))
  {
    hide SegmentEnd, Split;
    var q, e := p[i..], SegmentEnd(p[i..]);
    SplitOnce(q);
    if i + e < |p| {
      assert q[..e] == p[i..i + e];
      assert q[e + 1..] == p[i + e + 1..];
    } else {
      assert p[i..i + e] == q;
    }
  }

  lemma SplitOnce(q: string)
    ensures var e := SegmentEnd(q); Split(q) == if e == |q| then [q] else [q[..e]] + Split(q[e + 1..])
  {
    hide SegmentEnd;
  }

  method EndOfSegment(p: string, start: nat) returns (end: nat)
    requires start <= |p|
    ensures end == start + SegmentEnd(p[start..]) && end <= |p|
  {
    end := start;
    assert p[start..][0..] == p[start..];
    while end < |p| && p[end] != '/'
      invariant start <= end <= |p| && SegmentEnd(p[start..]) == end - start + SegmentEnd(p[end..])
    {
      assert p[end..][1..] == p[end + 1..];
      end := end + 1;
    }
  }

  method FindTemplate(p: string) returns (found: bool)
    ensures found <==> IsTemplate(p)
  {
    hide Split, SegmentEnd, IsRouteParameter;
    var start := 0;
    assert p[0..] == p;
    while start <= |p|
      invariant start <= |p| + 1
      invariant IsTemplate(p) <==> start <= |p| && exists s <- Split(p[start..]) :: IsRouteParameter(s)
    {
      var end := EndOfSegment(p, start);
      SplitStep(p, start);
      assert p[start..end] in Split(p[start..]);
      if IsRouteParameter(p[start..end]) { return true; }
      start := end + 1;
    }
    found := false;
  }

  method SkipSlashes(p: string, i: nat) returns (k: nat)
    requires i <= |p|
    ensures i <= k <= |p| && (forall j :: i <= j < k ==> p[j] == '/') && (k < |p| ==> p[k] != '/')
  {
    k := i;
    while k < |p| && p[k] == '/'
      invariant i <= k <= |p| && forall j :: i <= j < k ==> p[j] == '/'
    {
      k := k + 1;
    }
  }

  /** Empty segments count for nothing. */
  lemma {:induction false} SlashesSkipped(p: string, i: nat, k: nat)
    requires i <= k <= |p| && forall j :: i <= j < k ==> p[j] == '/'
    ensures NonEmpty(Split(p[i..])) == NonEmpty(Split(p[k..]))
    decreases k - i
  {
    if i < k {
      SlashesSkipped(p, i + 1, k);
      SplitStep(p, i);
      assert p[i..i] == "";
      assert SegmentEnd(p[i..]) == 0;
      assert ([""] + Split(p[i + 1..]))[1..] == Split(p[i + 1..]);
    }
  }

  lemma NothingLeft(p: string)
    ensures NonEmpty(Split(p[|p|..])) == []
  {
    SplitOne("");
    assert p[|p|..] == "";
    assert [""][1..] == [];
  }

  /** A segment that is not empty, and then those after it. */
  lemma FirstSegment(p: string, i: nat)
    requires i < |p| && p[i] != '/'
    ensures var e := i + SegmentEnd(p[i..]);
            && i < e <= |p|
            && NonEmpty(Split(p[i..])) == [p[i..e]] + (if e == |p| then [] else NonEmpty(Split(p[e + 1..])))
  {
    SplitStep(p, i);
    var e := i + SegmentEnd(p[i..]);
    hide Split, SegmentEnd;
    var rest := if e == |p| then [] else Split(p[e + 1..]);
    assert ([p[i..e]] + rest)[1..] == rest;
  }

  predicate OnlySlashes(q: string) { forall k :: 0 <= k < |q| ==> q[k] == '/' }

  lemma {:induction false} NoSegmentsIffSlashes(q: string)
    ensures NonEmpty(Split(q)) == [] <==> OnlySlashes(q)
    decreases |q|
  {
    hide Split, NonEmpty, SegmentEnd;
    assert q[0..] == q;
    if q == "" {
      NothingLeft(q);
      assert q[|q|..] == q;
    } else if q[0] == '/' {
      SlashesSkipped(q, 0, 1);
      NoSegmentsIffSlashes(q[1..]);
    } else {
      FirstSegment(q, 0);
    }
  }

  lemma {:induction false} BeforeQueryAfter(a: string, b: string)
    requires forall k :: 0 <= k < |a| ==> !Stops(a[k])
    ensures BeforeQuery(a + b) == a + BeforeQuery(b)
    decreases |a|
  {
    if a == "" {
      assert a + b == b;
    } else {
      assert (a + b)[1..] == a[1..] + b;
      BeforeQueryAfter(a[1..], b);
    }
  }

  /** On the text itself: of a raw path's leading slashes only their presence shows, its first segment
      shows as it is or as ":id", and of all that follows, up to any query, only whether there is
      anything but slashes. */
  lemma RawPathShows(lead: string, first: string, tail: string)
    requires OnlySlashes(lead) && IsFirst(first, tail)
    requires !IsTemplate(BeforeQuery(lead + first + tail))
    ensures StrictPath(lead + first + tail) ==
            (if lead == "" then "" else "/")
            + (if HasDigit(first) || Characters(first) > 40 then ":id" else first)
            + (if OnlySlashes(BeforeQuery(tail)) then "" else "/:path")
  {
    hide IsTemplate, Split, NonEmpty, BeforeQuery, OnlySlashes, HasDigit, Characters;
    var rest := BeforeQuery(tail);
    assert rest == "" || rest[0] == '/' by { assert rest <= tail; }
    NoStopsInLead(lead, first);
    BeforeQueryAfter(lead + first, tail);
    SegmentsOf(lead, first, rest);
    StartsWithSlash(lead, first, rest);
  }

  /** A first segment, and what may come after it. */
  predicate IsFirst(first: string, tail: string) {
    && first != "" && '/' !in first && (forall k :: 0 <= k < |first| ==> !Stops(first[k]))
    && (tail == "" || tail[0] == '/' || Stops(tail[0]))
  }

  /** Every path is slashes only, up to any query, or has such parts. */
  lemma {:induction false} RawPathParts(path: string) returns (lead: string, first: string, tail: string)
    requires !OnlySlashes(BeforeQuery(path))
    ensures path == lead + first + tail && OnlySlashes(lead) && IsFirst(first, tail)
    decreases |path|
  {
    hide IsFirst, BeforeQuery, OnlySlashes;
    SomethingThere(path);
    if path[0] == '/' {
      var more;
      more, first, tail := RawPathParts(path[1..]);
      lead := ['/'] + more;
      OneSlashMore(lead);
      assert lead[1..] == more;
      assert path == ['/'] + (more + first + tail) == lead + first + tail;
    } else {
      lead := "";
      OneSlashMore(lead);
      first, tail := FirstPart(path);
      assert lead + first + tail == first + tail;
    }
  }

  lemma SomethingThere(path: string)
    requires !OnlySlashes(BeforeQuery(path))
    ensures path != "" && BeforeQuery(path) != "" && (path[0] == '/' ==> !OnlySlashes(BeforeQuery(path[1..])))
  {
  }

  lemma FirstPart(path: string) returns (first: string, tail: string)
    requires BeforeQuery(path) != "" && path[0] != '/'
    ensures path == first + tail && IsFirst(first, tail)
  {
    var p := BeforeQuery(path);
    assert p[0] == path[0];
    var e := SegmentEnd(p);
    assert e > 0;
    hide BeforeQuery, SegmentEnd;
    first, tail := p[..e], path[e..];
    assert path[..e] == first && path == path[..e] + path[e..];
    assert e < |path| ==> tail[0] == path[e];
  }

  lemma {:induction false} NonEmptyKeeps(segments: seq<string>, s: string)
    requires s in segments && s != ""
    ensures NonEmpty(segments) != []
  {
    if segments[0] == "" { NonEmptyKeeps(segments[1..], s); }
  }

  lemma SlashesAlone(path: string)
    requires OnlySlashes(BeforeQuery(path))
    ensures StrictPath(path) == "/"
  {
    hide Split, NonEmpty, BeforeQuery;
    var p := BeforeQuery(path);
    NoSegmentsIffSlashes(p);
    if IsTemplate(p) {
      var s :| s in Split(p) && IsRouteParameter(s);
      NonEmptyKeeps(Split(p), s);
      assert false;
    }
  }

  /** Two raw paths with the same first segment give the same result as soon as both or neither have a
      leading slash, and both or neither anything but slashes behind it: nothing else shows, how many
      slashes there are, what follows, the query. */
  lemma OnlyFirstSegmentMatters(lead: string, lead': string, first: string, tail: string, tail': string)
    requires OnlySlashes(lead) && OnlySlashes(lead') && (lead == "" <==> lead' == "")
    requires IsFirst(first, tail) && IsFirst(first, tail')
    requires OnlySlashes(BeforeQuery(tail)) <==> OnlySlashes(BeforeQuery(tail'))
    requires !IsTemplate(BeforeQuery(lead + first + tail)) && !IsTemplate(BeforeQuery(lead' + first + tail'))
    ensures StrictPath(lead + first + tail) == StrictPath(lead' + first + tail')
  {
    hide *;
    RawPathShows(lead, first, tail);
    RawPathShows(lead', first, tail');
  }

  lemma NoStopsInLead(lead: string, first: string)
    requires OnlySlashes(lead) && forall k :: 0 <= k < |first| ==> !Stops(first[k])
    ensures forall k :: 0 <= k < |lead + first| ==> !Stops((lead + first)[k])
  {
  }

  lemma StartsWithSlash(lead: string, first: string, rest: string)
    requires OnlySlashes(lead) && first != "" && first[0] != '/'
    ensures var p := lead + first + rest; p != "" && (p[0] == '/' <==> lead != "")
  {
  }

  lemma SegmentsOf(lead: string, first: string, rest: string)
    requires OnlySlashes(lead) && first != "" && '/' !in first && (rest == "" || rest[0] == '/')
    ensures var segments := NonEmpty(Split(lead + first + rest));
            segments != [] && segments[0] == first && (|segments| > 1 <==> !OnlySlashes(rest))
  {
    hide Split, NonEmpty, SegmentEnd, OnlySlashes;
    var p, i, e := lead + first + rest, |lead|, |lead| + |first|;
    Parts(lead, first, rest);
    SegmentEndIs(first, rest);
    SlashesSkipped(p, 0, i);
    FirstSegment(p, i);
    OneSlashMore(rest);
    if rest != "" { NoSegmentsIffSlashes(rest[1..]); }
  }

  lemma Parts(lead: string, first: string, rest: string)
    requires OnlySlashes(lead) && first != "" && '/' !in first
    ensures var p, i, e := lead + first + rest, |lead|, |lead| + |first|;
            && p[0..] == p && (forall j :: 0 <= j < i ==> p[j] == '/')
            && p[i..] == first + rest && p[i] != '/' && p[i..e] == first && (rest != "" ==> p[e + 1..] == rest[1..])
  {
  }

  lemma OneSlashMore(rest: string)
    requires rest == "" || rest[0] == '/'
    ensures OnlySlashes(rest) <==> rest == "" || OnlySlashes(rest[1..])
  {
    if rest != "" { assert rest == [rest[0]] + rest[1..]; }
  }

  method IsId(s: string) returns (r: bool)
    ensures r <==> IsIdSegment(s)
  {
    var characters := 0;
    for i := 0 to |s|
      invariant characters == Characters(s[..i]) && forall k :: 0 <= k < i ==> !IsDigit(s[k])
    {
      if IsDigit(s[i]) { return true; }
      assert s[..i + 1][..i] == s[..i];
      if !IsContinuation(s[i]) { characters := characters + 1; }
    }
    assert s[..|s|] == s;
    r := characters > MAX_SEGMENT_CHARACTERS;
  }

  method CutAtQuery(path: string) returns (p: string)
    ensures p == BeforeQuery(path)
  {
    hide BeforeQuery;
    var length := 0;
    while length < |path| && !Stops(path[length])
      invariant length <= |path| && forall k :: 0 <= k < length ==> !Stops(path[k])
    {
      length := length + 1;
    }
    p := path[..length];
    BeforeQueryIs(path, length);
  }

  lemma BeforeQueryIs(path: string, n: nat)
    requires n <= |path| && (forall k :: 0 <= k < n ==> !Stops(path[k])) && (n < |path| ==> Stops(path[n]))
    ensures BeforeQuery(path) == path[..n]
  {
    hide BeforeQuery;
    var r := BeforeQuery(path);
    assert r == path[..|r|];
  }

  method Strict(path: string) returns (out: string)
    ensures out == StrictPath(path)
  {
    hide BeforeQuery, IsTemplate, Split, SegmentEnd, NonEmpty, Raw;
    var p := CutAtQuery(path);
    var template := FindTemplate(p);
    if template { return p; }
    out := RawPath(p);
  }

  method RawPath(p: string) returns (out: string)
    ensures var segments := NonEmpty(Split(p));
            out == if segments == [] then "/" else Raw(p != "" && p[0] == '/', segments[0], |segments| > 1)
  {
    hide Split, IsIdSegment, SegmentEnd, NonEmpty;
    var first := SkipSlashes(p, 0);
    assert p[0..] == p;
    SlashesSkipped(p, 0, first);
    if first == |p| {
      NothingLeft(p);
      return "/";
    }
    var firstEnd := EndOfSegment(p, first);
    FirstSegment(p, first);
    var more := AnythingAfter(p, firstEnd);
    var segment := p[first..firstEnd];
    var id := IsId(segment);
    out := if p[0] == '/' then "/" else "";
    out := out + if id then ":id" else segment;
    out := out + if more then "/:path" else "";
  }

  method AnythingAfter(p: string, firstEnd: nat) returns (more: bool)
    requires firstEnd <= |p| && (firstEnd < |p| ==> p[firstEnd] == '/')
    ensures more <==> firstEnd < |p| && NonEmpty(Split(p[firstEnd + 1..])) != []
  {
    hide Split, NonEmpty, SegmentEnd;
    var rest := SkipSlashes(p, firstEnd);
    more := rest < |p|;
    if firstEnd < |p| {
      SlashesSkipped(p, firstEnd + 1, rest);
      if rest < |p| { FirstSegment(p, rest); } else { NothingLeft(p); }
    }
  }
}
