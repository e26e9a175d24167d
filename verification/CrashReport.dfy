/** The raw crash report: what the signal handler writes (src/signal_handler.c, src/breadcrumbs.c,
    src/spans.c), and how the next launch reads it back, line by line. */
module CrashReport {
  import opened Common
  import opened Ascii
  import opened BreadcrumbEntry
  import opened BreadcrumbRing
  import opened BreadcrumbDump

  const NAME_LIMIT: nat := 255 // fgets into 256 bytes
  const LINE_LIMIT: nat := SLOT_SIZE + 63 // fgets into SLOT_SIZE + 64 bytes
  const TRACE_MARK := "#trace_id "
  const CRUMB_MARK := "#breadcrumb "
  const TRACE_ID_LENGTH: nat := 32

  // ----- Writing -----

  ghost function Lines(prefix: string, xs: seq<string>): string {
    if xs == [] then "" else Lines(prefix, xs[..|xs| - 1]) + prefix + xs[|xs| - 1] + "\n"
  }

  /** Signal name, backtrace, trail, and the id of the open trace ("" when there is none). */
  ghost function Report(name: string, frames: seq<string>, dump: seq<string>, traceId: string): string {
    var last := if traceId == "" then "" else TRACE_MARK + traceId + "\n";
    name + "\n" + (Lines("", frames) + (Lines(CRUMB_MARK, dump) + last))
  }

  method WriteTrail(fd: string, dump: seq<string>) returns (r: string)
    ensures r == fd + Lines(CRUMB_MARK, dump)
  {
    hide CRUMB_MARK;
    r := fd;
    for i := 0 to |dump|
      invariant r == fd + Lines(CRUMB_MARK, dump[..i])
    {
      assert dump[..i + 1][..i] == dump[..i];
      r := r + CRUMB_MARK + dump[i] + "\n";
    }
    assert dump[..|dump|] == dump;
  }

  // ----- Reading -----

  /** One fgets: through the next newline, but no more than limit bytes. */
  function Chunk(s: string, limit: nat): (c: string)
    ensures c <= s && |c| <= limit
    ensures limit > 0 && s != "" ==> c != ""
    decreases |s|
  {
    if s == "" || limit == 0 then ""
    else if s[0] == '\n' then "\n"
    else [s[0]] + Chunk(s[1..], limit - 1)
  }

  /** The line in the buffer, as a C string without its newline. */
  function Chomp(chunk: string): string {
    var line := Text(chunk);
    if line != "" && line[|line| - 1] == '\n' then line[..|line| - 1] else line
  }

  datatype Decoded = Decoded(name: string, frames: seq<string>, crumbs: seq<string>, traceId: string)

  predicate StartsWith(s: string, mark: string) { mark <= s }

  predicate IsTraceId(id: string) {
    |id| == TRACE_ID_LENGTH && forall k :: 0 <= k < |id| ==> IsDigit(id[k]) || 'a' <= id[k] <= 'f'
  }

  /** Thirty-two lowercase hexadecimal digits. */
  predicate IsHexId(id: string) { |id| == 32 && forall c <- id :: c in "0123456789abcdef" }

  lemma TraceIdIsHex(id: string)
    ensures IsTraceId(id) <==> IsHexId(id)
  {
    forall c: char ensures c in "0123456789abcdef" <==> IsDigit(c) || 'a' <= c <= 'f' { }
    if IsTraceId(id) {
      forall c | c in id ensures c in "0123456789abcdef" { }
    }
    if IsHexId(id) {
      forall k | 0 <= k < |id| ensures IsDigit(id[k]) || 'a' <= id[k] <= 'f' { assert id[k] in id; }
    }
  }

  predicate LooksWhole(json: string) { |json| >= 2 && json[0] == '{' && json[|json| - 1] == '}' }

  function Take(d: Decoded, line: string): Decoded {
    if line == "" then d
    else if StartsWith(line, TRACE_MARK) then
      if IsTraceId(line[|TRACE_MARK|..]) then d.(traceId := line[|TRACE_MARK|..]) else d
    else if StartsWith(line, CRUMB_MARK) then
      if LooksWhole(line[|CRUMB_MARK|..]) then d.(crumbs := d.crumbs + [line[|CRUMB_MARK|..]]) else d
    else d.(frames := d.frames + [line])
  }

  function TakeLines(d: Decoded, s: string): Decoded
    decreases |s|
  {
    if s == "" then d
    else
      var chunk := Chunk(s, LINE_LIMIT);
      TakeLines(Take(d, Chomp(chunk)), s[|chunk|..])
  }

  function Decode(s: string): Decoded {
    var chunk := Chunk(s, NAME_LIMIT);
    TakeLines(Decoded(if s == "" then "unknown signal" else Chomp(chunk), [], [], ""), s[|chunk|..])
  }

  method ReadLine(s: string, pos: nat, limit: nat) returns (end: nat)
    requires pos <= |s|
    ensures pos <= end <= |s| && s[pos..end] == Chunk(s[pos..], limit)
  {
    hide Chunk;
    end := pos;
    while end < |s| && end - pos < limit
      invariant pos <= end <= |s| && end - pos <= limit
      invariant forall k :: pos <= k < end ==> s[k] != '\n'
    {
      end := end + 1;
      if s[end - 1] == '\n' { break; }
    }
    ChunkIs(s, pos, limit, end);
  }

  lemma {:induction false} ChunkIs(s: string, pos: nat, limit: nat, end: nat)
    requires pos <= end <= |s| && end - pos <= limit && forall k :: pos <= k < end - 1 ==> s[k] != '\n'
    requires end == |s| || end - pos == limit || (end > pos && s[end - 1] == '\n')
    ensures s[pos..end] == Chunk(s[pos..], limit)
    decreases end - pos
  {
    var t := s[pos..];
    if pos < end {
      assert t[0] == s[pos] && t[1..] == s[pos + 1..];
      assert s[pos..end] == [s[pos]] + s[pos + 1..end];
      if s[pos] != '\n' {
        ChunkIs(s, pos + 1, limit - 1, end);
      } else {
        assert end == pos + 1;
      }
    }
  }

  /** The line-decoding loop of forgeops_signal_handler_complete_json. */
  method DecodeReport(s: string) returns (d: Decoded)
    ensures d == Decode(s)
  {
    hide Chunk, Take, Chomp, TakeLines;
    assert s[0..] == s;
    var pos := ReadLine(s, 0, NAME_LIMIT);
    d := Decoded(if s == "" then "unknown signal" else Chomp(s[0..pos]), [], [], "");
    while pos < |s|
      invariant pos <= |s| && Decode(s) == TakeLines(d, s[pos..])
    {
      var end := ReadLine(s, pos, LINE_LIMIT);
      TakeStep(d, s, pos, end);
      d := Take(d, Chomp(s[pos..end]));
      pos := end;
    }
    assert s[pos..] == "";
    NothingToTake(d);
  }

  lemma TakeStep(d: Decoded, s: string, pos: nat, end: nat)
    requires pos < |s| && pos <= end <= |s| && s[pos..end] == Chunk(s[pos..], LINE_LIMIT)
    ensures pos < end && TakeLines(d, s[pos..]) == TakeLines(Take(d, Chomp(s[pos..end])), s[end..])
  {
    hide Chunk, Take, Chomp;
    assert s[pos..] != "";
    assert s[pos..][end - pos..] == s[end..];
  }

  // ----- Round trip -----

  predicate OneLine(x: string) { '\n' !in x && '\0' !in x }

  lemma {:induction false} ChunkOf(x: string, rest: string, limit: nat)
    requires '\n' !in x && |x| + 1 <= limit
    ensures Chunk(x + "\n" + rest, limit) == x + "\n"
    decreases |x|
  {
    var s := x + "\n" + rest;
    if x != "" {
      assert s[0] == x[0] && s[1..] == x[1..] + "\n" + rest;
      ChunkOf(x[1..], rest, limit - 1);
      assert [x[0]] + (x[1..] + "\n") == x + "\n";
    }
  }

  lemma {:induction false} TextWithoutNul(x: string)
    requires '\0' !in x
    ensures Text(x) == x
  {
    if x != "" { TextWithoutNul(x[1..]); }
  }

  lemma ChompOf(x: string)
    requires OneLine(x)
    ensures Chomp(x + "\n") == x
  {
    TextWithoutNul(x + "\n");
  }

  lemma TakeLine(d: Decoded, x: string, rest: string)
    requires OneLine(x) && |x| + 1 <= LINE_LIMIT
    ensures TakeLines(d, x + "\n" + rest) == TakeLines(Take(d, x), rest)
  {
    hide Chunk, Chomp, Take;
    ChunkOf(x, rest, LINE_LIMIT);
    ChompOf(x);
    assert (x + "\n" + rest)[|x| + 1..] == rest;
  }

  /** A line that fills the buffer: its newline is read as an empty line of its own. */
  lemma TakeFullLine(d: Decoded, x: string, rest: string)
    requires OneLine(x) && |x| == LINE_LIMIT
    ensures TakeLines(d, x + "\n" + rest) == TakeLines(Take(d, x), rest)
  {
    hide Chunk, Chomp, Take;
    var s, after := x + "\n" + rest, "\n" + rest;
    FullChunk(x, after);
    assert s == x + after && s[|x|..] == after;
    ChunkOf("", rest, LINE_LIMIT);
    assert "" + "\n" + rest == after && "" + "\n" == "\n" && after[1..] == rest;
    ChompOf("");
    ChompAll(x);
    TakeNothing(Take(d, x));
  }

  lemma {:induction false} FullChunk(x: string, rest: string)
    requires '\n' !in x
    ensures Chunk(x + rest, |x|) == x
    decreases |x|
  {
    if x != "" {
      assert (x + rest)[0] == x[0] && (x + rest)[1..] == x[1..] + rest;
      FullChunk(x[1..], rest);
    }
  }

  lemma ChompAll(x: string)
    requires OneLine(x)
    ensures Chomp(x) == x
  {
    TextWithoutNul(x);
  }

  lemma TakeNothing(d: Decoded)
    ensures Take(d, "") == d
  {
  }

  lemma TakeAnyLine(d: Decoded, x: string, rest: string)
    requires OneLine(x) && |x| <= LINE_LIMIT
    ensures TakeLines(d, x + "\n" + rest) == TakeLines(Take(d, x), rest)
  {
    hide *;
    if |x| < LINE_LIMIT { TakeLine(d, x, rest); } else { TakeFullLine(d, x, rest); }
  }

  /** There is something on the line, it fits the buffer, and it is not taken for a marked line. */
  predicate FitsLine(f: string) { 0 < |f| <= LINE_LIMIT && !StartsWith(f, TRACE_MARK) && !StartsWith(f, CRUMB_MARK) }

  predicate IsFrame(f: string) { OneLine(f) && FitsLine(f) }

  lemma {:induction false} TakeFrames(d: Decoded, frames: seq<string>, rest: string)
    requires forall f <- frames :: IsFrame(f)
    ensures TakeLines(d, Lines("", frames) + rest) == TakeLines(d.(frames := d.frames + frames), rest)
    decreases |frames|
  {
    hide TakeLines;
    if frames == [] {
      assert Lines("", frames) + rest == rest && d.frames + [] == d.frames;
    } else {
      var n := |frames| - 1;
      var f := frames[n];
      assert IsFrame(f);
      assert Lines("", frames) + rest == Lines("", frames[..n]) + (f + "\n" + rest);
      TakeFrames(d, frames[..n], f + "\n" + rest);
      TakeAnyLine(d.(frames := d.frames + frames[..n]), f, rest);
      assert d.frames + frames[..n] + [f] == d.frames + frames by { assert frames == frames[..n] + [f]; }
    }
  }

  /** A dumped slot: empty, or a whole encoded entry. */
  ghost predicate IsDumped(t: string) { t == "" || IsEncoded(t) }

  ghost function NonEmpty(dump: seq<string>): seq<string> {
    if dump == [] then []
    else NonEmpty(dump[..|dump| - 1]) + (if dump[|dump| - 1] == "" then [] else [dump[|dump| - 1]])
  }

  lemma CrumbLine(d: Decoded, t: string)
    requires IsDumped(t)
    ensures OneLine(CRUMB_MARK + t) && |CRUMB_MARK + t| + 1 <= LINE_LIMIT
    ensures Take(d, CRUMB_MARK + t) == if t == "" then d else d.(crumbs := d.crumbs + [t])
  {
    var line := CRUMB_MARK + t;
    forall k | 0 <= k < |line| ensures line[k] >= ' ' {
      if k >= |CRUMB_MARK| { assert line[k] == t[k - |CRUMB_MARK|]; }
    }
    assert line[1] == 'b' && line[|CRUMB_MARK|..] == t;
  }

  lemma {:induction false} TakeCrumbs(d: Decoded, dump: seq<string>, rest: string)
    requires forall t <- dump :: IsDumped(t)
    ensures TakeLines(d, Lines(CRUMB_MARK, dump) + rest) == TakeLines(d.(crumbs := d.crumbs + NonEmpty(dump)), rest)
    decreases |dump|
  {
    hide TakeLines, IsDumped, CRUMB_MARK, Take;
    if dump == [] {
      assert Lines(CRUMB_MARK, dump) + rest == rest && d.crumbs + [] == d.crumbs;
    } else {
      var n := |dump| - 1;
      var t := dump[n];
      assert IsDumped(t);
      assert Lines(CRUMB_MARK, dump) + rest == Lines(CRUMB_MARK, dump[..n]) + ((CRUMB_MARK + t) + "\n" + rest);
      TakeCrumbs(d, dump[..n], (CRUMB_MARK + t) + "\n" + rest);
      var d' := d.(crumbs := d.crumbs + NonEmpty(dump[..n]));
      CrumbLine(d', t);
      TakeLine(d', CRUMB_MARK + t, rest);
      var added := if t == "" then [] else [t];
      assert NonEmpty(dump) == NonEmpty(dump[..n]) + added;
      assert d.crumbs + NonEmpty(dump[..n]) + added == d.crumbs + NonEmpty(dump);
      assert t == "" ==> d'.crumbs + added == d'.crumbs;
    }
  }

  lemma TakeTrace(d: Decoded, id: string)
    requires IsTraceId(id)
    ensures TakeLines(d, TRACE_MARK + id + "\n") == d.(traceId := id)
  {
    var line := TRACE_MARK + id;
    forall k | 0 <= k < |line| ensures line[k] >= ' ' {
      if k >= |TRACE_MARK| { assert line[k] == id[k - |TRACE_MARK|]; }
    }
    assert line[|TRACE_MARK|..] == id;
    assert line + "\n" + "" == TRACE_MARK + id + "\n";
    TakeLine(d, line, "");
  }

  /** Decoding a completely written report gives back the signal name, every frame line, the dumped
      entries in order (empty slots skipped) and the trace id. */
  lemma RoundTrip(name: string, frames: seq<string>, dump: seq<string>, id: string)
    requires OneLine(name) && |name| < NAME_LIMIT
    requires (forall f <- frames :: IsFrame(f)) && (forall t <- dump :: IsDumped(t)) && (id == "" || IsTraceId(id))
    ensures Decode(Report(name, frames, dump, id)) == Decoded(name, frames, NonEmpty(dump), id)
  {
    hide TakeLines, Chunk, Chomp, Take, Lines, IsFrame, IsDumped, CRUMB_MARK, TRACE_MARK, NonEmpty;
    var last := if id == "" then "" else TRACE_MARK + id + "\n";
    var rest := Lines("", frames) + (Lines(CRUMB_MARK, dump) + last);
    var s := name + "\n" + rest;
    ChunkOf(name, rest, NAME_LIMIT);
    ChompOf(name);
    assert s[|name| + 1..] == rest;
    var d := Decoded(name, [], [], "");
    assert [] + frames == frames && [] + NonEmpty(dump) == NonEmpty(dump);
    TakeFrames(d, frames, Lines(CRUMB_MARK, dump) + last);
    TakeCrumbs(d.(frames := frames), dump, last);
    var d' := d.(frames := frames, crumbs := NonEmpty(dump));
    if id == "" { NothingToTake(d'); } else { TakeTrace(d', id); }
  }

  /** An id that is written comes back if and only if it is thirty-two lowercase hexadecimal digits; of
      any other there is no trace. */
  lemma TraceIdComesBackIff(name: string, frames: seq<string>, dump: seq<string>, id: string)
    requires OneLine(name) && |name| < NAME_LIMIT
    requires (forall f <- frames :: IsFrame(f)) && (forall t <- dump :: IsDumped(t))
    requires id != "" && OneLine(id) && |id| < 1000
    ensures Decode(Report(name, frames, dump, id)) ==
            Decoded(name, frames, NonEmpty(dump), if IsHexId(id) then id else "")
  {
    hide IsHexId, IsFrame, IsDumped, Decode, Report, NonEmpty;
    TraceIdIsHex(id);
    if IsHexId(id) { RoundTrip(name, frames, dump, id); } else { OtherIdIsDropped(name, frames, dump, id); }
  }

  lemma OtherIdIsDropped(name: string, frames: seq<string>, dump: seq<string>, id: string)
    requires OneLine(name) && |name| < NAME_LIMIT
    requires (forall f <- frames :: IsFrame(f)) && (forall t <- dump :: IsDumped(t))
    requires id != "" && OneLine(id) && |id| < 1000 && !IsTraceId(id)
    ensures Decode(Report(name, frames, dump, id)) == Decoded(name, frames, NonEmpty(dump), "")
  {
    hide TakeLines, Chunk, Chomp, Take, Lines, IsFrame, IsDumped, CRUMB_MARK, TRACE_MARK, NonEmpty, IsTraceId;
    var last := TRACE_MARK + id + "\n";
    var rest := Lines("", frames) + (Lines(CRUMB_MARK, dump) + last);
    var s := name + "\n" + rest;
    ChunkOf(name, rest, NAME_LIMIT);
    ChompOf(name);
    assert s[|name| + 1..] == rest;
    var d := Decoded(name, [], [], "");
    assert [] + frames == frames && [] + NonEmpty(dump) == NonEmpty(dump);
    TakeFrames(d, frames, Lines(CRUMB_MARK, dump) + last);
    TakeCrumbs(d.(frames := frames), dump, last);
    var d' := d.(frames := frames, crumbs := NonEmpty(dump));
    TakeOtherId(d', id);
  }

  lemma TakeOtherId(d: Decoded, id: string)
    requires OneLine(id) && |id| < 1000 && !IsTraceId(id)
    ensures TakeLines(d, TRACE_MARK + id + "\n") == d
  {
    var line := TRACE_MARK + id;
    assert line[|TRACE_MARK|..] == id;
    assert line + "\n" + "" == TRACE_MARK + id + "\n";
    hide IsTraceId;
    assert OneLine(line);
    TakeLine(d, line, "");
  }

  lemma {:induction false} TextIsShorter(s: string)
    ensures |Text(s)| <= |s|
  {
    if s != "" { TextIsShorter(s[1..]); }
  }

  lemma {:induction false} DecodedFramesFit(d: Decoded, s: string)
    requires forall f <- d.frames :: FitsLine(f)
    ensures forall f <- TakeLines(d, s).frames :: FitsLine(f)
    decreases |s|
  {
    hide TRACE_MARK, CRUMB_MARK, Text, Chunk, StartsWith;
    if s != "" {
      var chunk := Chunk(s, LINE_LIMIT);
      TextIsShorter(chunk);
      DecodedFramesFit(Take(d, Chomp(chunk)), s[|chunk|..]);
    }
  }

  /** The frame lines come back as they were if and only if each is there, fits the line buffer and
      does not start like a marked line. */
  lemma FramesComeBackIff(name: string, frames: seq<string>, dump: seq<string>, id: string)
    requires OneLine(name) && |name| < NAME_LIMIT && forall f <- frames :: OneLine(f)
    requires (forall t <- dump :: IsDumped(t)) && (id == "" || IsTraceId(id))
    ensures Decode(Report(name, frames, dump, id)).frames == frames <==> forall f <- frames :: FitsLine(f)
  {
    hide TakeLines, Chunk, Chomp, Report, IsDumped, OneLine, StartsWith, Take;
    var s := Report(name, frames, dump, id);
    if forall f <- frames :: FitsLine(f) {
      forall f | f in frames ensures IsFrame(f) { assert FitsLine(f); }
      RoundTrip(name, frames, dump, id);
    }
    var chunk := Chunk(s, NAME_LIMIT);
    DecodedFramesFit(Decoded(if s == "" then "unknown signal" else Chomp(chunk), [], [], ""), s[|chunk|..]);
  }

  lemma NothingToTake(d: Decoded)
    ensures TakeLines(d, "") == d
  {
  }

  // ----- With the ring -----

  lemma {:induction false} NothingSkipped(dump: seq<string>)
    requires forall t <- dump :: t != ""
    ensures NonEmpty(dump) == dump
  {
    if dump != [] {
      var n := |dump| - 1;
      assert dump[n] in dump && forall t :: t in dump[..n] ==> t in dump;
      NothingSkipped(dump[..n]);
      assert dump == dump[..n] + [dump[n]];
    }
  }

  ghost predicate WellEncoded(op: Op) { op.Add? ==> IsEncoded(op.e) }

  lemma EncodedIsEntry(t: string)
    requires IsEncoded(t)
    ensures IsEntry(t)
  {
  }

  /** What the handler dumps; a thread without a ring dumps nothing. */
  ghost function Dumped(r: Ring): seq<string>
    requires r.capacity > 0 ==> Shaped(r)
  {
    if r.capacity == 0 then [] else Dump(r)
  }

  lemma RunIsShaped(ops: seq<Op>)
    requires forall op <- ops :: WellEncoded(op)
    ensures var r := RunRing(ops);
            && Agrees(r, RunTrail(ops), Added(ops))
            && (r.capacity > 0 ==> Shaped(r) && AllWhole(r, Added(ops)))
  {
    hide RunRing, RunTrail, IsEncoded, IsEntry, Dump;
    forall op | op in ops ensures Encodable(op) { if op.Add? { EncodedIsEntry(op.e); } }
    RingIsTrail(ops);
  }

  /** A crash between two calls, after any history of adds and clears: the report gives back exactly
      the plain trail, in order. */
  lemma CrashBetweenCalls(ops: seq<Op>, name: string, frames: seq<string>, id: string)
    requires forall op <- ops :: WellEncoded(op)
    requires OneLine(name) && |name| < NAME_LIMIT && (forall f <- frames :: IsFrame(f)) && (id == "" || IsTraceId(id))
    ensures RunRing(ops).capacity > 0 ==> Shaped(RunRing(ops))
    ensures Decode(Report(name, frames, Dumped(RunRing(ops)), id)) == Decoded(name, frames, RunTrail(ops).entries, id)
  {
    hide Decode, Report, RunRing, RunTrail, IsFrame, IsEncoded, IsEntry, Dump;
    RunIsShaped(ops);
    var trail := RunTrail(ops).entries;
    TrailWasAdded(ops);
    forall t | t in trail ensures IsDumped(t) && t != "" { EncodedNotEmpty(t); }
    RoundTrip(name, frames, trail, id);
    NothingSkipped(trail);
  }

  lemma EncodedNotEmpty(t: string)
    requires IsEncoded(t)
    ensures t != ""
  {
  }

  lemma {:induction false} TrailWasAdded(ops: seq<Op>)
    requires forall op <- ops :: WellEncoded(op)
    ensures forall t <- RunTrail(ops).entries :: IsEncoded(t)
    decreases |ops|
  {
    hide IsEncoded;
    if ops != [] {
      var front, op := ops[..|ops| - 1], ops[|ops| - 1];
      TrailWasAdded(front);
      assert op in ops;
    }
  }

  /** The report of a ring the handler is safe to read: what surrounds the trail comes back, and every
      entry that does is a whole one that was added. */
  lemma SafeReport(r: Ring, added: set<string>, name: string, frames: seq<string>, id: string)
    requires HandlerSafe(r, added) && forall t <- added :: IsEncoded(t)
    requires OneLine(name) && |name| < NAME_LIMIT && (forall f <- frames :: IsFrame(f)) && (id == "" || IsTraceId(id))
    ensures Decode(Report(name, frames, Dump(r), id)) == Decoded(name, frames, NonEmpty(Dump(r)), id)
    ensures forall t <- NonEmpty(Dump(r)) :: t in added
  {
    hide Decode, Report, IsFrame, IsEncoded, Dump;
    DumpIsWhole(r, added);
    RoundTrip(name, frames, Dump(r), id);
    NonEmptyIsIn(Dump(r));
  }

  lemma AddedIsEncoded(ops: seq<Op>)
    requires forall op <- ops :: WellEncoded(op)
    ensures forall t <- Added(ops) :: IsEncoded(t)
  {
    hide IsEncoded;
  }

  /** A crash in the middle of an add, the first one of the thread included, at any of its stores: the
      report gives back exactly what AddDump says, and each entry is a whole one this thread added. */
  lemma CrashInsideAdd(ops: seq<Op>, e: string, maxBreadcrumbs: int, n: nat, name: string, frames: seq<string>,
                       id: string)
    requires (forall op <- ops :: WellEncoded(op)) && IsEncoded(e) && Allowed(maxBreadcrumbs) > 0
    requires var r := Ready(RunRing(ops), Allowed(maxBreadcrumbs));
             n <= |AddStores(r, e, Min(Allowed(maxBreadcrumbs), r.capacity))|
    requires OneLine(name) && |name| < NAME_LIMIT && (forall f <- frames :: IsFrame(f)) && (id == "" || IsTraceId(id))
    ensures var r := Ready(RunRing(ops), Allowed(maxBreadcrumbs));
            var r' := Exec(r, AddStores(r, e, Min(Allowed(maxBreadcrumbs), r.capacity))[..n]);
            && Shaped(r) && Shaped(r')
            && var d := Decode(Report(name, frames, Dump(r'), id));
               && d.name == name && d.frames == frames && d.traceId == id
               && d.crumbs == NonEmpty(AddDump(r, e, Min(Allowed(maxBreadcrumbs), r.capacity), n))
               && forall t <- d.crumbs :: t in Added(ops) + {e}
  {
    hide Decode, Report, RunRing, RunTrail, IsFrame, IsEncoded, IsEntry, Exec, AddStores, Dump, Allocate, AllWhole,
         Added;
    hide AddDump, NonEmpty, HandlerSafe;
    var allowed := Allowed(maxBreadcrumbs);
    var r, max := Ready(RunRing(ops), allowed), Min(allowed, Ready(RunRing(ops), allowed).capacity);
    ReadyIsWhole(ops, allowed);
    EncodedIsEntry(e);
    AddedIsEncoded(ops);
    AddSafe(r, e, max, Added(ops), n);
    AddDumps(r, e, max, n);
    SafeReport(Exec(r, AddStores(r, e, max)[..n]), Added(ops) + {e}, name, frames, id);
  }

  lemma ReadyIsWhole(ops: seq<Op>, allowed: nat)
    requires (forall op <- ops :: WellEncoded(op)) && allowed > 0
    ensures var r := Ready(RunRing(ops), allowed); Shaped(r) && AllWhole(r, Added(ops)) && r.capacity > 0
  {
    hide RunRing, RunTrail, IsEncoded, Dump, Added;
    RunIsShaped(ops);
    AllocateIsEmpty(allowed);
    if RunRing(ops).capacity == 0 { MoreAdded(Allocate(allowed), Trail(allowed, []), {}, Added(ops)); }
  }

  /** A crash in the middle of a clear, at any of its stores: likewise. */
  lemma CrashInsideClear(ops: seq<Op>, n: nat, name: string, frames: seq<string>, id: string)
    requires (forall op <- ops :: WellEncoded(op)) && RunRing(ops).capacity > 0 && n <= |CLEAR_STORES|
    requires OneLine(name) && |name| < NAME_LIMIT && (forall f <- frames :: IsFrame(f)) && (id == "" || IsTraceId(id))
    ensures var r := Exec(RunRing(ops), CLEAR_STORES[..n]);
            && Shaped(RunRing(ops)) && Shaped(r)
            && var d := Decode(Report(name, frames, Dump(r), id));
               && d.name == name && d.frames == frames && d.traceId == id
               && d.crumbs == NonEmpty(ClearDump(RunRing(ops), n))
               && forall t <- d.crumbs :: t in Added(ops)
  {
    hide Decode, Report, RunRing, RunTrail, IsFrame, IsEncoded, Exec, Dump, AllWhole, Added, CLEAR_STORES;
    hide ClearDump, NonEmpty, HandlerSafe;
    RunIsShaped(ops);
    AddedIsEncoded(ops);
    ClearSafe(RunRing(ops), Added(ops), n);
    ClearDumps(RunRing(ops), n);
    SafeReport(Exec(RunRing(ops), CLEAR_STORES[..n]), Added(ops), name, frames, id);
  }

  lemma DumpIsWhole(r: Ring, added: set<string>)
    requires HandlerSafe(r, added)
    ensures forall t <- Dump(r) :: Whole(t, added)
  {
    hide Text;
    forall t | t in Dump(r) ensures Whole(t, added) {
      var i :| 0 <= i < |Dump(r)| && Dump(r)[i] == t;
    }
  }

  lemma {:induction false} NonEmptyIsIn(dump: seq<string>)
    ensures forall t <- NonEmpty(dump) :: t in dump && t != ""
  {
    if dump != [] { NonEmptyIsIn(dump[..|dump| - 1]); }
  }
}
