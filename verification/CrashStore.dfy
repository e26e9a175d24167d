/** Reports waiting on disk (src/crash_store.c, src/reporter.c), over an abstract directory: which
    are listed, in what order, and what one pass of uploads sends and removes. */
module CrashStore {
  import opened Common
  import opened Ledger

  const MAX_PENDING: nat := 20
  const MAX_AGE_SECONDS: int := 7 * 24 * 60 * 60

  type Path = string

  // ----- The order: time, then name -----

  /** strcmp(a, b) < 0. */
  predicate Less(a: string, b: string) {
    if b == "" then false
    else if a == "" then true
    else a[0] < b[0] || (a[0] == b[0] && Less(a[1..], b[1..]))
  }

  datatype Pending = Pending(path: Path, modifiedAt: int)

  /** compare_pending(a, b) < 0. */
  predicate Before(a: Pending, b: Pending) {
    a.modifiedAt < b.modifiedAt || (a.modifiedAt == b.modifiedAt && Less(a.path, b.path))
  }

  lemma {:induction false} LessIsTotal(a: string, b: string)
    ensures Less(a, b) || Less(b, a) || a == b
    ensures !(Less(a, b) && Less(b, a)) && !Less(a, a)
  {
    if a != "" && b != "" {
      LessIsTotal(a[1..], b[1..]);
      if a[0] == b[0] && a[1..] == b[1..] { assert a == [a[0]] + a[1..] == b; }
    }
    if a != "" { LessIsTotal(a[1..], a[1..]); }
  }

  lemma {:induction false} LessIsTransitive(a: string, b: string, c: string)
    requires Less(a, b) && Less(b, c)
    ensures Less(a, c)
  {
    if a != "" && a[0] == b[0] == c[0] { LessIsTransitive(a[1..], b[1..], c[1..]); }
  }

  lemma BeforeIsOrder(a: Pending, b: Pending, c: Pending)
    ensures Before(a, b) || Before(b, a) || a == b
    ensures !(Before(a, b) && Before(b, a))
    ensures Before(a, b) && Before(b, c) ==> Before(a, c)
  {
    hide Less;
    LessIsTotal(a.path, b.path);
    if Less(a.path, b.path) && Less(b.path, c.path) { LessIsTransitive(a.path, b.path, c.path); }
  }

  // ----- Which files are listed -----

  predicate HasSuffix(s: string, suffix: string) { |suffix| <= |s| && s[|s| - |suffix|..] == suffix }

  predicate IsReport(p: Path) { HasSuffix(p, ".json") || HasSuffix(p, ".txt") }

  ghost predicate EndsLikeReport(p: Path) { exists base: string :: p == base + ".json" || p == base + ".txt" }

  lemma ReportEnds(p: Path)
    ensures IsReport(p) <==> EndsLikeReport(p)
  {
    if HasSuffix(p, ".json") { assert p == p[..|p| - 5] + ".json"; }
    if HasSuffix(p, ".txt") { assert p == p[..|p| - 4] + ".txt"; }
  }

  /** Modification times by path, 0 when stat() fails. */
  type Directory = map<Path, int>

  predicate TooOld(files: Directory, p: Path, cutoff: int)
    requires p in files
  {
    files[p] != 0 && files[p] < cutoff
  }

  ghost function Expired(files: Directory, cutoff: int): set<Path> {
    set p | p in files && IsReport(p) && TooOld(files, p, cutoff)
  }

  ghost function Eligible(files: Directory, cutoff: int): (r: set<Path>)
    ensures r <= files.Keys
  {
    set p | p in files && IsReport(p) && !TooOld(files, p, cutoff)
  }

  ghost function Entry(files: Directory, p: Path): Pending
    requires p in files
  {
    Pending(p, files[p])
  }

  ghost predicate Sorted(ps: seq<Pending>) { forall i, j :: 0 <= i < j < |ps| ==> Before(ps[i], ps[j]) }

  /** Oldest first, none too old, at most 20, and whatever is missing is older than all of them. */
  ghost predicate IsNewest(listed: seq<Pending>, files: Directory, cutoff: int) {
    && Sorted(listed)
    && (forall x <- listed :: x.path in Eligible(files, cutoff) && x == Entry(files, x.path))
    && |listed| <= MAX_PENDING
    && (forall p <- Eligible(files, cutoff) :: Entry(files, p) !in listed ==>
          |listed| == MAX_PENDING && forall x <- listed :: Before(Entry(files, p), x))
  }

  /** a is a proper beginning of b, or smaller where they first differ. */
  ghost predicate ComesFirst(a: string, b: string) {
    exists k: nat :: DiffersAt(a, b, k) && (k == |a| || a[k] < b[k])
  }

  ghost predicate DiffersAt(a: string, b: string, k: nat) {
    k <= |a| && k < |b| && a[..k] == b[..k]
  }

  lemma {:induction false} LessIsFirst(a: string, b: string)
    ensures Less(a, b) <==> ComesFirst(a, b)
  {
    if b != "" && a != "" {
      LessIsFirst(a[1..], b[1..]);
      if a[0] == b[0] && ComesFirst(a[1..], b[1..]) {
        var k: nat :| DiffersAt(a[1..], b[1..], k) && (k == |a[1..]| || a[1..][k] < b[1..][k]);
        assert a[..k + 1] == [a[0]] + a[1..][..k] && b[..k + 1] == [b[0]] + b[1..][..k];
        assert DiffersAt(a, b, k + 1);
      }
      if ComesFirst(a, b) {
        var k: nat :| DiffersAt(a, b, k) && (k == |a| || a[k] < b[k]);
        if k > 0 {
          assert a[0] == a[..k][0] == b[..k][0] == b[0];
          assert a[1..][..k - 1] == a[..k][1..] && b[1..][..k - 1] == b[..k][1..];
          assert DiffersAt(a[1..], b[1..], k - 1);
        }
      }
      if a[0] < b[0] { assert DiffersAt(a, b, 0); }
    } else if b != "" {
      assert DiffersAt(a, b, 0);
    }
  }

  /** On the times themselves: never later before earlier, names deciding among equals, and what is not
      listed is no later than anything that is. */
  ghost predicate NewestByTime(listed: seq<Pending>, files: Directory, cutoff: int) {
    && |listed| <= 20
    && (forall i, j :: 0 <= i < j < |listed| ==>
          && listed[i].modifiedAt <= listed[j].modifiedAt
          && (listed[i].modifiedAt == listed[j].modifiedAt ==> ComesFirst(listed[i].path, listed[j].path)))
    && (forall x <- listed :: x.path in files && x.modifiedAt == files[x.path])
    && (forall p, x :: p in Eligible(files, cutoff) && Entry(files, p) !in listed && x in listed ==>
          files[p] <= x.modifiedAt)
    && (forall p :: p in Eligible(files, cutoff) && Entry(files, p) !in listed ==> |listed| == 20)
  }

  /** A listing removes a file only if it is named like a report, and only for being over a week old or
      for there being twenty that are no older; and one over a week old always. */
  ghost predicate RemovedRightly(before: Directory, after: Directory, listed: seq<Pending>, now: int) {
    && (forall p :: p in before && p !in after ==>
          && EndsLikeReport(p)
          && (|| (before[p] != 0 && before[p] < now - 604800)
              || (|listed| == 20 && forall x <- listed :: before[p] <= x.modifiedAt)))
    && (forall p :: p in after ==> p in before && after[p] == before[p])
    && (forall p :: p in before && EndsLikeReport(p) && before[p] != 0 && before[p] < now - 604800 ==> p !in after)
  }

  lemma ListingRemovesRightly(before: Directory, after: Directory, listed: seq<Pending>, now: int)
    requires var cutoff := now - 604800;
             && IsNewest(listed, before, cutoff)
             && after == before - (Expired(before, cutoff) + (Eligible(before, cutoff) - Paths(listed)))
    ensures RemovedRightly(before, after, listed, now)
  {
    hide EndsLikeReport, IsReport, Less;
    var cutoff := now - 604800;
    NewestIsByTime(listed, before, cutoff);
    forall p | p in before ensures IsReport(p) <==> EndsLikeReport(p) { ReportEnds(p); }
    forall p | p in before && p !in after && p !in Expired(before, cutoff)
      ensures IsReport(p) && |listed| == 20 && forall x <- listed :: before[p] <= x.modifiedAt
    {
      assert p in Eligible(before, cutoff) && Entry(before, p) !in listed;
    }
  }

  lemma NewestIsByTime(listed: seq<Pending>, files: Directory, cutoff: int)
    requires IsNewest(listed, files, cutoff)
    ensures NewestByTime(listed, files, cutoff)
  {
    hide ComesFirst, Less, Eligible;
    forall i, j | 0 <= i < j < |listed|
      ensures listed[i].modifiedAt <= listed[j].modifiedAt
      ensures listed[i].modifiedAt == listed[j].modifiedAt ==> ComesFirst(listed[i].path, listed[j].path)
    {
      assert Before(listed[i], listed[j]);
      LessIsFirst(listed[i].path, listed[j].path);
    }
    forall p, x | p in Eligible(files, cutoff) && Entry(files, p) !in listed && x in listed
      ensures files[p] <= x.modifiedAt
    {
      assert Before(Entry(files, p), x);
    }
  }

  ghost function Paths(ps: seq<Pending>): set<Path> { set x <- ps :: x.path }

  // ----- Sorting -----

  ghost predicate Comparable(ps: seq<Pending>) { forall i, j :: 0 <= i < j < |ps| ==> ps[i] != ps[j] }

  /** Stands for qsort: the order is total, so any sort gives the same. */
  method Sort(ps: seq<Pending>) returns (r: seq<Pending>)
    requires Comparable(ps)
    ensures Sorted(r) && multiset(r) == multiset(ps)
  {
    r := [];
    for i := 0 to |ps|
      invariant Sorted(r) && multiset(r) == multiset(ps[..i])
    {
      assert ps[..i + 1] == ps[..i] + [ps[i]];
      NotYet(ps, i, r);
      r := Insert(r, ps[i]);
    }
    assert ps[..|ps|] == ps;
  }

  lemma NotYet(ps: seq<Pending>, i: nat, r: seq<Pending>)
    requires Comparable(ps) && i < |ps| && multiset(r) == multiset(ps[..i])
    ensures ps[i] !in r
  {
    assert ps[i] !in multiset(ps[..i]);
  }

  method Insert(s: seq<Pending>, x: Pending) returns (r: seq<Pending>)
    requires Sorted(s) && x !in s
    ensures Sorted(r) && multiset(r) == multiset(s) + multiset{x}
  {
    var k := 0;
    while k < |s| && Before(s[k], x)
      invariant k <= |s| && forall i :: 0 <= i < k ==> Before(s[i], x)
    {
      k := k + 1;
    }
    InsertSorted(s, k, x);
    r := s[..k] + [x] + s[k..];
    assert s == s[..k] + s[k..];
  }

  lemma InsertSorted(s: seq<Pending>, k: nat, x: Pending)
    requires Sorted(s) && x !in s && k <= |s|
    requires (forall i :: 0 <= i < k ==> Before(s[i], x)) && (k < |s| ==> !Before(s[k], x))
    ensures Sorted(s[..k] + [x] + s[k..])
  {
    hide Before;
    var r := s[..k] + [x] + s[k..];
    if k < |s| { BeforeIsOrder(s[k], x, x); }
    forall i, j | 0 <= i < j < |r| ensures Before(r[i], r[j]) {
      if i == k && j > k + 1 { BeforeIsOrder(x, s[k], s[j - 1]); }
    }
  }

  // ----- Listing -----

  /** readdir: every name in the directory once, in some order. */
  ghost predicate IsListing(order: seq<Path>, files: Directory) {
    (forall p :: p in order <==> p in files) && forall i, j :: 0 <= i < j < |order| ==> order[i] != order[j]
  }

  /** The pending entries of a listing: one for each report that is not too old. */
  ghost predicate Gathered(pending: seq<Pending>, files: Directory, cutoff: int) {
    && Comparable(pending)
    && forall x :: x in pending <==> x.path in Eligible(files, cutoff) && x == Entry(files, x.path)
  }

  lemma NewestOfSorted(sorted: seq<Pending>, files: Directory, cutoff: int, excess: nat)
    requires Sorted(sorted) && excess == if |sorted| > MAX_PENDING then |sorted| - MAX_PENDING else 0
    requires forall x :: x in sorted <==> x.path in Eligible(files, cutoff) && x == Entry(files, x.path)
    ensures IsNewest(sorted[excess..], files, cutoff)
    ensures Paths(sorted[..excess]) == Eligible(files, cutoff) - Paths(sorted[excess..])
  {
    hide Before, Eligible;
    var listed := sorted[excess..];
    forall p | p in Eligible(files, cutoff) && Entry(files, p) !in listed
      ensures |listed| == MAX_PENDING && forall x <- listed :: Before(Entry(files, p), x)
    {
      var i :| 0 <= i < |sorted| && sorted[i] == Entry(files, p);
      forall x | x in listed ensures Before(Entry(files, p), x) {
        var j :| 0 <= j < |listed| && listed[j] == x;
        assert x == sorted[excess + j];
      }
    }
    Partition(sorted, files, cutoff, excess);
  }

  lemma Partition(sorted: seq<Pending>, files: Directory, cutoff: int, excess: nat)
    requires Sorted(sorted) && excess <= |sorted|
    requires forall x :: x in sorted <==> x.path in Eligible(files, cutoff) && x == Entry(files, x.path)
    ensures Paths(sorted[..excess]) == Eligible(files, cutoff) - Paths(sorted[excess..])
  {
    hide Before, Eligible;
    var a, b := sorted[..excess], sorted[excess..];
    assert sorted == a + b;
    forall p | p in Paths(a) ensures p in Eligible(files, cutoff) && p !in Paths(b) {
      var i :| 0 <= i < |a| && a[i].path == p;
      assert a[i] in sorted;
      if p in Paths(b) {
        var j :| 0 <= j < |b| && b[j].path == p;
        assert b[j] in sorted && a[i] == b[j];
        assert sorted[i] == a[i] && sorted[excess + j] == b[j];
        BeforeIsOrder(a[i], b[j], b[j]);
      }
    }
    forall p | p in Eligible(files, cutoff) && p !in Paths(b) ensures p in Paths(a) {
      var x := Entry(files, p);
      assert x in sorted;
      assert x in a || x in b;
    }
  }

  // ----- That list is the only one -----

  lemma SortedFirst(a: seq<Pending>, x: Pending)
    requires Sorted(a) && a != [] && x in a
    ensures x == a[0] || Before(a[0], x)
  {
    hide Before;
    var i :| 0 <= i < |a| && a[i] == x;
  }

  lemma SortedTail(a: seq<Pending>)
    requires Sorted(a) && a != []
    ensures Sorted(a[1..]) && a[0] !in a[1..]
  {
    hide Before;
    if a[0] in a[1..] {
      var i :| 0 <= i < |a| - 1 && a[1..][i] == a[0];
      assert a[i + 1] == a[0];
      BeforeIsOrder(a[0], a[i + 1], a[0]);
      assert false;
    }
  }

  lemma {:induction false} SortedUnique(a: seq<Pending>, b: seq<Pending>)
    requires Sorted(a) && Sorted(b) && forall x :: x in a <==> x in b
    ensures a == b
    decreases |a|
  {
    hide Before, Sorted;
    assert (a != [] ==> a[0] in b) && (b != [] ==> b[0] in a);
    if a != [] && b != [] {
      SortedFirst(a, b[0]);
      SortedFirst(b, a[0]);
      BeforeIsOrder(a[0], b[0], a[0]);
      SortedTail(a);
      SortedTail(b);
      forall x ensures x in a[1..] <==> x in b[1..] {
        assert x in a <==> x == a[0] || x in a[1..];
        assert x in b <==> x == b[0] || x in b[1..];
      }
      SortedUnique(a[1..], b[1..]);
    }
  }

  ghost function Elements(a: seq<Pending>): set<Pending> { set x <- a }

  lemma {:induction false} SortedSize(a: seq<Pending>)
    requires Sorted(a)
    ensures |Elements(a)| == |a|
    decreases |a|
  {
    hide Before, Sorted;
    if a != [] {
      SortedTail(a);
      SortedSize(a[1..]);
      assert Elements(a) == {a[0]} + Elements(a[1..]);
    }
  }

  lemma NothingMissing(a: seq<Pending>, b: seq<Pending>, files: Directory, cutoff: int, x: Pending)
    requires IsNewest(a, files, cutoff) && IsNewest(b, files, cutoff) && x in a
    ensures x in b
  {
    hide Before, Eligible, Sorted;
    if x !in b {
      SortedSize(a);
      SortedSize(b);
      assert |b| == MAX_PENDING && forall z <- b :: Before(x, z);
      if y :| y in b && y !in a {
        assert Before(y, x) && Before(x, y);
        BeforeIsOrder(x, y, x);
        assert false;
      } else {
        assert Elements(b) + {x} <= Elements(a);
        SubsetSize(Elements(b) + {x}, Elements(a));
        assert false;
      }
    }
  }

  /** There is exactly one list of the newest reports: the directory and the cutoff determine it. */
  lemma NewestIsUnique(a: seq<Pending>, b: seq<Pending>, files: Directory, cutoff: int)
    requires IsNewest(a, files, cutoff) && IsNewest(b, files, cutoff)
    ensures a == b
  {
    hide IsNewest;
    forall x ensures x in a <==> x in b {
      if x in a { NothingMissing(a, b, files, cutoff, x); }
      if x in b { NothingMissing(b, a, files, cutoff, x); }
    }
    NewestSorted(a, files, cutoff);
    NewestSorted(b, files, cutoff);
    SortedUnique(a, b);
  }

  lemma NewestSorted(a: seq<Pending>, files: Directory, cutoff: int)
    requires IsNewest(a, files, cutoff)
    ensures Sorted(a)
  {
  }

  // ----- Sending -----

  datatype Answer = Unreadable | Status(code: int)

  predicate Settled(a: Answer) { a.Unreadable? || OutcomeFor(a.code) != Failed }

  /** A report is done with when it could not be read, or the answer is in the 200s, or in the 400s and
      does not ask to try again. */
  lemma SettledWhen(a: Answer)
    ensures Settled(a) <==> a.Unreadable? || a.code / 100 == 2 || (a.code / 100 == 4 && a.code !in {408, 429})
  {
    hide OutcomeFor;
    if a.Status? { OutcomeByHundreds(a.code); }
  }

  ghost function SettledPaths(listed: seq<Pending>, answer: Path -> Answer): set<Path> {
    set x <- listed | Settled(answer(x.path)) :: x.path
  }

  /** The reports among these that could be read: those that are sent. */
  function Readable(listed: seq<Pending>, answer: Path -> Answer): seq<Path> {
    if listed == [] then []
    else
      var n := |listed| - 1;
      Readable(listed[..n], answer) + (if answer(listed[n].path).Unreadable? then [] else [listed[n].path])
  }

  class Store {
    var files: Directory

    constructor (existing: Directory)
      ensures files == existing
    {
      files := existing;
    }

    /** Reports too old are removed, and so is what the cap leaves no room for, oldest first. */
    method ListPending(order: seq<Path>, now: int) returns (listed: seq<Pending>)
      requires IsListing(order, files)
      modifies this
      ensures NewestByTime(listed, old(files), now - 604800) && RemovedRightly(old(files), files, listed, now)
      ensures var cutoff := now - MAX_AGE_SECONDS;
              && IsNewest(listed, old(files), cutoff)
              && files == old(files) - (Expired(old(files), cutoff) + (Eligible(old(files), cutoff) - Paths(listed)))
    {
      hide Before, IsReport, Sorted, Comparable, IsNewest, NewestByTime, RemovedRightly, Eligible, Expired, Paths;
      ghost var before := files;
      var cutoff := now - MAX_AGE_SECONDS;
      var pending := Gather(order, cutoff);
      var sorted := Sort(pending);
      assert forall x :: x in sorted <==> x in multiset(sorted);
      assert forall x :: x in pending <==> x in multiset(pending);
      var excess := if |sorted| > MAX_PENDING then |sorted| - MAX_PENDING else 0;
      NewestOfSorted(sorted, before, cutoff, excess);
      NewestIsByTime(sorted[excess..], before, cutoff);
      Discard(sorted[..excess]);
      listed := sorted[excess..];
      assert files == before - (Expired(before, cutoff) + Paths(sorted[..excess]));
      ListingRemovesRightly(before, files, listed, now);
    }

    method Discard(doomed: seq<Pending>)
      modifies this
      ensures files == old(files) - Paths(doomed)
    {
      for i := 0 to |doomed|
        invariant files == old(files) - Paths(doomed[..i])
      {
        assert Paths(doomed[..i + 1]) == Paths(doomed[..i]) + {doomed[i].path} by {
          assert doomed[..i + 1] == doomed[..i] + [doomed[i]];
        }
        files := files - {doomed[i].path};
      }
      assert doomed[..|doomed|] == doomed;
    }

    method Gather(order: seq<Path>, cutoff: int) returns (pending: seq<Pending>)
      requires IsListing(order, files)
      modifies this
      ensures Gathered(pending, old(files), cutoff)
      ensures files == old(files) - Expired(old(files), cutoff)
    {
      hide IsReport;
      ghost var before := files;
      pending := [];
      for i := 0 to |order|
        invariant Comparable(pending)
        invariant forall x :: x in pending <==>
                    x.path in Eligible(before, cutoff) && x.path in order[..i] && x == Entry(before, x.path)
        invariant files == before - (set p | p in Expired(before, cutoff) && p in order[..i])
      {
        var path := order[i];
        assert order[..i + 1] == order[..i] + [path];
        assert path in order && path !in order[..i] && path in files && files[path] == before[path];
        if IsReport(path) {
          var modifiedAt := files[path];
          if modifiedAt != 0 && modifiedAt < cutoff {
            files := files - {path};
          } else {
            pending := pending + [Pending(path, modifiedAt)];
          }
        }
      }
      assert order[..|order|] == order;
    }

    /** One pass: list, then send in that order. A report that is unreadable, delivered or rejected
        is removed; one that failed for now stays, and in stop mode ends the pass. */
    method UploadPending(order: seq<Path>, now: int, stopAtFirstFailure: bool, answer: Path -> Answer)
      returns (sent: seq<Path>, ghost listed: seq<Pending>, ghost reached: nat)
      requires IsListing(order, files)
      modifies this
      ensures reached <= |listed| && sent == Readable(listed[..reached], answer)
      ensures var cutoff := now - MAX_AGE_SECONDS;
              && IsNewest(listed, old(files), cutoff)
              && files == old(files) - (Expired(old(files), cutoff) + (Eligible(old(files), cutoff) - Paths(listed)))
                          - SettledPaths(listed[..reached], answer)
      ensures forall i :: 0 <= i < reached - 1 ==> stopAtFirstFailure ==> Settled(answer(listed[i].path))
      ensures reached < |listed| ==> stopAtFirstFailure && reached > 0 && !Settled(answer(listed[reached - 1].path))
    {
      hide IsNewest, Expired, Eligible, Paths, SettledPaths, Readable;
      var paths := ListPending(order, now);
      listed := paths;
      sent, reached := Send(paths, stopAtFirstFailure, answer);
    }

    method Send(paths: seq<Pending>, stopAtFirstFailure: bool, answer: Path -> Answer)
      returns (sent: seq<Path>, ghost reached: nat)
      modifies this
      ensures reached <= |paths| && sent == Readable(paths[..reached], answer)
      ensures files == old(files) - SettledPaths(paths[..reached], answer)
      ensures forall i :: 0 <= i < reached - 1 ==> stopAtFirstFailure ==> Settled(answer(paths[i].path))
      ensures reached < |paths| ==> stopAtFirstFailure && reached > 0 && !Settled(answer(paths[reached - 1].path))
    {
      hide SettledPaths, Readable;
      sent, reached := [], 0;
      NoneYet(answer);
      for p := 0 to |paths|
        invariant sent == Readable(paths[..p], answer)
        invariant files == old(files) - SettledPaths(paths[..p], answer)
        invariant forall i :: 0 <= i < p ==> stopAtFirstFailure ==> Settled(answer(paths[i].path))
      {
        var path := paths[p].path;
        OneMore(paths, p, answer);
        if answer(path).Unreadable? {
          files := files - {path};
        } else {
          sent := sent + [path];
          var outcome := OutcomeFor(answer(path).code);
          if outcome != Failed { files := files - {path}; }
          if outcome == Failed && stopAtFirstFailure {
            reached := p + 1;
            return;
          }
        }
      }
      reached := |paths|;
    }
  }

  lemma NoneYet(answer: Path -> Answer)
    ensures Readable([], answer) == [] && SettledPaths([], answer) == {}
  {
  }

  lemma OneMore(listed: seq<Pending>, p: nat, answer: Path -> Answer)
    requires p < |listed|
    ensures var path := listed[p].path;
            && Readable(listed[..p + 1], answer) ==
               Readable(listed[..p], answer) + (if answer(path).Unreadable? then [] else [path])
            && SettledPaths(listed[..p + 1], answer) ==
               SettledPaths(listed[..p], answer) + (if Settled(answer(path)) then {path} else {})
  {
    assert listed[..p + 1][..p] == listed[..p];
    assert listed[..p + 1] == listed[..p] + [listed[p]];
  }
}
