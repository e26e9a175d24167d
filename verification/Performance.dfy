/** The performance tally of src/performance.c: its steps under the lock, and every run of them. */
module Performance {
  import opened Ledger

  const MAX_TRANSACTIONS: nat := 500

  datatype Tally = Tally(count: nat, sum: real, max: real)

  /** The buckets by name, when the window started, and the failed flushes in a row. */
  datatype Core = Core(tallies: map<string, Tally>, periodStart: int, failures: nat)

  datatype Snapshot = Snapshot(tallies: map<string, Tally>, start: int, end: int)

  // ----- What each locked section does -----

  function Counted(t: Tally, duration: real): Tally {
    Tally(t.count + 1, t.sum + duration, if duration > t.max then duration else t.max)
  }

  /** Past the cap a new name is dropped; a known one keeps counting. */
  predicate Takes(c: Core, name: string) { name in c.tallies || |c.tallies| < MAX_TRANSACTIONS }

  function RecordCore(c: Core, name: string, duration: real, now: int): Core {
    if !Takes(c, name) then c
    else
      var t := if name in c.tallies then c.tallies[name] else Tally(0, 0.0, 0.0);
      c.(tallies := c.tallies[name := Counted(t, duration)],
         periodStart := if |c.tallies| == 0 then now else c.periodStart)
  }

  /** What is left of a bucket once its share of a batch is taken out, clamped at nothing. */
  function Left(t: Tally, sent: Tally): Tally {
    Tally(if t.count > sent.count then t.count - sent.count else 0,
          if t.sum - sent.sum < 0.0 then 0.0 else t.sum - sent.sum,
          t.max)
  }

  function Subtract(m: map<string, Tally>, sent: map<string, Tally>): map<string, Tally> {
    map name | name in m && (name in sent ==> Left(m[name], sent[name]).count != 0)
      :: if name in sent then Left(m[name], sent[name]) else m[name]
  }

  function CompleteCore(c: Core, sent: Snapshot, o: Outcome): Core {
    if LetGo(c.failures, o) then Core(Subtract(c.tallies, sent.tallies), sent.end, 0)
    else c.(failures := c.failures + 1)
  }

  // ----- The bucket array -----

  datatype Bucket = Bucket(name: string, count: nat, sum: real, max: real)

  ghost predicate Distinct(bs: seq<Bucket>) { forall i, j :: 0 <= i < j < |bs| ==> bs[i].name != bs[j].name }

  function TallyOf(b: Bucket): Tally { Tally(b.count, b.sum, b.max) }

  /** The buckets, looked up by name; their order in the array does not matter. */
  ghost function View(bs: seq<Bucket>): map<string, Tally>
    requires Distinct(bs)
  {
    map i | 0 <= i < |bs| :: bs[i].name := TallyOf(bs[i])
  }

  lemma {:induction false} ViewSize(bs: seq<Bucket>)
    requires Distinct(bs)
    ensures |View(bs)| == |bs|
  {
    if bs == [] {
      assert View(bs) == map[];
    } else {
      var n := |bs| - 1;
      ViewSize(bs[..n]);
      ViewPush(bs[..n], bs[n]);
      assert bs == bs[..n] + [bs[n]];
    }
  }

  /** m is the view of bs. */
  lemma ViewIs(bs: seq<Bucket>, m: map<string, Tally>)
    requires Distinct(bs)
    requires forall i :: 0 <= i < |bs| ==> bs[i].name in m && m[bs[i].name] == TallyOf(bs[i])
    requires forall name :: name in m ==> exists i :: 0 <= i < |bs| && bs[i].name == name
    ensures View(bs) == m
  {
  }

  lemma ViewPush(bs: seq<Bucket>, b: Bucket)
    requires Distinct(bs) && forall i :: 0 <= i < |bs| ==> bs[i].name != b.name
    ensures Distinct(bs + [b]) && b.name !in View(bs) && View(bs + [b]) == View(bs)[b.name := TallyOf(b)]
  {
    var more, m := bs + [b], View(bs)[b.name := TallyOf(b)];
    forall name | name in m ensures exists i :: 0 <= i < |more| && more[i].name == name {
      if name == b.name {
        assert more[|bs|].name == name;
      } else {
        var i :| 0 <= i < |bs| && bs[i].name == name;
        assert more[i].name == name;
      }
    }
    ViewIs(more, m);
  }

  lemma ViewSet(bs: seq<Bucket>, j: nat, b: Bucket)
    requires Distinct(bs) && j < |bs| && b.name == bs[j].name
    ensures Distinct(bs[j := b]) && View(bs[j := b]) == View(bs)[b.name := TallyOf(b)]
  {
    var set', m := bs[j := b], View(bs)[b.name := TallyOf(b)];
    forall name | name in m ensures exists i :: 0 <= i < |set'| && set'[i].name == name {
      var i :| 0 <= i < |bs| && bs[i].name == name;
      assert set'[i].name == name;
    }
    ViewIs(set', m);
  }

  /** The last bucket is moved into the place of the one removed. */
  lemma ViewRemove(bs: seq<Bucket>, j: nat)
    requires Distinct(bs) && j < |bs|
    ensures var less := bs[j := bs[|bs| - 1]][..|bs| - 1]; Distinct(less) && View(less) == View(bs) - {bs[j].name}
  {
    hide View;
    var n := |bs| - 1;
    var less, m := bs[j := bs[n]][..n], View(bs) - {bs[j].name};
    assert forall i :: 0 <= i < n ==> less[i] == if i == j then bs[n] else bs[i];
    Relocated(bs, j, less);
    ViewIs(less, m);
  }

  lemma Relocated(bs: seq<Bucket>, j: nat, less: seq<Bucket>)
    requires Distinct(bs) && j < |bs| && |less| == |bs| - 1
    requires forall i :: 0 <= i < |less| ==> less[i] == if i == j then bs[|less|] else bs[i]
    ensures Distinct(less)
    ensures forall i :: 0 <= i < |less| ==>
              && less[i].name in View(bs) && View(bs)[less[i].name] == TallyOf(less[i])
              && less[i].name != bs[j].name
    ensures forall name :: name in View(bs) && name != bs[j].name ==>
              exists i :: 0 <= i < |less| && less[i].name == name
  {
    forall name | name in View(bs) && name != bs[j].name ensures exists i :: 0 <= i < |less| && less[i].name == name {
      var i :| 0 <= i < |bs| && bs[i].name == name;
      assert less[if i < |less| then i else j].name == name;
    }
  }

  class Tracker {
    var buckets: seq<Bucket>
    var periodStartedAt: int
    var consecutiveFailures: nat

    ghost predicate Valid()
      reads this
    {
      Distinct(buckets)
    }

    ghost function Contents(): Core
      requires Valid()
      reads this
    {
      Core(View(buckets), periodStartedAt, consecutiveFailures)
    }

    constructor ()
      ensures Valid() && Contents() == Core(map[], 0, 0)
    {
      buckets, periodStartedAt, consecutiveFailures := [], 0, 0;
    }

    method FindBucket(name: string) returns (at: nat)
      requires Valid()
      ensures at <= |buckets| && (at < |buckets| <==> name in View(buckets))
      ensures at < |buckets| ==> buckets[at].name == name && View(buckets)[name] == TallyOf(buckets[at])
    {
      at := 0;
      while at < |buckets|
        invariant at <= |buckets| && forall i :: 0 <= i < at ==> buckets[i].name != name
      {
        if buckets[at].name == name {
          assert name in View(buckets);
          return;
        }
        at := at + 1;
      }
    }

    method Record(name: string, duration: real, now: int)
      requires Valid()
      modifies this
      ensures Valid() && Contents() == RecordCore(old(Contents()), name, duration, now)
      ensures name in Contents().tallies <==> name in old(Contents()).tallies || |old(buckets)| < 500
    {
      hide View;
      ViewSize(buckets);
      var at := FindBucket(name);
      if at == |buckets| {
        if |buckets| >= MAX_TRANSACTIONS { return; }
        if |buckets| == 0 { periodStartedAt := now; }
        NotThere(buckets, name);
        ViewPush(buckets, Bucket(name, 0, 0.0, 0.0));
        buckets := buckets + [Bucket(name, 0, 0.0, 0.0)];
      }
      var b := buckets[at];
      var max := if duration > b.max then duration else b.max;
      var counted := b.(count := b.count + 1, sum := b.sum + duration, max := max);
      ViewSet(buckets, at, counted);
      buckets := buckets[at := counted];
    }

    /** The first locked section of a flush: a copy of every bucket, and the window. */
    method Copy(now: int) returns (copy: seq<Bucket>, start: int, end: int)
      requires Valid()
      ensures Distinct(copy)
      ensures Snapshot(View(copy), start, end) == Snapshot(Contents().tallies, Contents().periodStart, now)
    {
      copy, start, end := buckets, periodStartedAt, now;
    }

    /** The second one: exactly what the copy held is taken out of whatever is there by now. */
    method Complete(copy: seq<Bucket>, start: int, end: int, status: int)
      requires Valid() && Distinct(copy)
      modifies this
      ensures Valid()
      ensures Contents() == CompleteCore(old(Contents()), Snapshot(View(copy), start, end), OutcomeFor(status))
    {
      hide View, Distinct, Subtract;
      if OutcomeFor(status) == Failed {
        consecutiveFailures := consecutiveFailures + 1;
        if consecutiveFailures < MAX_FAILURES { return; }
      }
      consecutiveFailures := 0;
      ghost var before := View(buckets);
      SubtractNothing(before);
      DistinctPrefixes(copy);
      for i := 0 to |copy|
        invariant Valid() && View(buckets) == Subtract(before, View(copy[..i]))
        invariant consecutiveFailures == 0
      {
        ghost var view := View(buckets);
        SubtractOneMore(before, copy, i);
        var at := FindBucket(copy[i].name);
        if at < |buckets| {
          var b := buckets[at];
          var count := if b.count > copy[i].count then b.count - copy[i].count else 0;
          var sum := if b.sum - copy[i].sum < 0.0 then 0.0 else b.sum - copy[i].sum;
          if count == 0 {
            ViewRemove(buckets, at);
            buckets := buckets[at := buckets[|buckets| - 1]][..|buckets| - 1];
          } else {
            ViewSet(buckets, at, b.(count := count, sum := sum));
            buckets := buckets[at := b.(count := count, sum := sum)];
          }
        }
      }
      assert copy[..|copy|] == copy;
      periodStartedAt := end;
    }
  }

  lemma NotThere(bs: seq<Bucket>, name: string)
    requires Distinct(bs) && name !in View(bs)
    ensures forall i :: 0 <= i < |bs| ==> bs[i].name != name
  {
    forall i | 0 <= i < |bs| ensures bs[i].name != name { assert bs[i].name in View(bs); }
  }

  lemma SubtractNothing(m: map<string, Tally>)
    ensures Distinct([]) && Subtract(m, View([])) == m
  {
  }

  lemma DistinctPrefixes(copy: seq<Bucket>)
    requires Distinct(copy)
    ensures forall i :: 0 <= i <= |copy| ==> Distinct(copy[..i])
  {
  }

  /** Taking out one name more touches its bucket only, and that one was still as at first. */
  lemma SubtractName(m: map<string, Tally>, sent: map<string, Tally>, name: string, t: Tally)
    requires name !in sent
    ensures var view := Subtract(m, sent);
            && (name in view <==> name in m) && (name in m ==> view[name] == m[name])
            && Subtract(m, sent[name := t]) ==
               if name !in view then view
               else if Left(m[name], t).count == 0 then view - {name} else view[name := Left(m[name], t)]
  {
  }

  lemma SubtractOneMore(m: map<string, Tally>, copy: seq<Bucket>, i: nat)
    requires Distinct(copy) && i < |copy|
    ensures Distinct(copy[..i]) && Distinct(copy[..i + 1])
    ensures var view := Subtract(m, View(copy[..i])); var name := copy[i].name;
            && (name in view <==> name in m) && (name in m ==> view[name] == m[name])
            && Subtract(m, View(copy[..i + 1])) ==
               if name !in view then view
               else
                 var left := Left(m[name], TallyOf(copy[i]));
                 if left.count == 0 then view - {name} else view[name := left]
  {
    hide View, Subtract;
    assert copy[..i + 1] == copy[..i] + [copy[i]];
    ViewPush(copy[..i], copy[i]);
    SubtractName(m, View(copy[..i]), copy[i].name, TallyOf(copy[i]));
  }
}
