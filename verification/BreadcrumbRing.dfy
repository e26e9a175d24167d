/** The per-thread breadcrumb ring of src/breadcrumbs.c, store by store: a fatal signal can arrive
    after any of them, and its handler then reads the ring as it is. */
module BreadcrumbRing {
  import opened Common
  import opened BreadcrumbEntry

  const RING_LIMIT: nat := 100

  // ----- The ring as the handler sees it -----

  datatype Ring = Ring(capacity: nat, start: nat, count: nat, slots: seq<string>)

  ghost predicate Shaped(r: Ring) {
    && r.capacity > 0 && |r.slots| == r.capacity && r.start < r.capacity && r.count <= r.capacity
    && forall i :: 0 <= i < r.capacity ==> |r.slots[i]| == SLOT_SIZE
  }

  /** The C string in a slot: the bytes before the first NUL. */
  function Text(slot: string): string {
    if slot == "" || slot[0] == '\0' then "" else [slot[0]] + Text(slot[1..])
  }

  function Place(r: Ring, i: nat): nat
    requires r.capacity > 0
  {
    (r.start + i) % r.capacity
  }

  /** What forgeops_breadcrumbs_write_raw_to_fd would read: `count` slots from `start` on. */
  ghost function Dump(r: Ring): seq<string>
    requires Shaped(r)
  {
    seq(r.count, i requires 0 <= i < r.count => Text(r.slots[Place(r, i)]))
  }

  /** An empty slot, or an entry this thread added, from its first byte to its last. */
  ghost predicate Whole(t: string, added: set<string>) { t == "" || t in added }

  ghost predicate AllWhole(r: Ring, added: set<string>) {
    forall i :: 0 <= i < |r.slots| ==> Whole(Text(r.slots[i]), added)
  }

  ghost predicate HandlerSafe(r: Ring, added: set<string>) {
    Shaped(r) && forall i :: 0 <= i < r.count ==> Whole(Dump(r)[i], added)
  }

  /** An entry as stored: it fits its slot and, being a C string, holds no NUL. */
  predicate IsEntry(e: string) { |e| < SLOT_SIZE && '\0' !in e }

  // ----- Stores, one at a time -----

  datatype Store = SetStart(v: nat) | SetCount(v: nat) | SetByte(slot: nat, at: nat, c: char)

  function Apply(r: Ring, s: Store): Ring {
    match s
    case SetStart(v) => r.(start := v)
    case SetCount(v) => r.(count := v)
    case SetByte(slot, at, c) =>
      if slot < |r.slots| && at < |r.slots[slot]| then r.(slots := r.slots[slot := r.slots[slot][at := c]]) else r
  }

  function Exec(r: Ring, stores: seq<Store>): Ring
    decreases |stores|
  {
    if stores == [] then r else Exec(Apply(r, stores[0]), stores[1..])
  }

  /** Dropping the oldest entries until fewer than max are left: two stores for each. */
  function TrimStores(r: Ring, max: nat): seq<Store>
    requires max > 0 && r.capacity > 0
    decreases r.count
  {
    if r.count < max then []
    else
      var start := (r.start + 1) % r.capacity;
      [SetStart(start), SetCount(r.count - 1)] + TrimStores(r.(start := start, count := r.count - 1), max)
  }

  /** memcpy of the entry and its NUL, from byte k on. */
  function CopyStores(slot: nat, bytes: string, k: nat): seq<Store>
    requires k <= |bytes|
    decreases |bytes| - k
  {
    if k == |bytes| then [] else [SetByte(slot, k, bytes[k])] + CopyStores(slot, bytes, k + 1)
  }

  /** Writing past the newest entry, and only then publishing it. */
  function WriteStores(r: Ring, e: string): seq<Store>
    requires r.capacity > 0
  {
    CopyStores(Place(r, r.count), e + "\0", 0) + [SetCount(r.count + 1)]
  }

  function AddStores(r: Ring, e: string, max: nat): seq<Store>
    requires max > 0 && r.capacity > 0
  {
    TrimStores(r, max) + WriteStores(Trimmed(r, max), e)
  }

  const CLEAR_STORES := [SetStart(0), SetCount(0)]

  /** The ring once it is trimmed. */
  function Trimmed(r: Ring, max: nat): (t: Ring)
    requires max > 0 && r.capacity > 0
    ensures t.capacity == r.capacity && t.slots == r.slots && t.count < max && t.count <= r.count
    decreases r.count
  {
    if r.count < max then r
    else Trimmed(r.(start := (r.start + 1) % r.capacity, count := r.count - 1), max)
  }

  // ----- Safe at every interruption point -----

  /** The handler is safe before the stores, after each of them, and at the end. */
  ghost predicate SafeThroughout(r: Ring, stores: seq<Store>, added: set<string>)
    decreases |stores|
  {
    HandlerSafe(r, added) && (stores != [] ==> SafeThroughout(Apply(r, stores[0]), stores[1..], added))
  }

  lemma {:induction false} SafeAfter(r: Ring, stores: seq<Store>, added: set<string>, n: nat)
    requires SafeThroughout(r, stores, added) && n <= |stores|
    ensures HandlerSafe(Exec(r, stores[..n]), added)
    decreases n
  {
    if n > 0 {
      SafeAfter(Apply(r, stores[0]), stores[1..], added, n - 1);
      assert stores[..n][1..] == stores[1..][..n - 1];
    }
  }

  lemma {:induction false} SafeJoin(r: Ring, a: seq<Store>, b: seq<Store>, added: set<string>)
    requires SafeThroughout(r, a, added) && SafeThroughout(Exec(r, a), b, added)
    ensures SafeThroughout(r, a + b, added) && Exec(r, a + b) == Exec(Exec(r, a), b)
    decreases |a|
  {
    hide HandlerSafe;
    if a == [] {
      assert a + b == b;
    } else {
      assert (a + b)[1..] == a[1..] + b;
      SafeJoin(Apply(r, a[0]), a[1..], b, added);
    }
  }

  lemma PlaceIs(r: Ring, i: nat)
    requires Shaped(r) && i <= r.capacity
    ensures Place(r, i) == (if r.start + i < r.capacity then r.start + i else r.start + i - r.capacity) < r.capacity
  {
    if r.start + i >= r.capacity { ModOnce(r.start + i, r.capacity); }
  }

  lemma ModOnce(x: nat, m: nat)
    requires m > 0 && m <= x < 2 * m
    ensures x % m == x - m
  {
  }

  /** With every slot whole, start and count may be anything in range. */
  lemma WholeIsSafe(r: Ring, added: set<string>)
    requires Shaped(r) && AllWhole(r, added)
    ensures HandlerSafe(r, added)
  {
    forall i | 0 <= i < r.count ensures Whole(Dump(r)[i], added) { PlaceIs(r, i); }
  }

  lemma {:induction false} TrimSafe(r: Ring, max: nat, added: set<string>)
    requires Shaped(r) && AllWhole(r, added) && 0 < max <= r.capacity
    ensures SafeThroughout(r, TrimStores(r, max), added)
    ensures Exec(r, TrimStores(r, max)) == Trimmed(r, max) && Shaped(Trimmed(r, max))
    decreases r.count
  {
    hide HandlerSafe, AllWhole;
    WholeIsSafe(r, added);
    if r.count >= max {
      var r1 := Apply(r, SetStart((r.start + 1) % r.capacity));
      var r2 := Apply(r1, SetCount(r.count - 1));
      PlaceIs(r, 1);
      SameSlots(r, r1, added);
      SameSlots(r, r2, added);
      WholeIsSafe(r1, added);
      TrimSafe(r2, max, added);
      TwoStores(r, SetStart((r.start + 1) % r.capacity), SetCount(r.count - 1), TrimStores(r2, max), added);
    }
  }

  lemma SameSlots(r: Ring, r': Ring, added: set<string>)
    requires AllWhole(r, added) && r'.slots == r.slots
    ensures AllWhole(r', added)
  {
  }

  lemma TwoStores(r: Ring, a: Store, b: Store, rest: seq<Store>, added: set<string>)
    requires HandlerSafe(r, added) && HandlerSafe(Apply(r, a), added)
    requires SafeThroughout(Apply(Apply(r, a), b), rest, added)
    ensures SafeThroughout(r, [a, b] + rest, added) && Exec(r, [a, b] + rest) == Exec(Apply(Apply(r, a), b), rest)
  {
    hide HandlerSafe;
    var all := [a, b] + rest;
    assert all[1..] == [b] + rest && ([b] + rest)[1..] == rest;
  }

  /** Every slot is whole but perhaps the one past the newest entry, which the handler never reads. */
  ghost predicate WholeBut(r: Ring, added: set<string>) {
    && Shaped(r) && r.count < r.capacity
    && forall i :: 0 <= i < r.capacity && i != Place(r, r.count) ==> Whole(Text(r.slots[i]), added)
  }

  lemma UnpublishedIsUnread(r: Ring, added: set<string>)
    requires WholeBut(r, added)
    ensures HandlerSafe(r, added)
  {
    PlaceIs(r, r.count);
    forall i | 0 <= i < r.count ensures Whole(Dump(r)[i], added) { PlaceIs(r, i); }
  }

  function Overwrite(slot: string, bytes: string, k: nat): (r: string)
    requires k <= |bytes| <= |slot|
    ensures |r| == |slot|
  {
    slot[..k] + bytes[k..] + slot[|bytes|..]
  }

  /** A partly copied slot is not published, byte after byte. */
  lemma {:induction false} CopySafe(r: Ring, bytes: string, k: nat, added: set<string>)
    requires WholeBut(r, added) && k <= |bytes| <= SLOT_SIZE
    ensures var at := Place(r, r.count);
            && at < |r.slots| && |r.slots[at]| == SLOT_SIZE
            && SafeThroughout(r, CopyStores(at, bytes, k), added)
            && Exec(r, CopyStores(at, bytes, k)) == r.(slots := r.slots[at := Overwrite(r.slots[at], bytes, k)])
    decreases |bytes| - k
  {
    hide HandlerSafe, Text;
    var at := Place(r, r.count);
    PlaceIs(r, r.count);
    UnpublishedIsUnread(r, added);
    if k == |bytes| {
      assert Overwrite(r.slots[at], bytes, k) == r.slots[at];
    } else {
      var r' := Apply(r, SetByte(at, k, bytes[k]));
      CopySafe(r', bytes, k + 1, added);
      assert Overwrite(r'.slots[at], bytes, k + 1) == Overwrite(r.slots[at], bytes, k);
      var stores := CopyStores(at, bytes, k);
      assert stores[0] == SetByte(at, k, bytes[k]) && stores[1..] == CopyStores(at, bytes, k + 1);
    }
  }

  lemma {:induction false} TextOf(e: string, rest: string)
    requires '\0' !in e
    ensures Text(e + "\0" + rest) == e
  {
    var t := e + "\0" + rest;
    if e != "" {
      assert t[0] == e[0] && t[1..] == e[1..] + "\0" + rest;
      TextOf(e[1..], rest);
    }
  }

  /** The ring once e is copied and published. */
  ghost function Written(r: Ring, e: string): (w: Ring)
    requires Shaped(r) && r.count < r.capacity && |e| < SLOT_SIZE
    ensures w.capacity == r.capacity
  {
    PlaceIs(r, r.count);
    var at := Place(r, r.count);
    r.(slots := r.slots[at := Overwrite(r.slots[at], e + "\0", 0)], count := r.count + 1)
  }

  lemma WrittenWhole(r: Ring, e: string, added: set<string>)
    requires WholeBut(r, added) && IsEntry(e)
    ensures Shaped(Written(r, e)) && AllWhole(Written(r, e), added + {e})
    ensures Text(Written(r, e).slots[Place(r, r.count)]) == e
  {
    hide Text;
    PlaceIs(r, r.count);
    var at := Place(r, r.count);
    var bytes := e + "\0";
    TextOf(e, r.slots[at][|bytes|..]);
    assert Overwrite(r.slots[at], bytes, 0) == bytes + r.slots[at][|bytes|..];
  }

  lemma WriteSafe(r: Ring, e: string, added: set<string>)
    requires WholeBut(r, added) && IsEntry(e)
    ensures SafeThroughout(r, WriteStores(r, e), added + {e})
    ensures Exec(r, WriteStores(r, e)) == Written(r, e)
  {
    hide Text, HandlerSafe, Overwrite;
    var added' := added + {e};
    var at := Place(r, r.count);
    var copied := r.(slots := r.slots[at := Overwrite(r.slots[at], e + "\0", 0)]);
    CopySafe(r, e + "\0", 0, added');
    WrittenWhole(r, e, added);
    WholeIsSafe(Written(r, e), added');
    CopiedSafe(r, e, added);
    var publish := [SetCount(r.count + 1)];
    assert publish[1..] == [];
    assert Apply(copied, publish[0]) == Written(r, e);
    assert SafeThroughout(Written(r, e), [], added');
    assert SafeThroughout(copied, publish, added');
    SafeJoin(r, CopyStores(at, e + "\0", 0), publish, added');
  }

  lemma CopiedSafe(r: Ring, e: string, added: set<string>)
    requires WholeBut(r, added) && IsEntry(e)
    ensures var at := Place(r, r.count);
            && at < |r.slots| && |r.slots[at]| == SLOT_SIZE
            && HandlerSafe(r.(slots := r.slots[at := Overwrite(r.slots[at], e + "\0", 0)]), added + {e})
  {
    hide Text, HandlerSafe;
    PlaceIs(r, r.count);
    var at := Place(r, r.count);
    UnpublishedIsUnread(r.(slots := r.slots[at := Overwrite(r.slots[at], e + "\0", 0)]), added + {e});
  }

  /** At every interruption point of an add, what the handler would dump is, slot by slot, empty or
      a whole entry this thread added. */
  lemma AddSafe(r: Ring, e: string, max: nat, added: set<string>, n: nat)
    requires Shaped(r) && AllWhole(r, added) && IsEntry(e) && 0 < max <= r.capacity && n <= |AddStores(r, e, max)|
    ensures HandlerSafe(Exec(r, AddStores(r, e, max)[..n]), added + {e})
    ensures Shaped(Trimmed(r, max))
    ensures Exec(r, AddStores(r, e, max)) == Written(Trimmed(r, max), e)
    ensures Shaped(Written(Trimmed(r, max), e)) && AllWhole(Written(Trimmed(r, max), e), added + {e})
  {
    hide HandlerSafe, Text, Written, Trimmed, TrimStores, WriteStores;
    var added' := added + {e};
    assert AllWhole(r, added');
    TrimSafe(r, max, added');
    var t := Trimmed(r, max);
    assert WholeBut(t, added) && WholeBut(t, added');
    WriteSafe(t, e, added);
    WrittenWhole(t, e, added);
    SafeJoin(r, TrimStores(r, max), WriteStores(t, e), added');
    SafeAfter(r, AddStores(r, e, max), added', n);
  }

  lemma ClearSafe(r: Ring, added: set<string>, n: nat)
    requires Shaped(r) && AllWhole(r, added) && n <= |CLEAR_STORES|
    ensures HandlerSafe(Exec(r, CLEAR_STORES[..n]), added)
    ensures var c := Exec(r, CLEAR_STORES); c == r.(start := 0, count := 0) && Shaped(c) && AllWhole(c, added)
  {
    hide HandlerSafe, Text;
    var r1 := Apply(r, SetStart(0));
    var r2 := Apply(r1, SetCount(0));
    WholeIsSafe(r, added);
    WholeIsSafe(r1, added);
    WholeIsSafe(r2, added);
    assert SafeThroughout(r2, [], added);
    TwoStores(r, SetStart(0), SetCount(0), [], added);
    assert [SetStart(0), SetCount(0)] + [] == CLEAR_STORES;
    assert Exec(r2, []) == r2;
    SafeAfter(r, CLEAR_STORES, added, n);
  }

  // ----- Between calls: the last entries of a plain sequence -----

  function LastN<T>(s: seq<T>, n: nat): seq<T> { if |s| <= n then s else s[|s| - n..] }

  lemma {:induction false} TrimmedTrail(r: Ring, max: nat)
    requires Shaped(r) && 0 < max <= r.capacity
    ensures Shaped(Trimmed(r, max)) && Dump(Trimmed(r, max)) == LastN(Dump(r), max - 1)
    decreases r.count
  {
    hide Dump, Text;
    if r.count >= max {
      var r2 := r.(start := (r.start + 1) % r.capacity, count := r.count - 1);
      DropOldest(r);
      TrimmedTrail(r2, max);
    }
    DumpLength(r);
  }

  lemma DumpLength(r: Ring)
    requires Shaped(r)
    ensures |Dump(r)| == r.count
  {
  }

  lemma DropOldest(r: Ring)
    requires Shaped(r) && r.count > 0
    ensures var r2 := r.(start := (r.start + 1) % r.capacity, count := r.count - 1);
            Shaped(r2) && Dump(r2) == Dump(r)[1..]
  {
    hide Text;
    PlaceIs(r, 1);
    var r2 := r.(start := (r.start + 1) % r.capacity, count := r.count - 1);
    forall i | 0 <= i < r2.count ensures Dump(r2)[i] == Dump(r)[i + 1] {
      PlaceIs(r2, i);
      PlaceIs(r, i + 1);
    }
  }

  lemma WrittenTrail(r: Ring, e: string)
    requires Shaped(r) && r.count < r.capacity && IsEntry(e)
    ensures Shaped(Written(r, e)) && Dump(Written(r, e)) == Dump(r) + [e]
  {
    hide Text, Overwrite, AllTexts;
    var w := Written(r, e);
    PlaceIs(r, r.count);
    WrittenWhole(r, e, AllTexts(r));
    hide Shaped, AllWhole;
    forall i | 0 <= i < r.count ensures Dump(w)[i] == Dump(r)[i] {
      PlaceIs(r, i);
    }
    assert Dump(w)[r.count] == e;
    assert |Dump(w)| == r.count + 1 == |Dump(r) + [e]|;
    assert forall i :: 0 <= i < r.count ==> Dump(w)[i] == (Dump(r) + [e])[i];
  }

  ghost function AllTexts(r: Ring): (s: set<string>)
    requires Shaped(r)
    ensures AllWhole(r, s)
  {
    set i | 0 <= i < |r.slots| :: Text(r.slots[i])
  }

  /** An add keeps the newest max entries, whatever max was before. */
  lemma AddTrail(r: Ring, e: string, max: nat)
    requires Shaped(r) && IsEntry(e) && 0 < max <= r.capacity
    ensures var w := Exec(r, AddStores(r, e, max)); Shaped(w) && Dump(w) == LastN(Dump(r) + [e], max)
  {
    hide Text, Written, Trimmed, Exec, AddStores, Dump, AllTexts, HandlerSafe, AllWhole;
    AddSafe(r, e, max, AllTexts(r), 0);
    TrimmedTrail(r, max);
    WrittenTrail(Trimmed(r, max), e);
  }

  // ----- An interrupted add -----

  /** While the entry is copied, nothing but its slot changes. */
  lemma {:induction false} CopyPrefix(r: Ring, at: nat, bytes: string, k: nat, n: nat)
    requires Shaped(r) && at < r.capacity && k <= |bytes| <= SLOT_SIZE && n <= |CopyStores(at, bytes, k)|
    ensures var r' := Exec(r, CopyStores(at, bytes, k)[..n]);
            && r'.capacity == r.capacity && r'.start == r.start && r'.count == r.count && Shaped(r')
            && forall i :: 0 <= i < r.capacity && i != at ==> r'.slots[i] == r.slots[i]
    decreases n
  {
    if n > 0 {
      var stores := CopyStores(at, bytes, k);
      assert stores[0] == SetByte(at, k, bytes[k]) && stores[1..] == CopyStores(at, bytes, k + 1);
      assert stores[..n][1..] == stores[1..][..n - 1];
      CopyPrefix(Apply(r, stores[0]), at, bytes, k + 1, n - 1);
    }
  }

  lemma SameDump(r: Ring, r': Ring)
    requires Shaped(r) && Shaped(r') && r.count < r.capacity && r'.capacity == r.capacity && r'.start == r.start
             && r'.count == r.count
    requires forall i :: 0 <= i < r.capacity && i != Place(r, r.count) ==> r'.slots[i] == r.slots[i]
    ensures Dump(r') == Dump(r)
  {
    hide Text;
    PlaceIs(r, r.count);
    forall i | 0 <= i < r.count ensures Dump(r')[i] == Dump(r)[i] { PlaceIs(r, i); }
  }

  /** The source says that a crash in the middle of an add leaves the trail exactly as it was. That
      holds, at every interruption point, exactly when the add has nothing to trim. */
  lemma UnchangedUntilPublishedIff(r: Ring, e: string, max: nat)
    requires Shaped(r) && IsEntry(e) && 0 < max <= r.capacity
    ensures r.count < max ==>
              forall n :: 0 <= n < |AddStores(r, e, max)| ==>
                Shaped(Exec(r, AddStores(r, e, max)[..n])) && Dump(Exec(r, AddStores(r, e, max)[..n])) == Dump(r)
    ensures r.count >= max ==>
              exists n :: 0 <= n < |AddStores(r, e, max)| && |Dump(r)| != Exec(r, AddStores(r, e, max)[..n]).count
  {
    if r.count < max {
      NothingToTrim(r, e, max);
    } else {
      TrimmingShows(r, e, max);
    }
  }

  lemma NothingToTrim(r: Ring, e: string, max: nat)
    requires Shaped(r) && IsEntry(e) && r.count < max <= r.capacity
    ensures forall n :: 0 <= n < |AddStores(r, e, max)| ==>
              Shaped(Exec(r, AddStores(r, e, max)[..n])) && Dump(Exec(r, AddStores(r, e, max)[..n])) == Dump(r)
  {
    hide Exec, Dump;
    var stores, at := AddStores(r, e, max), Place(r, r.count);
    var copy := CopyStores(at, e + "\0", 0);
    assert stores == [] + (copy + [SetCount(r.count + 1)]) == copy + [SetCount(r.count + 1)];
    forall n | 0 <= n < |stores| ensures Shaped(Exec(r, stores[..n])) && Dump(Exec(r, stores[..n])) == Dump(r) {
      assert stores[..n] == copy[..n];
      PlaceIs(r, r.count);
      CopyPrefix(r, at, e + "\0", 0, n);
      SameDump(r, Exec(r, copy[..n]));
    }
  }

  lemma TrimmingShows(r: Ring, e: string, max: nat)
    requires Shaped(r) && IsEntry(e) && 0 < max <= r.count
    ensures 2 < |AddStores(r, e, max)| && |Dump(r)| != Exec(r, AddStores(r, e, max)[..2]).count
  {
    hide Trimmed;
    var stores := AddStores(r, e, max);
    var a, b := SetStart((r.start + 1) % r.capacity), SetCount(r.count - 1);
    assert stores[0] == a && stores[1] == b;
    assert stores[..2] == [a, b];
    assert [a, b][1..] == [b] && [b][1..] == [];
    assert Exec(r, [a, b]) == Exec(Apply(r, a), [b]) == Exec(Apply(Apply(r, a), b), []);
  }

  // ----- Runs -----

  /** max_breadcrumbs as add uses it. */
  function Allowed(maxBreadcrumbs: int): nat {
    if maxBreadcrumbs <= 0 then 0 else if maxBreadcrumbs > RING_LIMIT then RING_LIMIT else maxBreadcrumbs
  }

  datatype Op = Add(e: string, maxBreadcrumbs: int) | Clear

  predicate Encodable(op: Op) { op.Add? ==> IsEntry(op.e) }

  /** capacity 0 stands for no ring yet: it is allocated, empty, by the first add that needs it. */
  const NO_RING := Ring(0, 0, 0, [])

  function Allocate(capacity: nat): Ring { Ring(capacity, 0, 0, seq(capacity, _ => seq(SLOT_SIZE, _ => '\0'))) }

  /** The ring an add writes to: the first one allocates it. */
  function Ready(r: Ring, allowed: nat): Ring { if r.capacity == 0 then Allocate(allowed) else r }

  function Do(r: Ring, op: Op): Ring {
    match op
    case Add(e, maxBreadcrumbs) =>
      var allowed := Allowed(maxBreadcrumbs);
      if allowed == 0 then r
      else
        var ring := Ready(r, allowed);
        Exec(ring, AddStores(ring, e, Min(allowed, ring.capacity)))
    case Clear => if r.capacity == 0 then r else Exec(r, CLEAR_STORES)
  }

  /** The plain trail: the capacity fixed by the first add, and the entries. */
  datatype Trail = Trail(capacity: nat, entries: seq<string>)

  function Follow(t: Trail, op: Op): Trail {
    match op
    case Add(e, maxBreadcrumbs) =>
      var allowed := Allowed(maxBreadcrumbs);
      if allowed == 0 then t
      else
        var capacity := if t.capacity == 0 then allowed else t.capacity;
        Trail(capacity, LastN(t.entries + [e], Min(allowed, capacity)))
    case Clear => t.(entries := [])
  }

  function RunRing(ops: seq<Op>): Ring
    decreases |ops|
  {
    if ops == [] then NO_RING else Do(RunRing(ops[..|ops| - 1]), ops[|ops| - 1])
  }

  function RunTrail(ops: seq<Op>): Trail
    decreases |ops|
  {
    if ops == [] then Trail(0, []) else Follow(RunTrail(ops[..|ops| - 1]), ops[|ops| - 1])
  }

  ghost function Added(ops: seq<Op>): set<string> { set op <- ops | op.Add? :: op.e }

  ghost predicate Agrees(r: Ring, t: Trail, added: set<string>) {
    && r.capacity == t.capacity
    && if r.capacity == 0 then r == NO_RING && t.entries == []
       else Shaped(r) && AllWhole(r, added) && Dump(r) == t.entries
  }

  lemma AllocateIsEmpty(capacity: nat)
    requires capacity > 0
    ensures Shaped(Allocate(capacity)) && AllWhole(Allocate(capacity), {}) && Dump(Allocate(capacity)) == []
  {
  }

  lemma MoreAdded(r: Ring, t: Trail, added: set<string>, added': set<string>)
    requires Agrees(r, t, added) && added <= added'
    ensures Agrees(r, t, added')
  {
    hide Text;
  }

  lemma DoAgrees(r: Ring, t: Trail, added: set<string>, op: Op)
    requires Agrees(r, t, added) && Encodable(op) && (op.Add? ==> op.e in added)
    ensures Agrees(Do(r, op), Follow(t, op), added)
  {
    hide Text, Exec, AddStores, Trimmed, Written, AllWhole, Dump;
    match op
    case Clear =>
      if r.capacity > 0 {
        ClearSafe(r, added, 0);
        ClearedIsEmpty(r);
      }
    case Add(e, maxBreadcrumbs) =>
      var allowed := Allowed(maxBreadcrumbs);
      if allowed > 0 {
        var ring := Ready(r, allowed);
        if r.capacity == 0 {
          AllocateIsEmpty(allowed);
          MoreAdded(ring, Trail(allowed, []), {}, added);
        }
        AddSafe(ring, e, Min(allowed, ring.capacity), added, 0);
        AddTrail(ring, e, Min(allowed, ring.capacity));
        assert added + {e} == added;
      }
  }

  lemma ClearedIsEmpty(r: Ring)
    requires Shaped(r)
    ensures Shaped(r.(start := 0, count := 0)) && Dump(r.(start := 0, count := 0)) == []
  {
  }

  /** Between calls the ring holds exactly the plain trail, over every history of adds and clears
      and however max_breadcrumbs was raised or lowered on the way. */
  lemma {:induction false} RingIsTrail(ops: seq<Op>)
    requires forall op <- ops :: Encodable(op)
    ensures Agrees(RunRing(ops), RunTrail(ops), Added(ops))
    ensures |RunTrail(ops).entries| <= 100
    decreases |ops|
  {
    hide Agrees, Do, Follow, Encodable;
    if ops == [] {
      NothingAgrees();
      assert Added(ops) == {};
    } else {
      var front, op := ops[..|ops| - 1], ops[|ops| - 1];
      RingIsTrail(front);
      MoreAdded(RunRing(front), RunTrail(front), Added(front), Added(ops));
      assert op in ops;
      DoAgrees(RunRing(front), RunTrail(front), Added(ops), op);
      AtMostHundred(RunTrail(front), op);
    }
  }

  function Adds(es: seq<string>, maxBreadcrumbs: int): seq<Op> {
    seq(|es|, i requires 0 <= i < |es| => Add(es[i], maxBreadcrumbs))
  }

  /** With one setting throughout, the trail is the newest so many of the entries added, but never more
      than a hundred, and none when the setting is not positive. */
  lemma {:induction false} NewestOfAdds(es: seq<string>, maxBreadcrumbs: int)
    ensures var n := if maxBreadcrumbs <= 0 then 0 else if maxBreadcrumbs > 100 then 100 else maxBreadcrumbs;
            && RunTrail(Adds(es, maxBreadcrumbs)).entries == LastN(es, n)
            && RunTrail(Adds(es, maxBreadcrumbs)).capacity == if es == [] then 0 else n
    decreases |es|
  {
    hide LastN;
    if es == [] {
      NoneOfNone(Allowed(maxBreadcrumbs));
    } else {
      var front, e := es[..|es| - 1], es[|es| - 1];
      NewestOfAdds(front, maxBreadcrumbs);
      var ops := Adds(es, maxBreadcrumbs);
      assert ops[..|ops| - 1] == Adds(front, maxBreadcrumbs);
      assert es == front + [e];
      NewestOfMore(front, e, Allowed(maxBreadcrumbs));
    }
  }

  lemma NoneOfNone(n: nat)
    ensures LastN<string>([], n) == []
  {
  }

  lemma NewestOfMore(es: seq<string>, e: string, n: nat)
    ensures n > 0 ==> LastN(LastN(es, n) + [e], n) == LastN(es + [e], n)
    ensures LastN(es, 0) == [] && LastN(es + [e], 0) == []
  {
  }

  lemma AtMostHundred(t: Trail, op: Op)
    requires |t.entries| <= 100
    ensures |Follow(t, op).entries| <= 100
  {
  }

  lemma NothingAgrees()
    ensures Agrees(NO_RING, Trail(0, []), {})
  {
  }

  // ----- The ring in memory -----

  lemma TrimStep(r: Ring, max: nat, log: seq<Store>)
    requires 0 < max <= r.count && r.capacity > 0
    ensures var r' := r.(start := (r.start + 1) % r.capacity, count := r.count - 1);
            && log + TrimStores(r, max) == log + [SetStart(r'.start)] + [SetCount(r'.count)] + TrimStores(r', max)
            && Trimmed(r, max) == Trimmed(r', max)
  {
  }

  lemma CopyStep(slot: nat, text: string, bytes: string, k: nat, log: seq<Store>)
    requires k < |bytes| <= |text|
    ensures log + CopyStores(slot, bytes, k) == log + [SetByte(slot, k, bytes[k])] + CopyStores(slot, bytes, k + 1)
    ensures (bytes[..k] + text[k..])[k := bytes[k]] == bytes[..k + 1] + text[k + 1..]
  {
  }

  lemma CopyEnds(slot: nat, text: string, bytes: string, log: seq<Store>)
    requires |bytes| <= |text|
    ensures log + CopyStores(slot, bytes, |bytes|) == log
    ensures bytes[..|bytes|] + text[|bytes|..] == Overwrite(text, bytes, 0)
  {
  }

  /** ring_t. Beside it a ghost log of the stores made, in program order. */
  class ThreadRing {
    const capacity: nat
    var start: nat
    var count: nat
    const slots: array<string>
    ghost var log: seq<Store>

    ghost function Image(): Ring
      reads this, slots
    {
      Ring(capacity, start, count, slots[..])
    }

    ghost predicate Valid()
      reads this, slots
    {
      Shaped(Image())
    }

    constructor (wanted: nat)
      requires wanted > 0
      ensures Valid() && fresh(slots) && Image() == Allocate(wanted) && log == []
    {
      capacity, start, count, log := wanted, 0, 0, [];
      slots := new string[wanted](_ => seq(SLOT_SIZE, _ => '\0'));
      new;
      assert slots[..] == Allocate(wanted).slots;
    }

    /** Makes exactly the stores of AddStores, in that order. */
    method Add(e: string, max: nat)
      requires Valid() && IsEntry(e) && 0 < max <= capacity
      modifies this, slots
      ensures log == old(log) + AddStores(old(Image()), e, max)
      ensures Valid() && Image() == Exec(old(Image()), AddStores(old(Image()), e, max))
    {
      hide Exec, Text, Written, AllTexts, Trimmed, TrimStores, WriteStores, HandlerSafe, AllWhole;
      ghost var r, before := Image(), log;
      AddSafe(r, e, max, AllTexts(r), 0);
      Trim(max);
      ghost var t := Image();
      Write(e);
      assert log == before + (TrimStores(r, max) + WriteStores(t, e));
    }

    method Trim(max: nat)
      requires Valid() && 0 < max <= capacity
      modifies `start, `count, `log
      ensures log == old(log) + TrimStores(old(Image()), max)
      ensures Valid() && Image() == Trimmed(old(Image()), max)
    {
      hide Text;
      ghost var r := Image();
      while count >= max
        invariant Valid() && Image().slots == r.slots
        invariant log + TrimStores(Image(), max) == old(log) + TrimStores(r, max)
        invariant Trimmed(Image(), max) == Trimmed(r, max)
        decreases count
      {
        PlaceIs(Image(), 1);
        TrimStep(Image(), max, log);
        start := (start + 1) % capacity;
        log := log + [SetStart(start)];
        count := count - 1;
        log := log + [SetCount(count)];
      }
    }

    method Write(e: string)
      requires Valid() && IsEntry(e) && count < capacity
      modifies `count, slots, `log
      ensures log == old(log) + WriteStores(old(Image()), e)
      ensures Valid() && Image() == Written(old(Image()), e)
    {
      hide Text, Overwrite;
      ghost var before := log;
      PlaceIs(Image(), count);
      var slot := (start + count) % capacity;
      Copy(slot, e + "\0");
      count := count + 1;
      log := log + [SetCount(count)];
      assert log == before + (CopyStores(slot, e + "\0", 0) + [SetCount(count)]);
    }

    /** memcpy, byte by byte. */
    method Copy(slot: nat, bytes: string)
      requires slot < slots.Length && |slots[slot]| == SLOT_SIZE && |bytes| <= SLOT_SIZE
      modifies slots, `log
      ensures log == old(log) + CopyStores(slot, bytes, 0)
      ensures slots[..] == old(slots[..])[slot := Overwrite(old(slots[slot]), bytes, 0)]
    {
      hide CopyStores, Overwrite;
      ghost var all, text := slots[..], slots[slot];
      assert text == bytes[..0] + text[0..];
      for k := 0 to |bytes|
        invariant log + CopyStores(slot, bytes, k) == old(log) + CopyStores(slot, bytes, 0)
        invariant slots[slot] == bytes[..k] + text[k..]
        invariant forall i :: 0 <= i < slots.Length && i != slot ==> slots[i] == all[i]
      {
        CopyStep(slot, text, bytes, k, log);
        slots[slot] := slots[slot][k := bytes[k]];
        log := log + [SetByte(slot, k, bytes[k])];
      }
      CopyEnds(slot, text, bytes, log);
    }

    method Clear()
      requires Valid()
      modifies `start, `count, `log
      ensures log == old(log) + CLEAR_STORES
      ensures Valid() && Image() == old(Image()).(start := 0, count := 0)
    {
      start := 0;
      log := log + [SetStart(0)];
      count := 0;
      log := log + [SetCount(0)];
    }

    /** A copy of the trail, oldest first. */
    method Snapshot() returns (copy: seq<string>)
      requires Valid()
      ensures copy == Dump(Image())
    {
      copy := [];
      for i := 0 to count
        invariant copy == Dump(Image())[..i]
      {
        PlaceIs(Image(), i);
        copy := copy + [Text(slots[(start + i) % capacity])];
      }
    }
  }
}
