/** Exactly what a signal handler would dump at each interruption point of an add or a clear of
    src/breadcrumbs.c, and which order of stores that rests on. */
module BreadcrumbDump {
  import opened BreadcrumbEntry
  import opened BreadcrumbRing
  import opened BreadcrumbCopy

  // ----- Trimming, store by store -----

  /** How many entries an add drops. */
  function Trims(r: Ring, max: nat): nat { if r.count < max then 0 else r.count - max + 1 }

  /** The ring without its k oldest entries. */
  function Without(r: Ring, k: nat): Ring
    requires r.capacity > 0 && k <= r.count
  {
    r.(start := Place(r, k), count := r.count - k)
  }

  lemma PlaceOn(r: Ring, k: nat, i: nat)
    requires Shaped(r) && k <= r.count && k + i <= r.capacity
    ensures Shaped(Without(r, k)) && Place(Without(r, k), i) == Place(r, k + i)
  {
    PlaceIs(r, k);
    PlaceIs(r, k + i);
    PlaceIs(Without(r, k), i);
  }

  lemma WithoutNone(r: Ring)
    requires Shaped(r)
    ensures Without(r, 0) == r
  {
    PlaceIs(r, 0);
  }

  lemma {:induction false} TrimLength(r: Ring, max: nat)
    requires max > 0 && r.capacity > 0
    ensures |TrimStores(r, max)| == 2 * Trims(r, max)
    decreases r.count
  {
    if r.count >= max { TrimLength(r.(start := (r.start + 1) % r.capacity, count := r.count - 1), max); }
  }

  lemma TrimFirst(r: Ring, max: nat, n: nat)
    requires Shaped(r) && 0 < max <= r.count && 2 <= n <= |TrimStores(r, max)|
    ensures var one := Without(r, 1);
            && Shaped(one) && Trims(one, max) == Trims(r, max) - 1 && n - 2 <= |TrimStores(one, max)|
            && Exec(r, TrimStores(r, max)[..n]) == Exec(one, TrimStores(one, max)[..n - 2])
  {
    hide Exec;
    PlaceOn(r, 1, 0);
    var stores, one := TrimStores(r, max), Without(r, 1);
    var a, b := SetStart(Place(r, 1)), SetCount(r.count - 1);
    assert stores == [a, b] + TrimStores(one, max);
    assert stores[..n] == [a, b] + TrimStores(one, max)[..n - 2];
    ExecTwo(r, a, b, TrimStores(one, max)[..n - 2]);
  }

  /** After 2k of the stores k entries are dropped. */
  lemma {:induction false} TrimEven(r: Ring, max: nat, k: nat)
    requires Shaped(r) && 0 < max <= r.capacity && k <= Trims(r, max) && |TrimStores(r, max)| == 2 * Trims(r, max)
    ensures k <= r.count && Exec(r, TrimStores(r, max)[..2 * k]) == Without(r, k)
    decreases k
  {
    hide Shaped, TrimStores, Without, Text;
    if k == 0 {
      WithoutNone(r);
      assert TrimStores(r, max)[..0] == [];
    } else {
      TrimFirst(r, max, 2 * k);
      CapacityStays(r);
      TrimLength(Without(r, 1), max);
      TrimEven(Without(r, 1), max, k - 1);
      WithoutMore(r, k - 1);
    }
  }

  lemma CapacityStays(r: Ring)
    requires Shaped(r) && r.count > 0
    ensures 0 < r.count <= r.capacity == Without(r, 1).capacity && Without(r, 1).count == r.count - 1
  {
  }

  /** After one more only the start has moved on. */
  lemma {:induction false} TrimOdd(r: Ring, max: nat, k: nat)
    requires Shaped(r) && 0 < max <= r.capacity && k < Trims(r, max) && |TrimStores(r, max)| == 2 * Trims(r, max)
    ensures k < r.count && Exec(r, TrimStores(r, max)[..2 * k + 1]) == Without(r, k).(start := Place(r, k + 1))
    decreases k
  {
    hide Shaped, Text, Place, TrimStores, Without;
    CapacityStays(r);
    if k == 0 {
      WithoutNone(r);
      FirstStore(r, max);
    } else {
      TrimFirst(r, max, 2 * k + 1);
      TrimLength(Without(r, 1), max);
      TrimOdd(Without(r, 1), max, k - 1);
      WithoutMore(r, k - 1);
      PlaceOn(r, 1, k);
    }
  }

  lemma FirstStore(r: Ring, max: nat)
    requires Shaped(r) && 0 < max <= r.count
    ensures |TrimStores(r, max)| >= 1 && Exec(r, TrimStores(r, max)[..1]) == r.(start := Place(r, 1))
  {
    var a := SetStart(Place(r, 1));
    assert TrimStores(r, max)[..1] == [a];
    ExecOne(r, a);
  }

  lemma ExecOne(r: Ring, a: Store)
    ensures Exec(r, [a]) == Apply(r, a)
  {
    assert [a][1..] == [];
  }

  lemma ExecTwo(r: Ring, a: Store, b: Store, rest: seq<Store>)
    ensures Exec(r, [a, b] + rest) == Exec(Apply(Apply(r, a), b), rest)
  {
    var all := [a, b] + rest;
    assert all[1..] == [b] + rest && ([b] + rest)[1..] == rest;
  }

  lemma WithoutMore(r: Ring, k: nat)
    requires Shaped(r) && k + 1 <= r.count
    ensures Without(Without(r, 1), k) == Without(r, k + 1)
  {
    PlaceOn(r, 1, k);
  }

  // ----- What each of these rings shows -----

  /** The text in the slot past the newest entry. */
  function Beyond(r: Ring): string
    requires Shaped(r)
  {
    PlaceIs(r, r.count);
    Text(r.slots[Place(r, r.count)])
  }

  lemma DumpWithout(r: Ring, k: nat)
    requires Shaped(r) && k <= r.count
    ensures Shaped(Without(r, k)) && Dump(Without(r, k)) == Dump(r)[k..]
  {
    hide Text;
    PlaceOn(r, k, 0);
    forall i | 0 <= i < r.count - k ensures Dump(Without(r, k))[i] == Dump(r)[k..][i] {
      PlaceOn(r, k, i);
      PlaceIs(r, k + i);
    }
  }

  /** With only the start moved on, the oldest entry is missing and the slot past the newest shows. */
  lemma DumpMoved(r: Ring, k: nat)
    requires Shaped(r) && k < r.count
    ensures var moved := Without(r, k).(start := Place(r, k + 1));
            Shaped(moved) && Dump(moved) == Dump(r)[k + 1..] + [Beyond(r)]
  {
    hide Text;
    var moved := Without(r, k).(start := Place(r, k + 1));
    PlaceOn(r, k, 0);
    PlaceIs(r, k + 1);
    DumpLength(r);
    DumpLength(moved);
    var expected := Dump(r)[k + 1..] + [Beyond(r)];
    forall i | 0 <= i < r.count - k ensures Dump(moved)[i] == expected[i] { MovedAt(r, k, i); }
  }

  lemma MovedAt(r: Ring, k: nat, i: nat)
    requires Shaped(r) && k + i < r.count && Shaped(Without(r, k).(start := Place(r, k + 1)))
    ensures Dump(Without(r, k).(start := Place(r, k + 1)))[i] == if k + 1 + i < r.count then Dump(r)[k + 1 + i]
            else Beyond(r)
  {
    hide Text;
    PlaceOn(r, k + 1, i);
    PlaceIs(r, k + 1 + i);
  }

  // ----- An add -----

  /** What the handler dumps after n stores of an add: the trail, shorter by one entry after every
      second store while trimming; in between also the slot past the newest entry; and the new entry
      only after the last store. */
  ghost function AddDump(r: Ring, e: string, max: nat, n: nat): seq<string>
    requires Shaped(r) && 0 < max && n <= |AddStores(r, e, max)|
  {
    var trail, k, trims := Dump(r), n / 2, Trims(r, max);
    if n < 2 * trims then if n % 2 == 0 then trail[k..] else trail[k + 1..] + [Beyond(r)]
    else trail[trims..] + (if n < |AddStores(r, e, max)| then [] else [e])
  }

  lemma AddDumps(r: Ring, e: string, max: nat, n: nat)
    requires Shaped(r) && IsEntry(e) && 0 < max <= r.capacity && n <= |AddStores(r, e, max)|
    ensures var r' := Exec(r, AddStores(r, e, max)[..n]); Shaped(r') && Dump(r') == AddDump(r, e, max, n)
  {
    hide Text, Exec, Dump, TrimStores, AddStores, Shaped, LastN, Trimmed, Place;
    var stores, trims := AddStores(r, e, max), Trims(r, max);
    TrimLength(r, max);
    AddParts(r, e, max);
    if n == |stores| {
      assert stores[..n] == stores;
      AddTrail(r, e, max);
      DumpLength(r);
      LastAfterAdd(Dump(r), e, max);
    } else if n < 2 * trims {
      assert stores[..n] == TrimStores(r, max)[..n];
      if n % 2 == 0 {
        TrimEven(r, max, n / 2);
        DumpWithout(r, n / 2);
      } else {
        TrimOdd(r, max, n / 2);
        DumpMoved(r, n / 2);
      }
    } else {
      CopyDumps(r, e, max, n);
    }
  }

  lemma AddParts(r: Ring, e: string, max: nat)
    requires 0 < max <= r.capacity
    ensures AddStores(r, e, max) == TrimStores(r, max) + WriteStores(Trimmed(r, max), e)
  {
  }

  lemma LastAfterAdd(trail: seq<string>, e: string, max: nat)
    requires max > 0
    ensures LastN(trail + [e], max) == trail[if |trail| < max then 0 else |trail| - max + 1..] + [e]
  {
  }

  lemma TrimAll(r: Ring, max: nat)
    requires Shaped(r) && 0 < max <= r.capacity
    ensures Trims(r, max) <= r.count && Trimmed(r, max) == Without(r, Trims(r, max))
    ensures Exec(r, TrimStores(r, max)) == Trimmed(r, max) && Shaped(Trimmed(r, max))
    ensures Dump(Trimmed(r, max)) == Dump(r)[Trims(r, max)..]
  {
    hide Text, Exec, Dump, TrimStores, Shaped, Place, HandlerSafe, AllWhole, AllTexts;
    var trims := Trims(r, max);
    TrimLength(r, max);
    TrimEven(r, max, trims);
    assert TrimStores(r, max)[..2 * trims] == TrimStores(r, max);
    TrimSafe(r, max, AllTexts(r));
    DumpWithout(r, trims);
  }

  /** While the bytes are copied the trimmed trail shows. */
  lemma CopyDumps(r: Ring, e: string, max: nat, n: nat)
    requires Shaped(r) && IsEntry(e) && 0 < max <= r.capacity
    requires 2 * Trims(r, max) <= n < |AddStores(r, e, max)|
    ensures var r' := Exec(r, AddStores(r, e, max)[..n]); Shaped(r') && Dump(r') == Dump(r)[Trims(r, max)..]
  {
    hide Text, Exec, Dump, TrimStores, AddStores, Shaped, Trimmed, Place;
    var t, trim := Trimmed(r, max), TrimStores(r, max);
    var copy := CopyStores(Place(t, t.count), e + "\0", 0);
    TrimLength(r, max);
    TrimAll(r, max);
    AddParts(r, e, max);
    TrimmedRoom(r, max);
    var m := n - |trim|;
    assert AddStores(r, e, max)[..n] == trim + copy[..m];
    ExecJoin(r, trim, copy[..m]);
    PlaceIs(t, t.count);
    CopyPrefix(t, Place(t, t.count), e + "\0", 0, m);
    SameDump(t, Exec(t, copy[..m]));
  }

  lemma TrimmedRoom(r: Ring, max: nat)
    requires 0 < max <= r.capacity
    ensures Trimmed(r, max).count < r.capacity == Trimmed(r, max).capacity
  {
  }

  lemma {:induction false} ExecJoin(r: Ring, a: seq<Store>, b: seq<Store>)
    ensures Exec(r, a + b) == Exec(Exec(r, a), b)
    decreases |a|
  {
    if a == [] {
      assert a + b == b;
    } else {
      assert (a + b)[1..] == a[1..] + b;
      ExecJoin(Apply(r, a[0]), a[1..], b);
    }
  }

  /** In a full ring the slot past the newest entry is that of the oldest. */
  lemma BeyondIsOldest(r: Ring)
    requires Shaped(r) && r.count == r.capacity
    ensures Beyond(r) == Dump(r)[0]
  {
    hide Text;
    PlaceIs(r, r.count);
    PlaceIs(r, 0);
  }

  /** So nothing but entries of the trail shows, and in the end the new one, except between a trimming
      store of the start and the store of the count that follows it, in a ring that was not full. */
  lemma OnlyTheTrail(r: Ring, e: string, max: nat, n: nat, t: string)
    requires Shaped(r) && IsEntry(e) && 0 < max <= r.capacity && n <= |AddStores(r, e, max)|
    requires t in AddDump(r, e, max, n)
    ensures || t in Dump(r)
            || (t == e && n == |AddStores(r, e, max)|)
            || (t == Beyond(r) && n < 2 * Trims(r, max) && n % 2 == 1 && r.count < r.capacity)
  {
    hide Text, AddStores, Dump;
    DumpLength(r);
    if r.count == r.capacity { BeyondIsOldest(r); }
  }

  // ----- A clear -----

  /** After its first store the slots from the first on show; after the second, nothing. */
  ghost function ClearDump(r: Ring, n: nat): seq<string>
    requires Shaped(r) && n <= |CLEAR_STORES|
  {
    if n == 0 then Dump(r) else if n == 1 then seq(r.count, i requires 0 <= i < r.count => Text(r.slots[i])) else []
  }

  lemma ClearDumps(r: Ring, n: nat)
    requires Shaped(r) && n <= |CLEAR_STORES|
    ensures var r' := Exec(r, CLEAR_STORES[..n]); Shaped(r') && Dump(r') == ClearDump(r, n)
  {
    hide Text;
    if n == 0 {
      assert CLEAR_STORES[..0] == [];
    } else if n == 1 {
      assert CLEAR_STORES[..1] == [SetStart(0)];
      ExecOne(r, SetStart(0));
      var r' := Apply(r, SetStart(0));
      forall i | 0 <= i < r.count ensures Dump(r')[i] == Text(r.slots[i]) { PlaceIs(r', i); }
    } else {
      assert CLEAR_STORES[..2] == [SetStart(0), SetCount(0)] + [];
      ExecTwo(r, SetStart(0), SetCount(0), []);
    }
  }

  // ----- The order of the stores -----

  /** The handler reads that slot. */
  ghost predicate Reads(r: Ring, slot: nat)
    requires r.capacity > 0
  {
    exists i :: 0 <= i < r.count && Place(r, i) == slot
  }

  /** The slot an add writes is read at no point of its trimming if and only if there is nothing to
      trim: only then may bytes be stored in between. */
  lemma SlotUnreadIff(r: Ring, max: nat)
    requires Shaped(r) && 0 < max <= r.capacity
    ensures (forall n :: 0 <= n <= |TrimStores(r, max)| ==>
              var r' := Exec(r, TrimStores(r, max)[..n]); r'.capacity > 0 && !Reads(r', Place(r, r.count))) <==>
                r.count < max
  {
    TrimLength(r, max);
    if r.count < max {
      PlaceIs(r, r.count);
      forall i | 0 <= i < r.count ensures Place(r, i) != Place(r, r.count) { PlaceIs(r, i); }
    } else {
      FirstStore(r, max);
      var r' := Exec(r, TrimStores(r, max)[..1]);
      PlaceOn(r, 1, r.count - 1);
      assert Place(r', r.count - 1) == Place(Without(r, 1), r.count - 1) == Place(r, r.count);
      assert Reads(r', Place(r, r.count));
    }
  }

  /** Before the trimming that slot is not read if and only if the ring is not full: only then may bytes
      be stored there. */
  lemma SlotUnreadBeforeIff(r: Ring)
    requires Shaped(r)
    ensures !Reads(r, Place(r, r.count)) <==> r.count < r.capacity
  {
    PlaceIs(r, r.count);
    PlaceIs(r, 0);
    if r.count < r.capacity {
      forall i | 0 <= i < r.count ensures Place(r, i) != Place(r, r.count) { PlaceIs(r, i); }
    } else {
      assert Place(r, 0) == Place(r, r.count);
    }
  }

  /** And then they all may: with the whole copy before the trimming, in any order, an add to a ring that
      is not full is safe after any number of its stores. */
  lemma CopyFirstSafe(r: Ring, e: string, max: nat, copy: seq<Store>, added: set<string>, n: nat)
    requires Shaped(r) && AllWhole(r, added) && IsEntry(e) && 0 < max <= r.capacity && r.count < r.capacity
    requires CopyOf(copy, Place(r, r.count), e + "\0")
    requires var copied := Exec(r, copy); copied.capacity > 0 && n <= |copy + AfterCopy(copied, max)|
    ensures HandlerSafe(Exec(r, (copy + AfterCopy(Exec(r, copy), max))[..n]), added + {e})
  {
    hide HandlerSafe, Text, Trimmed, TrimStores, Exec, CopyOf, AllWhole, Overwrite, Written;
    var added' := added + {e};
    MoreWhole(r, added, added');
    NotFullWhole(r, added');
    CopyIsBytes(copy, Place(r, r.count), e + "\0");
    UnpublishedBytesSafe(r, copy, added');
    CopiedWhole(r, e, copy, added);
    AfterCopySafe(Exec(r, copy), max, added');
    SafeJoin(r, copy, AfterCopy(Exec(r, copy), max), added');
    SafeAfter(r, copy + AfterCopy(Exec(r, copy), max), added', n);
  }

  /** The trimming, and publishing the entry. */
  function AfterCopy(r: Ring, max: nat): seq<Store>
    requires max > 0 && r.capacity > 0
  {
    TrimStores(r, max) + [SetCount(Trimmed(r, max).count + 1)]
  }

  lemma NotFullWhole(r: Ring, added: set<string>)
    requires Shaped(r) && AllWhole(r, added) && r.count < r.capacity
    ensures WholeBut(r, added)
  {
    hide Text;
  }

  lemma CopyIsBytes(copy: seq<Store>, at: nat, bytes: string)
    requires CopyOf(copy, at, bytes)
    ensures BytesInto(copy, at)
  {
  }

  lemma CopiedWhole(r: Ring, e: string, copy: seq<Store>, added: set<string>)
    requires Shaped(r) && AllWhole(r, added) && IsEntry(e) && r.count < r.capacity
    requires CopyOf(copy, Place(r, r.count), e + "\0")
    ensures var copied := Exec(r, copy);
            Shaped(copied) && AllWhole(copied, added + {e}) && copied.capacity == r.capacity
  {
    hide Text, Exec, CopyOf, Overwrite;
    NotFullWhole(r, added);
    CopyDone(r, copy, e + "\0");
    WrittenWhole(r, e, added);
    assert Exec(r, copy) == Written(r, e).(count := r.count);
  }

  lemma AfterCopySafe(r: Ring, max: nat, added: set<string>)
    requires Shaped(r) && AllWhole(r, added) && 0 < max <= r.capacity
    ensures SafeThroughout(r, AfterCopy(r, max), added)
  {
    hide HandlerSafe, Text, Trimmed, TrimStores, Exec, AllWhole;
    var t := Trimmed(r, max);
    TrimSafe(r, max, added);
    TrimmedRoom(r, max);
    SameSlots(r, t, added);
    WholeIsSafe(t, added);
    Published(t, added);
    SafeJoin(r, TrimStores(r, max), [SetCount(t.count + 1)], added);
  }

  lemma Published(r: Ring, added: set<string>)
    requires Shaped(r) && AllWhole(r, added) && r.count < r.capacity
    ensures SafeThroughout(r, [SetCount(r.count + 1)], added)
  {
    hide HandlerSafe, Text;
    var r', publish := r.(count := r.count + 1), [SetCount(r.count + 1)];
    WholeIsSafe(r, added);
    WholeIsSafe(r', added);
    assert publish[1..] == [] && Apply(r, publish[0]) == r';
    assert SafeThroughout(r', [], added);
  }

  /** A byte of the new entry stored before the trimming of a full ring: the handler would dump a
      mixture of the old entry and the new one. */
  lemma CopiedTooEarly(rest: string)
    requires |rest| == SLOT_SIZE - 4
    ensures var r, early := Ring(1, 0, 1, ["{a}" + "\0" + rest]), SetByte(0, 1, 'b');
            && early in CopyStores(Place(r, Trimmed(r, 1).count), "{bc}" + "\0", 0)
            && Shaped(r) && AllWhole(r, {"{a}"}) && !HandlerSafe(Apply(r, early), {"{a}", "{bc}"})
  {
    hide Text;
    var slot, bytes := "{a}" + "\0" + rest, "{bc}" + "\0";
    var r, early := Ring(1, 0, 1, [slot]), SetByte(0, 1, 'b');
    TextOf("{a}", rest);
    assert CopyStores(0, bytes, 1) == [early] + CopyStores(0, bytes, 2);
    assert CopyStores(0, bytes, 0) == [SetByte(0, 0, '{')] + CopyStores(0, bytes, 1);
    assert Trimmed(r, 1) == Trimmed(r.(count := 0), 1) == r.(count := 0);
    var r' := Apply(r, early);
    assert slot[1 := 'b'] == "{b}" + "\0" + rest;
    TextOf("{b}", rest);
    assert Dump(r')[0] == "{b}";
    assert "{b}"[1] != "{a}"[1] && |"{b}"| != |"{bc}"|;
  }
}
