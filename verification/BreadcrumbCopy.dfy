/** An add of src/breadcrumbs.c is as safe when memcpy stores its bytes in another order, or some of
    them twice: the C library promises no order. */
module BreadcrumbCopy {
  import opened BreadcrumbEntry
  import opened BreadcrumbRing

  /** Stores of single bytes into that slot, of any value. */
  ghost predicate BytesInto(stores: seq<Store>, at: nat) { forall s <- stores :: s.SetByte? && s.slot == at }

  ghost function Covered(stores: seq<Store>): set<nat> { set s <- stores | s.SetByte? :: s.at }

  /** Every store is of a byte of the text to its place, and every byte is stored. */
  ghost predicate CopyOf(stores: seq<Store>, at: nat, bytes: string) {
    && BytesInto(stores, at)
    && (forall s <- stores :: s.SetByte? && s.at < |bytes| && s.c == bytes[s.at])
    && (forall p: nat :: p < |bytes| ==> p in Covered(stores))
  }

  /** Whatever is stored into the slot past the newest entry, in whatever order, the handler is safe
      throughout, and nothing else of the ring changes. */
  lemma {:induction false} UnpublishedBytesSafe(r: Ring, stores: seq<Store>, added: set<string>)
    requires WholeBut(r, added) && BytesInto(stores, Place(r, r.count))
    ensures SafeThroughout(r, stores, added) && WholeBut(Exec(r, stores), added)
    decreases |stores|
  {
    hide HandlerSafe, Text;
    UnpublishedIsUnread(r, added);
    if stores != [] {
      PlaceIs(r, r.count);
      var s := stores[0];
      assert s in stores;
      UnpublishedBytesSafe(Apply(r, s), stores[1..], added);
    }
  }

  /** The slot after the stores: the text where it was stored, and elsewhere what was there. */
  lemma {:induction false} SlotAfter(r: Ring, stores: seq<Store>, at: nat, bytes: string)
    requires at < |r.slots| && |bytes| <= |r.slots[at]| && BytesInto(stores, at)
    requires forall s <- stores :: s.SetByte? && s.at < |bytes| && s.c == bytes[s.at]
    ensures var r' := Exec(r, stores);
            && |r'.slots| == |r.slots| && r' == r.(slots := r.slots[at := r'.slots[at]])
               && |r'.slots[at]| == |r.slots[at]|
            && forall p: nat :: p < |r.slots[at]| ==>
                 r'.slots[at][p] == if p in Covered(stores) then bytes[p] else r.slots[at][p]
    decreases |stores|
  {
    if stores != [] {
      var s, rest := stores[0], stores[1..];
      assert s in stores && forall x :: x in rest ==> x in stores;
      SlotAfter(Apply(r, s), rest, at, bytes);
      CoveredFirst(stores);
    } else {
      assert r.slots == r.slots[at := r.slots[at]];
    }
  }

  lemma CoveredFirst(stores: seq<Store>)
    requires stores != [] && stores[0].SetByte?
    ensures Covered(stores) == {stores[0].at} + Covered(stores[1..])
  {
    assert stores == [stores[0]] + stores[1..];
  }

  lemma CopyDone(r: Ring, stores: seq<Store>, bytes: string)
    requires Shaped(r) && r.count < r.capacity && |bytes| <= SLOT_SIZE && CopyOf(stores, Place(r, r.count), bytes)
    ensures var at := Place(r, r.count);
            && at < |r.slots| && |r.slots[at]| == SLOT_SIZE
            && Exec(r, stores) == r.(slots := r.slots[at := Overwrite(r.slots[at], bytes, 0)])
  {
    hide Covered, Exec;
    var at := Place(r, r.count);
    PlaceIs(r, r.count);
    SlotAfter(r, stores, at, bytes);
    var done := Exec(r, stores).slots[at];
    CoveredInside(stores, at, bytes);
    assert done == Overwrite(r.slots[at], bytes, 0);
  }

  lemma CoveredInside(stores: seq<Store>, at: nat, bytes: string)
    requires CopyOf(stores, at, bytes)
    ensures forall p: nat :: p in Covered(stores) <==> p < |bytes|
  {
  }

  /** The stores of an add whose bytes are copied in that order. */
  function AddStoresBy(r: Ring, max: nat, copy: seq<Store>): seq<Store>
    requires max > 0 && r.capacity > 0
  {
    TrimStores(r, max) + (copy + [SetCount(Trimmed(r, max).count + 1)])
  }

  /** At every interruption point of an add, in whatever order its bytes are copied, what the handler
      would dump is, slot by slot, empty or a whole entry this thread added; and in the end the ring is
      the same. */
  lemma AddSafeInAnyOrder(r: Ring, e: string, max: nat, copy: seq<Store>, added: set<string>, n: nat)
    requires Shaped(r) && AllWhole(r, added) && IsEntry(e) && 0 < max <= r.capacity
    requires var t := Trimmed(r, max); t.capacity > 0 && CopyOf(copy, Place(t, t.count), e + "\0")
    requires n <= |AddStoresBy(r, max, copy)|
    ensures HandlerSafe(Exec(r, AddStoresBy(r, max, copy)[..n]), added + {e})
    ensures Exec(r, AddStoresBy(r, max, copy)) == Exec(r, AddStores(r, e, max))
  {
    hide HandlerSafe, Text, Written, Trimmed, TrimStores, Exec, AddStores, CopyOf, AllWhole;
    var added', t := added + {e}, Trimmed(r, max);
    MoreWhole(r, added, added');
    TrimSafe(r, max, added');
    TrimmedWhole(r, max, added);
    TrimmedWhole(r, max, added');
    AddSafe(r, e, max, added, 0);
    WriteSafeBy(t, e, copy, added);
    SafeJoin(r, TrimStores(r, max), copy + [SetCount(t.count + 1)], added');
    SafeAfter(r, AddStoresBy(r, max, copy), added', n);
  }

  lemma MoreWhole(r: Ring, added: set<string>, added': set<string>)
    requires AllWhole(r, added) && added <= added'
    ensures AllWhole(r, added')
  {
    hide Text;
  }

  lemma TrimmedWhole(r: Ring, max: nat, added: set<string>)
    requires AllWhole(r, added) && 0 < max <= r.capacity && Shaped(Trimmed(r, max))
    ensures WholeBut(Trimmed(r, max), added)
  {
    hide Text, Trimmed;
  }

  lemma WriteSafeBy(r: Ring, e: string, copy: seq<Store>, added: set<string>)
    requires WholeBut(r, added) && IsEntry(e) && CopyOf(copy, Place(r, r.count), e + "\0")
    ensures SafeThroughout(r, copy + [SetCount(r.count + 1)], added + {e})
    ensures Exec(r, copy + [SetCount(r.count + 1)]) == Written(r, e)
  {
    hide HandlerSafe, Text, Overwrite, Covered;
    var added' := added + {e};
    assert WholeBut(r, added');
    UnpublishedBytesSafe(r, copy, added');
    CopyDone(r, copy, e + "\0");
    var copied, publish := Exec(r, copy), [SetCount(r.count + 1)];
    WrittenWhole(r, e, added);
    WholeIsSafe(Written(r, e), added');
    UnpublishedIsUnread(copied, added');
    assert publish[1..] == [];
    assert Apply(copied, publish[0]) == Written(r, e);
    assert SafeThroughout(Written(r, e), [], added');
    assert SafeThroughout(copied, publish, added');
    SafeJoin(r, copy, publish, added');
  }
}
