/** The ring of Bloom filters that remembers the salts seen last. */
module BloomRing {
  import opened Bytes

  /**
    One slot: a filter without false negatives. What else it takes for added depends on what was
    added; a filter whose `spurious` is always false is an exact set.
   */
  class Filter {
    const spurious: (set<bytes>, bytes) -> bool
    var items: set<bytes>

    constructor (spurious: (set<bytes>, bytes) -> bool)
      ensures items == {} && this.spurious == spurious
    {
      items, this.spurious := {}, spurious;
    }

    predicate Test(b: bytes)
      reads this
    {
      b in items || spurious(items, b)
    }

    method Add(b: bytes)
      modifies this
      ensures items == old(items) + {b}
    {
      items := items + {b};
    }

    method Reset()
      modifies this
      ensures items == {}
    {
      items := {};
    }
  }

  function Elements(s: seq<bytes>): set<bytes> {
    set x | x in s
  }

  /** Blocks, newest first, end to end with the oldest in front. */
  function Flat(blocks: seq<seq<bytes>>): seq<bytes> {
    if blocks == [] then [] else Flat(blocks[1..]) + blocks[0]
  }

  /** The last n items of a history, or all of it. */
  function LastItems(history: seq<bytes>, n: nat): seq<bytes> {
    if n < |history| then history[|history| - n..] else history
  }

  lemma {:induction false} FlatMember(blocks: seq<seq<bytes>>, x: bytes)
    ensures x in Flat(blocks) <==> exists k :: 0 <= k < |blocks| && x in blocks[k]
  {
    if blocks != [] {
      FlatMember(blocks[1..], x);
      if x in Flat(blocks[1..]) {
        var k :| 0 <= k < |blocks[1..]| && x in blocks[1..][k];
        assert x in blocks[k + 1];
      }
      if k :| 0 <= k < |blocks| && x in blocks[k] {
        assert k == 0 || x in blocks[1..][k - 1];
      }
    }
  }

  lemma {:induction false} FlatOldest(blocks: seq<seq<bytes>>)
    requires blocks != []
    ensures Flat(blocks) == blocks[|blocks| - 1] + Flat(blocks[..|blocks| - 1])
  {
    var last := |blocks| - 1;
    if last == 0 {
      assert blocks[1..] == [] && blocks[..0] == [];
    } else {
      FlatOldest(blocks[1..]);
      assert blocks[1..][..last - 1] == blocks[..last][1..];
    }
  }

  lemma {:induction false} FlatLength(blocks: seq<seq<bytes>>, size: nat)
    requires forall k :: 0 <= k < |blocks| ==> |blocks[k]| <= size
    ensures |Flat(blocks)| <= |blocks| * size
    ensures (forall k :: 0 <= k < |blocks| ==> |blocks[k]| == size) ==> |Flat(blocks)| == |blocks| * size
  {
    if blocks != [] {
      FlatLength(blocks[1..], size);
      assert |blocks| * size == |blocks[1..]| * size + size;
    }
  }

  lemma {:induction false} FlatEmpty(blocks: seq<seq<bytes>>)
    requires forall k :: 0 <= k < |blocks| ==> blocks[k] == []
    ensures Flat(blocks) == []
  {
    if blocks != [] {
      FlatEmpty(blocks[1..]);
    }
  }

  /**
    Blocks older than the current one are full as far as there are any, and a block has been
    dropped only when all are.
   */
  ghost predicate Filled(live: seq<seq<bytes>>, dropped: seq<bytes>, size: nat) {
    && (forall k :: 1 <= k < |live| ==> live[k] == [] || |live[k]| == size)
    && (forall j, k :: 1 <= j < k < |live| && live[k] != [] ==> |live[j]| == size)
    && (dropped != [] ==> forall k :: 1 <= k < |live| ==> |live[k]| == size)
  }

  lemma Regroup(a: seq<bytes>, b: seq<bytes>, c: seq<bytes>)
    ensures (a + b) + c == a + (b + c)
  {
  }

  /** The current block is full and becomes an older one; the oldest block is dropped. */
  lemma ShiftFlat(live: seq<seq<bytes>>)
    requires live != []
    ensures live[|live| - 1] + Flat([[]] + live[..|live| - 1]) == Flat(live)
  {
    var last := |live| - 1;
    FlatOldest(live);
    var next := [[]] + live[..last];
    assert next[1..] == live[..last];
    assert Flat(next) == Flat(live[..last]) + [];
  }

  lemma ShiftFilled(live: seq<seq<bytes>>, dropped: seq<bytes>, size: nat)
    requires live != [] && Filled(live, dropped, size) && |live[0]| == size
    ensures Filled([[]] + live[..|live| - 1], dropped + live[|live| - 1], size)
  {
    var next := [[]] + live[..|live| - 1];
    assert forall k :: 1 <= k < |live| ==> next[k] == live[k - 1];
  }

  /** The blocks together are the last (n-1)*size + |current| items, or all there are. */
  lemma WindowIs(live: seq<seq<bytes>>, dropped: seq<bytes>, size: nat)
    requires live != [] && Filled(live, dropped, size) && |live[0]| <= size
    ensures Flat(live) == LastItems(dropped + Flat(live), (|live| - 1) * size + |live[0]|)
  {
    FlatLength(live[1..], size);
  }

  /** The slot that was filled k blocks before the one at `position`. */
  function SlotBack(position: nat, k: nat, count: nat): int {
    if k <= position then position - k else position - k + count
  }

  lemma SlotsShift(position: nat, count: nat)
    requires position < count
    ensures var next := (position + 1) % count;
            && next < count && next == SlotBack(position, count - 1, count)
            && forall k :: 1 <= k < count ==>
                 SlotBack(next, k, count) == SlotBack(position, k - 1, count) != next
  {
    if position + 1 == count {
      assert (position + 1) % count == 0;
    } else {
      assert (position + 1) % count == position + 1;
    }
  }

  method MakeSlots(slot: nat, spurious: (set<bytes>, bytes) -> bool) returns (slots: seq<Filter>)
    ensures |slots| == slot && fresh(slots)
    ensures forall j, k :: 0 <= j < k < slot ==> slots[j] != slots[k]
    ensures forall f :: f in slots ==> f.items == {} && f.spurious == spurious
  {
    slots := [];
    for i := 0 to slot
      invariant |slots| == i && fresh(slots)
      invariant forall j, k :: 0 <= j < k < i ==> slots[j] != slots[k]
      invariant forall f :: f in slots ==> f.items == {} && f.spurious == spurious
    {
      var f := new Filter(spurious);
      slots := slots + [f];
    }
  }

  class BloomRing {
    const slotCapacity: nat
    const slotCount: nat
    const slots: seq<Filter>
    var slotPosition: nat
    var entryCounter: nat
    /** Everything ever added. */
    ghost var history: seq<bytes>
    /** What fell out of the ring, and the items of each slot, the current one first. */
    ghost var dropped: seq<bytes>
    ghost var live: seq<seq<bytes>>

    ghost predicate Shape()
      reads this
    {
      && 0 < slotCount == |slots| == |live| && slotPosition < slotCount
      && (forall i, j :: 0 <= i < j < |slots| ==> slots[i] != slots[j])
      && |live[0]| == entryCounter <= slotCapacity + 1
      && Filled(live, dropped, slotCapacity + 1)
      && history == dropped + Flat(live)
    }

    /** Each slot holds its block. */
    ghost predicate Holds()
      requires Shape()
      reads this, slots
    {
      forall k :: 0 <= k < slotCount ==> slots[SlotBack(slotPosition, k, slotCount)].items == Elements(live[k])
    }

    ghost predicate Valid()
      reads this, slots
    {
      Shape() && Holds() && (entryCounter == 0 ==> history == [])
    }

    /** How many of the last additions the ring is bound to know. */
    ghost function Retained(): nat
      requires Valid()
      reads this, slots
    {
      (slotCount - 1) * (slotCapacity + 1) + entryCounter
    }

    /** The slots are exact sets. */
    ghost predicate Exact()
      reads this
    {
      forall f :: f in slots ==> forall s, b :: !f.spurious(s, b)
    }

    constructor (slot: nat, capacity: nat, spurious: (set<bytes>, bytes) -> bool)
      requires 0 < slot
      ensures Valid() && fresh(slots) && history == []
      ensures slotCount == slot && slotCapacity == capacity / slot
      ensures (forall s, b :: !spurious(s, b)) ==> Exact()
    {
      slotCapacity, slotCount := capacity / slot, slot;
      slotPosition, entryCounter := 0, 0;
      history, dropped, live := [], [], seq(slot, _ => []);
      var made := MakeSlots(slot, spurious);
      slots := made;
      new;
      FlatEmpty(live);
    }

    /** Moves on to the next slot, which holds the oldest block, and empties it. */
    method Advance()
      requires Valid() && entryCounter > slotCapacity
      modifies this`slotPosition, this`entryCounter, this`dropped, this`live, slots
      ensures Shape() && Holds() && entryCounter == 0
    {
      ghost var was, at := live, slotPosition;
      ghost var oldest, next := was[slotCount - 1], [[]] + was[..slotCount - 1];
      ShiftFilled(was, dropped, slotCapacity + 1);
      ShiftFlat(was);
      Regroup(dropped, oldest, Flat(next));
      SlotsShift(at, slotCount);
      slotPosition := (slotPosition + 1) % slotCount;
      slots[slotPosition].Reset();
      entryCounter := 0;
      dropped, live := dropped + oldest, next;
      forall k | 0 <= k < slotCount
        ensures slots[SlotBack(slotPosition, k, slotCount)].items == Elements(live[k])
      {
        if k > 0 {
          assert live[k] == was[k - 1];
          assert SlotBack(slotPosition, k, slotCount) == SlotBack(at, k - 1, slotCount) != slotPosition;
        }
      }
    }

    method Insert(b: bytes)
      requires Shape() && Holds() && entryCounter <= slotCapacity
      modifies this`entryCounter, this`history, this`live, slots
      ensures Valid() && history == old(history) + [b]
    {
      entryCounter := entryCounter + 1;
      slots[slotPosition].Add(b);
      ghost var current := live[0];
      live := live[0 := current + [b]];
      Regroup(dropped, Flat(live[1..]) + current, [b]);
      Regroup(Flat(live[1..]), current, [b]);
      history := history + [b];
      assert Elements(current + [b]) == Elements(current) + {b};
    }

    method Add(b: bytes)
      requires Valid()
      modifies this, slots
      ensures Valid() && history == old(history) + [b]
    {
      if entryCounter > slotCapacity {
        Advance();
      }
      Insert(b);
    }

    /** What Test answers. */
    ghost predicate Positive(b: bytes)
      reads this, slots
    {
      exists f :: f in slots && f.Test(b)
    }

    /** What is in a block tests positive. */
    lemma Known(b: bytes)
      requires Valid() && b in Flat(live)
      ensures Positive(b)
    {
      FlatMember(live, b);
      var k :| 0 <= k < |live| && b in live[k];
      var f := slots[SlotBack(slotPosition, k, slotCount)];
      assert f in slots && f.items == Elements(live[k]);
    }

    /** With exact slots, what tests positive is in a block. */
    lemma OnlyKnown(b: bytes)
      requires Valid() && Exact() && Positive(b)
      ensures b in Flat(live)
    {
      FlatMember(live, b);
      var f :| f in slots && f.Test(b);
      var i :| 0 <= i < |slots| && slots[i] == f;
      var k := if i <= slotPosition then slotPosition - i else slotPosition - i + slotCount;
      assert SlotBack(slotPosition, k, slotCount) == i;
      assert b in live[k];
    }

    /**
      Among the last (slotCount-1)*(slotCapacity+1) + entryCounter additions nothing tests
      negative; with exact slots nothing else tests positive.
     */
    lemma Window(b: bytes)
      requires Valid()
      ensures b in LastItems(history, Retained()) ==> Positive(b)
      ensures Exact() ==> (Positive(b) <==> b in LastItems(history, Retained()))
    {
      WindowIs(live, dropped, slotCapacity + 1);
      if b in Flat(live) {
        Known(b);
      }
      if Exact() && Positive(b) {
        OnlyKnown(b);
      }
    }

    /** An item just added is retained. */
    lemma RetainsSome()
      requires Valid() && history != []
      ensures history[|history| - 1] in LastItems(history, Retained())
    {
    }

    method Test(b: bytes) returns (found: bool)
      requires Valid()
      ensures found == Positive(b)
      ensures b in LastItems(history, Retained()) ==> found
      ensures Exact() ==> (found <==> b in LastItems(history, Retained()))
    {
      Window(b);
      found := false;
      for i := 0 to |slots|
        invariant forall j :: 0 <= j < i ==> !slots[j].Test(b)
      {
        if slots[i].Test(b) {
          return true;
        }
      }
    }
  }

  /** A ring that may be switched off. */
  ghost predicate ValidFilter(r: BloomRing?)
    reads r, Slots(r)
  {
    r != null ==> r.Valid()
  }

  ghost function Slots(r: BloomRing?): set<object> {
    if r == null then {} else set f | f in r.slots
  }

  ghost predicate Repeated(r: BloomRing?, salt: bytes)
    reads r, Slots(r)
  {
    r != null && r.Positive(salt)
  }

  method AddSalt(r: BloomRing?, salt: bytes)
    requires ValidFilter(r)
    modifies r, Slots(r)
    ensures ValidFilter(r) && (r != null ==> r.history == old(r.history) + [salt])
    ensures r != null ==> Repeated(r, salt)
  {
    if r != null {
      r.Add(salt);
      r.RetainsSome();
      r.Window(salt);
    }
  }

  /** Only a test: a salt that comes in is not added. */
  method CheckSalt(r: BloomRing?, salt: bytes) returns (repeated: bool)
    requires ValidFilter(r)
    ensures repeated == Repeated(r, salt)
  {
    repeated := false;
    if r != null {
      repeated := r.Test(salt);
    }
  }
}
