/** The block cache: a fixed-capacity array of entries keyed by (disk, block),
    with hit/query statistics and approximate least-frequently-used eviction
    (cache.c). */
module Cache {
  import opened Jbod

  const MIN_ENTRIES: int := 2
  const MAX_ENTRIES: int := 4096

  /** One slot of the cache array (cache_entry_t). */
  datatype Entry = Entry(valid: bool, disk: int, block: int, accesses: int, data: Block)

  predicate Matches(e: Entry, disk: int, block: int) {
    e.disk == disk && e.block == block
  }

  /** The key range lookup and insert accept; both upper bounds are inclusive. */
  predicate InRange(disk: int, block: int) {
    0 <= disk <= NUM_DISKS && 0 <= block <= DISK_SIZE
  }

  /** Some valid slot already carries the key. */
  predicate HasValidKey(s: seq<Entry>, disk: int, block: int) {
    exists i :: 0 <= i < |s| && s[i].valid && Matches(s[i], disk, block)
  }

  /** No two valid slots share a key. */
  predicate UniqueValidKeys(s: seq<Entry>) {
    forall i, j :: 0 <= i < j < |s| && s[i].valid && s[j].valid ==>
      !(s[i].disk == s[j].disk && s[i].block == s[j].block)
  }

  /** Number of valid slots. */
  function ValidCount(s: seq<Entry>): (n: nat)
    ensures n <= |s|
  {
    if s == [] then 0 else (if s[0].valid then 1 else 0) + ValidCount(s[1..])
  }

  /** Index of the first slot whose key matches, validity not consulted;
      |s| when there is none. */
  function FirstMatch(s: seq<Entry>, disk: int, block: int): (i: nat)
    ensures i <= |s|
    ensures i < |s| ==> Matches(s[i], disk, block)
    ensures forall j :: 0 <= j < i ==> !Matches(s[j], disk, block)
  {
    if s == [] then 0
    else if Matches(s[0], disk, block) then 0
    else 1 + FirstMatch(s[1..], disk, block)
  }

  /** Index of the first slot not marked valid; |s| when every slot is valid. */
  function FirstFree(s: seq<Entry>): (i: nat)
    ensures i <= |s|
    ensures i < |s| ==> !s[i].valid
    ensures forall j :: 0 <= j < i ==> s[j].valid
  {
    if s == [] then 0 else if !s[0].valid then 0 else 1 + FirstFree(s[1..])
  }

  /** The eviction victim: a left-to-right scan keeping the first slot whose
      access count is strictly below every count seen before it. */
  function Victim(s: seq<Entry>): (v: nat)
    requires |s| > 0
    ensures v < |s|
    ensures forall j :: 0 <= j < |s| ==> s[v].accesses <= s[j].accesses
    ensures forall j :: 0 <= j < v ==> s[v].accesses < s[j].accesses
  {
    if |s| == 1 then 0
    else
      var v := Victim(s[..|s| - 1]);
      if s[|s| - 1].accesses < s[v].accesses then |s| - 1 else v
  }

  /** Replacing one slot changes the valid count by the change of its flag. */
  lemma {:induction false} ValidCountUpdate(s: seq<Entry>, i: nat, e: Entry)
    requires i < |s|
    ensures ValidCount(s[i := e]) + (if s[i].valid then 1 else 0)
         == ValidCount(s) + (if e.valid then 1 else 0)
  {
    if i > 0 {
      assert s[i := e][1..] == s[1..][i - 1 := e];
      ValidCountUpdate(s[1..], i - 1, e);
    } else {
      assert s[i := e][1..] == s[1..];
    }
  }

  /** The valid count depends on the valid flags alone. */
  lemma {:induction false} SameFlagsSameCount(s: seq<Entry>, t: seq<Entry>)
    requires |s| == |t|
    requires forall i :: 0 <= i < |s| ==> s[i].valid == t[i].valid
    ensures ValidCount(s) == ValidCount(t)
  {
    if s != [] {
      SameFlagsSameCount(s[1..], t[1..]);
    }
  }

  /** A count equal to the length means every slot is valid, and back. */
  lemma {:induction false} FullIffAllValid(s: seq<Entry>)
    ensures ValidCount(s) == |s| <==> forall i :: 0 <= i < |s| ==> s[i].valid
  {
    if s != [] {
      FullIffAllValid(s[1..]);
      assert forall i :: 0 < i < |s| ==> s[i] == s[1..][i - 1];
    }
  }

  /** A slot array holds nothing exactly when no slot is marked valid. */
  lemma {:induction false} NoneValidCount(s: seq<Entry>)
    ensures ValidCount(s) == 0 <==> forall i :: 0 <= i < |s| ==> !s[i].valid
  {
    if s != [] {
      assert forall i :: 0 <= i < |s| - 1 ==> s[1..][i] == s[i + 1];
      NoneValidCount(s[1..]);
    }
  }

  /** Right after an insert into slot p (the first free slot, or any slot of a
      full array), a lookup of the inserted key finds slot p. */
  lemma InsertedKeyFound(s: seq<Entry>, p: nat, disk: int, block: int, data: Block)
    requires p < |s|
    requires forall j :: 0 <= j < p ==> s[j].valid
    requires !HasValidKey(s, disk, block)
    ensures FirstMatch(s[p := Entry(true, disk, block, 1, data)], disk, block) == p
  {
    var t := s[p := Entry(true, disk, block, 1, data)];
    assert Matches(t[p], disk, block);
    forall j | 0 <= j < p ensures !Matches(t[j], disk, block) {
      assert t[j] == s[j];
    }
  }

  /** Writing a key no valid slot holds keeps valid keys unique. */
  lemma {:induction false} FreshKeyKeepsUnique(s: seq<Entry>, p: nat, e: Entry)
    requires p < |s| && UniqueValidKeys(s) && !HasValidKey(s, e.disk, e.block)
    ensures UniqueValidKeys(s[p := e])
  {
    var t := s[p := e];
    forall i, j | 0 <= i < j < |t| && t[i].valid && t[j].valid
      ensures !(t[i].disk == t[j].disk && t[i].block == t[j].block)
    {
      if i == p {
        assert s[j].valid && t[j] == s[j];
      } else if j == p {
        assert s[i].valid && t[i] == s[i];
      }
    }
  }

  /** When a full cache evicts slot v for a new key, the evicted key is no
      longer found by lookup. */
  lemma EvictedKeyAbsent(s: seq<Entry>, v: nat, disk: int, block: int, data: Block)
    requires v < |s|
    requires forall j :: 0 <= j < |s| ==> s[j].valid
    requires UniqueValidKeys(s)
    requires !HasValidKey(s, disk, block)
    ensures FirstMatch(s[v := Entry(true, disk, block, 1, data)], s[v].disk, s[v].block)
         == |s|
  {
    var t := s[v := Entry(true, disk, block, 1, data)];
    forall j | 0 <= j < |s| ensures !Matches(t[j], s[v].disk, s[v].block) {
      if j < v {
        assert t[j] == s[j];
      } else if j > v {
        assert t[j] == s[j];
      }
    }
  }

  /** The process-wide cache state of cache.c: the entry array (null when no
      cache exists) and its counters. */
  class BlockCache {
    var slots: array?<Entry>   // cache
    var size: int              // cache_size
    var queries: int           // num_queries
    var hits: int              // num_hits
    var amount: int            // cache_amount: occupied slots

    /** Occupancy is the number of valid slots and never exceeds the capacity;
        valid slots carry distinct keys. */
    ghost predicate Valid()
      reads this, slots
    {
      if slots == null then size == 0 && amount == 0
      else
        && slots.Length == size
        && MIN_ENTRIES <= size <= MAX_ENTRIES
        && amount == ValidCount(slots[..])
        && UniqueValidKeys(slots[..])
    }

    /** The state at program start: no cache, all counters zero. */
    constructor ()
      ensures Valid() && slots == null
      ensures size == 0 && queries == 0 && hits == 0 && amount == 0
    {
      slots := null;
      size, queries, hits, amount := 0, 0, 0, 0;
    }

    /** cache_create as written: the clearing loop runs over the old capacity,
        which is 0 whenever no cache exists, so the fresh slots keep whatever
        the allocator left in them (`junk`). */
    method CreateAsWritten(n: int, junk: int -> Entry) returns (r: int)
      requires Valid()
      modifies this
      ensures old(slots) != null || n < MIN_ENTRIES || n > MAX_ENTRIES ==>
        r == -1 && slots == old(slots) && size == old(size) && amount == old(amount)
        && hits == old(hits) && queries == old(queries)
      ensures old(slots) == null && MIN_ENTRIES <= n <= MAX_ENTRIES ==>
        && r == 1 && fresh(slots) && slots.Length == n
        && size == n && queries == 0 && hits == 0 && amount == 0
        && (forall i :: 0 <= i < n ==> slots[i] == junk(i))
      // stale slots that read as valid leave occupancy at 0 while n slots are valid
      ensures r == 1 && (forall i :: 0 <= i < n ==> junk(i).valid) ==>
        amount == 0 && ValidCount(slots[..]) == n
    {
      if slots != null {
        r := -1;
      } else if n < MIN_ENTRIES {
        r := -1;
      } else if n > MAX_ENTRIES {
        r := -1;
      } else {
        var a := new Entry[n](i => junk(i));
        slots := a;
        // the clearing loop is bounded by the old capacity, 0 here: it runs no iteration
        assert size == 0;
        size := n;
        queries, hits, amount := 0, 0, 0;
        r := 1;
        if forall i :: 0 <= i < n ==> junk(i).valid {
          FullIffAllValid(a[..]);
        }
      }
    }

    /** cache_create with the clearing loop over the new capacity: every
        fresh slot starts invalid, the rest of its contents arbitrary. */
    method Create(n: int, junk: int -> Entry) returns (r: int)
      requires Valid()
      modifies this
      ensures Valid()
      ensures old(slots) != null || n < MIN_ENTRIES || n > MAX_ENTRIES ==>
        r == -1 && slots == old(slots) && size == old(size) && amount == old(amount)
        && hits == old(hits) && queries == old(queries)
      ensures old(slots) == null && MIN_ENTRIES <= n <= MAX_ENTRIES ==>
        && r == 1 && fresh(slots)
        && size == n && queries == 0 && hits == 0 && amount == 0
        && (forall i :: 0 <= i < n ==> slots[i] == junk(i).(valid := false))
    {
      if slots != null {
        r := -1;
      } else if n < MIN_ENTRIES {
        r := -1;
      } else if n > MAX_ENTRIES {
        r := -1;
      } else {
        var a := new Entry[n](i => junk(i));
        for i := 0 to n
          invariant forall j :: 0 <= j < i ==> a[j] == junk(j).(valid := false)
          invariant forall j :: i <= j < n ==> a[j] == junk(j)
        {
          a[i] := a[i].(valid := false);
        }
        NoneValidCount(a[..]);
        slots := a;
        size := n;
        queries, hits, amount := 0, 0, 0;
        r := 1;
      }
    }

    /** cache_destroy: drops the array and resets capacity and occupancy;
        the hit and query counters survive. */
    method Destroy() returns (r: int)
      requires Valid()
      modifies this
      ensures Valid()
      ensures old(slots) == null ==>
        r == -1 && slots == null && size == old(size) && amount == old(amount)
        && hits == old(hits) && queries == old(queries)
      ensures old(slots) != null ==>
        r == 1 && slots == null && size == 0 && amount == 0
        && hits == old(hits) && queries == old(queries)
    {
      if slots == null {
        r := -1;
      } else {
        slots := null;
        size := 0;
        amount := 0;
        r := 1;
      }
    }

    /** A caller's buffer is memory of its own, never the entry array. */
    predicate Apart(buf: array?<byte>)
      reads this
    {
      buf as object? != slots as object? || buf == null
    }

    /** The guards of cache_lookup that fail without counting a query. */
    predicate LookupAdmits(disk: int, block: int, buf: array?<byte>)
      reads this
    {
      slots != null && buf != null && amount != 0 && InRange(disk, block)
    }

    /** cache_lookup: the first slot whose key matches (valid or not) is a hit;
        its payload is copied out and its access count, the hit count and the
        query count go up.  A miss counts only the query. */
    method Lookup(disk: int, block: int, buf: array?<byte>) returns (r: int)
      requires Valid()
      requires buf != null ==> buf.Length >= BLOCK_SIZE
      requires Apart(buf)
      modifies this, slots, buf
      ensures Valid() && slots == old(slots) && size == old(size) && amount == old(amount)
      ensures r == 1 || r == -1
      ensures !old(LookupAdmits(disk, block, buf)) ==>
        && r == -1 && hits == old(hits) && queries == old(queries)
        && (slots != null ==> slots[..] == old(slots[..]))
        && (buf != null ==> buf[..] == old(buf[..]))
      ensures old(LookupAdmits(disk, block, buf)) ==>
        var i := FirstMatch(old(slots[..]), disk, block);
        && queries == old(queries) + 1
        && (r == 1 <==> i < size)
        && (i < size ==>
              && hits == old(hits) + 1
              && buf[..] == old(slots[i].data) + old(buf[BLOCK_SIZE..])
              && slots[..] == old(slots[..])[i := old(slots[i]).(accesses := old(slots[i].accesses) + 1)])
        && (i == size ==>
              hits == old(hits) && buf[..] == old(buf[..]) && slots[..] == old(slots[..]))
    {
      if slots == null {
        return -1;
      } else if buf == null {
        return -1;
      }
      if amount == 0 {
        return -1;
      }
      if disk > NUM_DISKS {
        return -1;
      } else if disk < 0 {
        return -1;
      }
      if block > DISK_SIZE {
        return -1;
      } else if block < 0 {
        return -1;
      }
      var i := 0;
      while i < size
        invariant 0 <= i <= size
        invariant forall j :: 0 <= j < i ==> !Matches(slots[j], disk, block)
        invariant slots[..] == old(slots[..]) && buf[..] == old(buf[..])
        invariant hits == old(hits) && queries == old(queries)
      {
        if slots[i].disk == disk {
          if slots[i].block == block {
            ghost var s := slots[..];
            assert slots[i] == old(slots[i]);
            Copy(buf, 0, slots[i].data);
            hits := hits + 1;
            queries := queries + 1;
            slots[i] := slots[i].(accesses := slots[i].accesses + 1);
            assert slots[..] == s[i := s[i].(accesses := s[i].accesses + 1)];
            SameFlagsSameCount(slots[..], s);
            return 1;
          }
        }
        i := i + 1;
      }
      queries := queries + 1;
      return -1;
    }

    /** cache_update: every slot whose key matches, valid or not, takes the
        new payload and one more access; nothing else changes. */
    method Update(disk: int, block: int, buf: array<byte>)
      requires Valid()
      requires slots != null ==> buf.Length >= BLOCK_SIZE
      requires Apart(buf)
      modifies slots
      ensures Valid()
      ensures slots != null ==> forall i :: 0 <= i < size ==>
        slots[i] == if Matches(old(slots[i]), disk, block)
                    then old(slots[i]).(data := buf[..BLOCK_SIZE], accesses := old(slots[i].accesses) + 1)
                    else old(slots[i])
    {
      for i := 0 to size
        invariant slots != null ==> forall j :: 0 <= j < i ==>
          slots[j] == if Matches(old(slots[j]), disk, block)
                      then old(slots[j]).(data := buf[..BLOCK_SIZE], accesses := old(slots[j].accesses) + 1)
                      else old(slots[j])
        invariant slots != null ==> forall j :: i <= j < size ==> slots[j] == old(slots[j])
      {
        if slots[i].disk == disk {
          if slots[i].block == block {
            slots[i] := slots[i].(data := buf[..BLOCK_SIZE], accesses := slots[i].accesses + 1);
          }
        }
      }
      if slots != null {
        SameFlagsSameCount(slots[..], old(slots[..]));
      }
    }

    /** The slot an admitted insert fills: the eviction victim when the cache
        is full, otherwise the first free slot. */
    static ghost function InsertSlot(s: seq<Entry>, full: bool): (p: nat)
      requires |s| > 0 && (full || ValidCount(s) < |s|)
      ensures p < |s|
      ensures !full ==> !s[p].valid && forall j :: 0 <= j < p ==> s[j].valid
      ensures full ==> forall j :: 0 <= j < |s| ==> s[p].accesses <= s[j].accesses
      ensures full ==> forall j :: 0 <= j < p ==> s[p].accesses < s[j].accesses
    {
      FullIffAllValid(s);
      if full then Victim(s) else FirstFree(s)
    }

    /** cache_insert: refuses a missing cache or buffer, an out-of-range key
        and a key some valid slot already holds; otherwise writes the entry
        (valid, key, payload, one access) into the first free slot, or over
        the eviction victim when the cache is full. */
    method Insert(disk: int, block: int, buf: array?<byte>) returns (r: int)
      requires Valid()
      requires buf != null && slots != null ==> buf.Length >= BLOCK_SIZE
      requires Apart(buf)
      modifies this, slots
      ensures Valid() && slots == old(slots) && size == old(size)
      ensures hits == old(hits) && queries == old(queries)
      ensures r == 1 || r == -1
      ensures r == 1 <==>
        old(slots) != null && buf != null && InRange(disk, block)
        && !HasValidKey(old(slots[..]), disk, block)
      ensures r == -1 ==>
        amount == old(amount) && (slots != null ==> slots[..] == old(slots[..]))
      ensures r == 1 ==>
        && amount == (if old(amount) == size then old(amount) else old(amount) + 1)
        && slots[..] == old(slots[..])[InsertSlot(old(slots[..]), old(amount) == size)
                                         := Entry(true, disk, block, 1, buf[..BLOCK_SIZE])]
    {
      if slots == null {
        return -1;
      } else if buf == null {
        return -1;
      }
      if disk > NUM_DISKS {
        return -1;
      } else if disk < 0 {
        return -1;
      }
      if block > DISK_SIZE {
        return -1;
      } else if block < 0 {
        return -1;
      }
      var held := HoldsValidKey(disk, block);
      if held {
        return -1;
      }
      ghost var s := slots[..];
      var e := Entry(true, disk, block, 1, buf[..BLOCK_SIZE]);
      var pos;
      if amount == size {
        pos := VictimSlot();
      } else {
        FullIffAllValid(s);
        pos := FreeSlot();
        amount := amount + 1;
      }
      slots[pos] := e;
      assert slots[..] == s[pos := e];
      ValidCountUpdate(s, pos, e);
      FreshKeyKeepsUnique(s, pos, e);
      return 1;
    }

    /** The duplicate scan of cache_insert: does a valid slot hold the key? */
    method HoldsValidKey(disk: int, block: int) returns (held: bool)
      requires Valid() && slots != null
      ensures held <==> HasValidKey(slots[..], disk, block)
    {
      var i := 0;
      while i < size
        invariant 0 <= i <= size
        invariant forall j :: 0 <= j < i ==> !(slots[j].valid && Matches(slots[j], disk, block))
      {
        if slots[i].disk == disk {
          if slots[i].block == block {
            if slots[i].valid {
              return true;
            }
          }
        }
        i := i + 1;
      }
      return false;
    }

    /** The eviction scan of cache_insert: the first slot with the fewest
        accesses. */
    method VictimSlot() returns (pos: nat)
      requires Valid() && slots != null
      ensures pos == Victim(slots[..])
    {
      ghost var s := slots[..];
      pos := 0;
      var least := slots[0].accesses;
      for k := 0 to size
        invariant pos == if k == 0 then 0 else Victim(s[..k])
        invariant least == s[pos].accesses
      {
        assert s[..k + 1][..k] == s[..k];
        if slots[k].accesses < least {
          pos := k;
          least := slots[k].accesses;
        }
      }
      assert s[..size] == s;
    }

    /** The free-slot scan of cache_insert: the first invalid slot, when the
        cache is not full. */
    method FreeSlot() returns (pos: nat)
      requires Valid() && slots != null && amount < size
      ensures pos == FirstFree(slots[..])
    {
      FullIffAllValid(slots[..]);
      pos := 0;
      for k := 0 to size
        invariant forall j :: 0 <= j < k ==> slots[j].valid
        invariant pos == 0
      {
        if !slots[k].valid {
          pos := k;
          break;
        }
      }
    }

    /** cache_enabled: under the invariant, a cache is enabled exactly when
        one exists. */
    function Enabled(): (r: bool)
      reads this, slots
      ensures Valid() ==> (r <==> slots != null)
    {
      slots != null && size > 0
    }
  }
}
