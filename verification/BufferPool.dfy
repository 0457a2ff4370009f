/**
 Reference-counted packet buffers in three pooled sizes. A pool hands back any
 buffer it holds or a new one, and may forget buffers at will. The ghost map
 `handles` counts, per buffer, the references not yet released.
 */
module BufferPool {
  import opened MachineWord

  const SMALL_SIZE := 64
  const STANDARD_SIZE := 1500
  const JUMBO_SIZE := 65536

  class PacketBuffer {
    const data: array<u8>
    const poolType: int
    var length: int
    var refCount: int

    constructor (size: nat, poolType: int)
      ensures data.Length == size && this.poolType == poolType
      ensures refCount == 0 && length == 0
      ensures fresh(data)
    {
      data := new u8[size](_ => 0);
      this.poolType := poolType;
      length, refCount := 0, 0;
    }

    /** Longer lengths than the buffer are cut to it. */
    method SetLen(n: int)
      modifies `length
      ensures length == if n > data.Length then data.Length else n
      ensures length <= data.Length
    {
      if n > data.Length {
        length := data.Length;
        return;
      }
      length := n;
    }

    method Data() returns (s: seq<u8>)
      requires 0 <= length <= data.Length
      ensures |s| == length && s <= data[..]
    {
      s := data[..length];
    }
  }

  /** The pool a request is served from, -1 for a buffer of its own. */
  function KindFor(minSize: int): int {
    if minSize <= SMALL_SIZE then 0
    else if minSize <= STANDARD_SIZE then 1
    else if minSize <= JUMBO_SIZE then 2
    else -1
  }

  function SizeOf(kind: int): nat {
    if kind == 0 then SMALL_SIZE else if kind == 1 then STANDARD_SIZE else JUMBO_SIZE
  }

  /** A request is served from the smallest pool whose buffers are long enough, and beyond 65536 bytes from none. */
  lemma KindIsSmallest(minSize: int)
    ensures KindFor(minSize) == 0 <==> minSize <= 64
    ensures KindFor(minSize) == 1 <==> 64 < minSize <= 1500
    ensures KindFor(minSize) == 2 <==> 1500 < minSize <= 65536
    ensures KindFor(minSize) == -1 <==> 65536 < minSize
    ensures SizeOf(0) == 64 && SizeOf(1) == 1500 && SizeOf(2) == 65536
  {
  }

  type Handles = map<PacketBuffer, nat>

  /** The references to a buffer on the books. */
  ghost function References(h: Handles, b: PacketBuffer): nat {
    if b in h then h[b] else 0
  }

  /** One reference fewer; the last one takes the buffer off the books. */
  ghost function Released(h: Handles, b: PacketBuffer): Handles
    requires b in h
  {
    if h[b] <= 1 then h - {b} else h[b := h[b] - 1]
  }

  /** A release takes one reference to that buffer off the books and touches no other. */
  lemma ReleasedIsOneLess(h: Handles, b: PacketBuffer, c: PacketBuffer)
    requires b in h && h[b] > 0
    ensures References(Released(h, b), c) == References(h, c) - if c == b then 1 else 0
    ensures b in Released(h, b) <==> h[b] > 1
  {
  }

  class Pool {
    var smallPool: set<PacketBuffer>
    var standardPool: set<PacketBuffer>
    var jumboPool: set<PacketBuffer>
    var allocationsSmall: nat
    var allocationsStandard: nat
    var allocationsJumbo: nat
    var recycledCount: nat

    ghost var handles: Handles
    ghost var Repr: set<PacketBuffer>

    /** Every release so far gave back a live reference. */
    ghost var tidy: bool

    /** The buffers waiting to be handed out. */
    ghost function Free(): set<PacketBuffer>
      reads `smallPool, `standardPool, `jumboPool
    {
      smallPool + standardPool + jumboPool
    }

    /** Each free buffer is on the shelf of its size, and none is in use. */
    ghost predicate Shelved()
      reads `smallPool, `standardPool, `jumboPool, `handles, `Repr
    {
      && Free() <= Repr && handles.Keys <= Repr
      && handles.Keys !! Free()
      && (forall b | b in smallPool :: b.poolType == 0)
      && (forall b | b in standardPool :: b.poolType == 1)
      && (forall b | b in jumboPool :: b.poolType == 2)
      && (forall b | b in Repr && 0 <= b.poolType <= 2 :: b.data.Length == SizeOf(b.poolType))
    }

    /** The counts are the live references, and never above zero for a buffer not in use. */
    ghost predicate Counted()
      reads `handles, `Repr, `tidy, Repr
    {
      forall b | b in Repr ::
        if b in handles then handles[b] == b.refCount > 0 && b.length <= b.data.Length
        else b.refCount <= 0 && (tidy ==> b.refCount == 0)
    }

    ghost predicate Valid()
      reads this, Repr
    {
      Shelved() && Counted()
    }

    constructor ()
      ensures Valid() && handles == map[] && Repr == {} && tidy
    {
      smallPool, standardPool, jumboPool := {}, {}, {};
      allocationsSmall, allocationsStandard, allocationsJumbo, recycledCount := 0, 0, 0, 0;
      handles, Repr, tidy := map[], {}, true;
    }

    /** A buffer is in one free list at most, only without references, and at count zero unless some release was one too many. */
    lemma FreeListsDisjoint(b: PacketBuffer)
      requires Valid() && b in Free()
      ensures b !in handles && b.refCount <= 0 && (tidy ==> b.refCount == 0)
      ensures b in smallPool ==> b !in standardPool && b !in jumboPool
      ensures b in standardPool ==> b !in jumboPool
    {
    }

    /** `sync.Pool.Get`: any pooled buffer, or a new one even if some are pooled. */
    method GetSmall() returns (b: PacketBuffer)
      requires Valid()
      modifies `smallPool, `allocationsSmall, `Repr
      ensures Valid() && fresh(Repr - old(Repr)) && old(Repr) <= Repr
      ensures b in Repr && b !in handles && b !in Free() && b.poolType == 0 && b.data.Length == SMALL_SIZE
      ensures if fresh(b) then allocationsSmall == old(allocationsSmall) + 1 && smallPool == old(smallPool)
              else allocationsSmall == old(allocationsSmall) && b in old(smallPool) && smallPool == old(smallPool) - {b}
    {
      if * {
        if smallPool != {} {
          b :| b in smallPool;
          smallPool := smallPool - {b};
          return;
        }
      }
      allocationsSmall := allocationsSmall + 1;
      b := new PacketBuffer(SMALL_SIZE, 0);
      Repr := Repr + {b};
    }

    method GetStandard() returns (b: PacketBuffer)
      requires Valid()
      modifies `standardPool, `allocationsStandard, `Repr
      ensures Valid() && fresh(Repr - old(Repr)) && old(Repr) <= Repr
      ensures b in Repr && b !in handles && b !in Free() && b.poolType == 1 && b.data.Length == STANDARD_SIZE
      ensures if fresh(b) then allocationsStandard == old(allocationsStandard) + 1 && standardPool == old(standardPool)
              else allocationsStandard == old(allocationsStandard) && b in old(standardPool) && standardPool == old(standardPool) - {b}
    {
      if * {
        if standardPool != {} {
          b :| b in standardPool;
          standardPool := standardPool - {b};
          return;
        }
      }
      allocationsStandard := allocationsStandard + 1;
      b := new PacketBuffer(STANDARD_SIZE, 1);
      Repr := Repr + {b};
    }

    method GetJumbo() returns (b: PacketBuffer)
      requires Valid()
      modifies `jumboPool, `allocationsJumbo, `Repr
      ensures Valid() && fresh(Repr - old(Repr)) && old(Repr) <= Repr
      ensures b in Repr && b !in handles && b !in Free() && b.poolType == 2 && b.data.Length == JUMBO_SIZE
      ensures if fresh(b) then allocationsJumbo == old(allocationsJumbo) + 1 && jumboPool == old(jumboPool)
              else allocationsJumbo == old(allocationsJumbo) && b in old(jumboPool) && jumboPool == old(jumboPool) - {b}
    {
      if * {
        if jumboPool != {} {
          b :| b in jumboPool;
          jumboPool := jumboPool - {b};
          return;
        }
      }
      allocationsJumbo := allocationsJumbo + 1;
      b := new PacketBuffer(JUMBO_SIZE, 2);
      Repr := Repr + {b};
    }

    /** The garbage collector may empty the free lists at any time. */
    method Forget(b: PacketBuffer)
      requires Valid()
      modifies `smallPool, `standardPool, `jumboPool
      ensures Valid() && b !in Free()
    {
      smallPool, standardPool, jumboPool := smallPool - {b}, standardPool - {b}, jumboPool - {b};
    }

    method HandOut(b: PacketBuffer, minSize: int)
      requires Valid() && b in Repr && b !in handles && b !in Free() && minSize <= b.data.Length
      modifies `handles, b`length, b`refCount
      ensures Valid() && handles == old(handles)[b := 1]
      ensures b.length == minSize && b.refCount == 1
    {
      b.length := minSize;
      b.refCount := 1;
      handles := handles[b := 1];
    }

    /** Hands out a buffer nobody holds, big enough, with one reference. */
    method Acquire(minSize: int) returns (b: PacketBuffer)
      requires Valid()
      modifies this, Repr
      ensures Valid() && fresh(Repr - old(Repr)) && old(Repr) <= Repr
      ensures b !in old(handles) && handles == old(handles)[b := 1]
      ensures b.length == minSize <= b.data.Length && b.refCount == 1 && b.poolType == KindFor(minSize)
      ensures forall c | c in old(handles) :: c.length == old(c.length) && c.refCount == old(c.refCount)
      ensures recycledCount == old(recycledCount) && tidy == old(tidy)
    {
      hide Pool.Free, Pool.Valid;
      if minSize <= SMALL_SIZE {
        b := GetSmall();
      } else if minSize <= STANDARD_SIZE {
        b := GetStandard();
      } else if minSize <= JUMBO_SIZE {
        b := GetJumbo();
      } else {
        b := GetOversize(minSize);
      }
      HandOut(b, minSize);
    }

    method GetOversize(minSize: nat) returns (b: PacketBuffer)
      requires Valid()
      modifies `Repr
      ensures Valid() && fresh(Repr - old(Repr)) && old(Repr) <= Repr
      ensures b in Repr && b !in handles && b !in Free() && b.poolType == -1 && b.data.Length == minSize
    {
      b := new PacketBuffer(minSize, -1);
      Repr := Repr + {b};
    }

    method Retain(b: PacketBuffer)
      requires Valid() && b in handles
      modifies `handles, b`refCount
      ensures Valid() && handles == old(handles)[b := old(handles)[b] + 1]
    {
      b.refCount := b.refCount + 1;
      handles := handles[b := handles[b] + 1];
    }

    /**
     Gives one live reference back; the last one sends the buffer to its free list,
     and no other buffer. A release too many only lowers the count of a dead buffer:
     it reaches no free list and no buffer in use.
     */
    method Release(b: PacketBuffer)
      requires Valid() && b in Repr
      modifies `handles, `smallPool, `standardPool, `jumboPool, `recycledCount, `tidy, b`refCount, b`length
      ensures Valid() && tidy == (old(tidy) && b in old(handles))
      ensures handles == if b in old(handles) then Released(old(handles), b) else old(handles)
      ensures b !in old(handles) ==> Free() == old(Free()) && recycledCount == old(recycledCount)
      ensures b in old(handles) ==>
                && recycledCount == old(recycledCount) + (if b in handles then 0 else 1)
                && Free() == old(Free()) + (if b !in handles && 0 <= b.poolType <= 2 then {b} else {})
    {
      hide Pool.Counted, Pool.Shelved, Released;
      if b in handles {
        InUse(b);
      }
      CountDown(b);
      if b.refCount == 0 {
        Recycle(b);
      }
    }

    lemma InUse(b: PacketBuffer)
      requires Shelved() && b in handles
      ensures b !in Free()
    {
    }

    /** `atomic.AddInt32(&b.refCount, -1)`, with its entry in the books. */
    method CountDown(b: PacketBuffer)
      requires Counted() && b in Repr
      modifies `handles, `tidy, b`refCount
      ensures Counted() && tidy == (old(tidy) && b in old(handles))
      ensures handles == if b in old(handles) then Released(old(handles), b) else old(handles)
      ensures b.refCount == 0 <==> b in old(handles) && b !in handles
      ensures old(Shelved()) ==> Shelved()
    {
      tidy := tidy && b in handles;
      if b in handles {
        handles := Released(handles, b);
      }
      b.refCount := b.refCount - 1;
    }

    method Recycle(b: PacketBuffer)
      requires Shelved() && Counted() && b in Repr && b !in handles && b !in Free()
      modifies `smallPool, `standardPool, `jumboPool, `recycledCount, b`length
      ensures Shelved() && Counted()
      ensures recycledCount == old(recycledCount) + 1 && b.length == 0
      ensures Free() == old(Free()) + (if 0 <= b.poolType <= 2 then {b} else {})
      ensures smallPool == old(smallPool) + (if b.poolType == 0 then {b} else {})
      ensures standardPool == old(standardPool) + (if b.poolType == 1 then {b} else {})
      ensures jumboPool == old(jumboPool) + (if b.poolType == 2 then {b} else {})
    {
      hide Pool.Shelved, Pool.Counted;
      recycledCount := recycledCount + 1;
      Empty(b);
      Shelve(b);
    }

    method Empty(b: PacketBuffer)
      requires Counted() && b in Repr && b !in handles
      modifies b`length
      ensures Counted() && b.length == 0
    {
      b.length := 0;
    }

    /** The `Put` into the pool of its size; oversize buffers go to the garbage collector. */
    method Shelve(b: PacketBuffer)
      requires Shelved() && b in Repr && b !in handles && b !in Free()
      modifies `smallPool, `standardPool, `jumboPool
      ensures Shelved()
      ensures Free() == old(Free()) + (if 0 <= b.poolType <= 2 then {b} else {})
      ensures smallPool == old(smallPool) + (if b.poolType == 0 then {b} else {})
      ensures standardPool == old(standardPool) + (if b.poolType == 1 then {b} else {})
      ensures jumboPool == old(jumboPool) + (if b.poolType == 2 then {b} else {})
    {
      if b.poolType == 0 {
        smallPool := smallPool + {b};
      } else if b.poolType == 1 {
        standardPool := standardPool + {b};
      } else if b.poolType == 2 {
        jumboPool := jumboPool + {b};
      }
    }
  }
}
