/** The pool of buffers: a linked free list, searched first-fit, that takes back zeroed blocks only. */
module MemoryPools {
  import opened Bytes

  class Block {
    var next: Block?
    const size: nat
    const data: array<Byte>

    constructor (size: nat)
      ensures next == null && this.size == size && fresh(data) && data.Length == size
    {
      next := null;
      this.size := size;
      data := new Byte[size];
    }
  }

  // ---------------------------------------------------------------- free and handed-out blocks

  /** No block is listed twice or both free and in use, and no two blocks share a buffer. */
  ghost predicate Apart(free: seq<Block>, inUse: set<Block>) {
    && (forall i, j :: 0 <= i < j < |free| ==> free[i] != free[j] && free[i].data != free[j].data)
    && (forall i, b :: 0 <= i < |free| && b in inUse ==> free[i] != b && free[i].data != b.data)
    && (forall a, b :: a in inUse && b in inUse && a != b ==> a.data != b.data)
    && (forall i :: 0 <= i < |free| ==> free[i].data.Length == free[i].size)
    && (forall b :: b in inUse ==> b.data.Length == b.size)
  }

  function Dropped(free: seq<Block>, k: nat): (r: seq<Block>)
    requires k < |free|
    ensures |r| == |free| - 1
    ensures forall i :: 0 <= i < |r| ==> r[i] == free[if i < k then i else i + 1]
  {
    free[..k] + free[k + 1..]
  }

  lemma ApartTaken(free: seq<Block>, inUse: set<Block>, k: nat)
    requires Apart(free, inUse) && k < |free|
    ensures Apart(Dropped(free, k), inUse + {free[k]})
  {
    hide Dropped;
  }

  lemma ApartGiven(free: seq<Block>, inUse: set<Block>, b: Block)
    requires Apart(free, inUse) && b in inUse
    ensures Apart([b] + free, inUse - {b})
  {
    var list := [b] + free;
    assert forall i :: 0 < i < |list| ==> list[i] == free[i - 1];
  }

  /** The block at position `k` is the first one large enough. */
  ghost predicate FirstFit(list: seq<Block>, k: nat, b: Block, size: nat) {
    k < |list| && list[k] == b && b.size >= size && forall i :: 0 <= i < k ==> list[i].size < size
  }

  // ---------------------------------------------------------------- the linked list

  function SetOf(list: seq<Block>): set<Block> { set b | b in list }

  function At(list: seq<Block>, i: nat): Block? { if i < |list| then list[i] else null }

  /** Following the links visits exactly this list, so it ends and visits no block twice. */
  ghost predicate Chain(head: Block?, list: seq<Block>)
    reads SetOf(list)
  {
    && head == At(list, 0)
    && (forall i :: 0 <= i < |list| ==> list[i].next == At(list, i + 1))
  }

  function BuffersOf(list: seq<Block>): set<array<Byte>> { set b | b in list :: b.data }

  ghost predicate Zeroed(list: seq<Block>)
    reads BuffersOf(list)
  {
    forall i :: 0 <= i < |list| ==> AllZero(list[i].data[..])
  }

  /** Links the predecessor of the block at position `k`, or the head, to its successor. */
  method SkipOver(head: Block?, parent: Block?, b: Block, ghost list: seq<Block>, ghost k: nat) returns (r: Block?)
    requires Chain(head, list) && k < |list| && list[k] == b && parent == (if k == 0 then null else list[k - 1])
    requires forall i, j :: 0 <= i < j < |list| ==> list[i] != list[j]
    modifies parent, b
    ensures Chain(r, Dropped(list, k))
  {
    hide Dropped, At;
    AtDropped(list, k);
    if parent == null {
      r := b.next;
    } else {
      parent.next := b.next;
      r := head;
    }
    b.next := null;
  }

  /** Walks along the list to the first block that is large enough. */
  method Search(head: Block?, ghost list: seq<Block>, size: nat) returns (parent: Block?, block: Block?, ghost k: nat)
    requires Chain(head, list)
    ensures k <= |list| && block == At(list, k) && parent == (if k == 0 then null else list[k - 1])
    ensures block != null ==> FirstFit(list, k, block, size)
    ensures block == null ==> forall x :: x in list ==> x.size < size
  {
    parent, block, k := null, head, 0;
    while block != null && block.size < size
      invariant 0 <= k <= |list| && block == At(list, k)
      invariant parent == (if k == 0 then null else list[k - 1])
      invariant forall i :: 0 <= i < k ==> list[i].size < size
      decreases |list| - k
    {
      parent := block;
      block := block.next;
      k := k + 1;
    }
  }

  method Push(b: Block, head: Block?, ghost list: seq<Block>)
    requires Chain(head, list) && b !in list
    modifies b
    ensures Chain(b, [b] + list)
  {
    b.next := head;
    assert forall i :: 0 < i < |list| + 1 ==> ([b] + list)[i] == list[i - 1];
  }

  class Pool {
    var head: Block?
    /** The free list in order, and the blocks that are handed out. */
    ghost var free: seq<Block>
    ghost var inUse: set<Block>

    ghost predicate Valid()
      reads this, SetOf(free), BuffersOf(free)
    {
      Chain(head, free) && Apart(free, inUse) && Zeroed(free)
    }

    constructor ()
      ensures Valid() && free == [] && inUse == {}
    {
      head, free, inUse := null, [], {};
    }

    /** The first free block that is large enough, or a new one; it is moved to the blocks in use. */
    method Allocate(size: nat) returns (b: Block)
      requires Valid()
      modifies this, SetOf(free)
      ensures Valid()
      ensures b.size >= size && inUse == old(inUse) + {b} && b !in old(inUse)
      ensures fresh(b) ==> free == old(free) && fresh(b.data) && forall x :: x in old(free) ==> x.size < size
      ensures !fresh(b) ==> exists k: nat :: FirstFit(old(free), k, b, size) && free == Dropped(old(free), k)
    {
      hide Apart, AllZero, At, Dropped;
      var parent, block, k := Search(head, free, size);
      if block == null {
        b := AddBlock(size);
      } else {
        b := block;
        ApartElement(free, inUse, k);
        Unlink(parent, b, k);
        assert FirstFit(old(free), k, b, size);
      }
    }

    /** A new block, in use from the start. */
    method AddBlock(size: nat) returns (b: Block)
      requires Valid()
      modifies this`inUse
      ensures Valid() && fresh(b) && fresh(b.data) && b.size == size && inUse == old(inUse) + {b}
    {
      hide Apart, AllZero, At;
      b := new Block(size);
      ApartNew(free, inUse, b);
      inUse := inUse + {b};
    }

    /** Takes the block at position `k` out of the list. */
    method Unlink(parent: Block?, b: Block, ghost k: nat)
      requires Valid() && k < |free| && free[k] == b && parent == (if k == 0 then null else free[k - 1])
      modifies this, parent, b
      ensures Valid() && free == Dropped(old(free), k) && inUse == old(inUse) + {b}
    {
      hide Apart, Dropped, At, AllZero;
      ApartTaken(free, inUse, k);
      ApartDistinct(free, inUse);
      ZeroedDropped(free, k);
      head := SkipOver(head, parent, b, free, k);
      free := Dropped(free, k);
      inUse := inUse + {b};
    }

    /** Zeroes the block and puts it in front of the free list. */
    method Release(b: Block)
      requires Valid() && b in inUse
      modifies this, b, b.data
      ensures Valid() && free == [b] + old(free) && inUse == old(inUse) - {b}
    {
      hide Apart, At, AllZero;
      ApartDistinct(free, inUse);
      ApartGiven(free, inUse, b);
      Clear(b);
      assert Chain(head, free);
      Push(b, head, free);
      head := b;
      ghost var list := [b] + free;
      assert forall i :: 0 < i < |list| ==> list[i] == free[i - 1];
      free := list;
      inUse := inUse - {b};
    }

    method DestroyAll()
      requires Valid()
      modifies this
      ensures Valid() && free == [] && inUse == old(inUse)
    {
      var block := head;
      head := null;
      ghost var rest := free;
      free := [];
      while block != null
        invariant Chain(block, rest)
        decreases |rest|
      {
        ghost var before := rest;
        block := block.next;
        rest := rest[1..];
        assert forall i :: 0 <= i < |rest| ==> rest[i] == before[i + 1];
      }
    }
  }

  lemma AtDropped(list: seq<Block>, k: nat)
    requires k < |list|
    ensures forall i: nat {:trigger At(Dropped(list, k), i)} ::
      At(Dropped(list, k), i) == At(list, if i < k then i else i + 1)
    ensures forall i :: 0 <= i < |list| ==> At(list, i) == list[i]
  {
  }

  lemma ZeroedDropped(list: seq<Block>, k: nat)
    requires k < |list| && Zeroed(list)
    ensures Zeroed(Dropped(list, k))
  {
    hide Dropped;
  }

  method Clear(b: Block)
    requires b.data.Length == b.size
    modifies b.data
    ensures AllZero(b.data[..])
  {
    for i := 0 to b.size
      invariant forall j :: 0 <= j < i ==> b.data[j] == 0
    {
      b.data[i] := 0;
    }
  }

  lemma ApartDistinct(free: seq<Block>, inUse: set<Block>)
    requires Apart(free, inUse)
    ensures forall i, j :: 0 <= i < j < |free| ==> free[i] != free[j]
    ensures forall i, b :: 0 <= i < |free| && b in inUse ==> free[i] != b && free[i].data != b.data
    ensures forall b :: b in inUse ==> b.data.Length == b.size
  {
  }

  lemma ApartElement(free: seq<Block>, inUse: set<Block>, k: nat)
    requires Apart(free, inUse) && k < |free|
    ensures free[k] !in inUse
  {
  }

  lemma ApartNew(free: seq<Block>, inUse: set<Block>, b: Block)
    requires Apart(free, inUse) && b.data.Length == b.size
    requires (forall i :: 0 <= i < |free| ==> free[i] != b && free[i].data != b.data)
    requires (forall a :: a in inUse ==> a != b && a.data != b.data)
    ensures Apart(free, inUse + {b})
  {
  }
}
