/** The pool allocator of the XML library: blocks of COUNT chunks, threaded on one free list.
    A chunk in use belongs to the client, who may overwrite its link; a free one is linked. */
module MemPools {
  import opened Seqs

  class Chunk {
    var next: Chunk?
    constructor ()
      ensures next == null
    {
      next := null;
    }
  }

  /** The links followed from `root` run through `chunks` and then stop. */
  ghost predicate Linked(root: Chunk?, chunks: seq<Chunk>)
    reads chunks
  {
    if chunks == [] then root == null else root == chunks[0] && Linked(chunks[0].next, chunks[1..])
  }

  function First(chunks: seq<Chunk>): Chunk? {
    if chunks == [] then null else chunks[0]
  }

  /** The links determine the list. */
  lemma {:induction false} LinkedUnique(root: Chunk?, a: seq<Chunk>, b: seq<Chunk>)
    requires Linked(root, a) && Linked(root, b)
    ensures a == b
  {
    if a != [] && b != [] {
      LinkedUnique(a[0].next, a[1..], b[1..]);
      assert a == [a[0]] + a[1..] && b == [b[0]] + b[1..];
    }
  }

  lemma LinkedCons(first: Chunk, rest: seq<Chunk>)
    requires Linked(first.next, rest)
    ensures Linked(first, [first] + rest)
  {
    assert ([first] + rest)[1..] == rest;
  }

  lemma {:induction false} LinkedFrom(root: Chunk?, chunks: seq<Chunk>, i: nat)
    requires Linked(root, chunks) && i < |chunks|
    ensures Linked(chunks[i], chunks[i..])
  {
    if i > 0 {
      LinkedFrom(chunks[0].next, chunks[1..], i - 1);
      assert chunks[1..][i - 1..] == chunks[i..];
    } else {
      assert chunks[0..] == chunks;
    }
  }

  /** A list that ends does not meet itself. */
  lemma LinkedAcyclic(root: Chunk?, chunks: seq<Chunk>)
    requires Linked(root, chunks)
    ensures Distinct(chunks)
  {
    forall i, j | 0 <= i < j < |chunks| ensures chunks[i] != chunks[j] {
      LinkedFrom(root, chunks, i);
      LinkedFrom(root, chunks, j);
      if chunks[i] == chunks[j] {
        LinkedUnique(chunks[i], chunks[i..], chunks[j..]);
      }
    }
  }

  lemma {:induction false} LinkedChain(chunks: seq<Chunk>)
    requires forall i :: 0 <= i < |chunks| - 1 ==> chunks[i].next == chunks[i + 1]
    requires chunks != [] && chunks[|chunks| - 1].next == null
    ensures Linked(chunks[0], chunks)
  {
    if |chunks| > 1 {
      LinkedChain(chunks[1..]);
    } else {
      assert chunks[1..] == [];
    }
  }

  /** Every chunk of the blocks is free or in use, once and not both. */
  ghost predicate Partition(blocks: seq<seq<Chunk>>, free: seq<Chunk>, live: set<Chunk>) {
    && (forall c <- free :: c !in live)
    && multiset(free) + multiset(live) == multiset(Flatten(blocks))
  }

  /** The first chunk leaves the free list. */
  lemma TakeFirst(root: Chunk?, blocks: seq<seq<Chunk>>, free: seq<Chunk>, live: set<Chunk>)
    requires Linked(root, free) && root != null
    requires Partition(blocks, free, live)
    ensures free != [] && root == free[0] && Linked(root.next, free[1..])
    ensures Partition(blocks, free[1..], live + {root}) && root !in live && |live + {root}| == |live| + 1
  {
    LinkedAcyclic(root, free);
    assert free == [free[0]] + free[1..];
    assert multiset(live + {root}) == multiset(live) + multiset{root};
  }

  lemma GiveBack(mem: Chunk, blocks: seq<seq<Chunk>>, free: seq<Chunk>, live: set<Chunk>)
    requires Partition(blocks, free, live) && mem in live
    ensures mem !in free && Partition(blocks, [mem] + free, live - {mem}) && |live - {mem}| == |live| - 1
  {
    assert multiset(live) == multiset(live - {mem}) + multiset{mem};
  }

  lemma AddFree(block: seq<Chunk>, blocks: seq<seq<Chunk>>, live: set<Chunk>)
    requires Partition(blocks, [], live) && forall c <- block :: c !in live
    ensures Partition(blocks + [block], block, live)
  {
    FlattenConcat(blocks, [block]);
    FlattenOne(block);
    hide Flatten;
  }

  lemma Distribute(n: nat, k: nat)
    ensures n * k == k + (n - 1) * k
  {
  }

  lemma {:induction false} BlocksTotal(blocks: seq<seq<Chunk>>, count: nat)
    requires forall b <- blocks :: |b| == count
    ensures |Flatten(blocks)| == |blocks| * count
  {
    if blocks != [] {
      BlocksTotal(blocks[1..], count);
      Distribute(|blocks|, count);
    }
  }

  /** MemPoolT: `count` is COUNT, the chunks of a block. */
  class MemPool {
    const count: nat
    var blockPtrs: seq<seq<Chunk>>
    var root: Chunk?
    var currentAllocs: int
    var nAllocs: int
    var maxAllocs: int
    var nUntracked: int
    ghost var free: seq<Chunk>
    ghost var live: set<Chunk>

    ghost predicate Valid()
      reads this, free
    {
      && count > 0
      && Linked(root, free)
      && Partition(blockPtrs, free, live)
      && (forall b <- blockPtrs :: |b| == count)
      && currentAllocs == |live|
      && currentAllocs <= maxAllocs <= nAllocs
    }

    constructor (count: nat)
      requires count > 0
      ensures Valid() && this.count == count && live == {} && free == [] && root == null
      ensures currentAllocs == maxAllocs == nAllocs == nUntracked == 0
    {
      this.count := count;
      blockPtrs, root, free, live := [], null, [], {};
      currentAllocs, nAllocs, maxAllocs, nUntracked := 0, 0, 0, 0;
    }

    /** No chunk is free twice or both free and in use, and none is lost. */
    lemma Conserved()
      requires Valid()
      ensures Distinct(free)
      ensures |free| + currentAllocs == count * |blockPtrs|
      ensures forall c :: c in free || c in live <==> c in Flatten(blockPtrs)
    {
      LinkedAcyclic(root, free);
      BlocksTotal(blockPtrs, count);
      assert |multiset(free) + multiset(live)| == |multiset(Flatten(blockPtrs))|;
      forall c ensures c in free || c in live <==> c in Flatten(blockPtrs) {
        assert c in multiset(free) + multiset(live) <==> c in multiset(Flatten(blockPtrs));
      }
    }

    twostate lemma LinkedKept(chunks: seq<Chunk>)
      requires forall c <- chunks :: old(allocated(c)) && c.next == old(c.next)
      requires old(Linked(First(chunks), chunks))
      ensures Linked(First(chunks), chunks)
    {
      if chunks != [] {
        LinkedKept(chunks[1..]);
      }
    }

    /** What the client writes into chunks it holds cannot break the pool. */
    twostate lemma ClientWrites()
      requires old(Valid())
      requires root == old(root) && free == old(free) && live == old(live) && blockPtrs == old(blockPtrs)
      requires currentAllocs == old(currentAllocs) && maxAllocs == old(maxAllocs) && nAllocs == old(nAllocs)
      requires forall c: Chunk | old(allocated(c)) :: c in live || c.next == old(c.next)
      ensures Valid()
    {
      LinkedKept(free);
    }

    /** A block whose chunks are linked in order. */
    method NewBlock() returns (block: seq<Chunk>)
      requires count > 0
      ensures |block| == count && fresh(block) && Linked(block[0], block)
    {
      block := [];
      for i := 0 to count
        invariant |block| == i && fresh(block)
        invariant Distinct(block)
      {
        var chunk := new Chunk();
        block := block + [chunk];
      }
      for i := 0 to count - 1
        invariant forall k :: 0 <= k < i ==> block[k].next == block[k + 1]
      {
        block[i].next := block[i + 1];
      }
      block[count - 1].next := null;
      LinkedChain(block);
    }

    /** The free list is empty: all the chunks of a new block become free. */
    method AddBlock()
      requires Valid() && root == null
      modifies this`blockPtrs, this`root, this`free
      ensures Valid() && root != null && |free| == count && fresh(free)
      ensures blockPtrs == old(blockPtrs) + [free]
    {
      var block := NewBlock();
      assert free == [];
      AddFree(block, blockPtrs, live);
      blockPtrs := blockPtrs + [block];
      root := block[0];
      free := block;
    }

    method Alloc() returns (result: Chunk)
      requires Valid()
      modifies this
      ensures Valid()
      ensures result !in old(live) && live == old(live) + {result}
      ensures old(root) != null ==>
        result == old(root) && [result] + free == old(free) && blockPtrs == old(blockPtrs)
      ensures old(root) == null ==>
        blockPtrs == old(blockPtrs) + [[result] + free] && |free| == count - 1 && fresh(result) && fresh(free)
      ensures currentAllocs == old(currentAllocs) + 1
      ensures nAllocs == old(nAllocs) + 1 && nUntracked == old(nUntracked) + 1
      ensures maxAllocs == if currentAllocs > old(maxAllocs) then currentAllocs else old(maxAllocs)
    {
      hide MemPool.Valid;
      if root == null {
        AddBlock();
      }
      ghost var before := free;
      result := TakeRoot();
      assert before == [result] + free;
    }

    method TakeRoot() returns (result: Chunk)
      requires Valid() && root != null
      modifies this`root, this`free, this`live, this`currentAllocs, this`maxAllocs, this`nAllocs, this`nUntracked
      ensures Valid()
      ensures result == old(root) && result !in old(live) && live == old(live) + {result}
      ensures old(free) != [] && result == old(free)[0] && free == old(free)[1..]
      ensures currentAllocs == old(currentAllocs) + 1
      ensures nAllocs == old(nAllocs) + 1 && nUntracked == old(nUntracked) + 1
      ensures maxAllocs == if currentAllocs > old(maxAllocs) then currentAllocs else old(maxAllocs)
    {
      hide Linked, Partition;
      TakeFirst(root, blockPtrs, free, live);
      result := root;
      root := root.next;
      currentAllocs := currentAllocs + 1;
      if currentAllocs > maxAllocs {
        maxAllocs := currentAllocs;
      }
      nAllocs := nAllocs + 1;
      nUntracked := nUntracked + 1;
      assert free == [result] + free[1..];
      free := free[1..];
      live := live + {result};
    }

    method Free(mem: Chunk?)
      requires Valid() && (mem == null || mem in live)
      modifies this, if mem == null then {} else {mem}
      ensures Valid() && blockPtrs == old(blockPtrs)
      ensures maxAllocs == old(maxAllocs) && nAllocs == old(nAllocs) && nUntracked == old(nUntracked)
      ensures mem == null ==> free == old(free) && live == old(live) && currentAllocs == old(currentAllocs)
      ensures mem != null ==>
        free == [mem] + old(free) && live == old(live) - {mem} && currentAllocs == old(currentAllocs) - 1
    {
      hide MemPool.Valid;
      if mem == null {
        return;
      }
      PutBack(mem);
    }

    method PutBack(chunk: Chunk)
      requires Valid() && chunk in live
      modifies this`root, this`free, this`live, this`currentAllocs, chunk
      ensures Valid()
      ensures free == [chunk] + old(free) && live == old(live) - {chunk} && currentAllocs == old(currentAllocs) - 1
    {
      hide Partition, Linked;
      GiveBack(chunk, blockPtrs, free, live);
      currentAllocs := currentAllocs - 1;
      chunk.next := root;
      root := chunk;
      LinkedCons(chunk, free);
      free := [chunk] + free;
      live := live - {chunk};
    }

    method SetTracked()
      requires Valid()
      modifies this`nUntracked
      ensures Valid() && nUntracked == old(nUntracked) - 1
    {
      nUntracked := nUntracked - 1;
    }
  }

  /** What a client does: take a chunk, give back the one it holds at place `which` (NULL if none), or
      write into that one, for instance over the link, what may look like a link to another chunk. */
  datatype Step = Allocate | Release(which: nat) | Write(which: nat, value: nat)

  /** How many chunks the client holds after one more step. */
  function Next(n: nat, step: Step): nat {
    match step
    case Allocate => n + 1
    case Release(k) => if k < n then n - 1 else n
    case Write(_, _) => n
  }

  function Held(steps: seq<Step>): (n: nat) {
    if steps == [] then 0
    else
      Next(Held(steps[..|steps| - 1]), steps[|steps| - 1])
  }

  /** The most chunks held at any time. */
  function Peak(steps: seq<Step>): nat {
    if steps == [] then 0
    else if Held(steps) > Peak(steps[..|steps| - 1]) then Held(steps) else Peak(steps[..|steps| - 1])
  }

  lemma {:induction false} PeakIsMaximum(steps: seq<Step>)
    ensures forall k :: 0 <= k <= |steps| ==> Held(steps[..k]) <= Peak(steps)
    ensures exists k :: 0 <= k <= |steps| && Held(steps[..k]) == Peak(steps)
  {
    assert steps[..|steps|] == steps;
    if steps != [] {
      var front := steps[..|steps| - 1];
      PeakIsMaximum(front);
      assert forall k :: 0 <= k <= |front| ==> front[..k] == steps[..k];
    }
  }

  ghost function Elements<T>(s: seq<T>): set<T> {
    set x | x in s
  }

  lemma DistinctTake<T>(s: seq<T>, x: T)
    requires Distinct(s) && x !in s
    ensures Distinct(s + [x]) && Elements(s + [x]) == Elements(s) + {x}
  {
  }

  lemma DistinctDrop<T>(s: seq<T>, k: nat)
    requires Distinct(s) && k < |s|
    ensures Distinct(s[..k] + s[k + 1..]) && Elements(s[..k] + s[k + 1..]) == Elements(s) - {s[k]}
  {
    var r := s[..k] + s[k + 1..];
    assert forall i :: 0 <= i < |r| ==> r[i] == s[if i < k then i else i + 1];
    forall c ensures c in r <==> c in s && c != s[k] {
      if c in s && c != s[k] {
        var i :| 0 <= i < |s| && s[i] == c;
        assert r[if i < k then i else i - 1] == c;
      }
    }
  }

  lemma RunStep(steps: seq<Step>, i: nat)
    requires i < |steps|
    ensures Held(steps[..i + 1]) == Next(Held(steps[..i]), steps[i]) && Held(steps[..i]) <= Peak(steps[..i])
    ensures Peak(steps[..i + 1]) ==
      if Held(steps[..i + 1]) > Peak(steps[..i]) then Held(steps[..i + 1]) else Peak(steps[..i])
  {
    assert steps[..i + 1][..i] == steps[..i];
    assert steps[..i][..i] == steps[..i];
    PeakIsMaximum(steps[..i]);
  }

  ghost predicate Holds(pool: MemPool, held: seq<Chunk>)
    reads pool, pool.free
  {
    pool.Valid() && Distinct(held) && pool.live == Elements(held) && pool.currentAllocs == |held| <= pool.maxAllocs
  }

  method Take(pool: MemPool, held: seq<Chunk>) returns (after: seq<Chunk>)
    requires Holds(pool, held)
    modifies pool
    ensures Holds(pool, after) && |after| == |held| + 1
    ensures pool.maxAllocs == if |after| > old(pool.maxAllocs) then |after| else old(pool.maxAllocs)
    ensures forall c :: c in after || c in pool.free ==> c in held || c in old(pool.free) || fresh(c)
  {
    assert forall c :: c in held ==> c in Elements(held);
    hide MemPool.Valid, Distinct, Elements;
    var chunk := pool.Alloc();
    DistinctTake(held, chunk);
    after := held + [chunk];
    assert forall c :: c in [chunk] + pool.free ==> c in old(pool.free) || fresh(c);
  }

  method GiveUp(pool: MemPool, held: seq<Chunk>, k: nat) returns (after: seq<Chunk>)
    requires Holds(pool, held) && k < |held|
    modifies pool, held[k]
    ensures Holds(pool, after) && |after| == |held| - 1
    ensures pool.maxAllocs == old(pool.maxAllocs)
    ensures forall c :: c in after || c in pool.free ==> c in held || c in old(pool.free)
  {
    assert held[k] in Elements(held);
    hide MemPool.Valid, Distinct, Elements;
    pool.Free(held[k]);
    DistinctDrop(held, k);
    after := held[..k] + held[k + 1..];
  }

  method Scribble(pool: MemPool, held: seq<Chunk>, k: nat, value: nat)
    requires Holds(pool, held) && k < |held|
    modifies held[k]
    ensures Holds(pool, held) && held[k].next == if value < |held| then held[value] else null
  {
    assert held[k] in Elements(held);
    hide Distinct, Elements;
    held[k].next := if value < |held| then held[value] else null;
    pool.ClientWrites();
  }

  method ClientStep(pool: MemPool, held: seq<Chunk>, step: Step) returns (after: seq<Chunk>)
    requires Holds(pool, held)
    modifies pool, held
    ensures Holds(pool, after) && |after| == Next(|held|, step)
    ensures pool.maxAllocs == if |after| > old(pool.maxAllocs) then |after| else old(pool.maxAllocs)
    ensures forall c :: c in after || c in pool.free ==> c in held || c in old(pool.free) || fresh(c)
  {
    assert |held| <= pool.maxAllocs && pool.Valid();
    match step
    case Allocate =>
      hide Holds;
      after := Take(pool, held);
    case Release(k) =>
      if k < |held| {
        hide Holds;
        after := GiveUp(pool, held, k);
      } else {
        pool.Free(null);
        after := held;
      }
    case Write(k, value) =>
      hide Holds;
      if k < |held| {
        Scribble(pool, held, k, value);
      }
      after := held;
  }

  /** Any run of a client on a new pool: it never holds a chunk twice, and the watermark is exact. */
  method Client(count: nat, steps: seq<Step>) returns (held: seq<Chunk>, watermark: int, blocks: nat)
    requires count > 0
    ensures |held| == Held(steps) && Distinct(held)
    ensures watermark == Peak(steps)
    ensures |held| <= count * blocks
  {
    var pool := new MemPool(count);
    held := [];
    RunBegins(steps);
    assert Holds(pool, held);
    hide Holds, Held, Peak, Next;
    for i := 0 to |steps|
      invariant fresh(pool) && Holds(pool, held) && pool.count == count
      invariant forall c :: c in held || c in pool.free ==> fresh(c)
      invariant |held| == Held(steps[..i]) && pool.maxAllocs == Peak(steps[..i])
    {
      RunStep(steps, i);
      assert forall k :: 0 <= k < |held| ==> held[k] in held;
      held := ClientStep(pool, held, steps[i]);
    }
    HeldBound(pool, held);
    watermark := pool.maxAllocs;
    blocks := |pool.blockPtrs|;
  }

  lemma RunBegins(steps: seq<Step>)
    ensures Held(steps[..0]) == Peak(steps[..0]) == 0 && steps[..|steps|] == steps
  {
  }

  lemma HeldBound(pool: MemPool, held: seq<Chunk>)
    requires Holds(pool, held)
    ensures Distinct(held) && |held| <= pool.count * |pool.blockPtrs|
  {
    pool.Conserved();
  }
}
