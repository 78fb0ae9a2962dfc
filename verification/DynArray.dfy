/** The growing array behind the parser's buffers and the pool's list of blocks. */
module DynArrays {

  class DynArray<T> {
    const init: nat
    var mem: array<T>
    var capacity: nat
    var size: nat
    ghost var copied: nat  // elements moved to a larger array so far
    ghost var peak: nat    // the largest size asked for so far

    ghost predicate Valid()
      reads this
    {
      && capacity == mem.Length
      && size <= peak <= capacity
      && copied <= capacity
      && (capacity == init || capacity <= 2 * peak)
    }

    function Contents(): seq<T>
      reads this, mem
      requires Valid()
    {
      mem[..size]
    }

    /** Growing costs at most two moves for each element that was ever there at once. */
    lemma CopyBound()
      requires Valid()
      ensures copied <= init + 2 * peak && capacity <= init + 2 * peak
    {
    }

    /** `pool` is the inline storage of INIT elements. */
    constructor (pool: array<T>)
      ensures Valid() && mem == pool && init == pool.Length && Contents() == [] && copied == peak == 0
    {
      init, mem, capacity, size, copied, peak := pool.Length, pool, pool.Length, 0, 0, 0;
    }

    method EnsureCapacity(cap: nat, filler: T)
      requires Valid() && cap >= size
      modifies this`mem, this`capacity, this`copied, this`peak
      ensures Valid() && cap <= capacity && peak == if cap > old(peak) then cap else old(peak)
      ensures Contents() == old(Contents())
      ensures mem == old(mem) || fresh(mem)
    {
      if cap > capacity {
        var newAllocated := cap * 2;
        var newMem := new T[newAllocated](_ => filler);
        forall i | 0 <= i < size {
          newMem[i] := mem[i];
        }
        copied := copied + size;
        mem := newMem;
        capacity := newAllocated;
      }
      peak := if cap > peak then cap else peak;
    }

    method Push(t: T)
      requires Valid()
      modifies this, mem
      ensures Valid() && Contents() == old(Contents()) + [t]
      ensures mem == old(mem) || fresh(mem)
    {
      EnsureCapacity(size + 1, t);
      mem[size] := t;
      size := size + 1;
    }

    /** Room for `count` more elements, whatever they hold; the caller fills them from `ret` on. */
    method PushArr(count: nat, filler: T) returns (ret: nat)
      requires Valid()
      modifies this
      ensures Valid() && ret == old(size) && size == old(size) + count
      ensures Contents()[..ret] == old(Contents())
      ensures mem == old(mem) || fresh(mem)
    {
      EnsureCapacity(size + count, filler);
      ret := size;
      size := size + count;
    }

    method Pop() returns (t: T)
      requires Valid() && size > 0
      modifies this`size
      ensures Valid() && old(Contents()) == Contents() + [t]
    {
      size := size - 1;
      t := mem[size];
    }

    method PopArr(count: nat)
      requires Valid() && count <= size
      modifies this`size
      ensures Valid() && Contents() == old(Contents())[..old(size) - count]
    {
      size := size - count;
    }
  }
}
