/** A memory allocator whose refusals follow an arbitrary schedule. */
module Memory {
  import opened Common

  class Allocator {
    /** Whether the n-th request is granted. */
    const grants: nat -> bool
    var requests: nat
    /** The blocks that were obtained and not yet released. */
    ghost var live: set<object>

    constructor (grants: nat -> bool)
      ensures this.grants == grants && requests == 0 && live == {}
    {
      this.grants := grants;
      requests := 0;
      live := {};
    }

    /** One request: the schedule decides, and every request counts. */
    method Ask() returns (granted: bool)
      modifies this`requests
      ensures granted == grants(old(requests))
      ensures requests == old(requests) + 1
    {
      granted := grants(requests);
      requests := requests + 1;
    }

    /** A block that was just obtained becomes live. */
    ghost method Track(block: object)
      requires block !in live
      modifies this`live
      ensures live == old(live) + {block}
    {
      live := live + {block};
    }

    /** Only a live block can be released, so no block is released twice. */
    ghost method Release(block: object)
      requires block in live
      modifies this`live
      ensures live == old(live) - {block}
    {
      live := live - {block};
    }

    /** `PyBytes_FromStringAndSize(NULL, size)`. */
    method NewBytes(size: nat) returns (block: array?<byte>)
      modifies this
      ensures (block != null) == grants(old(requests))
      ensures requests == old(requests) + 1
      ensures block == null ==> live == old(live)
      ensures block != null ==>
                fresh(block) && block.Length == size && live == old(live) + {block}
    {
      block := null;
      var granted := Ask();
      if granted {
        block := new byte[size];
        Track(block);
      }
    }

    /** `_PyBytes_Resize`: the old block is gone in either case, and on success
        the common prefix has been moved to a block of the new size. */
    method ResizeBytes(source: array<byte>, size: nat) returns (block: array?<byte>)
      requires source in live
      modifies this
      ensures (block != null) == grants(old(requests))
      ensures requests == old(requests) + 1
      ensures block == null ==> live == old(live) - {source}
      ensures block != null ==>
                && fresh(block) && block.Length == size
                && live == old(live) - {source} + {block}
                && forall k :: 0 <= k < size && k < source.Length ==> block[k] == source[k]
    {
      block := NewBytes(size);
      if block != null {
        forall k | 0 <= k < size && k < source.Length {
          block[k] := source[k];
        }
      }
      Release(source);
    }
  }
}
