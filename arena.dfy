/** The bump allocator behind every record (src/common/arena.cpp, fields declared in
    src/common/arena.hpp). Addresses are abstract numbers with 0 standing for
    `nullptr`; the system allocator is represented by the address it would hand out
    (0 when it fails). */
module Memory {

  const Null: nat := 0

  /** `kDefaultArenaSize`. */
  const DefaultArenaSize: int := 4096

  /** One region obtained from the system allocator. */
  datatype Region = Region(buf: nat, size: nat) {
    function End(): nat { buf + size }
  }

  /** One allocation handed out by the arena, with the index of its region (ghost
      bookkeeping only). */
  datatype Block = Block(start: nat, len: nat, region: nat) {
    function End(): nat { start + len }
  }

  predicate RegionsDisjoint(a: Region, b: Region) {
    a.End() <= b.buf || b.End() <= a.buf
  }

  predicate BlocksDisjoint(a: Block, b: Block) {
    a.End() <= b.start || b.End() <= a.start
  }

  /** The region a request of `size` bytes grows the arena by: `max(size, mcsize)`. */
  function RegionSize(size: nat, mcsize: int): (n: nat)
    ensures n >= size && n >= mcsize
    ensures n == size || n == mcsize
  {
    if size < mcsize then mcsize else size
  }

  /** Helper `alloc`: a zero-size request succeeds with `nullptr` without asking the
      system; any other request succeeds iff the system returns a non-null address. */
  function Alloc(size: nat, grant: nat): (r: (bool, nat))
    ensures size == 0 ==> r == (true, Null)
    ensures size > 0 ==> (r.0 <==> grant != Null) && r.1 == grant
  {
    if size == 0 then (true, Null) else (grant != Null, grant)
  }

  class Arena {
    var cbuf: nat
    const mcsize: int
    var rsize: int
    var regions: seq<Region>
    /** Blocks handed out since creation or the last `Release`, nonempty ones only. */
    ghost var live: seq<Block>

    /** The region list never holds `nullptr` and its regions never overlap; the cursor
        and the remaining bytes describe the tail of the last region; every live block
        lies in a retained region, below the cursor when in the last one; live blocks
        never overlap. */
    ghost predicate Valid()
      reads this
    {
      && rsize >= 0
      && (regions == [] ==> cbuf == Null && rsize == 0 && live == [])
      && (regions != [] ==>
            var last := regions[|regions| - 1];
            last.buf <= cbuf && cbuf + rsize == last.End())
      && (forall i :: 0 <= i < |regions| ==> regions[i].buf != Null)
      && (forall i, j :: 0 <= i < j < |regions| ==> RegionsDisjoint(regions[i], regions[j]))
      && (forall k :: 0 <= k < |live| ==> BlockIn(live[k]))
      && (forall k, l :: 0 <= k < l < |live| ==> BlocksDisjoint(live[k], live[l]))
    }

    ghost predicate BlockIn(b: Block)
      reads this
    {
      && b.len > 0
      && b.region < |regions|
      && regions[b.region].buf <= b.start
      && b.End() <= regions[b.region].End()
      && (b.region == |regions| - 1 ==> b.End() <= cbuf)
    }

    /** A block the system may hand out: non-null and clear of every region held. */
    ghost predicate FreshFor(grant: nat, size: nat)
      reads this
    {
      grant != Null ==>
        forall i :: 0 <= i < |regions| ==> RegionsDisjoint(regions[i], Region(grant, size))
    }

    /** One past the end of every region held: an address clear of all of them. */
    function NextFree(): (a: nat)
      reads this
      ensures a != Null
      ensures forall i :: 0 <= i < |regions| ==> regions[i].End() < a
    {
      Top(regions) + 1
    }

    static function Top(rs: seq<Region>): (t: nat)
      ensures forall i :: 0 <= i < |rs| ==> rs[i].End() <= t
    {
      if rs == [] then 0
      else var t := Top(rs[..|rs| - 1]);
           if rs[|rs| - 1].End() > t then rs[|rs| - 1].End() else t
    }

    /** `Arena(csize)`: no regions, null cursor, nothing remaining. */
    constructor (csize: int)
      ensures Valid()
      ensures mcsize == csize && regions == [] && cbuf == Null && rsize == 0 && live == []
    {
      cbuf := Null;
      mcsize := csize;
      rsize := 0;
      regions := [];
      live := [];
    }

    /** `Allocate(size, &ptr)`. A request that fits bumps the cursor within the last
        region; otherwise one region of `max(size, mcsize)` is appended and becomes
        current, abandoning what was left of the old one. When the system refuses that
        region nothing changes and the result is false. */
    method Allocate(size: nat, grant: nat) returns (ok: bool, ptr: nat)
      requires Valid()
      requires rsize < size ==> FreshFor(grant, RegionSize(size, mcsize))
      modifies this
      ensures Valid()
      ensures old(rsize) >= size ==>
                && ok && ptr == old(cbuf)
                && cbuf == old(cbuf) + size && rsize == old(rsize) - size
                && regions == old(regions)
      ensures old(rsize) < size && grant != Null ==>
                && ok && ptr == grant
                && regions == old(regions) + [Region(grant, RegionSize(size, mcsize))]
                && cbuf == grant + size && rsize == RegionSize(size, mcsize) - size
      ensures old(rsize) < size && grant == Null ==>
                && !ok && ptr == Null
                && cbuf == old(cbuf) && rsize == old(rsize) && regions == old(regions)
      ensures ok && size > 0 ==> live == old(live) + [Block(ptr, size, |regions| - 1)]
      ensures !ok || size == 0 ==> live == old(live)
    {
      if rsize < size {
        var grown := AllocateRegion(RegionSize(size, mcsize), grant);
        if !grown {
          return false, Null;
        }
      }
      ptr := Bump(size);
      ok := true;
    }

    /** The cursor half of `Allocate`: the request fits what remains of the current
        region, so the block starts at the cursor and the cursor moves past it. */
    method Bump(size: nat) returns (ptr: nat)
      requires Valid() && size <= rsize
      modifies this
      ensures Valid()
      ensures ptr == old(cbuf) && cbuf == old(cbuf) + size && rsize == old(rsize) - size
      ensures regions == old(regions)
      ensures size > 0 ==> live == old(live) + [Block(ptr, size, |regions| - 1)]
      ensures size == 0 ==> live == old(live)
    {
      ptr := cbuf;
      cbuf := cbuf + size;
      rsize := rsize - size;
      if size > 0 {
        AddBlock(Block(ptr, size, |regions| - 1));
      }
    }

    /** Records a block just carved below the cursor; it is clear of every live block. */
    ghost method AddBlock(b: Block)
      requires regions != [] && b.region == |regions| - 1 && b.len > 0
      requires regions[b.region].buf <= b.start && b.End() == cbuf
      requires cbuf + rsize == regions[b.region].End() && rsize >= 0
      requires (forall i :: 0 <= i < |regions| ==> regions[i].buf != Null)
      requires forall i, j :: 0 <= i < j < |regions| ==> RegionsDisjoint(regions[i], regions[j])
      requires forall k :: 0 <= k < |live| ==>
                 && live[k].len > 0 && live[k].region < |regions|
                 && regions[live[k].region].buf <= live[k].start
                 && live[k].End() <= regions[live[k].region].End()
                 && (live[k].region == |regions| - 1 ==> live[k].End() <= b.start)
      requires forall k, l :: 0 <= k < l < |live| ==> BlocksDisjoint(live[k], live[l])
      modifies this`live
      ensures live == old(live) + [b]
      ensures Valid()
    {
      forall k | 0 <= k < |live|
        ensures BlocksDisjoint(live[k], b)
      {
        var r := live[k].region;
        if r != b.region {
          assert RegionsDisjoint(regions[r], regions[b.region]);
        }
      }
      live := live + [b];
    }

    /** `allocateRegion(size)`: on success the region is appended and becomes current.
        Its only caller asks for `max(size, mcsize)` with `size > rsize >= 0`, so the
        size is positive. */
    method AllocateRegion(size: nat, grant: nat) returns (ok: bool)
      requires Valid() && size > 0 && FreshFor(grant, size)
      modifies this
      ensures ok == (grant != Null)
      ensures live == old(live)
      ensures ok ==> regions == old(regions) + [Region(grant, size)] && cbuf == grant && rsize == size
      ensures ok ==> forall k :: 0 <= k < |live| ==> live[k].region < |old(regions)|
      ensures !ok ==> cbuf == old(cbuf) && rsize == old(rsize) && regions == old(regions)
      ensures Valid()
    {
      var res := Alloc(size, grant);
      ok := res.0;
      if ok {
        var buf := res.1;
        regions := regions + [Region(buf, size)];
        cbuf := buf;
        rsize := size;
        assert forall k :: 0 <= k < |live| ==> old(BlockIn(live[k]));
      }
    }

    /** `Release()`: back to the first region, cursor at its start and all of it free;
        every block handed out so far is invalidated. An empty region list is undefined
        behaviour in the source (`front()` of an empty vector). */
    method Release()
      requires Valid() && |regions| >= 1
      modifies this
      ensures Valid()
      ensures regions == [old(regions)[0]]
      ensures cbuf == regions[0].buf && rsize == regions[0].size
      ensures live == []
    {
      var region := regions[0];
      cbuf := region.buf;
      rsize := region.size;
      ReleaseRegions(false);
      live := [];
    }

    /** `releaseRegions(destroy)`: erases every region after the first, or every region
        when destroying. Advancing past the first region of an empty list is undefined. */
    method ReleaseRegions(destroy: bool)
      requires !destroy ==> |regions| >= 1
      modifies this`regions
      ensures regions == old(regions)[..if destroy then 0 else 1]
    {
      var k := if destroy then 0 else 1;
      while k < |regions|
        invariant k <= |regions|
        invariant regions[..k] == old(regions)[..k]
        decreases |regions|
      {
        regions := regions[..k] + regions[k + 1..];
      }
    }

    /** `~Arena()`: every region is dropped. */
    method Dispose()
      modifies this`regions
      ensures regions == []
    {
      ReleaseRegions(true);
    }
  }
}
