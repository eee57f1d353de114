/** The kernel heap seen as an address-ordered list of blocks: what first-fit allocation,
    splitting and forward coalescing do to the list, and what they keep. */
module HeapBlocks {
  import opened Common
  import opened RawMemory

  const HDR := 16        // sizeof(block_t) on i386
  const ALIGN := 8

  datatype Block = Block(addr: nat, size: nat, free: bool) {
    function Payload(): nat { addr + HDR }
    function End(): nat { addr + HDR + size }
    predicate Fits(n: nat) { free && n <= size }
  }

  // ----- rounding -----

  /** align_up(v, 8) in 32-bit arithmetic. */
  function AlignUp(v: nat): nat
    requires v < U32
  {
    (v + ALIGN - 1) % U32 / ALIGN * ALIGN
  }

  /** Rounding gives the next multiple of eight exactly for requests up to 0xFFFFFFF8;
      above that it wraps to zero. */
  lemma AlignUpExact(v: nat)
    requires v < U32
    ensures AlignUp(v) % ALIGN == 0
    ensures v <= AlignUp(v) <==> v <= 0xFFFF_FFF8
    ensures v <= 0xFFFF_FFF8 ==> AlignUp(v) < v + ALIGN
    ensures v > 0xFFFF_FFF8 ==> AlignUp(v) == 0
  {
    if v <= 0xFFFF_FFF8 {
      assert (v + 7) % U32 == v + 7;
    } else {
      assert (v + 7) % U32 == v + 7 - U32;
    }
  }

  // ----- the list invariant -----

  /** The blocks cover [lo, hi) end to end, every header (so every payload) 8-aligned. */
  ghost predicate Tiles(bs: seq<Block>, lo: nat, hi: nat) {
    if bs == [] then lo == hi
    else bs[0].addr == lo && lo % ALIGN == 0 && Tiles(bs[1..], bs[0].End(), hi)
  }

  ghost predicate Coalesced(bs: seq<Block>) {
    forall i, j :: 0 <= i < j < |bs| && j == i + 1 ==> !(bs[i].free && bs[j].free)
  }

  /** What tiling says about the blocks at two positions. */
  lemma {:induction false} TilesAt(bs: seq<Block>, lo: nat, hi: nat, i: nat, j: nat)
    requires Tiles(bs, lo, hi)
    requires i <= j < |bs|
    ensures lo <= bs[i].addr && bs[j].End() <= hi
    ensures bs[i].addr % ALIGN == 0
    ensures i < j ==> bs[i].End() <= bs[j].addr
    ensures j == i + 1 ==> bs[i].End() == bs[j].addr
    ensures i == 0 ==> bs[i].addr == lo
    ensures j == |bs| - 1 ==> bs[j].End() == hi
    decreases |bs|
  {
    var rest := bs[1..];
    TilesBounds(rest, bs[0].End(), hi);
    if i > 0 {
      TilesAt(rest, bs[0].End(), hi, i - 1, j - 1);
    } else if j > 0 {
      TilesAt(rest, bs[0].End(), hi, 0, j - 1);
    }
  }

  lemma {:induction false} TilesBounds(bs: seq<Block>, lo: nat, hi: nat)
    requires Tiles(bs, lo, hi)
    ensures lo <= hi
    decreases |bs|
  {
    if bs != [] {
      TilesBounds(bs[1..], bs[0].End(), hi);
    }
  }

  /** All positions at once. */
  lemma TilesOrder(bs: seq<Block>, lo: nat, hi: nat)
    requires Tiles(bs, lo, hi)
    ensures forall i :: 0 <= i < |bs| ==> lo <= bs[i].addr && bs[i].End() <= hi && bs[i].addr % ALIGN == 0
    ensures forall i, j :: 0 <= i < j < |bs| ==> bs[i].End() <= bs[j].addr
    ensures forall i, j :: 0 <= i < j < |bs| && j == i + 1 ==> bs[i].End() == bs[j].addr
  {
    forall i | 0 <= i < |bs|
      ensures lo <= bs[i].addr && bs[i].End() <= hi && bs[i].addr % ALIGN == 0
    {
      TilesAt(bs, lo, hi, i, i);
    }
    forall i, j | 0 <= i < j < |bs|
      ensures bs[i].End() <= bs[j].addr && (j == i + 1 ==> bs[i].End() == bs[j].addr)
    {
      TilesAt(bs, lo, hi, i, j);
    }
  }

  lemma {:induction false} TilesConcat(a: seq<Block>, b: seq<Block>, lo: nat, mid: nat, hi: nat)
    requires Tiles(a, lo, mid) && Tiles(b, mid, hi)
    ensures Tiles(a + b, lo, hi)
    decreases |a|
  {
    if a == [] {
      assert a + b == b;
    } else {
      TilesConcat(a[1..], b, a[0].End(), mid, hi);
      assert (a + b)[1..] == a[1..] + b;
    }
  }

  lemma {:induction false} TilesSplit(bs: seq<Block>, lo: nat, hi: nat, i: nat)
    requires Tiles(bs, lo, hi) && i < |bs|
    ensures Tiles(bs[..i], lo, bs[i].addr) && Tiles(bs[i + 1..], bs[i].End(), hi)
    ensures bs[i].addr % ALIGN == 0
    decreases i
  {
    if i > 0 {
      TilesSplit(bs[1..], bs[0].End(), hi, i - 1);
      assert bs[..i][1..] == bs[1..][..i - 1];
      assert bs[1..][i..] == bs[i + 1..];
    } else {
      assert bs[..0] == [];
    }
  }

  // ----- allocation -----

  /** The first block that is free and large enough, or |bs|. */
  function FirstFit(bs: seq<Block>, n: nat): (i: nat)
    ensures i <= |bs|
    ensures i < |bs| ==> bs[i].Fits(n)
    ensures forall j :: 0 <= j < i ==> !bs[j].Fits(n)
  {
    if bs == [] then 0 else if bs[0].Fits(n) then 0 else 1 + FirstFit(bs[1..], n)
  }

  /** Takes block `i` for `n` bytes, splitting when the rest can hold a header and eight bytes. */
  function Take(bs: seq<Block>, i: nat, n: nat): seq<Block>
    requires i < |bs| && bs[i].Fits(n)
  {
    var b := bs[i];
    if b.size >= n + HDR + ALIGN then
      bs[..i] + [Block(b.addr, n, false), Block(b.addr + HDR + n, b.size - n - HDR, true)] + bs[i + 1..]
    else
      bs[i := b.(free := false)]
  }

  /** Replacing one block by others that cover the same bytes. */
  lemma ReplaceTiles(bs: seq<Block>, lo: nat, hi: nat, i: nat, mid: seq<Block>)
    requires Tiles(bs, lo, hi) && i < |bs| && Tiles(mid, bs[i].addr, bs[i].End())
    ensures Tiles(bs[..i] + mid + bs[i + 1..], lo, hi)
  {
    TilesSplit(bs, lo, hi, i);
    TilesConcat(bs[..i], mid, lo, bs[i].addr, bs[i].End());
    TilesConcat(bs[..i] + mid, bs[i + 1..], lo, bs[i].End(), hi);
  }

  lemma OneTiles(b: Block)
    requires b.addr % ALIGN == 0
    ensures Tiles([b], b.addr, b.End())
  {
    assert [b][1..] == [];
  }

  lemma NextAligned(a: nat, n: nat)
    requires a % ALIGN == 0 && n % ALIGN == 0
    ensures (a + HDR + n) % ALIGN == 0
  {
  }

  /** The halves of a split block tile what the block did. */
  lemma TwoTile(b: Block, used: Block, rest: Block)
    requires b.addr % ALIGN == 0 && used.size % ALIGN == 0
    requires used.addr == b.addr && rest.addr == used.addr + HDR + used.size && b.size == used.size + HDR + rest.size
    ensures Tiles([used, rest], b.addr, b.End())
  {
    NextAligned(used.addr, used.size);
    OneTiles(used);
    OneTiles(rest);
    TilesConcat([used], [rest], b.addr, rest.addr, b.End());
    assert [used] + [rest] == [used, rest];
  }

  lemma SplitTiles(bs: seq<Block>, lo: nat, hi: nat, i: nat, n: nat)
    requires Tiles(bs, lo, hi) && i < |bs| && bs[i].size >= n + HDR + ALIGN && n % ALIGN == 0 && bs[i].addr % ALIGN == 0
    ensures var b := bs[i]; var used, rest := Block(b.addr, n, false), Block(b.addr + HDR + n, b.size - n - HDR, true);
            Tiles(bs[..i] + [used, rest] + bs[i + 1..], lo, hi)
  {
    var b := bs[i];
    var used, rest := Block(b.addr, n, false), Block(b.addr + HDR + n, b.size - n - HDR, true);
    TwoTile(b, used, rest);
    ReplaceTiles(bs, lo, hi, i, [used, rest]);
  }

  lemma WholeTiles(bs: seq<Block>, lo: nat, hi: nat, i: nat)
    requires Tiles(bs, lo, hi) && i < |bs| && bs[i].addr % ALIGN == 0
    ensures Tiles(bs[i := bs[i].(free := false)], lo, hi)
  {
    var b := bs[i].(free := false);
    OneTiles(b);
    ReplaceTiles(bs, lo, hi, i, [b]);
    assert bs[i := b] == bs[..i] + [b] + bs[i + 1..];
  }

  lemma TakeTiles(bs: seq<Block>, lo: nat, hi: nat, i: nat, n: nat)
    requires Tiles(bs, lo, hi) && i < |bs| && bs[i].Fits(n) && n % ALIGN == 0
    ensures Tiles(Take(bs, i, n), lo, hi)
  {
    TilesAt(bs, lo, hi, i, i);
    if bs[i].size >= n + HDR + ALIGN {
      SplitTiles(bs, lo, hi, i, n);
    } else {
      WholeTiles(bs, lo, hi, i);
    }
  }

  lemma TakeCoalesced(bs: seq<Block>, i: nat, n: nat)
    requires Coalesced(bs) && i < |bs| && bs[i].Fits(n)
    ensures Coalesced(Take(bs, i, n))
  {
    var r := Take(bs, i, n);
    if |r| == |bs| + 1 {
      forall k, l | 0 <= k < l < |r| && l == k + 1
        ensures !(r[k].free && r[l].free)
      {
        if l < i { assert r[k] == bs[k] && r[l] == bs[l]; }
        else if k == i + 1 { assert r[l] == bs[i + 1] && bs[i].free; }
        else if k > i + 1 { assert r[k] == bs[k - 1] && r[l] == bs[l - 1]; }
      }
    }
  }

  /** Taking a block adds exactly that block to the live ones. */
  lemma TakeLive(bs: seq<Block>, i: nat, n: nat)
    requires i < |bs| && bs[i].Fits(n)
    ensures var t := Take(bs, i, n);
            && i < |t| && !t[i].free && t[i].addr == bs[i].addr
            && n <= t[i].size < n + HDR + ALIGN
            && (forall b: Block :: b in t && !b.free <==> b == t[i] || (b in bs && !b.free))
  {
    var t := Take(bs, i, n);
    forall b: Block ensures b in t && !b.free <==> b == t[i] || (b in bs && !b.free) {
      if b in bs && !b.free {
        var k :| 0 <= k < |bs| && bs[k] == b;
        assert t[if k < i || |t| == |bs| then k else k + 1] == b;
      }
      if b in t && !b.free {
        var k :| 0 <= k < |t| && t[k] == b;
        if k < i { assert bs[k] == b; }
        else if k > i + 1 || |t| == |bs| { assert k != i ==> bs[if |t| == |bs| then k else k - 1] == b; }
      }
    }
  }

  // ----- coalescing -----

  function Merge(a: Block, b: Block): Block {
    a.(size := a.size + HDR + b.size)
  }

  /** One forward pass that merges each run of adjacent free blocks. */
  function Coalesce(bs: seq<Block>): seq<Block>
    decreases |bs|
  {
    if |bs| < 2 then bs
    else if bs[0].free && bs[1].free then Coalesce([Merge(bs[0], bs[1])] + bs[2..])
    else [bs[0]] + Coalesce(bs[1..])
  }

  lemma {:induction false} CoalesceTiles(bs: seq<Block>, lo: nat, hi: nat)
    requires Tiles(bs, lo, hi)
    ensures Tiles(Coalesce(bs), lo, hi)
    decreases |bs|
  {
    if |bs| >= 2 {
      if bs[0].free && bs[1].free {
        var merged := [Merge(bs[0], bs[1])] + bs[2..];
        assert bs[1..][1..] == bs[2..] == merged[1..];
        CoalesceTiles(merged, lo, hi);
      } else {
        CoalesceTiles(bs[1..], bs[0].End(), hi);
        assert Coalesce(bs)[1..] == Coalesce(bs[1..]);
      }
    }
  }

  lemma {:induction false} CoalesceCoalesced(bs: seq<Block>)
    ensures Coalesced(Coalesce(bs))
    ensures bs != [] ==> Coalesce(bs) != [] && Coalesce(bs)[0].free == bs[0].free
    decreases |bs|
  {
    if |bs| >= 2 {
      if bs[0].free && bs[1].free {
        CoalesceCoalesced([Merge(bs[0], bs[1])] + bs[2..]);
      } else {
        CoalesceCoalesced(bs[1..]);
      }
    }
  }

  /** Coalescing neither loses nor creates a live block, and puts no header in a new place. */
  lemma {:induction false} CoalesceLive(bs: seq<Block>)
    ensures forall b: Block :: !b.free ==> (b in Coalesce(bs) <==> b in bs)
    ensures forall c: Block :: c in Coalesce(bs) ==> exists b: Block :: b in bs && b.addr == c.addr
    decreases |bs|
  {
    if |bs| >= 2 {
      if bs[0].free && bs[1].free {
        var merged := [Merge(bs[0], bs[1])] + bs[2..];
        CoalesceLive(merged);
        assert bs == [bs[0], bs[1]] + bs[2..];
        forall c: Block | c in Coalesce(bs) ensures exists b: Block :: b in bs && b.addr == c.addr {
          var d: Block :| d in merged && d.addr == c.addr;
          assert d == merged[0] || d in bs[2..];
          if d == merged[0] { assert bs[0] in bs; }
        }
      } else {
        CoalesceLive(bs[1..]);
        assert bs == [bs[0]] + bs[1..];
      }
    }
  }

  // ----- accounting -----

  function UsedBytes(bs: seq<Block>): nat {
    if bs == [] then 0 else (if bs[0].free then 0 else bs[0].size) + UsedBytes(bs[1..])
  }

  function FreeBytes(bs: seq<Block>): nat {
    if bs == [] then 0 else (if bs[0].free then bs[0].size else 0) + FreeBytes(bs[1..])
  }

  lemma {:induction false} UsedConcat(a: seq<Block>, b: seq<Block>)
    ensures UsedBytes(a + b) == UsedBytes(a) + UsedBytes(b)
    decreases |a|
  {
    if a == [] {
      assert a + b == b;
    } else {
      UsedConcat(a[1..], b);
      assert (a + b)[1..] == a[1..] + b;
    }
  }

  /** Replacing one block changes the used bytes by what the new ones use. */
  lemma UsedReplaced(bs: seq<Block>, i: nat, mid: seq<Block>)
    requires i < |bs|
    ensures UsedBytes(bs[..i] + mid + bs[i + 1..]) + UsedBytes([bs[i]]) == UsedBytes(bs) + UsedBytes(mid)
  {
    UsedConcat(bs[..i] + mid, bs[i + 1..]);
    UsedConcat(bs[..i], mid);
    assert bs == bs[..i] + [bs[i]] + bs[i + 1..];
    UsedConcat(bs[..i] + [bs[i]], bs[i + 1..]);
    UsedConcat(bs[..i], [bs[i]]);
  }

  /** Taking a block raises the used bytes by the size taken. */
  lemma TakeUses(bs: seq<Block>, i: nat, n: nat)
    requires i < |bs| && bs[i].Fits(n)
    ensures i < |Take(bs, i, n)| && UsedBytes(Take(bs, i, n)) == UsedBytes(bs) + Take(bs, i, n)[i].size
  {
    var b := bs[i];
    if b.size >= n + HDR + ALIGN {
      var mid := [Block(b.addr, n, false), Block(b.addr + HDR + n, b.size - n - HDR, true)];
      UsedReplaced(bs, i, mid);
      assert mid[1..] == [mid[1]] && mid[1..][1..] == [];
      assert UsedBytes(mid[1..]) == 0 && UsedBytes(mid) == n && UsedBytes([b]) == 0;
      assert Take(bs, i, n) == bs[..i] + mid + bs[i + 1..];
    } else {
      UsedReplaced(bs, i, [b.(free := false)]);
      assert Take(bs, i, n) == bs[..i] + [b.(free := false)] + bs[i + 1..];
    }
  }

  lemma {:induction false} CoalesceUses(bs: seq<Block>)
    ensures UsedBytes(Coalesce(bs)) == UsedBytes(bs)
    decreases |bs|
  {
    if |bs| >= 2 {
      if bs[0].free && bs[1].free {
        var merged := [Merge(bs[0], bs[1])] + bs[2..];
        CoalesceUses(merged);
        assert merged[1..] == bs[2..] && bs[1..][1..] == bs[2..];
      } else {
        CoalesceUses(bs[1..]);
        assert ([bs[0]] + Coalesce(bs[1..]))[1..] == Coalesce(bs[1..]);
      }
    }
  }

  /** Payload bytes and headers together account for every byte of the arena. */
  lemma {:induction false} BytesAccounted(bs: seq<Block>, lo: nat, hi: nat)
    requires Tiles(bs, lo, hi)
    ensures UsedBytes(bs) + FreeBytes(bs) + HDR * |bs| == hi - lo
    decreases |bs|
  {
    if bs != [] {
      BytesAccounted(bs[1..], bs[0].End(), hi);
    }
  }

  // ----- completeness of first fit -----

  /** [a, a + HDR + n) lies in the arena and touches no live block, header included. */
  ghost predicate FreeRun(bs: seq<Block>, lo: nat, hi: nat, a: nat, n: nat) {
    && lo <= a && a + HDR + n <= hi
    && forall b: Block :: b in bs && !b.free ==> a + HDR + n <= b.addr || b.End() <= a
  }

  lemma {:induction false} BlockAt(bs: seq<Block>, lo: nat, hi: nat, a: nat) returns (i: nat)
    requires Tiles(bs, lo, hi) && lo <= a < hi
    ensures i < |bs| && bs[i].addr <= a < bs[i].End()
    decreases |bs|
  {
    if a < bs[0].End() {
      i := 0;
    } else {
      var k := BlockAt(bs[1..], bs[0].End(), hi, a);
      i := k + 1;
    }
  }

  /** In a coalesced heap a free run with room for a header and `n` bytes sits inside one free
      block, and that block is not before the one first fit takes. */
  lemma RunInsideBlock(bs: seq<Block>, lo: nat, hi: nat, n: nat, a: nat)
    requires Tiles(bs, lo, hi) && Coalesced(bs)
    requires FreeRun(bs, lo, hi, a, n)
    ensures FirstFit(bs, n) < |bs| && bs[FirstFit(bs, n)].addr <= a
  {
    var i := BlockAt(bs, lo, hi, a);
    TilesAt(bs, lo, hi, i, i);
    assert bs[i].free;
    if bs[i].End() < a + HDR + n {
      // the block after it would be live and inside the run
      TilesAt(bs, lo, hi, i, if i + 1 < |bs| then i + 1 else i);
      assert false;
    }
    assert bs[i].Fits(n);
    var f := FirstFit(bs, n);
    if f < i { TilesAt(bs, lo, hi, f, i); }
  }

  /** First fit succeeds exactly when some free run has room, and then takes the lowest one. */
  lemma FirstFitComplete(bs: seq<Block>, lo: nat, hi: nat, n: nat)
    requires Tiles(bs, lo, hi) && Coalesced(bs)
    ensures FirstFit(bs, n) < |bs| <==> exists a: nat :: FreeRun(bs, lo, hi, a, n)
    ensures forall a: nat :: FreeRun(bs, lo, hi, a, n) ==>
              FirstFit(bs, n) < |bs| && bs[FirstFit(bs, n)].addr <= a
  {
    var f := FirstFit(bs, n);
    if f < |bs| {
      TilesOrder(bs, lo, hi);
      assert FreeRun(bs, lo, hi, bs[f].addr, n);
    }
    forall a: nat | FreeRun(bs, lo, hi, a, n)
      ensures f < |bs| && bs[f].addr <= a
    {
      RunInsideBlock(bs, lo, hi, n, a);
    }
  }

  /** With nothing live, a coalesced heap is the single block it started as. */
  lemma AllFreeIsOneBlock(bs: seq<Block>, lo: nat, hi: nat)
    requires Tiles(bs, lo, hi) && Coalesced(bs) && bs != []
    requires forall b: Block :: b in bs ==> b.free
    ensures lo + HDR <= hi && bs == [Block(lo, hi - lo - HDR, true)]
  {
    if |bs| > 1 {
      assert false;
    }
    TilesAt(bs, lo, hi, 0, 0);
  }
}
