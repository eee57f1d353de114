/** The allocator itself: block headers live in memory and are read, written and relinked
    in place. Each call is proved to be the step HeapRuns describes. */
module KernelHeap {
  import opened Common
  import opened RawMemory
  import opened HeapBlocks
  import opened HeapRuns

  // ----- header fields in memory -----

  /** A header written field by field, in the source's order. */
  function PutHeader(m: seq<byte>, a: nat, n: nat, next: nat, free: bool): (m': seq<byte>)
    requires a + HDR <= |m|
    ensures |m'| == |m|
  {
    Put(Put(Put(Put(m, a, n), a + 4, next), a + 8, if free then 1 else 0), a + 12, MAGIC)
  }

  /** Bytes outside the two headers [a, a + 16) and [c, c + 16) are the same. */
  ghost predicate SameOutside(m: seq<byte>, m': seq<byte>, a: nat, c: nat) {
    |m| == |m'| && forall k: nat :: k < |m| && !(a <= k < a + HDR) && !(c <= k < c + HDR) ==> m'[k] == m[k]
  }

  lemma HeaderApart(m: seq<byte>, m': seq<byte>, b: Block, next: nat, a: nat)
    requires HeaderAt(m, b, next) && b.addr + HDR <= |m| && SameOutside(m, m', a, a)
    requires a + HDR <= b.addr || b.addr + HDR <= a
    ensures HeaderAt(m', b, next)
  {
    HeaderKept(m, m', b, next);
  }

  lemma SetSize(m: seq<byte>, b: Block, next: nat, n: nat)
    requires HeaderAt(m, b, next) && b.addr + HDR <= |m| && n < U32
    ensures HeaderAt(Put(m, b.addr, n), b.(size := n), next)
    ensures SameOutside(m, Put(m, b.addr, n), b.addr, b.addr)
  {
    HeaderFields(m, b, next);
    HeaderFields(Put(m, b.addr, n), b.(size := n), next);
    PutThenLoad(m, b.addr, n);
    PutThenLoadOther(m, b.addr, n, b.addr + 4);
    PutThenLoadOther(m, b.addr, n, b.addr + 8);
    PutThenLoadOther(m, b.addr, n, b.addr + 12);
    PutElsewhere(m, b.addr, n);
  }

  lemma SetNext(m: seq<byte>, b: Block, next: nat, v: nat)
    requires HeaderAt(m, b, next) && b.addr + HDR <= |m| && v < U32
    ensures HeaderAt(Put(m, b.addr + 4, v), b, v)
    ensures SameOutside(m, Put(m, b.addr + 4, v), b.addr, b.addr)
  {
    HeaderFields(m, b, next);
    HeaderFields(Put(m, b.addr + 4, v), b, v);
    PutThenLoad(m, b.addr + 4, v);
    PutThenLoadOther(m, b.addr + 4, v, b.addr);
    PutThenLoadOther(m, b.addr + 4, v, b.addr + 8);
    PutThenLoadOther(m, b.addr + 4, v, b.addr + 12);
    PutElsewhere(m, b.addr + 4, v);
  }

  lemma SetFree(m: seq<byte>, b: Block, next: nat, free: bool)
    requires HeaderAt(m, b, next) && b.addr + HDR <= |m|
    ensures var m' := Put(m, b.addr + 8, if free then 1 else 0);
            HeaderAt(m', b.(free := free), next) && SameOutside(m, m', b.addr, b.addr)
  {
    var v := if free then 1 else 0;
    HeaderFields(m, b, next);
    HeaderFields(Put(m, b.addr + 8, v), b.(free := free), next);
    PutThenLoad(m, b.addr + 8, v);
    PutThenLoadOther(m, b.addr + 8, v, b.addr);
    PutThenLoadOther(m, b.addr + 8, v, b.addr + 4);
    PutThenLoadOther(m, b.addr + 8, v, b.addr + 12);
    PutElsewhere(m, b.addr + 8, v);
  }

  lemma HeaderWritten(m: seq<byte>, a: nat, n: nat, next: nat, free: bool)
    requires a + HDR <= |m| && n < U32 && next < U32
    ensures HeaderAt(PutHeader(m, a, n, next, free), Block(a, n, free), next)
    ensures SameOutside(m, PutHeader(m, a, n, next, free), a, a)
  {
    var f := if free then 1 else 0;
    var m1 := Put(m, a, n);
    var m2 := Put(m1, a + 4, next);
    var m3 := Put(m2, a + 8, f);
    HeaderFields(Put(m3, a + 12, MAGIC), Block(a, n, free), next);
    PutThenLoad(m, a, n);
    PutThenLoad(m1, a + 4, next);
    PutThenLoad(m2, a + 8, f);
    PutThenLoad(m3, a + 12, MAGIC);
    PutThenLoadOther(m1, a + 4, next, a);
    PutThenLoadOther(m2, a + 8, f, a);
    PutThenLoadOther(m2, a + 8, f, a + 4);
    PutThenLoadOther(m3, a + 12, MAGIC, a);
    PutThenLoadOther(m3, a + 12, MAGIC, a + 4);
    PutThenLoadOther(m3, a + 12, MAGIC, a + 8);
    PutElsewhere(m, a, n);
    PutElsewhere(m1, a + 4, next);
    PutElsewhere(m2, a + 8, f);
    PutElsewhere(m3, a + 12, MAGIC);
  }

  /** Memory after a split that leaves `n` bytes in `b`, taken. */
  function SplitMemory(m: seq<byte>, b: Block, next: nat, n: nat): (m': seq<byte>)
    requires b.End() <= |m| && n + HDR <= b.size
    ensures |m'| == |m|
  {
    var nb := b.addr + HDR + n;
    Put(Put(Put(PutHeader(m, nb, b.size - n - HDR, next, true), b.addr, n), b.addr + 4, nb), b.addr + 8, 0)
  }

  lemma SplitWritten(m: seq<byte>, b: Block, next: nat, n: nat)
    requires HeaderAt(m, b, next) && b.End() <= |m| < U32 && n + HDR <= b.size && next < U32
    ensures var m' := SplitMemory(m, b, next, n); var nb := b.addr + HDR + n;
            && HeaderAt(m', Block(b.addr, n, false), nb)
            && HeaderAt(m', Block(nb, b.size - n - HDR, true), next)
            && SameOutside(m, m', b.addr, nb)
  {
    var nb := Block(b.addr + HDR + n, b.size - n - HDR, true);
    var m1 := PutHeader(m, nb.addr, nb.size, next, true);
    HeaderWritten(m, nb.addr, nb.size, next, true);
    HeaderApart(m, m1, b, next, nb.addr);
    var m2 := Put(m1, b.addr, n);
    SetSize(m1, b, next, n);
    HeaderApart(m1, m2, nb, next, b.addr);
    var m3 := Put(m2, b.addr + 4, nb.addr);
    SetNext(m2, b.(size := n), next, nb.addr);
    HeaderApart(m2, m3, nb, next, b.addr);
    var m4 := Put(m3, b.addr + 8, 0);
    SetFree(m3, b.(size := n), nb.addr, false);
    HeaderApart(m3, m4, nb, next, b.addr);
    assert SplitMemory(m, b, next, n) == m4;
  }

  // ----- what the in-place header writes do to the list -----

  lemma LinkKept(m: seq<byte>, m': seq<byte>, bs: seq<Block>, bs': seq<Block>, i: nat, j: nat, a: nat, c: nat)
    requires i < |bs| && j < |bs'| && bs'[j] == bs[i] && AddrAt(bs', j + 1) == AddrAt(bs, i + 1)
    requires LinkAt(m, bs, i) && SameOutside(m, m', a, c) && bs[i].addr + HDR <= |m|
    requires bs[i].addr + HDR <= a || a + HDR <= bs[i].addr
    requires bs[i].addr + HDR <= c || c + HDR <= bs[i].addr
    ensures LinkAt(m', bs', j)
  {
    HeaderKept(m, m', bs[i], AddrAt(bs, i + 1));
  }

  /** Both ways heap_alloc rewrites headers leave memory spelling out the new list. */
  lemma TakeWritten(m: seq<byte>, m': seq<byte>, bs: seq<Block>, lo: nat, hi: nat, i: nat, n: nat)
    requires Tiles(bs, lo, hi) && Linked(m, bs) && i < |bs| && bs[i].Fits(n) && 0 < lo && hi <= |m| < U32
    requires bs[i].End() <= |m|
    requires m' == if bs[i].size >= n + HDR + ALIGN then SplitMemory(m, bs[i], AddrAt(bs, i + 1), n)
                   else Put(m, bs[i].addr + 8, 0)
    ensures Linked(m', Take(bs, i, n)) && OnlyChanges(m, m', Take(bs, i, n), 0, 0)
  {
    NextBlock(m, bs, lo, hi, i);
    var t := Take(bs, i, n);
    if bs[i].size >= n + HDR + ALIGN {
      SplitWritten(m, bs[i], AddrAt(bs, i + 1), n);
      assert LinkAt(m', t, i) && LinkAt(m', t, i + 1);
    } else {
      SetFree(m, bs[i], AddrAt(bs, i + 1), false);
      assert LinkAt(m', t, i);
    }
    TakeLinked(m, m', bs, lo, hi, i, n);
  }

  lemma TakeLinked(m: seq<byte>, m': seq<byte>, bs: seq<Block>, lo: nat, hi: nat, i: nat, n: nat)
    requires Tiles(bs, lo, hi) && Linked(m, bs) && i < |bs| && bs[i].Fits(n) && hi <= |m|
    requires var t := Take(bs, i, n); var c := if |t| > |bs| then t[i + 1].addr else t[i].addr;
             && LinkAt(m', t, i) && (|t| > |bs| ==> LinkAt(m', t, i + 1))
             && SameOutside(m, m', t[i].addr, c)
    ensures Linked(m', Take(bs, i, n))
    ensures OnlyChanges(m, m', Take(bs, i, n), 0, 0)
  {
    var t := Take(bs, i, n);
    var c := if |t| > |bs| then t[i + 1].addr else t[i].addr;
    forall j: nat | j < |t| ensures LinkAt(m', t, j) {
      if j < i {
        TilesAt(bs, lo, hi, j, i);
        assert LinkAt(m, bs, j);
        LinkKept(m, m', bs, t, j, j, t[i].addr, c);
      } else if j > i && !(|t| > |bs| && j == i + 1) {
        var k := if |t| > |bs| then j - 1 else j;
        TilesAt(bs, lo, hi, i, k);
        assert LinkAt(m, bs, k);
        LinkKept(m, m', bs, t, k, j, t[i].addr, c);
      }
    }
    HeaderOf(t, t[i]);
    if |t| > |bs| { HeaderOf(t, t[i + 1]); }
  }

  /** Folding block `i + 1` into block `i`. */
  function MergeAt(bs: seq<Block>, i: nat): seq<Block>
    requires i + 1 < |bs|
  {
    bs[..i] + [Merge(bs[i], bs[i + 1])] + bs[i + 2..]
  }

  lemma MergeLinked(m: seq<byte>, m': seq<byte>, bs: seq<Block>, lo: nat, hi: nat, i: nat)
    requires Tiles(bs, lo, hi) && Linked(m, bs) && i + 1 < |bs| && hi <= |m|
    requires LinkAt(m', MergeAt(bs, i), i) && SameOutside(m, m', bs[i].addr, bs[i].addr)
    ensures Linked(m', MergeAt(bs, i))
  {
    var t := MergeAt(bs, i);
    forall j: nat | j < |t| ensures LinkAt(m', t, j) {
      if j != i {
        var k := if j < i then j else j + 1;
        if k < i { TilesAt(bs, lo, hi, k, i); } else { TilesAt(bs, lo, hi, i, k); }
        assert LinkAt(m, bs, k);
        LinkKept(m, m', bs, t, k, j, bs[i].addr, bs[i].addr);
      }
    }
  }

  lemma MergeWritten(m: seq<byte>, bs: seq<Block>, lo: nat, hi: nat, i: nat)
    requires Tiles(bs, lo, hi) && Linked(m, bs) && i + 1 < |bs| && 0 < lo && hi <= |m| < U32
    ensures bs[i].End() <= |m| && bs[i].size + HDR + bs[i + 1].size < U32
    ensures var m1 := Put(m, bs[i].addr, bs[i].size + HDR + bs[i + 1].size);
            var m' := Put(m1, bs[i].addr + 4, AddrAt(bs, i + 2));
            && bs[i + 1].addr + 8 <= |m| && Load(m1, bs[i + 1].addr + 4) == AddrAt(bs, i + 2)
            && Linked(m', MergeAt(bs, i)) && SameOutside(m, m', bs[i].addr, bs[i].addr)
  {
    NextBlock(m, bs, lo, hi, i);
    NextBlock(m, bs, lo, hi, i + 1);
    TilesAt(bs, lo, hi, i, i + 1);
    var b := Merge(bs[i], bs[i + 1]);
    var m1 := Put(m, bs[i].addr, b.size);
    SetSize(m, bs[i], AddrAt(bs, i + 1), b.size);
    PutThenLoadOther(m, bs[i].addr, b.size, bs[i + 1].addr + 4);
    var m' := Put(m1, bs[i].addr + 4, AddrAt(bs, i + 2));
    SetNext(m1, b, AddrAt(bs, i + 1), AddrAt(bs, i + 2));
    assert LinkAt(m', MergeAt(bs, i), i);
    MergeLinked(m, m', bs, lo, hi, i);
  }

  lemma CoalesceLast(bs: seq<Block>, i: nat)
    requires i + 1 == |bs|
    ensures bs[..i] + Coalesce(bs[i..]) == bs
  {
  }

  lemma MergeTiles(bs: seq<Block>, lo: nat, hi: nat, i: nat)
    requires Tiles(bs, lo, hi) && i + 1 < |bs|
    ensures Tiles(MergeAt(bs, i), lo, hi)
  {
    TilesSplit(bs, lo, hi, i);
    var rest := bs[i + 1..];
    assert rest[1..] == bs[i + 2..];
    var merged := [Merge(bs[i], bs[i + 1])] + bs[i + 2..];
    assert merged[1..] == bs[i + 2..];
    TilesConcat(bs[..i], merged, lo, bs[i].addr, hi);
    assert MergeAt(bs, i) == bs[..i] + merged;
  }

  lemma ReleaseLinked(m: seq<byte>, m': seq<byte>, bs: seq<Block>, lo: nat, hi: nat, p: nat)
    requires Tiles(bs, lo, hi) && Linked(m, bs) && IsLive(bs, p) && hi <= |m|
    requires HeaderAt(m', Release(bs, p)[LiveAt(bs, p)], AddrAt(bs, LiveAt(bs, p) + 1))
    requires SameOutside(m, m', p - HDR, p - HDR)
    ensures Linked(m', Release(bs, p))
    ensures OnlyChanges(m, m', bs, 0, 0)
  {
    var i := LiveAt(bs, p);
    var t := Release(bs, p);
    forall j: nat | j < |t| ensures LinkAt(m', t, j) {
      if j != i {
        if j < i { TilesAt(bs, lo, hi, j, i); } else { TilesAt(bs, lo, hi, i, j); }
        assert LinkAt(m, bs, j);
        LinkKept(m, m', bs, t, j, j, p - HDR, p - HDR);
      }
    }
    HeaderOf(bs, bs[i]);
  }

  /** Every header byte of `cs` is one of `bs`. */
  ghost predicate HeadersWithin(cs: seq<Block>, bs: seq<Block>) {
    forall k: nat :: InHeader(cs, k) ==> InHeader(bs, k)
  }

  lemma HeadersWithinIf(cs: seq<Block>, bs: seq<Block>)
    requires forall c: Block :: c in cs ==> exists b: Block :: b in bs && b.addr == c.addr
    ensures HeadersWithin(cs, bs)
  {
    forall k: nat | InHeader(cs, k) ensures InHeader(bs, k) {
      var c := HeaderOwner(cs, k);
      var b: Block :| b in bs && b.addr == c.addr;
      HeaderOf(bs, b);
    }
  }

  lemma MergeProgress(bs: seq<Block>, i: nat)
    requires i + 1 < |bs| && bs[i].free && bs[i + 1].free
    ensures Coalesce(bs[i..]) == Coalesce(MergeAt(bs, i)[i..]) && MergeAt(bs, i)[..i] == bs[..i]
    ensures HeadersWithin(MergeAt(bs, i), bs)
  {
    var t := MergeAt(bs, i);
    var rest := bs[i..];
    assert t[i..] == [Merge(rest[0], rest[1])] + rest[2..];
    forall c: Block | c in t ensures exists b: Block :: b in bs && b.addr == c.addr {
      var k :| 0 <= k < |t| && t[k] == c;
      assert bs[if k <= i then k else k + 1] in bs;
    }
    HeadersWithinIf(t, bs);
  }

  lemma SkipProgress(bs: seq<Block>, i: nat)
    requires i + 1 < |bs| && !(bs[i].free && bs[i + 1].free)
    ensures bs[..i] + Coalesce(bs[i..]) == bs[..i + 1] + Coalesce(bs[i + 1..])
  {
    assert bs[i..][1..] == bs[i + 1..];
    assert bs[..i] + [bs[i]] == bs[..i + 1];
  }

  /** What the walk reads at block `i` and at the one after it. */
  lemma NextBlock(m: seq<byte>, bs: seq<Block>, lo: nat, hi: nat, i: nat)
    requires Tiles(bs, lo, hi) && Linked(m, bs) && i < |bs| && 0 < lo && hi <= |m|
    ensures bs[i].End() <= |m| && HeaderAt(m, bs[i], AddrAt(bs, i + 1))
    ensures Load(m, bs[i].addr) == bs[i].size && Load(m, bs[i].addr + 4) == AddrAt(bs, i + 1)
    ensures Load(m, bs[i].addr + 8) == (if bs[i].free then 1 else 0) && Load(m, bs[i].addr + 12) == MAGIC
    ensures (AddrAt(bs, i + 1) == 0 <==> i + 1 == |bs|) && AddrAt(bs, i + 1) <= |m|
  {
    assert LinkAt(m, bs, i);
    HeaderFields(m, bs[i], AddrAt(bs, i + 1));
    TilesAt(bs, lo, hi, i, i);
    if i + 1 < |bs| { TilesAt(bs, lo, hi, i, i + 1); }
  }

  lemma FirstFitIs(bs: seq<Block>, n: nat, i: nat)
    requires i <= |bs| && (forall j :: 0 <= j < i ==> !bs[j].Fits(n)) && (i < |bs| ==> bs[i].Fits(n))
    ensures FirstFit(bs, n) == i
  {
  }

  lemma ReleaseHeaders(bs: seq<Block>, p: nat)
    requires IsLive(bs, p)
    ensures HeadersWithin(Release(bs, p), bs)
  {
    var t := Release(bs, p);
    forall c: Block | c in t ensures exists b: Block :: b in bs && b.addr == c.addr {
      var k :| 0 <= k < |t| && t[k] == c;
      assert bs[k] in bs;
    }
    HeadersWithinIf(t, bs);
  }

  lemma ChangesCompose(m: seq<byte>, m1: seq<byte>, m2: seq<byte>, bs: seq<Block>, cs: seq<Block>)
    requires OnlyChanges(m, m1, bs, 0, 0) && OnlyChanges(m1, m2, cs, 0, 0)
    requires HeadersWithin(cs, bs)
    ensures OnlyChanges(m, m2, bs, 0, 0)
  {
  }

  lemma ChangesHere(m: seq<byte>, m1: seq<byte>, m2: seq<byte>, bs: seq<Block>, cs: seq<Block>, c: Block)
    requires OnlyChanges(m, m1, bs, 0, 0) && SameOutside(m1, m2, c.addr, c.addr)
    requires c in cs && HeadersWithin(cs, bs)
    ensures OnlyChanges(m, m2, bs, 0, 0)
  {
    HeaderOf(cs, c);
  }

  lemma LiveIsNotNull(bs: seq<Block>)
    ensures !IsLive(bs, 0)
  {
  }

  /** The block list heap_init sets up. */
  function InitialBlocks(arena: nat, size: nat): seq<Block> {
    var adj := (ALIGN - arena % ALIGN) % ALIGN;
    if size < adj + HDR + ALIGN then [] else [Block(arena + adj, size - adj - HDR, true)]
  }

  lemma InitialBlocksTile(arena: nat, size: nat)
    requires 0 < arena && arena + size < U32
    ensures var bs := InitialBlocks(arena, size);
            && Tiles(bs, if bs == [] then arena + size else bs[0].addr, arena + size)
            && Coalesced(bs) && RoomyPayloads(bs)
            && var start := (arena + ALIGN - 1) % U32 / ALIGN * ALIGN;
               var adj := (start - arena) % U32;
               && (bs == [] <==> size < adj + HDR + ALIGN)
               && (bs != [] ==> bs[0] == Block(start, size - adj - HDR, true) && arena <= start)
  {
    var bs := InitialBlocks(arena, size);
    if bs != [] {
      assert bs[0].addr % ALIGN == 0;
      OneTiles(bs[0]);
    }
  }

  // ----- realloc -----

  /** `m` with the n bytes at `from` copied to `d`. */
  function Copied(m: seq<byte>, d: nat, from: nat, n: nat): (m': seq<byte>)
    requires d + n <= |m| && from + n <= |m|
    ensures |m'| == |m|
  {
    m[..d] + m[from..from + n] + m[d + n..]
  }

  /** Where the moved block and its new home lie after the allocation inside realloc. */
  lemma MoveRoom(s: State, p: nat, request: nat, s1: State, r: nat)
    requires Valid(s) && Valid(s1) && request < U32 && IsLive(s.bs, p) && r != 0 && AllocStep(s, request, s1, r)
    requires s.bs[LiveAt(s.bs, p)].size < AlignUp(request)
    ensures var b := s.bs[LiveAt(s.bs, p)]; var i := FirstFit(s.bs, AlignUp(request));
            && IsLive(s1.bs, p) && s1.bs[LiveAt(s1.bs, p)] == b
            && i < |s1.bs| && s1.bs[i].Payload() == r && b.size <= s1.bs[i].size && b != s1.bs[i]
            && b.End() <= |s.m| && s1.bs[i].End() <= |s.m|
            && (b.End() <= s1.bs[i].addr || s1.bs[i].End() <= b.addr)
  {
    var b := s.bs[LiveAt(s.bs, p)];
    var i := FirstFit(s.bs, AlignUp(request));
    TakeLive(s.bs, i, AlignUp(request));
    TakenIsNew(s.bs, s.lo, s.hi, i, AlignUp(request));
    LiveAtIs(s1.bs, s1.lo, s1.hi, b);
    BlocksApart(s1.bs, s1.lo, s1.hi, b, s1.bs[i]);
    BlocksApart(s1.bs, s1.lo, s1.hi, s1.bs[i], b);
  }

  /** Copying into a payload leaves the list and every header alone. */
  lemma CopyKeepsList(s: State, m': seq<byte>, j: nat, i: nat, n: nat)
    requires Valid(s) && i < |s.bs| && j < |s.bs| && n <= s.bs[i].size && n <= s.bs[j].size
    requires s.bs[i].End() <= |s.m| && s.bs[j].End() <= |s.m|
    requires m' == Copied(s.m, s.bs[i].Payload(), s.bs[j].Payload(), n)
    ensures Valid(s.(m := m')) && OnlyChanges(s.m, m', s.bs, s.bs[i].Payload(), s.bs[i].Payload() + n)
  {
    var d := s.bs[i].Payload();
    forall k: nat | k < |s.bs| ensures LinkAt(m', s.bs, k) {
      assert LinkAt(s.m, s.bs, k);
      HeaderOf(s.bs, s.bs[k]);
      TilesAt(s.bs, s.lo, s.hi, k, k);
      forall x | s.bs[k].addr <= x < s.bs[k].addr + HDR ensures m'[x] == s.m[x] {
        if d <= x < d + n { PayloadClearOfHeaders(s.bs, s.lo, s.hi, s.bs[i], x); }
      }
      HeaderKept(s.m, m', s.bs[k], AddrAt(s.bs, k + 1));
    }
  }

  /** Allocate, copy, free: together the one move HeapRuns describes. */
  lemma MoveAssembled(s: State, p: nat, request: nat, s1: State, s2: State, s3: State, r: nat)
    requires Valid(s) && Valid(s1) && Valid(s2) && Valid(s3) && request < U32 && IsLive(s.bs, p) && r != 0
    requires AllocStep(s, request, s1, r) && request != 0
    requires s.bs[LiveAt(s.bs, p)].size < AlignUp(request)
    requires var n := s.bs[LiveAt(s.bs, p)].size;
             r + n <= |s1.m| && p + n <= |s1.m| && s2 == s1.(m := Copied(s1.m, r, p, n))
             && OnlyChanges(s1.m, s2.m, s1.bs, r, r + n)
    requires FreeStep(s2, p, s3)
    ensures MoveStep(s, p, request, s3, r)
  {
    MoveRoom(s, p, request, s1, r);
    var i := FirstFit(s.bs, AlignUp(request));
    MovedBytes(s.m, s1.m, s2.m, s3.m, s1.bs, s1.lo, s1.hi, s1.bs[LiveAt(s1.bs, p)], s1.bs[i]);
  }

  /** The old bytes arrive at the new block, and nothing else but headers and that room changes. */
  lemma MovedBytes(m: seq<byte>, m1: seq<byte>, m2: seq<byte>, m3: seq<byte>,
                   t: seq<Block>, lo: nat, hi: nat, b: Block, nb: Block)
    requires Tiles(t, lo, hi) && hi <= |m| && b in t && nb in t && b.size <= nb.size
    requires OnlyChanges(m, m1, t, 0, 0) && OnlyChanges(m2, m3, t, 0, 0)
    requires b.End() <= |m1| && nb.End() <= |m1| && m2 == Copied(m1, nb.Payload(), b.Payload(), b.size)
    requires OnlyChanges(m1, m2, t, nb.Payload(), nb.Payload() + b.size)
    ensures m3[nb.Payload()..nb.Payload() + b.size] == m[b.Payload()..b.End()]
    ensures OnlyChanges(m, m3, t, nb.Payload(), nb.Payload() + b.size)
  {
    BytesKept(m, m1, t, lo, hi, 0, 0, b);
    CopyArrives(m2, m3, t, lo, hi, nb, b.size);
    assert m2[nb.Payload()..nb.Payload() + b.size] == m1[b.Payload()..b.End()];
  }

  lemma CopyArrives(m2: seq<byte>, m3: seq<byte>, t: seq<Block>, lo: nat, hi: nat, nb: Block, n: nat)
    requires Tiles(t, lo, hi) && hi <= |m2| && nb in t && n <= nb.size && OnlyChanges(m2, m3, t, 0, 0)
    ensures nb.End() <= |m2| && m3[nb.Payload()..nb.Payload() + n] == m2[nb.Payload()..nb.Payload() + n]
  {
    BytesKept(m2, m3, t, lo, hi, 0, 0, nb);
    SlicePrefix(m3, nb.Payload(), n, nb.End());
    SlicePrefix(m2, nb.Payload(), n, nb.End());
  }

  lemma WalkEnds(bs: seq<Block>, lo: nat, hi: nat, i: nat)
    requires Tiles(bs, lo, hi) && 0 < lo && i <= |bs| && AddrAt(bs, i) == 0
    ensures i == |bs|
  {
    if i < |bs| { TilesAt(bs, lo, hi, i, i); }
  }

  // ----- heap_check -----

  function NodeAt(nodes: seq<nat>, i: nat): nat {
    if i < |nodes| then nodes[i] else 0
  }

  /** Following `next` from `head` visits exactly `nodes`, then reaches NULL. */
  ghost predicate Chain(m: seq<byte>, head: nat, nodes: seq<nat>) {
    head == NodeAt(nodes, 0) && forall i: nat :: i < |nodes| ==> ChainAt(m, nodes, i)
  }

  ghost predicate ChainAt(m: seq<byte>, nodes: seq<nat>, i: nat)
    requires i < |nodes|
  {
    nodes[i] != 0 && nodes[i] + HDR <= |m| && Load(m, nodes[i] + 4) == NodeAt(nodes, i + 1)
  }

  /** A header with its magic, inside the arena, ending where the next one starts. */
  ghost predicate Sound(m: seq<byte>, nodes: seq<nat>, lo: nat, size: nat, i: nat)
    requires i < |nodes|
  {
    && nodes[i] + HDR <= |m| && Load(m, nodes[i] + 12) == MAGIC
    && var e := (nodes[i] + HDR + Load(m, nodes[i])) % U32;
       lo <= nodes[i] && e <= lo + size && (i + 1 < |nodes| ==> nodes[i + 1] == e)
  }

  lemma NodeStep(nodes: seq<nat>, i: nat)
    requires i < |nodes| && forall k :: 0 <= k < |nodes| ==> nodes[k] != 0
    ensures NodeAt(nodes, i + 1) == 0 <==> i + 1 == |nodes|
    ensures i + 1 < |nodes| ==> NodeAt(nodes, i + 1) == nodes[i + 1]
  {
  }

  /** In a well formed heap the check visits the block list and finds every header sound. */
  lemma ValidPassesCheck(s: State, lo: nat, size: nat)
    requires Valid(s) && lo <= s.lo && s.hi <= lo + size
    ensures var nodes := seq(|s.bs|, i requires 0 <= i < |s.bs| => s.bs[i].addr);
            && Chain(s.m, AddrAt(s.bs, 0), nodes)
            && forall i: nat :: i < |nodes| ==> Sound(s.m, nodes, lo, size, i)
  {
    var nodes := seq(|s.bs|, i requires 0 <= i < |s.bs| => s.bs[i].addr);
    forall i: nat | i < |nodes| ensures ChainAt(s.m, nodes, i) && Sound(s.m, nodes, lo, size, i) {
      NextBlock(s.m, s.bs, s.lo, s.hi, i);
      TilesAt(s.bs, s.lo, s.hi, i, i);
      if i + 1 < |s.bs| { TilesAt(s.bs, s.lo, s.hi, i, i + 1); }
    }
  }

  /** A header with another magic word, outside the arena, or not ending where the next one starts. */
  predicate Damaged(m: seq<byte>, nodes: seq<nat>, lo: nat, size: nat, i: nat)
    requires i < |nodes| && nodes[i] + 16 <= |m|
  {
    || Load(m, nodes[i] + 12) != 0x4B48_4541
    || nodes[i] < lo
    || (nodes[i] + 16 + Load(m, nodes[i])) % 0x1_0000_0000 > lo + size
    || (i + 1 < |nodes| && nodes[i + 1] != (nodes[i] + 16 + Load(m, nodes[i])) % 0x1_0000_0000)
  }

  /** One damaged header anywhere on the list is enough for the check to refuse. */
  lemma DamageIsFound(m: seq<byte>, nodes: seq<nat>, lo: nat, size: nat, i: nat)
    requires i < |nodes| && nodes[i] + 16 <= |m| && Damaged(m, nodes, lo, size, i)
    ensures !(forall k: nat :: k < |nodes| ==> Sound(m, nodes, lo, size, k))
  {
    assert !Sound(m, nodes, lo, size, i);
  }

  class Heap {
    const mem: array<byte>
    const base: nat
    const size: nat
    var head: nat
    ghost var blocks: seq<Block>
    ghost const lo: nat
    ghost const hi: nat

    ghost function View(): State
      reads this, mem
    {
      State(mem[..], blocks, lo, hi)
    }

    /** The list in memory is well linked over its arena, though maybe not coalesced. */
    ghost predicate Threaded()
      reads this, mem
    {
      && 0 < lo && base <= lo && hi <= base + size <= mem.Length < U32
      && Tiles(blocks, lo, hi) && Linked(mem[..], blocks)
      && head == AddrAt(blocks, 0)
    }

    ghost predicate Ok()
      reads this, mem
    {
      Threaded() && Valid(View())
    }

    /** heap_init: the aligned arena becomes one free block, or stays unusable if too small. */
    constructor (mem: array<byte>, arena: nat, size: nat)
      requires 0 < arena && arena + size <= mem.Length < U32
      modifies mem
      ensures this.mem == mem && base == arena && this.size == size && Ok()
      ensures blocks == InitialBlocks(arena, size)
      ensures OnlyChanges(old(mem[..]), mem[..], blocks, 0, 0)
    {
      this.mem, base, this.size := mem, arena, size;
      var start := (arena + ALIGN - 1) % U32 / ALIGN * ALIGN;
      var adj := (start - arena) % U32;
      head := if size < adj + HDR + ALIGN then 0 else start;
      ghost var bs := InitialBlocks(arena, size);
      InitialBlocksTile(arena, size);
      blocks := bs;
      lo := if bs == [] then arena + size else bs[0].addr;
      hi := arena + size;
      new;
      if head != 0 {
        WriteHeader(head, size - adj - HDR, 0, true);
        assert LinkAt(mem[..], blocks, 0);
        HeaderOf(blocks, blocks[0]);
      }
    }

    method WriteHeader(a: nat, n: nat, next: nat, free: bool)
      requires a + HDR <= mem.Length && n < U32 && next < U32
      modifies mem
      ensures mem[..] == PutHeader(old(mem[..]), a, n, next, free)
      ensures HeaderAt(mem[..], Block(a, n, free), next) && SameOutside(old(mem[..]), mem[..], a, a)
    {
      HeaderWritten(mem[..], a, n, next, free);
      StoreWord(mem, a, n);
      StoreWord(mem, a + 4, next);
      StoreWord(mem, a + 8, if free then 1 else 0);
      StoreWord(mem, a + 12, MAGIC);
    }

    /** heap_alloc. */
    method Alloc(request: nat) returns (p: nat)
      requires Ok() && request < U32
      modifies `blocks, mem
      ensures Ok() && AllocStep(old(View()), request, View(), p)
    {
      if request == 0 {
        return 0;
      }
      var n := (request + ALIGN - 1) % U32 / ALIGN * ALIGN;
      var b := head;
      ghost var i := 0;
      while b != 0
        invariant i <= |blocks| && b == AddrAt(blocks, i)
        invariant forall j :: 0 <= j < i ==> !blocks[j].Fits(n)
        invariant mem[..] == old(mem[..]) && blocks == old(blocks)
        decreases |blocks| - i
      {
        NextBlock(mem[..], blocks, lo, hi, i);
        var free := LoadWord(mem, b + 8);
        var bsize := LoadWord(mem, b);
        if free != 0 && bsize >= n {
          FirstFitIs(blocks, n, i);
          p := Occupy(b, n, i);
          AllocKeepsValid(old(View()), request, View(), p);
          return;
        }
        b := LoadWord(mem, b + 4);
        i := i + 1;
      }
      WalkEnds(blocks, lo, hi, i);
      FirstFitIs(blocks, n, i);
      p := 0;
    }

    /** The tail of heap_alloc: split if the remainder is worth it, then mark in use. */
    method Occupy(b: nat, n: nat, ghost i: nat) returns (p: nat)
      requires Threaded() && i < |blocks| && blocks[i].addr == b && blocks[i].Fits(n) && n % ALIGN == 0
      modifies `blocks, mem
      ensures blocks == Take(old(blocks), i, n) && p == b + HDR
      ensures Threaded() && OnlyChanges(old(mem[..]), mem[..], blocks, 0, 0)
    {
      ghost var m, blk, after := mem[..], blocks[i], AddrAt(blocks, i + 1);
      NextBlock(m, blocks, lo, hi, i);
      var bsize := LoadWord(mem, b);
      if bsize >= n + HDR + ALIGN {
        var nb := b + HDR + n;
        var next := LoadWord(mem, b + 4);
        SplitWritten(m, blk, after, n);
        WriteHeader(nb, bsize - n - HDR, next, true);
        StoreWord(mem, b, n);
        StoreWord(mem, b + 4, nb);
      } else {
        SetFree(m, blk, after, false);
      }
      StoreWord(mem, b + 8, 0);
      TakeWritten(m, mem[..], blocks, lo, hi, i, n);
      TakeTiles(blocks, lo, hi, i, n);
      blocks := Take(blocks, i, n);
      p := b + HDR;
    }

    /** coalesce: one forward pass over the list. */
    method CoalesceFree()
      requires Threaded()
      modifies `blocks, mem
      ensures Threaded() && blocks == Coalesce(old(blocks))
      ensures OnlyChanges(old(mem[..]), mem[..], old(blocks), 0, 0)
    {
      ghost var i := 0;
      var b := head;
      while b != 0
        invariant Threaded() && i <= |blocks| && b == AddrAt(blocks, i)
        invariant blocks[..i] + Coalesce(blocks[i..]) == Coalesce(old(blocks))
        invariant OnlyChanges(old(mem[..]), mem[..], old(blocks), 0, 0) && HeadersWithin(blocks, old(blocks))
        decreases |blocks| - i
      {
        NextBlock(mem[..], blocks, lo, hi, i);
        var next := LoadWord(mem, b + 4);
        if next == 0 {
          CoalesceLast(blocks, i);
          return;
        }
        NextBlock(mem[..], blocks, lo, hi, i + 1);
        var free := LoadWord(mem, b + 8);
        var nextFree := LoadWord(mem, next + 8);
        if free != 0 && nextFree != 0 {
          MergeNext(b, next, i, old(blocks), old(mem[..]));
        } else {
          SkipProgress(blocks, i);
          b := next;
          i := i + 1;
        }
      }
      if i < |blocks| { TilesAt(blocks, lo, hi, i, i); }
      assert blocks[..i] == blocks && blocks[i..] == [];
    }

    /** The merging branch of coalesce: b absorbs its successor. */
    method MergeNext(b: nat, next: nat, ghost i: nat, ghost bs: seq<Block>, ghost m0: seq<byte>)
      requires Threaded() && i + 1 < |blocks| && b == blocks[i].addr && next == blocks[i + 1].addr
      requires blocks[i].free && blocks[i + 1].free
      requires HeadersWithin(blocks, bs) && OnlyChanges(m0, mem[..], bs, 0, 0)
      modifies `blocks, mem
      ensures Threaded() && blocks == MergeAt(old(blocks), i)
      ensures Coalesce(old(blocks)[i..]) == Coalesce(blocks[i..]) && blocks[..i] == old(blocks)[..i]
      ensures HeadersWithin(blocks, bs) && OnlyChanges(m0, mem[..], bs, 0, 0)
    {
      ghost var m, blk := mem[..], blocks[i];
      NextBlock(m, blocks, lo, hi, i);
      NextBlock(m, blocks, lo, hi, i + 1);
      var bsize := LoadWord(mem, b);
      var nextSize := LoadWord(mem, next);
      MergeWritten(m, blocks, lo, hi, i);
      assert bsize + HDR + nextSize < U32;
      StoreWord(mem, b, bsize + HDR + nextSize);
      var nextNext := LoadWord(mem, next + 4);
      StoreWord(mem, b + 4, nextNext);
      MergeTiles(blocks, lo, hi, i);
      MergeProgress(blocks, i);
      ChangesHere(m0, m, mem[..], bs, blocks, blk);
      blocks := MergeAt(blocks, i);
    }

    /** heap_free. */
    method Free(p: nat)
      requires Ok() && CallerOk(View(), HeapRuns.Free(p))
      modifies `blocks, mem
      ensures Ok() && FreeStep(old(View()), p, View())
    {
      if p == 0 {
        LiveIsNotNull(blocks);
        return;
      }
      if IsLive(blocks, p) { NextBlock(mem[..], blocks, lo, hi, LiveAt(blocks, p)); }
      var magic := LoadWord(mem, p - HDR + 12);
      if magic != MAGIC {
        return;
      }
      var free := LoadWord(mem, p - HDR + 8);
      if free != 0 {
        return;
      }
      MarkFree(p);
      ghost var m := mem[..];
      CoalesceFree();
      ReleaseHeaders(old(blocks), p);
      ChangesCompose(old(mem[..]), m, mem[..], old(blocks), Release(old(blocks), p));
      FreeKeepsValid(old(View()), p, View());
    }

    method MarkFree(p: nat)
      requires Threaded() && IsLive(blocks, p)
      modifies `blocks, mem
      ensures Threaded() && blocks == Release(old(blocks), p)
      ensures OnlyChanges(old(mem[..]), mem[..], old(blocks), 0, 0)
    {
      ghost var m, i := mem[..], LiveAt(blocks, p);
      NextBlock(m, blocks, lo, hi, i);
      SetFree(m, blocks[i], AddrAt(blocks, i + 1), true);
      StoreWord(mem, p - HDR + 8, 1);
      ReleaseLinked(m, mem[..], blocks, lo, hi, p);
      ReleaseTiles(blocks, lo, hi, p);
      blocks := Release(blocks, p);
    }

    /** heap_realloc. */
    method Realloc(p: nat, request: nat) returns (r: nat)
      requires Ok() && CallerOk(View(), HeapRuns.Realloc(p, request))
      modifies `blocks, mem
      ensures Ok() && ReallocStep(old(View()), p, request, View(), r)
    {
      if p == 0 {
        r := Alloc(request);
        return;
      }
      if request == 0 {
        Free(p);
        return 0;
      }
      if IsLive(blocks, p) { NextBlock(mem[..], blocks, lo, hi, LiveAt(blocks, p)); }
      var magic := LoadWord(mem, p - HDR + 12);
      if magic != MAGIC {
        return 0;
      }
      var bsize := LoadWord(mem, p - HDR);
      if bsize >= (request + ALIGN - 1) % U32 / ALIGN * ALIGN {
        return p;
      }
      r := Move(p, request, bsize);
    }

    /** The moving branch of heap_realloc. */
    method Move(p: nat, request: nat, bsize: nat) returns (r: nat)
      requires Ok() && 0 < request < U32 && IsLive(blocks, p)
      requires bsize == blocks[LiveAt(blocks, p)].size < AlignUp(request)
      modifies `blocks, mem
      ensures Ok() && MoveStep(old(View()), p, request, View(), r)
    {
      ghost var s := View();
      r := Alloc(request);
      if r == 0 {
        return;
      }
      ghost var s1 := View();
      MoveRoom(s, p, request, s1, r);
      CopyBytes(r, p, bsize);
      ghost var s2 := View();
      CopyKeepsList(s1, s2.m, LiveAt(s1.bs, p), FirstFit(s.bs, AlignUp(request)), bsize);
      Free(p);
      MoveAssembled(s, p, request, s1, s2, View(), r);
    }

    /** kh_memcpy, between regions that do not overlap. */
    method CopyBytes(d: nat, from: nat, n: nat)
      requires d + n <= mem.Length && from + n <= mem.Length && (d + n <= from || from + n <= d)
      modifies mem
      ensures mem[..] == Copied(old(mem[..]), d, from, n)
    {
      for i := 0 to n
        invariant forall k :: 0 <= k < mem.Length ==>
                    mem[k] == if d <= k < d + i then old(mem[from + (k - d)]) else old(mem[k])
      {
        mem[d + i] := mem[from + i];
      }
    }

    /** heap_used. */
    method Used() returns (u: nat)
      requires Ok()
      ensures u == UsedBytes(blocks)
    {
      u := 0;
      var b := head;
      ghost var i := 0;
      assert blocks[0..] == blocks;
      while b != 0
        invariant i <= |blocks| && b == AddrAt(blocks, i)
        invariant u + UsedBytes(blocks[i..]) == UsedBytes(blocks)
        decreases |blocks| - i
      {
        NextBlock(mem[..], blocks, lo, hi, i);
        assert blocks[i..][1..] == blocks[i + 1..];
        var free := LoadWord(mem, b + 8);
        if free == 0 {
          var n := LoadWord(mem, b);
          u := u + n;
        }
        b := LoadWord(mem, b + 4);
        i := i + 1;
      }
      WalkEnds(blocks, lo, hi, i);
    }

    /** heap_free_bytes. */
    method FreeTotal() returns (f: nat)
      requires Ok()
      ensures f == FreeBytes(blocks)
    {
      f := 0;
      var b := head;
      ghost var i := 0;
      assert blocks[0..] == blocks;
      while b != 0
        invariant i <= |blocks| && b == AddrAt(blocks, i)
        invariant f + FreeBytes(blocks[i..]) == FreeBytes(blocks)
        decreases |blocks| - i
      {
        NextBlock(mem[..], blocks, lo, hi, i);
        assert blocks[i..][1..] == blocks[i + 1..];
        var free := LoadWord(mem, b + 8);
        if free != 0 {
          var n := LoadWord(mem, b);
          f := f + n;
        }
        b := LoadWord(mem, b + 4);
        i := i + 1;
      }
      WalkEnds(blocks, lo, hi, i);
    }

    /** heap_blocks. */
    method Count() returns (c: nat)
      requires Ok()
      ensures c == |blocks|
    {
      c := 0;
      var b := head;
      while b != 0
        invariant c <= |blocks| && b == AddrAt(blocks, c)
        decreases |blocks| - c
      {
        NextBlock(mem[..], blocks, lo, hi, c);
        b := LoadWord(mem, b + 4);
        c := c + 1;
      }
      WalkEnds(blocks, lo, hi, c);
    }

    /** heap_check over any finite list of headers: it accepts exactly the sound lists. */
    method Check(ghost nodes: seq<nat>) returns (ok: bool)
      requires base + size <= mem.Length < U32 && Chain(mem[..], head, nodes)
      ensures ok <==> forall i: nat :: i < |nodes| ==> Sound(mem[..], nodes, base, size, i)
    {
      var b := head;
      ghost var i := 0;
      assert forall k: nat :: k < |nodes| ==> nodes[k] != 0 by {
        forall k: nat | k < |nodes| ensures nodes[k] != 0 { assert ChainAt(mem[..], nodes, k); }
      }
      while b != 0
        invariant i <= |nodes| && b == NodeAt(nodes, i)
        invariant forall j: nat :: j < i ==> Sound(mem[..], nodes, base, size, j)
        decreases |nodes| - i
      {
        assert ChainAt(mem[..], nodes, i);
        var magic := LoadWord(mem, b + 12);
        var n := LoadWord(mem, b);
        var next := LoadWord(mem, b + 4);
        var e := (b + HDR + n) % U32;
        NodeStep(nodes, i);
        if magic != MAGIC || b < base || e > base + size || (next != 0 && next != e) {
          assert !Sound(mem[..], nodes, base, size, i);
          return false;
        }
        assert Sound(mem[..], nodes, base, size, i);
        b := next;
        i := i + 1;
      }
      ok := true;
    }
  }
}
