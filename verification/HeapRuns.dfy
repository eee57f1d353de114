/** Heap states over raw memory, the effect of each heap call as a relation between states,
    and what every run of calls keeps. */
module HeapRuns {
  import opened Common
  import opened RawMemory
  import opened HeapBlocks

  const MAGIC := 0x4B48_4541

  /** Memory, the block list threaded through it, and the bounds the list covers. */
  datatype State = State(m: seq<byte>, bs: seq<Block>, lo: nat, hi: nat)

  /** The address of block `i`, or NULL past the end. */
  function AddrAt(bs: seq<Block>, i: nat): nat {
    if i < |bs| then bs[i].addr else 0
  }

  /** Consecutive words in memory. */
  ghost predicate Words(m: seq<byte>, p: nat, ws: seq<nat>)
    decreases |ws|
  {
    ws == [] || (p + 4 <= |m| && Load(m, p) == ws[0] && Words(m, p + 4, ws[1..]))
  }

  /** block_t: size, next, free, magic. */
  function Fields(b: Block, next: nat): seq<nat> {
    [b.size, next, if b.free then 1 else 0, MAGIC]
  }

  ghost predicate HeaderAt(m: seq<byte>, b: Block, next: nat) {
    Words(m, b.addr, Fields(b, next))
  }

  lemma HeaderFields(m: seq<byte>, b: Block, next: nat)
    ensures HeaderAt(m, b, next) <==>
              && b.addr + HDR <= |m|
              && Load(m, b.addr) == b.size
              && Load(m, b.addr + 4) == next
              && Load(m, b.addr + 8) == (if b.free then 1 else 0)
              && Load(m, b.addr + 12) == MAGIC
  {
    var ws := Fields(b, next);
    var a := b.addr;
    assert ws[1..][1..] == ws[2..] && ws[2..][1..] == ws[3..] && ws[3..][1..] == [];
    assert Words(m, a + 12, ws[3..]) <==> a + 16 <= |m| && Load(m, a + 12) == ws[3];
    assert Words(m, a + 8, ws[2..]) <==> a + 12 <= |m| && Load(m, a + 8) == ws[2] && Words(m, a + 12, ws[3..]);
    assert Words(m, a + 4, ws[1..]) <==> a + 8 <= |m| && Load(m, a + 4) == ws[1] && Words(m, a + 8, ws[2..]);
  }

  /** The headers in memory spell out exactly the block list. */
  ghost predicate Linked(m: seq<byte>, bs: seq<Block>) {
    forall i: nat :: i < |bs| ==> LinkAt(m, bs, i)
  }

  ghost predicate LinkAt(m: seq<byte>, bs: seq<Block>, i: nat)
    requires i < |bs|
  {
    HeaderAt(m, bs[i], AddrAt(bs, i + 1))
  }

  ghost predicate Valid(s: State) {
    && 0 < s.lo && s.hi <= |s.m| < U32
    && Tiles(s.bs, s.lo, s.hi)
    && Coalesced(s.bs)
    && Linked(s.m, s.bs)
  }

  /** Does address `k` hold a header byte? */
  ghost predicate InHeader(bs: seq<Block>, k: nat) {
    bs != [] && (bs[0].addr <= k < bs[0].addr + HDR || InHeader(bs[1..], k))
  }

  lemma {:induction false} HeaderOf(bs: seq<Block>, b: Block)
    requires b in bs
    ensures forall k: nat :: b.addr <= k < b.addr + HDR ==> InHeader(bs, k)
    decreases |bs|
  {
    if b != bs[0] { HeaderOf(bs[1..], b); }
  }

  lemma {:induction false} HeaderOwner(bs: seq<Block>, k: nat) returns (b: Block)
    requires InHeader(bs, k)
    ensures b in bs && b.addr <= k < b.addr + HDR
    decreases |bs|
  {
    if bs[0].addr <= k < bs[0].addr + HDR { b := bs[0]; } else { b := HeaderOwner(bs[1..], k); }
  }

  /** Only header bytes of `bs` and bytes of [from, to) differ between two memories. */
  ghost predicate OnlyChanges(m: seq<byte>, m': seq<byte>, bs: seq<Block>, from: nat, to: nat) {
    && |m| == |m'|
    && forall k: nat :: k < |m| && !InHeader(bs, k) && !(from <= k < to) ==> m'[k] == m[k]
  }

  /** The position of the live block with payload address `p`, or |bs|. */
  function LiveAt(bs: seq<Block>, p: nat): (i: nat)
    ensures i <= |bs|
    ensures i < |bs| ==> !bs[i].free && bs[i].Payload() == p
    ensures forall j :: 0 <= j < i ==> bs[j].free || bs[j].Payload() != p
  {
    if bs == [] then 0
    else if !bs[0].free && bs[0].Payload() == p then 0
    else 1 + LiveAt(bs[1..], p)
  }

  predicate IsLive(bs: seq<Block>, p: nat) {
    LiveAt(bs, p) < |bs|
  }

  function Release(bs: seq<Block>, p: nat): seq<Block>
    requires IsLive(bs, p)
  {
    var i := LiveAt(bs, p);
    bs[i := bs[i].(free := true)]
  }

  // ----- calls -----

  datatype Op =
    | Alloc(n: nat)
    | Free(p: nat)
    | Realloc(p: nat, n: nat)
    | Write(p: nat, k: nat, v: byte)   // the owner of p writes byte k of its payload

  /** Does the guard in front of `free` see an in-use header at `p`? */
  predicate LooksInUse(m: seq<byte>, p: nat) {
    HDR <= p <= |m| && Load(m, p - 4) == MAGIC && Load(m, p - 8) == 0
  }

  predicate LooksOurs(m: seq<byte>, p: nat) {
    HDR <= p <= |m| && Load(m, p - 4) == MAGIC
  }

  /** What the allocator asks of its callers: sizes are 32-bit, pointers are live, NULL or
      turned away by the header checks, and writes stay inside the writer's payload. */
  ghost predicate CallerOk(s: State, op: Op) {
    match op
    case Alloc(n) => n < U32
    case Free(p) => p == 0 || (HDR <= p <= |s.m| && (IsLive(s.bs, p) || !LooksInUse(s.m, p)))
    case Realloc(p, n) =>
      && n < U32
      && (p == 0 || (HDR <= p <= |s.m| && (IsLive(s.bs, p) || !LooksOurs(s.m, p))))
    case Write(p, k, v) => IsLive(s.bs, p) && k < s.bs[LiveAt(s.bs, p)].size
  }

  ghost predicate Same(s: State, s': State) {
    s'.lo == s.lo && s'.hi == s.hi && Linked(s'.m, s'.bs)
  }

  ghost predicate AllocStep(s: State, n: nat, s': State, r: nat)
    requires n < U32
  {
    var na := AlignUp(n);
    var i := FirstFit(s.bs, na);
    if n == 0 || i == |s.bs| then s' == s && r == 0
    else
      && Same(s, s')
      && s'.bs == Take(s.bs, i, na)
      && r == s.bs[i].Payload()
      && OnlyChanges(s.m, s'.m, s'.bs, 0, 0)
  }

  ghost predicate FreeStep(s: State, p: nat, s': State) {
    if IsLive(s.bs, p) then
      && Same(s, s')
      && s'.bs == Coalesce(Release(s.bs, p))
      && OnlyChanges(s.m, s'.m, s.bs, 0, 0)
    else s' == s
  }

  /** A block that has to move: taken elsewhere, old bytes copied, old block released. */
  ghost predicate MoveStep(s: State, p: nat, n: nat, s': State, r: nat)
    requires n < U32 && IsLive(s.bs, p)
  {
    var b := s.bs[LiveAt(s.bs, p)];
    var i := FirstFit(s.bs, AlignUp(n));
    if i == |s.bs| then s' == s && r == 0
    else
      var t := Take(s.bs, i, AlignUp(n));
      && Same(s, s')
      && r == s.bs[i].Payload()
      && i < |t| && IsLive(t, p)
      && s'.bs == Coalesce(Release(t, p))
      && OnlyChanges(s.m, s'.m, t, r, r + b.size)
      && r + b.size <= |s'.m| && b.End() <= |s.m|
      && s'.m[r..r + b.size] == s.m[p..b.End()]
  }

  ghost predicate ReallocStep(s: State, p: nat, n: nat, s': State, r: nat)
    requires n < U32
  {
    if p == 0 then AllocStep(s, n, s', r)
    else if n == 0 then FreeStep(s, p, s') && r == 0
    else if !IsLive(s.bs, p) then s' == s && r == 0
    else if s.bs[LiveAt(s.bs, p)].size >= AlignUp(n) then s' == s && r == p
    else MoveStep(s, p, n, s', r)
  }

  ghost predicate Step(s: State, op: Op, s': State, r: nat)
    requires CallerOk(s, op)
  {
    match op
    case Alloc(n) => AllocStep(s, n, s', r)
    case Free(p) => FreeStep(s, p, s') && r == 0
    case Realloc(p, n) => ReallocStep(s, p, n, s', r)
    case Write(p, k, v) => p + k < |s.m| && s' == s.(m := s.m[p + k := v]) && r == 0
  }

  // ----- every step keeps the heap well formed -----

  lemma ReleaseTiles(bs: seq<Block>, lo: nat, hi: nat, p: nat)
    requires Tiles(bs, lo, hi) && IsLive(bs, p)
    ensures Tiles(Release(bs, p), lo, hi)
  {
    var i := LiveAt(bs, p);
    TilesSplit(bs, lo, hi, i);
    OneTiles(bs[i].(free := true));
    ReplaceTiles(bs, lo, hi, i, [bs[i].(free := true)]);
    assert Release(bs, p) == bs[..i] + [bs[i].(free := true)] + bs[i + 1..];
  }

  /** No payload byte lies in a header. */
  lemma PayloadClearOfHeaders(bs: seq<Block>, lo: nat, hi: nat, b: Block, k: nat)
    requires Tiles(bs, lo, hi) && b in bs && b.Payload() <= k < b.End()
    ensures !InHeader(bs, k)
  {
    if InHeader(bs, k) {
      var c := HeaderOwner(bs, k);
      BlocksApart(bs, lo, hi, b, c);
      assert false;
    }
  }

  /** A header reads the same in a memory that agrees on its sixteen bytes. */
  lemma HeaderKept(m: seq<byte>, m': seq<byte>, b: Block, next: nat)
    requires HeaderAt(m, b, next) && |m'| == |m| && b.addr + HDR <= |m|
    requires forall k :: b.addr <= k < b.addr + HDR ==> m'[k] == m[k]
    ensures HeaderAt(m', b, next)
  {
    HeaderFields(m, b, next);
    HeaderFields(m', b, next);
    LoadSame(m, m', b.addr);
    LoadSame(m, m', b.addr + 4);
    LoadSame(m, m', b.addr + 8);
    LoadSame(m, m', b.addr + 12);
  }

  /** A client's write inside a payload leaves every header as it was. */
  lemma WriteKeepsHeaders(s: State, p: nat, k: nat, v: byte)
    requires Valid(s) && CallerOk(s, Write(p, k, v))
    ensures p + k < |s.m| && Linked(s.m[p + k := v], s.bs)
  {
    var b := s.bs[LiveAt(s.bs, p)];
    TilesOrder(s.bs, s.lo, s.hi);
    PayloadClearOfHeaders(s.bs, s.lo, s.hi, b, p + k);
    var m' := s.m[p + k := v];
    forall i: nat | i < |s.bs| ensures LinkAt(m', s.bs, i) {
      assert LinkAt(s.m, s.bs, i);
      HeaderOf(s.bs, s.bs[i]);
      TilesAt(s.bs, s.lo, s.hi, i, i);
      HeaderKept(s.m, m', s.bs[i], AddrAt(s.bs, i + 1));
    }
  }

  lemma ReleaseCoalesceKeep(bs: seq<Block>, lo: nat, hi: nat, p: nat)
    requires Tiles(bs, lo, hi) && IsLive(bs, p)
    ensures Tiles(Coalesce(Release(bs, p)), lo, hi)
    ensures Coalesced(Coalesce(Release(bs, p)))
  {
    ReleaseTiles(bs, lo, hi, p);
    CoalesceTiles(Release(bs, p), lo, hi);
    CoalesceCoalesced(Release(bs, p));
  }

  lemma StepKeepsValid(s: State, op: Op, s': State, r: nat)
    requires Valid(s) && CallerOk(s, op) && Step(s, op, s', r)
    ensures Valid(s') && s'.lo == s.lo && s'.hi == s.hi && |s'.m| == |s.m|
  {
    match op
    case Alloc(n) => AllocKeepsValid(s, n, s', r);
    case Free(p) => FreeKeepsValid(s, p, s');
    case Realloc(p, n) =>
      if p == 0 { AllocKeepsValid(s, n, s', r); }
      else if n == 0 { FreeKeepsValid(s, p, s'); }
      else if IsLive(s.bs, p) && s.bs[LiveAt(s.bs, p)].size < AlignUp(n) {
        var i := FirstFit(s.bs, AlignUp(n));
        if i < |s.bs| {
          AlignUpExact(n);
          TakeTiles(s.bs, s.lo, s.hi, i, AlignUp(n));
          ReleaseCoalesceKeep(Take(s.bs, i, AlignUp(n)), s.lo, s.hi, p);
        }
      }
    case Write(p, k, v) => WriteKeepsHeaders(s, p, k, v);
  }

  lemma AllocKeepsValid(s: State, n: nat, s': State, r: nat)
    requires Valid(s) && n < U32 && AllocStep(s, n, s', r)
    ensures Valid(s') && s'.lo == s.lo && s'.hi == s.hi && |s'.m| == |s.m|
  {
    var na := AlignUp(n);
    var i := FirstFit(s.bs, na);
    if n != 0 && i < |s.bs| {
      AlignUpExact(n);
      TakeTiles(s.bs, s.lo, s.hi, i, na);
      TakeCoalesced(s.bs, i, na);
    }
  }

  lemma FreeKeepsValid(s: State, p: nat, s': State)
    requires Valid(s) && FreeStep(s, p, s')
    ensures Valid(s') && s'.lo == s.lo && s'.hi == s.hi && |s'.m| == |s.m|
  {
    if IsLive(s.bs, p) {
      ReleaseCoalesceKeep(s.bs, s.lo, s.hi, p);
    }
  }

  // ----- the heap refines a store of disjoint buffers -----

  /** Every live block with the bytes its owner sees. */
  ghost function Contents(s: State): (c: map<Block, seq<byte>>)
    requires Valid(s)
    ensures forall b :: b in c ==> b.End() <= |s.m| && |c[b]| == b.size
  {
    TilesOrder(s.bs, s.lo, s.hi);
    map b | b in s.bs && !b.free :: s.m[b.Payload()..b.End()]
  }

  /** Live payloads are pairwise disjoint, inside the arena, 8-aligned and clear of every header. */
  lemma LivePayloadsApart(s: State, b: Block, c: Block)
    requires Valid(s) && b in s.bs && c in s.bs && b != c
    ensures b.End() <= c.addr || c.End() <= b.addr
    ensures s.lo <= b.addr && b.End() <= s.hi && b.Payload() % ALIGN == 0
    ensures forall k: nat :: b.Payload() <= k < b.End() ==> !InHeader(s.bs, k)
  {
    BlocksApart(s.bs, s.lo, s.hi, b, c);
    forall k: nat | b.Payload() <= k < b.End() ensures !InHeader(s.bs, k) {
      PayloadClearOfHeaders(s.bs, s.lo, s.hi, b, k);
    }
  }

  /** Header rewrites and a copy elsewhere leave a live payload's bytes alone. */
  lemma BytesKept(m: seq<byte>, m': seq<byte>, hs: seq<Block>, lo: nat, hi: nat, from: nat, to: nat, b: Block)
    requires Tiles(hs, lo, hi) && b in hs && hi <= |m|
    requires OnlyChanges(m, m', hs, from, to)
    requires to <= b.Payload() || b.End() <= from
    ensures b.End() <= |m| && m'[b.Payload()..b.End()] == m[b.Payload()..b.End()]
  {
    TilesOrder(hs, lo, hi);
    forall k: nat | b.Payload() <= k < b.End() ensures k < |m| && m'[k] == m[k] {
      PayloadClearOfHeaders(hs, lo, hi, b, k);
    }
  }

  /** A payload address belongs to at most one block. */
  lemma LiveAtIs(bs: seq<Block>, lo: nat, hi: nat, b: Block)
    requires Tiles(bs, lo, hi) && b in bs && !b.free
    ensures IsLive(bs, b.Payload()) && bs[LiveAt(bs, b.Payload())] == b
  {
    TilesOrder(bs, lo, hi);
    var i :| 0 <= i < |bs| && bs[i] == b;
    var j := LiveAt(bs, b.Payload());
    assert j <= i;
    assert i < j || j < i || i == j;
  }

  /** Releasing a block and coalescing removes exactly that block from the live ones. */
  lemma ReleasedLive(bs: seq<Block>, lo: nat, hi: nat, p: nat)
    requires Tiles(bs, lo, hi) && IsLive(bs, p)
    ensures forall b: Block :: b in Coalesce(Release(bs, p)) && !b.free <==>
                               b in bs && !b.free && b != bs[LiveAt(bs, p)]
  {
    var i := LiveAt(bs, p);
    var rs := Release(bs, p);
    CoalesceLive(rs);
    TilesOrder(bs, lo, hi);
    forall b: Block | !b.free ensures b in rs <==> b in bs && b != bs[i] {
      if b in rs {
        var k :| 0 <= k < |rs| && rs[k] == b;
        assert k != i && bs[k] == b && (i < k || k < i);
      }
      if b in bs && b != bs[i] {
        var k :| 0 <= k < |bs| && bs[k] == b;
        assert rs[k] == b;
      }
    }
  }

  /** The block first fit takes was not live before. */
  lemma TakenIsNew(bs: seq<Block>, lo: nat, hi: nat, i: nat, n: nat)
    requires Tiles(bs, lo, hi) && i < |bs| && bs[i].Fits(n)
    ensures i < |Take(bs, i, n)| && Take(bs, i, n)[i] !in bs
  {
    TakeLive(bs, i, n);
    var nb := Take(bs, i, n)[i];
    TilesOrder(bs, lo, hi);
    if nb in bs {
      assert false;
    }
  }

  lemma TakenContents(s: State, n: nat, s': State, r: nat, nb: Block)
    requires Valid(s) && Valid(s') && n < U32 && AllocStep(s, n, s', r) && r != 0
    requires FirstFit(s.bs, AlignUp(n)) < |s'.bs| && nb == s'.bs[FirstFit(s.bs, AlignUp(n))]
    ensures nb !in Contents(s) && nb in Contents(s')
    ensures Contents(s') == Contents(s)[nb := Contents(s')[nb]]
  {
    var na := AlignUp(n);
    var i := FirstFit(s.bs, na);
    TakeLive(s.bs, i, na);
    TakenIsNew(s.bs, s.lo, s.hi, i, na);
    forall b | b in Contents(s) ensures Contents(s')[b] == Contents(s)[b] {
      BytesKept(s.m, s'.m, s'.bs, s.lo, s.hi, 0, 0, b);
    }
  }

  /** Allocation answers NULL exactly when no free run has room; otherwise it hands out the
      lowest one as a buffer that was not live before, wasting less than a header and eight
      bytes, and leaves every other buffer alone. */
  lemma AllocRefines(s: State, n: nat, s': State, r: nat) returns (nb: Block)
    requires Valid(s) && n < U32 && AllocStep(s, n, s', r)
    ensures Valid(s')
    ensures r == 0 <==> n == 0 || !(exists a: nat :: FreeRun(s.bs, s.lo, s.hi, a, AlignUp(n)))
    ensures r == 0 ==> s' == s
    ensures r != 0 ==>
              && nb.Payload() == r && AlignUp(n) <= nb.size < AlignUp(n) + HDR + ALIGN
              && (nb.size >= n <==> n <= 0xFFFF_FFF8)
              && (forall a: nat :: FreeRun(s.bs, s.lo, s.hi, a, AlignUp(n)) ==> nb.addr <= a)
              && nb !in Contents(s) && nb in Contents(s')
              && Contents(s') == Contents(s)[nb := Contents(s')[nb]]
  {
    AllocKeepsValid(s, n, s', r);
    var na := AlignUp(n);
    AlignUpExact(n);
    FirstFitComplete(s.bs, s.lo, s.hi, na);
    var i := FirstFit(s.bs, na);
    nb := Block(0, 0, true);
    if n != 0 && i < |s.bs| {
      TakeLive(s.bs, i, na);
      nb := s'.bs[i];
      TakenContents(s, n, s', r, nb);
    }
  }

  /** Freeing removes exactly the freed buffer; a refused free changes nothing. */
  lemma FreeRefines(s: State, p: nat, s': State)
    requires Valid(s) && FreeStep(s, p, s')
    ensures Valid(s')
    ensures !IsLive(s.bs, p) ==> s' == s
    ensures IsLive(s.bs, p) ==> Contents(s') == Contents(s) - {s.bs[LiveAt(s.bs, p)]}
  {
    FreeKeepsValid(s, p, s');
    if IsLive(s.bs, p) {
      ReleasedLive(s.bs, s.lo, s.hi, p);
      forall b | b in Contents(s') ensures Contents(s')[b] == Contents(s)[b] {
        BytesKept(s.m, s'.m, s.bs, s.lo, s.hi, 0, 0, b);
      }
    }
  }

  /** The blocks that are live after a move. */
  lemma MovedLive(bs: seq<Block>, lo: nat, hi: nat, p: nat, n: nat, i: nat)
    requires Tiles(bs, lo, hi) && IsLive(bs, p) && i < |bs| && bs[i].Fits(n) && n % ALIGN == 0
    ensures var t := Take(bs, i, n); var b := bs[LiveAt(bs, p)];
            && Tiles(t, lo, hi) && IsLive(t, p) && i < |t| && t[i] !in bs && !t[i].free
            && t[i].addr == bs[i].addr && n <= t[i].size
            && (forall c: Block :: c in bs && !c.free ==> c in t)
            && (forall c: Block :: c in Coalesce(Release(t, p)) && !c.free <==>
                                   c == t[i] || (c in bs && !c.free && c != b))
  {
    var b := bs[LiveAt(bs, p)];
    TakeTiles(bs, lo, hi, i, n);
    TakeLive(bs, i, n);
    TakenIsNew(bs, lo, hi, i, n);
    LiveAtIs(Take(bs, i, n), lo, hi, b);
    ReleasedLive(Take(bs, i, n), lo, hi, p);
  }

  /** A moving realloc: the old buffer is gone, a new one starts with all its bytes. */
  lemma MoveRefines(s: State, p: nat, n: nat, s': State, r: nat) returns (nb: Block)
    requires Valid(s) && n < U32 && IsLive(s.bs, p) && s.bs[LiveAt(s.bs, p)].size < AlignUp(n)
    requires MoveStep(s, p, n, s', r) && r != 0 && Valid(s')
    ensures var b := s.bs[LiveAt(s.bs, p)];
            && b in Contents(s) && nb !in Contents(s) && nb in Contents(s')
            && nb.Payload() == r && AlignUp(n) <= nb.size
            && Contents(s') == (Contents(s) - {b})[nb := Contents(s')[nb]]
            && Contents(s)[b] <= Contents(s')[nb]
  {
    var t;
    t, nb := MoveFacts(s, p, n, s', r);
    MovedContents(s, s', s.bs[LiveAt(s.bs, p)], t, nb);
  }

  /** What a move leaves in place, before looking at the buffers. */
  ghost predicate Moved(s: State, s': State, b: Block, t: seq<Block>, nb: Block) {
    && b in s.bs && !b.free && nb !in s.bs && nb in t && b.size <= nb.size
    && Tiles(t, s.lo, s.hi) && b.End() <= |s.m| && nb.End() <= |s'.m|
    && (forall c: Block :: c in s'.bs && !c.free <==> c == nb || (c in s.bs && !c.free && c != b))
    && (forall c: Block :: c in s.bs && !c.free ==> c in t)
    && OnlyChanges(s.m, s'.m, t, nb.Payload(), nb.Payload() + b.size)
    && s'.m[nb.Payload()..nb.Payload() + b.size] == s.m[b.Payload()..b.End()]
  }

  lemma MoveFacts(s: State, p: nat, n: nat, s': State, r: nat) returns (t: seq<Block>, nb: Block)
    requires Valid(s) && n < U32 && IsLive(s.bs, p) && s.bs[LiveAt(s.bs, p)].size < AlignUp(n)
    requires MoveStep(s, p, n, s', r) && r != 0
    ensures Moved(s, s', s.bs[LiveAt(s.bs, p)], t, nb)
    ensures nb.Payload() == r && AlignUp(n) <= nb.size && !nb.free
  {
    var i := FirstFit(s.bs, AlignUp(n));
    t := Take(s.bs, i, AlignUp(n));
    AlignUpExact(n);
    MovedLive(s.bs, s.lo, s.hi, p, AlignUp(n), i);
    nb := t[i];
    TilesAt(t, s.lo, s.hi, i, i);
  }

  lemma MovedContents(s: State, s': State, b: Block, t: seq<Block>, nb: Block)
    requires Valid(s) && Valid(s') && Moved(s, s', b, t, nb) && !nb.free
    ensures b in Contents(s) && nb in Contents(s')
    ensures Contents(s') == (Contents(s) - {b})[nb := Contents(s')[nb]]
    ensures Contents(s)[b] <= Contents(s')[nb]
  {
    var before, after := Contents(s), Contents(s');
    forall c | c in before && c != b ensures c in after && after[c] == before[c] {
      CopyKeepsOthers(s.m, s'.m, t, s.lo, s.hi, nb, b.size, c);
    }
    SlicePrefix(s'.m, nb.Payload(), b.size, nb.End());
  }

  lemma SlicePrefix(m: seq<byte>, a: nat, n: nat, e: nat)
    requires a + n <= e <= |m|
    ensures m[a..a + n] == m[a..e][..n] && m[a..a + n] <= m[a..e]
  {
    assert m[a..e] == m[a..a + n] + m[a + n..e];
  }

  lemma CopyKeepsOthers(m: seq<byte>, m': seq<byte>, t: seq<Block>, lo: nat, hi: nat, nb: Block, n: nat, c: Block)
    requires Tiles(t, lo, hi) && hi <= |m| && nb in t && c in t && c != nb && n <= nb.size
    requires OnlyChanges(m, m', t, nb.Payload(), nb.Payload() + n)
    ensures c.End() <= |m| && m'[c.Payload()..c.End()] == m[c.Payload()..c.End()]
  {
    BlocksApart(t, lo, hi, c, nb);
    BytesKept(m, m', t, lo, hi, nb.Payload(), nb.Payload() + n, c);
  }

  lemma BlocksApart(bs: seq<Block>, lo: nat, hi: nat, b: Block, c: Block)
    requires Tiles(bs, lo, hi) && b in bs && c in bs && b != c
    ensures b.End() <= c.addr || c.End() <= b.addr
    ensures lo <= b.addr && b.End() <= hi && b.addr % ALIGN == 0
  {
    TilesOrder(bs, lo, hi);
    var i :| 0 <= i < |bs| && bs[i] == b;
    var j :| 0 <= j < |bs| && bs[j] == c;
    assert i < j || j < i;
  }

  /** A client write changes one byte of one buffer. */
  lemma WriteRefines(s: State, p: nat, k: nat, v: byte, s': State)
    requires Valid(s) && CallerOk(s, Write(p, k, v)) && Step(s, Write(p, k, v), s', 0)
    ensures Valid(s')
    ensures var b := s.bs[LiveAt(s.bs, p)];
            && b in Contents(s) && k < |Contents(s)[b]|
            && Contents(s') == Contents(s)[b := Contents(s)[b][k := v]]
  {
    StepKeepsValid(s, Write(p, k, v), s', 0);
    var b := s.bs[LiveAt(s.bs, p)];
    var before, after := Contents(s), Contents(s');
    forall c | c in before && c != b ensures after[c] == before[c] {
      BlocksApart(s.bs, s.lo, s.hi, c, b);
    }
    assert after[b] == before[b][k := v];
    assert after.Keys == before.Keys;
  }

  /** The one buffer a call may alter: the block it frees, moves or writes. */
  ghost predicate Concerns(s: State, op: Op, b: Block) {
    match op
    case Alloc(_) => false
    case Free(p) => b.Payload() == p
    case Realloc(p, _) => b.Payload() == p
    case Write(p, _, _) => b.Payload() == p
  }

  /** No call touches a buffer it is not about: it stays live with the same bytes. */
  lemma StepIsolates(s: State, op: Op, s': State, r: nat, b: Block)
    requires Valid(s) && CallerOk(s, op) && Step(s, op, s', r)
    requires b in Contents(s) && !Concerns(s, op, b)
    ensures Valid(s') && b in Contents(s') && Contents(s')[b] == Contents(s)[b]
  {
    StepKeepsValid(s, op, s', r);
    match op
    case Alloc(n) => var nb := AllocRefines(s, n, s', r);
    case Free(p) => FreeRefines(s, p, s');
    case Realloc(p, n) =>
      if p == 0 { var nb := AllocRefines(s, n, s', r); }
      else if n == 0 { FreeRefines(s, p, s'); }
      else if IsLive(s.bs, p) && s.bs[LiveAt(s.bs, p)].size < AlignUp(n) && r != 0 {
        var nb := MoveRefines(s, p, n, s', r);
      }
    case Write(p, k, v) => WriteRefines(s, p, k, v, s');
  }

  // ----- whole runs -----

  /** A run: states, the calls between them and their answers. */
  datatype Run = Run(states: seq<State>, ops: seq<Op>, answers: seq<nat>)

  ghost predicate IsRun(run: Run) {
    && |run.states| == |run.ops| + 1 && |run.answers| == |run.ops|
    && forall i: nat :: i < |run.ops| ==> RunStep(run, i)
  }

  ghost predicate RunStep(run: Run, i: nat)
    requires |run.states| == |run.ops| + 1 && |run.answers| == |run.ops| && i < |run.ops|
  {
    CallerOk(run.states[i], run.ops[i]) && Step(run.states[i], run.ops[i], run.states[i + 1], run.answers[i])
  }

  /** Every state of every run is well formed, over the same arena. */
  lemma {:induction false} RunsStayValid(run: Run, i: nat)
    requires IsRun(run) && Valid(run.states[0]) && i < |run.states|
    ensures Valid(run.states[i]) && run.states[i].lo == run.states[0].lo && run.states[i].hi == run.states[0].hi
  {
    if i > 0 {
      RunsStayValid(run, i - 1);
      assert RunStep(run, i - 1);
      StepKeepsValid(run.states[i - 1], run.ops[i - 1], run.states[i], run.answers[i - 1]);
    }
  }

  /** used + free + HDR * blocks never changes. */
  lemma RunsConserveBytes(run: Run, i: nat)
    requires IsRun(run) && Valid(run.states[0]) && i < |run.states|
    ensures UsedBytes(run.states[i].bs) + FreeBytes(run.states[i].bs) + HDR * |run.states[i].bs|
         == UsedBytes(run.states[0].bs) + FreeBytes(run.states[0].bs) + HDR * |run.states[0].bs|
  {
    RunsStayValid(run, i);
    BytesAccounted(run.states[i].bs, run.states[i].lo, run.states[i].hi);
    BytesAccounted(run.states[0].bs, run.states[0].lo, run.states[0].hi);
  }

  /** A buffer keeps its bytes through any run of calls that are not about it. */
  lemma {:induction false} RunsIsolateBuffers(run: Run, b: Block, i: nat, j: nat)
    requires IsRun(run) && Valid(run.states[0]) && i <= j < |run.states|
    requires Valid(run.states[i]) && b in Contents(run.states[i])
    requires forall k :: i <= k < j ==> !Concerns(run.states[k], run.ops[k], b)
    ensures Valid(run.states[j]) && b in Contents(run.states[j])
    ensures Contents(run.states[j])[b] == Contents(run.states[i])[b]
    decreases j
  {
    if i < j {
      RunsIsolateBuffers(run, b, i, j - 1);
      assert RunStep(run, j - 1);
      StepIsolates(run.states[j - 1], run.ops[j - 1], run.states[j], run.answers[j - 1], b);
    }
  }

  ghost predicate RoomyPayloads(bs: seq<Block>) {
    forall b: Block :: b in bs ==> b.size >= ALIGN
  }

  lemma {:induction false} CoalesceRoomy(bs: seq<Block>)
    requires RoomyPayloads(bs)
    ensures RoomyPayloads(Coalesce(bs))
    decreases |bs|
  {
    if |bs| >= 2 {
      if bs[0].free && bs[1].free {
        CoalesceRoomy([Merge(bs[0], bs[1])] + bs[2..]);
      } else {
        CoalesceRoomy(bs[1..]);
      }
    }
  }

  /** Does the call ask for a size that rounding turns into zero? */
  predicate Wraps(op: Op) {
    (op.Alloc? || op.Realloc?) && op.n > 0xFFFF_FFF8
  }

  lemma ReleasedRoomy(bs: seq<Block>, p: nat)
    requires RoomyPayloads(bs) && IsLive(bs, p)
    ensures RoomyPayloads(Coalesce(Release(bs, p)))
  {
    var i := LiveAt(bs, p);
    assert bs[i] in bs;
    CoalesceRoomy(Release(bs, p));
  }

  lemma TakenRoomy(bs: seq<Block>, i: nat, n: nat)
    requires RoomyPayloads(bs) && i < |bs| && bs[i].Fits(n) && n >= ALIGN
    ensures RoomyPayloads(Take(bs, i, n))
  {
    assert bs[i] in bs;
  }

  /** Payloads of at least eight bytes stay so under every call whose size does not wrap. */
  lemma StepKeepsRoomy(s: State, op: Op, s': State, r: nat)
    requires Valid(s) && CallerOk(s, op) && Step(s, op, s', r)
    requires RoomyPayloads(s.bs) && !Wraps(op)
    ensures RoomyPayloads(s'.bs)
  {
    var n := if op.Alloc? || op.Realloc? then op.n else 0;
    AlignUpExact(n);
    var i := FirstFit(s.bs, AlignUp(n));
    if n != 0 && i < |s.bs| {
      TakenRoomy(s.bs, i, AlignUp(n));
      var t := Take(s.bs, i, AlignUp(n));
      if op.Realloc? && IsLive(t, op.p) { ReleasedRoomy(t, op.p); }
    }
    if (op.Free? || op.Realloc?) && IsLive(s.bs, op.p) { ReleasedRoomy(s.bs, op.p); }
  }

  /** Every payload has at least eight bytes in every state of a run without wrapping sizes. */
  lemma {:induction false} RunsKeepRoomy(run: Run, i: nat)
    requires IsRun(run) && Valid(run.states[0]) && RoomyPayloads(run.states[0].bs) && i < |run.states|
    requires forall k :: 0 <= k < i ==> !Wraps(run.ops[k])
    ensures RoomyPayloads(run.states[i].bs)
  {
    if i > 0 {
      RunsKeepRoomy(run, i - 1);
      RunsStayValid(run, i - 1);
      assert RunStep(run, i - 1);
      StepKeepsRoomy(run.states[i - 1], run.ops[i - 1], run.states[i], run.answers[i - 1]);
    }
  }

  /** A wrapping request is answered with the lowest free block, whatever its size: split down to
      no bytes at all if it is large enough to split, else its fewer than 24 bytes. */
  lemma WrappedAllocIsShort(s: State, n: nat, s': State, r: nat)
    requires Valid(s) && 0xFFFF_FFF8 < n < U32 && AllocStep(s, n, s', r)
    ensures r == 0 <==> forall j :: 0 <= j < |s.bs| ==> !s.bs[j].free
    ensures r != 0 ==>
              var i := FirstFit(s.bs, 0);
              && i < |s.bs| && r == s.bs[i].Payload() && (forall j :: 0 <= j < i ==> !s.bs[j].free)
              && i < |s'.bs| && s'.bs[i].Payload() == r && !s'.bs[i].free
              && s'.bs[i].size == if s.bs[i].size >= HDR + ALIGN then 0 else s.bs[i].size
  {
    AlignUpExact(n);
    assert forall j :: 0 <= j < |s.bs| ==> s.bs[j].Fits(0) == s.bs[j].free;
  }

  /** Reallocating a live buffer: NULL changes nothing and means that neither the buffer nor any
      free run was large enough; otherwise the answer is a buffer that begins with all the old
      bytes, in the old buffer's stead, and it has room for the request exactly when the request
      did not wrap. */
  lemma ReallocRefines(s: State, p: nat, n: nat, s': State, r: nat) returns (nb: Block)
    requires Valid(s) && 0 < n < U32 && IsLive(s.bs, p) && ReallocStep(s, p, n, s', r)
    ensures Valid(s')
    ensures var b := s.bs[LiveAt(s.bs, p)];
            && b in Contents(s)
            && (r == 0 <==> b.size < AlignUp(n) && !(exists a: nat :: FreeRun(s.bs, s.lo, s.hi, a, AlignUp(n))))
            && (r == 0 ==> s' == s)
            && (r != 0 ==>
                  && nb in Contents(s') && nb.Payload() == r
                  && (nb.size >= n <==> n <= 0xFFFF_FFF8)
                  && Contents(s') == (Contents(s) - {b})[nb := Contents(s')[nb]]
                  && Contents(s)[b] <= Contents(s')[nb])
  {
    var b := s.bs[LiveAt(s.bs, p)];
    nb := b;
    assert b in s.bs;
    BlockRoom(s, b);
    StepKeepsValid(s, Realloc(p, n), s', r);
    AlignUpExact(n);
    if b.size < AlignUp(n) {
      FirstFitComplete(s.bs, s.lo, s.hi, AlignUp(n));
      if r != 0 { nb := MoveRefines(s, p, n, s', r); }
    } else {
      assert Contents(s) == (Contents(s) - {b})[b := Contents(s)[b]];
    }
  }

  lemma BlockRoom(s: State, b: Block)
    requires Valid(s) && b in s.bs
    ensures b.size < 0xFFFF_FFF0 && HDR <= b.Payload() <= |s.m| && (!b.free ==> b in Contents(s))
  {
    TilesOrder(s.bs, s.lo, s.hi);
  }

  // ----- what the statistics do -----

  lemma ReleaseUses(bs: seq<Block>, p: nat)
    requires IsLive(bs, p)
    ensures UsedBytes(Coalesce(Release(bs, p))) + bs[LiveAt(bs, p)].size == UsedBytes(bs)
  {
    var i := LiveAt(bs, p);
    UsedReplaced(bs, i, [bs[i].(free := true)]);
    assert Release(bs, p) == bs[..i] + [bs[i].(free := true)] + bs[i + 1..];
    CoalesceUses(Release(bs, p));
  }

  /** heap_used grows by exactly the buffer an allocation hands out, and not at all on NULL. */
  lemma AllocUses(s: State, n: nat, s': State, r: nat)
    requires Valid(s) && n < U32 && AllocStep(s, n, s', r)
    ensures r == 0 ==> UsedBytes(s'.bs) == UsedBytes(s.bs)
    ensures r != 0 ==> IsLive(s'.bs, r) && UsedBytes(s'.bs) == UsedBytes(s.bs) + s'.bs[LiveAt(s'.bs, r)].size
  {
    if r != 0 {
      var i := FirstFit(s.bs, AlignUp(n));
      TakeUses(s.bs, i, AlignUp(n));
      AllocKeepsValid(s, n, s', r);
      TakeLive(s.bs, i, AlignUp(n));
      LiveAtIs(s'.bs, s'.lo, s'.hi, s'.bs[i]);
    }
  }

  /** heap_used shrinks by exactly the buffer a free takes back. */
  lemma FreeUses(s: State, p: nat, s': State)
    requires Valid(s) && FreeStep(s, p, s')
    ensures UsedBytes(s.bs) == UsedBytes(s'.bs) + if IsLive(s.bs, p) then s.bs[LiveAt(s.bs, p)].size else 0
  {
    if IsLive(s.bs, p) { ReleaseUses(s.bs, p); }
  }

  /** heap_realloc with NULL adds a buffer, exactly as an allocation does. */
  lemma ReallocOfNull(s: State, n: nat, s': State, r: nat) returns (nb: Block)
    requires Valid(s) && n < U32 && ReallocStep(s, 0, n, s', r)
    ensures Valid(s')
    ensures r == 0 <==> n == 0 || !(exists a: nat :: FreeRun(s.bs, s.lo, s.hi, a, AlignUp(n)))
    ensures r == 0 ==> s' == s
    ensures r != 0 ==>
              && nb.Payload() == r && nb !in Contents(s) && nb in Contents(s')
              && Contents(s') == Contents(s)[nb := Contents(s')[nb]]
  {
    nb := AllocRefines(s, n, s', r);
  }

  /** heap_realloc to size 0 of a live buffer removes exactly that buffer and answers NULL. */
  lemma ReallocToNothing(s: State, p: nat, s': State, r: nat)
    requires Valid(s) && p != 0 && IsLive(s.bs, p) && ReallocStep(s, p, 0, s', r)
    ensures Valid(s') && r == 0 && Contents(s') == Contents(s) - {s.bs[LiveAt(s.bs, p)]}
  {
    FreeRefines(s, p, s');
  }

  /** Whatever was done and in whatever order it was undone, a heap with nothing live is the
      single free block it began as. */
  lemma RunsReclaimEverything(run: Run, i: nat)
    requires IsRun(run) && Valid(run.states[0]) && i < |run.states| && run.states[0].lo < run.states[0].hi
    requires forall b: Block :: b in run.states[i].bs ==> b.free
    ensures var s := run.states[0]; s.lo + HDR <= s.hi && run.states[i].bs == [Block(s.lo, s.hi - s.lo - HDR, true)]
  {
    RunsStayValid(run, i);
    AllFreeIsOneBlock(run.states[i].bs, run.states[i].lo, run.states[i].hi);
  }
}
