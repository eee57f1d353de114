/** The kernel's address space: the low identity map and two device windows, each with its own
    tables behind one shared directory. */
module MappedWindows {
  import opened Common
  import opened PageTables

  const LOW_TABLES := 2
  const LFB_TABLES := 8
  const MMIO_TABLES := 2
  const LOW_BYTES := 0x80_0000

  /** Physical addresses of the three sets of tables. */
  datatype Places = Places(low: nat, lfb: nat, mmio: nat)

  predicate Apart(p: Places) {
    && p.low % PAGE == 0 && p.lfb % PAGE == 0 && p.mmio % PAGE == 0
    && p.low + LOW_TABLES * PAGE <= U32 && p.lfb + LFB_TABLES * PAGE <= U32 && p.mmio + MMIO_TABLES * PAGE <= U32
    && (p.low + LOW_TABLES * PAGE <= p.lfb || p.lfb + LFB_TABLES * PAGE <= p.low)
    && (p.low + LOW_TABLES * PAGE <= p.mmio || p.mmio + MMIO_TABLES * PAGE <= p.low)
    && (p.lfb + LFB_TABLES * PAGE <= p.mmio || p.mmio + MMIO_TABLES * PAGE <= p.lfb)
  }

  /** The directory and the words of all tables. */
  datatype Space = Space(dir: seq<nat>, low: seq<nat>, lfb: seq<nat>, mmio: seq<nat>)

  predicate Sized(s: Space) {
    |s.dir| == ENTRIES && |s.low| == LOW_TABLES * ENTRIES && |s.lfb| == LFB_TABLES * ENTRIES
    && |s.mmio| == MMIO_TABLES * ENTRIES
  }

  /** A word of the table at physical address `a`; memory outside the tables reads as not present. */
  function TableWord(p: Places, s: Space, a: nat, e: nat): nat
    requires Sized(s) && a % PAGE == 0 && e < ENTRIES && Apart(p)
  {
    if p.low <= a < p.low + LOW_TABLES * PAGE then s.low[(a - p.low) / 4 + e]
    else if p.lfb <= a < p.lfb + LFB_TABLES * PAGE then s.lfb[(a - p.lfb) / 4 + e]
    else if p.mmio <= a < p.mmio + MMIO_TABLES * PAGE then s.mmio[(a - p.mmio) / 4 + e]
    else 0
  }

  /** What the hardware walk gives for `va`. */
  function WalkTo(p: Places, s: Space, va: nat): Walk
    requires Sized(s) && Apart(p) && va < U32
  {
    var pde := s.dir[PdeIndex(va)];
    if !Present(pde) then NotPresent else Leaf(TableWord(p, s, EntryAddr(pde), PteIndex(va)), va)
  }

  // ----- the identity invariant -----

  /** Words of a table that serves directory entry d map pages to themselves, if at all. */
  predicate SelfMap(w: nat, d: nat, e: nat) {
    Present(w) ==> EntryAddr(w) == d * FOURMB + e * PAGE
  }

  /** Directory entry d leads to a table whose words are all self maps. */
  ghost predicate EntryFine(p: Places, s: Space, d: nat)
    requires Sized(s) && Apart(p) && d < ENTRIES
  {
    Present(s.dir[d]) ==>
      forall e: nat :: e < ENTRIES ==> SelfMap(TableWord(p, s, EntryAddr(s.dir[d]), e), d, e)
  }

  ghost predicate SelfMapped(p: Places, s: Space)
    requires Sized(s) && Apart(p)
  {
    forall d: nat :: d < ENTRIES ==> EntryFine(p, s, d)
  }

  /** Then every present walk yields the address itself. */
  lemma PresentWalkIsIdentity(p: Places, s: Space, va: nat)
    requires Sized(s) && Apart(p) && va < U32 && SelfMapped(p, s)
    ensures WalkTo(p, s, va).Mapped? ==> WalkTo(p, s, va).phys == va
  {
    AddressSplit(va);
    assert EntryFine(p, s, PdeIndex(va));
    if Present(s.dir[PdeIndex(va)]) {
      assert SelfMap(TableWord(p, s, EntryAddr(s.dir[PdeIndex(va)]), PteIndex(va)), PdeIndex(va), PteIndex(va));
    }
  }

  // ----- mapping a window -----

  /** The directory index t tables after b, going round at 4 GiB. */
  function PdeAt(b: nat, t: nat): nat
    requires b < ENTRIES && t <= ENTRIES
  {
    if b + t < ENTRIES then b + t else b + t - ENTRIES
  }

  /** How many tables after b directory entry d lies. */
  function Rel(b: nat, d: nat): nat
    requires b < ENTRIES && d < ENTRIES
  {
    if b <= d then d - b else d + ENTRIES - b
  }

  /** The tables a region needs, in 32-bit arithmetic. */
  function TablesNeeded(phys: nat, bytes: nat): nat {
    (phys + bytes - phys / FOURMB * FOURMB + FOURMB - 1) % U32 / FOURMB
  }

  /** The directory after mapping n tables at physical address `at` from entry b on. */
  ghost predicate DirMapped(dir: seq<nat>, dir': seq<nat>, at: nat, b: nat, n: nat)
    requires b < ENTRIES
  {
    |dir| == ENTRIES == |dir'| &&
    forall d: nat :: d < ENTRIES ==>
      dir'[d] == if Rel(b, d) < n then MakeEntry(at + Rel(b, d) * PAGE, RW + 1) else dir[d]
  }

  /** The window's tables: word p maps page p of the window, further tables are untouched. */
  ghost predicate TablesMapped(tabs: seq<nat>, tabs': seq<nat>, b: nat, n: nat, flags: nat)
    requires b < ENTRIES && n <= ENTRIES
  {
    |tabs| == |tabs'| && n * ENTRIES <= |tabs| &&
    forall w: nat :: w < |tabs| ==>
      tabs'[w] == if w < n * ENTRIES
                  then MakeEntry(PdeAt(b, w / ENTRIES) * FOURMB + w % ENTRIES * PAGE, flags) else tabs[w]
  }

  /** No directory entry leads into the tables [at, at + n pages): the window is not mapped yet. */
  predicate Unmapped(dir: seq<nat>, at: nat, n: nat) {
    forall d :: 0 <= d < |dir| && Present(dir[d]) ==> !(at <= EntryAddr(dir[d]) < at + n * PAGE)
  }

  lemma WindowWord(b: nat, t: nat, e: nat, flags: nat)
    requires b < ENTRIES && t < ENTRIES && e < ENTRIES && flags < PAGE && flags % 2 == 1
    ensures var w := MakeEntry(PdeAt(b, t) * FOURMB + e * PAGE, flags);
            Present(w) && EntryAddr(w) == PdeAt(b, t) * FOURMB + e * PAGE
    ensures (t * ENTRIES + e) / ENTRIES == t && (t * ENTRIES + e) % ENTRIES == e
  {
    var page := PdeAt(b, t) * ENTRIES + e;
    assert PdeAt(b, t) * FOURMB + e * PAGE == page * PAGE;
    EntryRoundTrip(page * PAGE, flags);
    EntryParts(page, 0);
    IndexParts(t, e);
  }

  lemma IndexParts(t: nat, e: nat)
    requires e < ENTRIES
    ensures (t * ENTRIES + e) / ENTRIES == t && (t * ENTRIES + e) % ENTRIES == e
  {
  }

  lemma DirWord(at: nat, t: nat, tables: nat)
    requires at % PAGE == 0 && t < tables && at + tables * PAGE <= U32
    ensures var w := MakeEntry(at + t * PAGE, RW + 1); Present(w) && EntryAddr(w) == at + t * PAGE
  {
    EntryRoundTrip(at + t * PAGE, RW + 1);
  }

  /** The effect of mapping n tables of the framebuffer window (or else the register window) from
      directory entry b on. */
  ghost predicate Maps(p: Places, s: Space, s': Space, lfb: bool, b: nat, n: nat, flags: nat)
    requires b < ENTRIES && n <= ENTRIES
  {
    && s'.low == s.low
    && if lfb then
         s'.mmio == s.mmio && DirMapped(s.dir, s'.dir, p.lfb, b, n) && TablesMapped(s.lfb, s'.lfb, b, n, flags)
       else
         s'.lfb == s.lfb && DirMapped(s.dir, s'.dir, p.mmio, b, n) && TablesMapped(s.mmio, s'.mmio, b, n, flags)
  }

  function Limit(lfb: bool): nat { if lfb then LFB_TABLES else MMIO_TABLES }

  function Place(p: Places, lfb: bool): nat { if lfb then p.lfb else p.mmio }

  /** Mapping a window whose tables nothing uses yet keeps every walk an identity, whatever
      directory entries it takes over, and makes its own entries fully present. */
  lemma WindowKeepsSelfMap(p: Places, s: Space, s': Space, lfb: bool, b: nat, n: nat, flags: nat)
    requires Sized(s) && Sized(s') && Apart(p) && SelfMapped(p, s) && b < ENTRIES && flags < PAGE && flags % 2 == 1
    requires n <= Limit(lfb) && Unmapped(s.dir, Place(p, lfb), Limit(lfb)) && Maps(p, s, s', lfb, b, n, flags)
    ensures SelfMapped(p, s')
  {
    forall d: nat | d < ENTRIES ensures EntryFine(p, s', d) {
      if Rel(b, d) < n {
        WindowEntryFine(p, s', lfb, b, n, flags, d);
      } else {
        assert EntryFine(p, s, d);
        if Present(s.dir[d]) {
          forall e: nat | e < ENTRIES ensures SelfMap(TableWord(p, s', EntryAddr(s'.dir[d]), e), d, e) {
            assert SelfMap(TableWord(p, s, EntryAddr(s.dir[d]), e), d, e);
          }
        }
      }
    }
  }

  /** The words of a window's tables. */
  function Tabs(s: Space, lfb: bool): seq<nat> { if lfb then s.lfb else s.mmio }

  /** Table t of a window, word by word. */
  lemma WindowTable(p: Places, s: Space, lfb: bool, t: nat, e: nat)
    requires Sized(s) && Apart(p) && t < Limit(lfb) && e < ENTRIES
    ensures t * ENTRIES + e < |Tabs(s, lfb)| && (Place(p, lfb) + t * PAGE) % PAGE == 0
    ensures TableWord(p, s, Place(p, lfb) + t * PAGE, e) == Tabs(s, lfb)[t * ENTRIES + e]
  {
    var a := Place(p, lfb) + t * PAGE;
    assert t * PAGE < Limit(lfb) * PAGE && (a - Place(p, lfb)) / 4 == t * ENTRIES by { TableOffset(t, Limit(lfb)); }
    assert a % PAGE == 0 by { PageOffset(Place(p, lfb), t); }
  }

  lemma TableOffset(t: nat, limit: nat)
    requires t < limit
    ensures t * PAGE + PAGE <= limit * PAGE && t * PAGE / 4 == t * ENTRIES
  {
  }

  lemma PageOffset(at: nat, t: nat)
    requires at % PAGE == 0
    ensures (at + t * PAGE) % PAGE == 0
  {
  }

  /** Word e of table t lies among the first n tables exactly when t does. */
  lemma WordOfTable(t: nat, e: nat, n: nat)
    requires e < ENTRIES
    ensures t * ENTRIES + e < n * ENTRIES <==> t < n
  {
  }

  /** Word e of the table that the window uses for directory entry d. */
  lemma WindowEntryWord(p: Places, s: Space, lfb: bool, b: nat, n: nat, flags: nat, d: nat, e: nat)
    requires Sized(s) && Apart(p) && b < ENTRIES && d < ENTRIES && e < ENTRIES && n <= Limit(lfb) && Rel(b, d) < n
    requires forall w: nat :: w < n * ENTRIES ==>
               Tabs(s, lfb)[w] == MakeEntry(PdeAt(b, w / ENTRIES) * FOURMB + w % ENTRIES * PAGE, flags)
    ensures (Place(p, lfb) + Rel(b, d) * PAGE) % PAGE == 0
    ensures TableWord(p, s, Place(p, lfb) + Rel(b, d) * PAGE, e) == MakeEntry(d * FOURMB + e * PAGE, flags)
  {
    var t := Rel(b, d);
    WindowTable(p, s, lfb, t, e);
    WordOfTable(t, e, n);
    IndexParts(t, e);
    assert PdeAt(b, t) == d;
  }

  lemma WindowEntryFine(p: Places, s: Space, lfb: bool, b: nat, n: nat, flags: nat, d: nat)
    requires Sized(s) && Apart(p) && b < ENTRIES && d < ENTRIES && flags < PAGE && flags % 2 == 1
    requires n <= Limit(lfb) && Rel(b, d) < n
    requires s.dir[d] == MakeEntry(Place(p, lfb) + Rel(b, d) * PAGE, RW + 1)
    requires forall w: nat :: w < n * ENTRIES ==>
               Tabs(s, lfb)[w] == MakeEntry(PdeAt(b, w / ENTRIES) * FOURMB + w % ENTRIES * PAGE, flags)
    ensures Present(s.dir[d]) && EntryFine(p, s, d)
    ensures forall e: nat :: e < ENTRIES ==> Present(TableWord(p, s, EntryAddr(s.dir[d]), e))
  {
    var t := Rel(b, d);
    DirWord(Place(p, lfb), t, Limit(lfb));
    forall e: nat | e < ENTRIES
      ensures var w := TableWord(p, s, EntryAddr(s.dir[d]), e); Present(w) && SelfMap(w, d, e)
    {
      WindowEntryWord(p, s, lfb, b, n, flags, d, e);
      WindowWord(d, 0, e, flags);
    }
  }

  /** Addresses under a mapped entry are present afterwards. */
  lemma WindowPresent(p: Places, s: Space, s': Space, lfb: bool, b: nat, n: nat, flags: nat, va: nat)
    requires Sized(s) && Sized(s') && Apart(p) && b < ENTRIES && flags < PAGE && flags % 2 == 1 && va < U32
    requires n <= Limit(lfb) && Maps(p, s, s', lfb, b, n, flags) && Rel(b, PdeIndex(va)) < n
    ensures WalkTo(p, s', va) == Mapped(va)
  {
    AddressSplit(va);
    WindowEntryFine(p, s', lfb, b, n, flags, PdeIndex(va));
    FineEntryWalks(p, s', va);
  }

  /** Addresses under other entries walk as before, if they did not walk through the window's tables. */
  lemma OutsideKept(p: Places, s: Space, s': Space, lfb: bool, b: nat, n: nat, flags: nat, va: nat)
    requires Sized(s) && Sized(s') && Apart(p) && b < ENTRIES && n <= Limit(lfb) && Maps(p, s, s', lfb, b, n, flags)
    requires va < U32 && PdeIndex(va) < ENTRIES && Rel(b, PdeIndex(va)) >= n
    requires Unmapped(s.dir, Place(p, lfb), Limit(lfb))
    ensures WalkTo(p, s', va) == WalkTo(p, s, va)
  {
  }

  lemma FineEntryWalks(p: Places, s: Space, va: nat)
    requires Sized(s) && Apart(p) && va < U32 && PdeIndex(va) < ENTRIES && PteIndex(va) < ENTRIES
    requires Present(s.dir[PdeIndex(va)]) && EntryFine(p, s, PdeIndex(va))
    requires Present(TableWord(p, s, EntryAddr(s.dir[PdeIndex(va)]), PteIndex(va)))
    ensures WalkTo(p, s, va) == Mapped(va)
  {
    AddressSplit(va);
    assert SelfMap(TableWord(p, s, EntryAddr(s.dir[PdeIndex(va)]), PteIndex(va)), PdeIndex(va), PteIndex(va));
  }

  /** The tables a call maps: the framebuffer window clamps, the register window refuses. */
  function Granted(lfb: bool, phys: nat, bytes: nat): (n: nat)
    ensures n <= Limit(lfb)
  {
    var n := TablesNeeded(phys, bytes);
    if n <= Limit(lfb) then n else if lfb then LFB_TABLES else 0
  }

  /** For a region that fits its window's tables the request is granted in full. */
  lemma RegionFits(lfb: bool, phys: nat, bytes: nat, va: nat)
    requires phys % FOURMB + bytes <= Limit(lfb) * FOURMB && phys <= va < phys + bytes <= U32
    ensures phys / FOURMB < ENTRIES && PdeIndex(va) < ENTRIES
    ensures Rel(phys / FOURMB, PdeIndex(va)) < Granted(lfb, phys, bytes) == TablesNeeded(phys, bytes)
  {
    var span := phys % FOURMB + bytes;
    assert phys + bytes - phys / FOURMB * FOURMB == span;
    assert (span + FOURMB - 1) % U32 == span + FOURMB - 1;
  }

  /** For one that does not, its last byte lies beyond the tables that are mapped. */
  lemma RegionOverflows(lfb: bool, phys: nat, bytes: nat)
    requires phys % FOURMB + bytes > Limit(lfb) * FOURMB && phys + bytes <= U32
    ensures bytes > 0 && phys / FOURMB < ENTRIES && PdeIndex(phys + bytes - 1) < ENTRIES
    ensures Rel(phys / FOURMB, PdeIndex(phys + bytes - 1)) >= Granted(lfb, phys, bytes)
  {
    var span := phys % FOURMB + bytes;
    assert phys + bytes - phys / FOURMB * FOURMB == span;
    LastTable(phys, bytes);
  }

  /** So the clamp, or the refusal, leaves a region covered exactly when its span fits. */
  lemma GrantCoversExactly(lfb: bool, phys: nat, bytes: nat)
    requires 0 < bytes && phys + bytes <= U32
    ensures phys / FOURMB < ENTRIES
    ensures (forall va :: phys <= va < phys + bytes ==>
               PdeIndex(va) < ENTRIES && Rel(phys / FOURMB, PdeIndex(va)) < Granted(lfb, phys, bytes)) <==>
            phys % FOURMB + bytes <= Limit(lfb) * FOURMB
  {
    LastTable(phys, bytes);
    if phys % FOURMB + bytes <= Limit(lfb) * FOURMB {
      forall va | phys <= va < phys + bytes
        ensures PdeIndex(va) < ENTRIES && Rel(phys / FOURMB, PdeIndex(va)) < Granted(lfb, phys, bytes)
      {
        RegionFits(lfb, phys, bytes, va);
      }
    } else {
      RegionOverflows(lfb, phys, bytes);
      var last := phys + bytes - 1;
      assert phys <= last < phys + bytes && Rel(phys / FOURMB, PdeIndex(last)) >= Granted(lfb, phys, bytes);
    }
  }

  /** No table is mapped in vain: the last one granted holds a byte of the region. */
  lemma GrantIsTight(lfb: bool, phys: nat, bytes: nat) returns (va: nat)
    requires 0 < bytes && phys + bytes <= U32 && Granted(lfb, phys, bytes) > 0
    ensures phys / FOURMB < ENTRIES && phys <= va < phys + bytes && PdeIndex(va) < ENTRIES
    ensures Rel(phys / FOURMB, PdeIndex(va)) == Granted(lfb, phys, bytes) - 1
  {
    LastTable(phys, bytes);
    var n, span := Granted(lfb, phys, bytes), phys % FOURMB + bytes;
    assert phys + bytes - phys / FOURMB * FOURMB == span;
    assert (n - 1) * FOURMB < span;
    va := if n == 1 then phys else (phys / FOURMB + n - 1) * FOURMB;
  }

  lemma LastTable(phys: nat, bytes: nat)
    requires 0 < bytes && phys + bytes <= U32
    ensures phys / FOURMB <= (phys + bytes - 1) / FOURMB < ENTRIES
    ensures (phys + bytes - 1) / FOURMB - phys / FOURMB == (phys % FOURMB + bytes - 1) / FOURMB
  {
  }

  /** Exactly the regions whose span, from the 4 MiB boundary below, fits the window's tables are
      present throughout after a call; a larger framebuffer is accepted but cut short. */
  lemma RegionPresentExactly(p: Places, s: Space, s': Space, lfb: bool, phys: nat, bytes: nat, flags: nat)
    requires Sized(s) && Sized(s') && Apart(p) && flags < PAGE && flags % 2 == 1
    requires 0 < bytes && phys + bytes <= U32 && phys / FOURMB < ENTRIES
    requires Maps(p, s, s', lfb, phys / FOURMB, Granted(lfb, phys, bytes), flags)
    requires Unmapped(s.dir, Place(p, lfb), Limit(lfb))
    requires forall va :: phys <= va < phys + bytes ==> !WalkTo(p, s, va).Mapped?
    ensures (forall va :: phys <= va < phys + bytes ==> WalkTo(p, s', va) == Mapped(va)) <==>
            phys % FOURMB + bytes <= Limit(lfb) * FOURMB
  {
    var b, n := phys / FOURMB, Granted(lfb, phys, bytes);
    if phys % FOURMB + bytes <= Limit(lfb) * FOURMB {
      forall va | phys <= va < phys + bytes ensures WalkTo(p, s', va) == Mapped(va) {
        RegionFits(lfb, phys, bytes, va);
        WindowPresent(p, s, s', lfb, b, n, flags, va);
      }
    } else {
      var va := phys + bytes - 1;
      RegionOverflows(lfb, phys, bytes);
      OutsideKept(p, s, s', lfb, b, n, flags, va);
      assert WalkTo(p, s', va) != Mapped(va);
    }
  }

  /** Mapping one window leaves the other's tables as unused as they were. */
  lemma OtherStaysUnmapped(p: Places, s: Space, s': Space, lfb: bool, b: nat, n: nat, flags: nat)
    requires Sized(s) && Sized(s') && Apart(p) && b < ENTRIES && n <= Limit(lfb) && Maps(p, s, s', lfb, b, n, flags)
    requires Unmapped(s.dir, Place(p, !lfb), Limit(!lfb))
    ensures Unmapped(s'.dir, Place(p, !lfb), Limit(!lfb))
  {
    forall d | 0 <= d < |s'.dir| && Present(s'.dir[d])
      ensures !(Place(p, !lfb) <= EntryAddr(s'.dir[d]) < Place(p, !lfb) + Limit(!lfb) * PAGE)
    {
      if Rel(b, d) < n { DirWord(Place(p, lfb), Rel(b, d), Limit(lfb)); }
    }
  }

  /** What was present stays present under a later mapping of a fresh window. */
  lemma PresenceKept(p: Places, s: Space, s': Space, lfb: bool, b: nat, n: nat, flags: nat, va: nat)
    requires Sized(s) && Sized(s') && Apart(p) && b < ENTRIES && flags < PAGE && flags % 2 == 1 && va < U32
    requires n <= Limit(lfb) && Unmapped(s.dir, Place(p, lfb), Limit(lfb)) && Maps(p, s, s', lfb, b, n, flags)
    requires WalkTo(p, s, va) == Mapped(va)
    ensures WalkTo(p, s', va) == Mapped(va)
  {
    AddressSplit(va);
    if Rel(b, PdeIndex(va)) < n { WindowPresent(p, s, s', lfb, b, n, flags, va); }
  }

  /** After vmm_init: low memory mapped to itself and neither window in use. */
  ghost predicate Booted(p: Places, s: Space) {
    Sized(s) && Apart(p) && IdentityTables(s.dir, s.low, p.low, LOW_BYTES, RW + USER)
  }

  lemma BootedEntry(p: Places, s: Space, d: nat)
    requires Booted(p, s) && d < ENTRIES
    ensures Present(s.dir[d]) <==> d < LOW_TABLES
    ensures d < LOW_TABLES ==> EntryAddr(s.dir[d]) == p.low + d * PAGE
  {
    if d < LOW_TABLES { EntryRoundTrip(p.low + d * PAGE, WithPresent(RW + USER)); }
  }

  lemma BootedIsSelfMapped(p: Places, s: Space)
    requires Booted(p, s)
    ensures SelfMapped(p, s) && Unmapped(s.dir, p.lfb, LFB_TABLES) && Unmapped(s.dir, p.mmio, MMIO_TABLES)
  {
    forall d: nat | d < ENTRIES ensures EntryFine(p, s, d) {
      BootedEntry(p, s, d);
      if d < LOW_TABLES {
        forall e: nat | e < ENTRIES ensures SelfMap(TableWord(p, s, EntryAddr(s.dir[d]), e), d, e) {
          assert d * PAGE / 4 + e == d * ENTRIES + e < LOW_TABLES * ENTRIES;
          EntryRoundTrip((d * ENTRIES + e) * PAGE, WithPresent(RW + USER));
        }
      }
    }
    forall d | 0 <= d < |s.dir| && Present(s.dir[d])
      ensures !(p.lfb <= EntryAddr(s.dir[d]) < p.lfb + LFB_TABLES * PAGE)
      ensures !(p.mmio <= EntryAddr(s.dir[d]) < p.mmio + MMIO_TABLES * PAGE)
    {
      BootedEntry(p, s, d);
    }
  }

  /** After vmm_init and one mapping of each window, in either order and even where they share
      directory entries, every present walk yields the address itself, and each region that fits
      its tables is present throughout. */
  lemma WindowsInAnyOrder(p: Places, s0: Space, s1: Space, s2: Space, lfbFirst: bool,
                          b1: nat, n1: nat, flags1: nat, b2: nat, n2: nat, flags2: nat, va: nat)
    requires Booted(p, s0) && Sized(s1) && Sized(s2) && va < U32
    requires b1 < ENTRIES && n1 <= Limit(lfbFirst) && flags1 < PAGE && flags1 % 2 == 1
    requires b2 < ENTRIES && n2 <= Limit(!lfbFirst) && flags2 < PAGE && flags2 % 2 == 1
    requires Maps(p, s0, s1, lfbFirst, b1, n1, flags1) && Maps(p, s1, s2, !lfbFirst, b2, n2, flags2)
    ensures WalkTo(p, s1, va).Mapped? ==> WalkTo(p, s1, va).phys == va
    ensures WalkTo(p, s2, va).Mapped? ==> WalkTo(p, s2, va).phys == va
    ensures (PdeIndex(va) < ENTRIES && (Rel(b1, PdeIndex(va)) < n1 || Rel(b2, PdeIndex(va)) < n2))
              ==> WalkTo(p, s2, va) == Mapped(va)
    ensures WalkTo(p, s0, va).Mapped? ==> WalkTo(p, s2, va) == Mapped(va)
  {
    BootedIsSelfMapped(p, s0);
    AddressSplit(va);
    WindowKeepsSelfMap(p, s0, s1, lfbFirst, b1, n1, flags1);
    OtherStaysUnmapped(p, s0, s1, lfbFirst, b1, n1, flags1);
    WindowKeepsSelfMap(p, s1, s2, !lfbFirst, b2, n2, flags2);
    PresentWalkIsIdentity(p, s0, va);
    PresentWalkIsIdentity(p, s1, va);
    PresentWalkIsIdentity(p, s2, va);
    if WalkTo(p, s0, va).Mapped? { PresenceKept(p, s0, s1, lfbFirst, b1, n1, flags1, va); }
    if Rel(b1, PdeIndex(va)) < n1 { WindowPresent(p, s0, s1, lfbFirst, b1, n1, flags1, va); }
    if WalkTo(p, s1, va) == Mapped(va) { PresenceKept(p, s1, s2, !lfbFirst, b2, n2, flags2, va); }
    if Rel(b2, PdeIndex(va)) < n2 { WindowPresent(p, s1, s2, !lfbFirst, b2, n2, flags2, va); }
  }

  /** What a second mapping of the same window leaves of the first. */
  ghost predicate Remapped(p: Places, s0: Space, s1: Space, s2: Space, lfb: bool,
                           b1: nat, n1: nat, flags1: nat, b2: nat, n2: nat, flags2: nat) {
    && Sized(s0) && Sized(s1) && Sized(s2) && Apart(p)
    && b1 < ENTRIES && n1 <= Limit(lfb) && flags1 < PAGE && flags1 % 2 == 1
    && b2 < ENTRIES && n2 <= Limit(lfb) && flags2 < PAGE && flags2 % 2 == 1
    && Maps(p, s0, s1, lfb, b1, n1, flags1) && Maps(p, s1, s2, lfb, b2, n2, flags2)
  }

  /** The second mapping reuses the window's tables: where the entry of table t from the first
      mapping is not taken over, its addresses now walk into the second region. */
  lemma SecondMappingAliases(p: Places, s0: Space, s1: Space, s2: Space, lfb: bool,
                             b1: nat, n1: nat, flags1: nat, b2: nat, n2: nat, flags2: nat, t: nat, va: nat)
    requires Remapped(p, s0, s1, s2, lfb, b1, n1, flags1, b2, n2, flags2)
    requires t < n1 && t < n2 && Rel(b2, PdeAt(b1, t)) >= n2 && va < U32 && PdeIndex(va) == PdeAt(b1, t)
    ensures WalkTo(p, s2, va) == Mapped(PdeAt(b2, t) * FOURMB + va % FOURMB)
    ensures PdeAt(b2, t) * FOURMB + va % FOURMB != va
  {
    AddressSplit(va);
    AliasWords(p, s0, s1, s2, lfb, b1, n1, flags1, b2, n2, flags2, t, PteIndex(va));
    WalkThrough(p, s2, lfb, t, PdeAt(b2, t), flags2, va);
    assert PdeAt(b2, t) != PdeIndex(va);
  }

  /** The two words such a walk reads. */
  lemma AliasWords(p: Places, s0: Space, s1: Space, s2: Space, lfb: bool,
                   b1: nat, n1: nat, flags1: nat, b2: nat, n2: nat, flags2: nat, t: nat, e: nat)
    requires Remapped(p, s0, s1, s2, lfb, b1, n1, flags1, b2, n2, flags2)
    requires t < n1 && t < n2 && Rel(b2, PdeAt(b1, t)) >= n2 && e < ENTRIES
    ensures s2.dir[PdeAt(b1, t)] == MakeEntry(Place(p, lfb) + t * PAGE, RW + 1)
    ensures t * ENTRIES + e < |Tabs(s2, lfb)|
    ensures Tabs(s2, lfb)[t * ENTRIES + e] == MakeEntry(PdeAt(b2, t) * FOURMB + e * PAGE, flags2)
  {
    assert Rel(b1, PdeAt(b1, t)) == t;
    IndexParts(t, e);
    WordOfTable(t, e, n2);
  }

  /** A walk through table t of a window whose word maps directory entry d's page. */
  lemma WalkThrough(p: Places, s: Space, lfb: bool, t: nat, d: nat, flags: nat, va: nat)
    requires Sized(s) && Apart(p) && t < Limit(lfb) && d < ENTRIES && flags < PAGE && flags % 2 == 1 && va < U32
    requires PdeIndex(va) < ENTRIES && PteIndex(va) < ENTRIES && t * ENTRIES + PteIndex(va) < |Tabs(s, lfb)|
    requires s.dir[PdeIndex(va)] == MakeEntry(Place(p, lfb) + t * PAGE, RW + 1)
    requires Tabs(s, lfb)[t * ENTRIES + PteIndex(va)] == MakeEntry(d * FOURMB + PteIndex(va) * PAGE, flags)
    ensures WalkTo(p, s, va) == Mapped(d * FOURMB + va % FOURMB)
  {
    AddressSplit(va);
    DirWord(Place(p, lfb), t, Limit(lfb));
    WindowWord(d, 0, PteIndex(va), flags);
    WindowTable(p, s, lfb, t, PteIndex(va));
    assert va % FOURMB == PteIndex(va) * PAGE + Offset(va);
  }

  /** An entry of the first mapping whose table the second does not reach. */
  lemma FirstTableKept(p: Places, s0: Space, s1: Space, s2: Space, lfb: bool,
                       b1: nat, n1: nat, flags1: nat, b2: nat, n2: nat, flags2: nat, d: nat)
    requires Remapped(p, s0, s1, s2, lfb, b1, n1, flags1, b2, n2, flags2) && d < ENTRIES
    requires n2 <= Rel(b2, d) && n2 <= Rel(b1, d) < n1
    ensures EntryFine(p, s2, d)
  {
    var t := Rel(b1, d);
    WindowEntryFine(p, s1, lfb, b1, n1, flags1, d);
    assert s2.dir[d] == s1.dir[d] && EntryAddr(s1.dir[d]) == Place(p, lfb) + t * PAGE by {
      DirWord(Place(p, lfb), t, Limit(lfb));
    }
    forall e: nat | e < ENTRIES ensures SelfMap(TableWord(p, s2, EntryAddr(s2.dir[d]), e), d, e) {
      assert SelfMap(TableWord(p, s1, EntryAddr(s1.dir[d]), e), d, e);
      LaterTableKept(p, s1, s2, lfb, b2, n2, flags2, t, e);
    }
  }

  lemma LaterTableKept(p: Places, s: Space, s': Space, lfb: bool, b: nat, n: nat, flags: nat, t: nat, e: nat)
    requires Sized(s) && Sized(s') && Apart(p) && b < ENTRIES && n <= t < Limit(lfb) && e < ENTRIES
    requires Maps(p, s, s', lfb, b, n, flags)
    ensures (Place(p, lfb) + t * PAGE) % PAGE == 0
    ensures TableWord(p, s', Place(p, lfb) + t * PAGE, e) == TableWord(p, s, Place(p, lfb) + t * PAGE, e)
  {
    WindowTable(p, s, lfb, t, e);
    WindowTable(p, s', lfb, t, e);
    WordOfTable(t, e, n);
  }

  /** An entry neither mapping took. */
  lemma OlderEntryKept(p: Places, s0: Space, s1: Space, s2: Space, lfb: bool,
                       b1: nat, n1: nat, flags1: nat, b2: nat, n2: nat, flags2: nat, d: nat)
    requires Remapped(p, s0, s1, s2, lfb, b1, n1, flags1, b2, n2, flags2) && d < ENTRIES
    requires EntryFine(p, s0, d) && Unmapped(s0.dir, Place(p, lfb), Limit(lfb))
    requires n2 <= Rel(b2, d) && n1 <= Rel(b1, d)
    ensures EntryFine(p, s2, d)
  {
    assert s2.dir[d] == s1.dir[d] == s0.dir[d];
    if Present(s0.dir[d]) {
      forall e: nat | e < ENTRIES ensures SelfMap(TableWord(p, s2, EntryAddr(s2.dir[d]), e), d, e) {
        assert SelfMap(TableWord(p, s0, EntryAddr(s0.dir[d]), e), d, e);
      }
    }
  }

  /** The second mapping takes over the directory entry of every table it rewrites. */
  predicate TakesOver(b1: nat, n1: nat, b2: nat, n2: nat)
    requires b1 < ENTRIES && b2 < ENTRIES && n1 <= ENTRIES
  {
    forall t: nat :: t < n1 && t < n2 ==> Rel(b2, PdeAt(b1, t)) < n2
  }

  lemma EntryAfterBoth(p: Places, s0: Space, s1: Space, s2: Space, lfb: bool,
                       b1: nat, n1: nat, flags1: nat, b2: nat, n2: nat, flags2: nat, d: nat)
    requires Remapped(p, s0, s1, s2, lfb, b1, n1, flags1, b2, n2, flags2) && d < ENTRIES
    requires EntryFine(p, s0, d) && Unmapped(s0.dir, Place(p, lfb), Limit(lfb)) && TakesOver(b1, n1, b2, n2)
    ensures EntryFine(p, s2, d)
  {
    assert PdeAt(b1, Rel(b1, d)) == d;
    if Rel(b2, d) < n2 {
      WindowEntryFine(p, s2, lfb, b2, n2, flags2, d);
    } else if Rel(b1, d) < n1 {
      FirstTableKept(p, s0, s1, s2, lfb, b1, n1, flags1, b2, n2, flags2, d);
    } else {
      OlderEntryKept(p, s0, s1, s2, lfb, b1, n1, flags1, b2, n2, flags2, d);
    }
  }

  lemma AliasBreaks(p: Places, s0: Space, s1: Space, s2: Space, lfb: bool,
                    b1: nat, n1: nat, flags1: nat, b2: nat, n2: nat, flags2: nat, t: nat)
    requires Remapped(p, s0, s1, s2, lfb, b1, n1, flags1, b2, n2, flags2)
    requires t < n1 && t < n2 && Rel(b2, PdeAt(b1, t)) >= n2
    ensures !SelfMapped(p, s2)
  {
    var va := PdeAt(b1, t) * FOURMB;
    SecondMappingAliases(p, s0, s1, s2, lfb, b1, n1, flags1, b2, n2, flags2, t, va);
    if SelfMapped(p, s2) { PresentWalkIsIdentity(p, s2, va); }
  }

  /** After mapping a window twice every present walk is still an identity if and only if the
      second mapping takes over the directory entry of every table it rewrites. */
  lemma SecondMappingExactly(p: Places, s0: Space, s1: Space, s2: Space, lfb: bool,
                             b1: nat, n1: nat, flags1: nat, b2: nat, n2: nat, flags2: nat)
    requires Remapped(p, s0, s1, s2, lfb, b1, n1, flags1, b2, n2, flags2)
    requires SelfMapped(p, s0) && Unmapped(s0.dir, Place(p, lfb), Limit(lfb))
    ensures SelfMapped(p, s2) <==> TakesOver(b1, n1, b2, n2)
  {
    if TakesOver(b1, n1, b2, n2) {
      forall d: nat | d < ENTRIES ensures EntryFine(p, s2, d) {
        EntryAfterBoth(p, s0, s1, s2, lfb, b1, n1, flags1, b2, n2, flags2, d);
      }
    } else {
      var t: nat :| t < n1 && t < n2 && Rel(b2, PdeAt(b1, t)) >= n2;
      AliasBreaks(p, s0, s1, s2, lfb, b1, n1, flags1, b2, n2, flags2, t);
    }
  }

  // ----- access rights -----

  /** Both words of the walk for `va`, in their low twelve bits: 1 present, 2 writable, 4 user,
      16 cache-disabled. */
  ghost predicate PageIs(p: Places, s: Space, va: nat, dirBits: nat, pageBits: nat) {
    && Sized(s) && Apart(p) && va < U32 && PdeIndex(va) < ENTRIES && PteIndex(va) < ENTRIES
    && s.dir[PdeIndex(va)] % 0x1000 == dirBits
    && TableWord(p, s, EntryAddr(s.dir[PdeIndex(va)]), PteIndex(va)) % 0x1000 == pageBits
  }

  /** After vmm_init the low 8 MiB are present, writable and open to ring 3 at both levels. */
  lemma BootedRights(p: Places, s: Space, va: nat)
    requires Booted(p, s) && va < 0x80_0000
    ensures PageIs(p, s, va, 7, 7)
  {
    AddressSplit(va);
    var d, e := PdeIndex(va), PteIndex(va);
    assert d < LOW_TABLES && WithPresent(RW + USER) == 7;
    BootedEntry(p, s, d);
    EntryRoundTrip(p.low + d * PAGE, 7);
    assert d * PAGE / 4 + e == d * ENTRIES + e < LOW_TABLES * ENTRIES;
    EntryRoundTrip((d * ENTRIES + e) * PAGE, 7);
  }

  /** Pages of a window are present and writable at both levels, for the kernel only, and carry the
      window's own flags. */
  lemma WindowRights(p: Places, s: Space, s': Space, lfb: bool, b: nat, n: nat, flags: nat, va: nat)
    requires Sized(s) && Sized(s') && Apart(p) && b < ENTRIES && flags < PAGE && flags % 2 == 1 && va < U32
    requires n <= Limit(lfb) && Maps(p, s, s', lfb, b, n, flags) && Rel(b, PdeIndex(va)) < n
    ensures PageIs(p, s', va, 3, flags)
  {
    AddressSplit(va);
    var d, e := PdeIndex(va), PteIndex(va);
    WindowWords(p, s, s', lfb, b, n, flags, d, e);
    WordBits(p, s', va, Place(p, lfb) + Rel(b, d) * PAGE, d * FOURMB + e * PAGE, flags);
  }

  lemma WordBits(p: Places, s: Space, va: nat, table: nat, page: nat, flags: nat)
    requires Sized(s) && Apart(p) && va < U32 && PdeIndex(va) < ENTRIES && PteIndex(va) < ENTRIES
    requires table % PAGE == 0 && table < U32 && page < U32 && flags < PAGE
    requires s.dir[PdeIndex(va)] == MakeEntry(table, RW + 1)
    requires TableWord(p, s, table, PteIndex(va)) == MakeEntry(page, flags)
    ensures PageIs(p, s, va, 3, flags)
  {
    EntryRoundTrip(table, RW + 1);
    EntryRoundTrip(page, flags);
    assert table / PAGE * PAGE == table;
  }

  lemma WindowWords(p: Places, s: Space, s': Space, lfb: bool, b: nat, n: nat, flags: nat, d: nat, e: nat)
    requires Sized(s) && Sized(s') && Apart(p) && b < ENTRIES && d < ENTRIES && e < ENTRIES
    requires n <= Limit(lfb) && Maps(p, s, s', lfb, b, n, flags) && Rel(b, d) < n
    ensures s'.dir[d] == MakeEntry(Place(p, lfb) + Rel(b, d) * PAGE, RW + 1)
    ensures (Place(p, lfb) + Rel(b, d) * PAGE) % PAGE == 0
    ensures TableWord(p, s', Place(p, lfb) + Rel(b, d) * PAGE, e) == MakeEntry(d * FOURMB + e * PAGE, flags)
  {
    WindowEntryWord(p, s', lfb, b, n, flags, d, e);
  }

  // ----- the builders -----

  class Vmm {
    const p: Places
    const dir: array<nat>
    const low: array<nat>
    const lfb: array<nat>
    const mmio: array<nat>
    var ready: bool

    ghost predicate Valid()
      reads this, dir, low, lfb, mmio
    {
      && Apart(p) && Sized(View())
      && dir != low && dir != lfb && dir != mmio && low != lfb && low != mmio && lfb != mmio
    }

    ghost function View(): Space
      reads this, dir, low, lfb, mmio
    {
      Space(dir[..], low[..], lfb[..], mmio[..])
    }

    constructor (p: Places, dir: array<nat>, low: array<nat>, lfb: array<nat>, mmio: array<nat>)
      requires Apart(p) && dir.Length == ENTRIES && low.Length == LOW_TABLES * ENTRIES
      requires lfb.Length == LFB_TABLES * ENTRIES && mmio.Length == MMIO_TABLES * ENTRIES
      requires dir != low && dir != lfb && dir != mmio && low != lfb && low != mmio && lfb != mmio
      ensures Valid() && !ready && this.p == p
      ensures this.dir == dir && this.low == low && this.lfb == lfb && this.mmio == mmio
    {
      this.p, this.dir, this.low, this.lfb, this.mmio, ready := p, dir, low, lfb, mmio, false;
    }

    /** Every page under the n directory entries from b on: present and writable for the kernel only,
        its own word with exactly those bits. */
    ghost predicate WindowIs(s: Space, b: nat, n: nat, bits: nat)
      requires b < ENTRIES
    {
      forall va :: 0 <= va < U32 && PdeIndex(va) < ENTRIES && Rel(b, PdeIndex(va)) < n ==> PageIs(p, s, va, 3, bits)
    }

    lemma RightsHold(s: Space, lfbWindow: bool, b: nat, n: nat, flags: nat)
      requires Valid() && Sized(s) && b < ENTRIES && flags < PAGE && flags % 2 == 1
      requires n <= Limit(lfbWindow) && Maps(p, s, View(), lfbWindow, b, n, flags)
      ensures WindowIs(View(), b, n, flags)
    {
      forall va | 0 <= va < U32 && PdeIndex(va) < ENTRIES && Rel(b, PdeIndex(va)) < n
        ensures PageIs(p, View(), va, 3, flags)
      {
        WindowRights(p, s, View(), lfbWindow, b, n, flags, va);
      }
    }

    /** vmm_init: the low 8 MiB, readable and writable from ring 3. */
    method Init()
      requires Valid()
      modifies `ready, dir, low
      ensures Valid() && ready && Booted(p, View())
      ensures forall va :: 0 <= va < 0x80_0000 ==> PageIs(p, View(), va, 7, 7)
    {
      var n := IdentityMap(dir, low, p.low, LOW_TABLES, LOW_BYTES, RW + USER);
      ready := n == LOW_TABLES;
      forall va | 0 <= va < 0x80_0000 ensures PageIs(p, View(), va, 7, 7) { BootedRights(p, View(), va); }
    }

    /** vmm_map_lfb: spans beyond the window's eight tables are clamped. */
    method MapLfb(phys: nat, bytes: nat) returns (ok: bool)
      requires Valid() && phys < U32 && bytes < U32
      modifies dir, lfb
      ensures Valid() && (ok <==> ready && TablesNeeded(phys, bytes) > 0)
      ensures !ok ==> View() == old(View())
      ensures ok ==> Maps(p, old(View()), View(), true, phys / FOURMB, Granted(true, phys, bytes), RW + 1)
      ensures ok ==> WindowIs(View(), phys / FOURMB, Granted(true, phys, bytes), 3)
    {
      if !ready {
        return false;
      }
      var b := phys / FOURMB;
      var n := (phys + bytes - b * FOURMB + FOURMB - 1) % U32 / FOURMB;
      if n == 0 {
        return false;
      }
      if n > LFB_TABLES { n := LFB_TABLES; }
      ghost var s := View();
      Fill(lfb, p.lfb, b, n, RW + 1);
      ok := true;
      RightsHold(s, true, b, n, RW + 1);
    }

    /** vmm_map_mmio: spans beyond the window's two tables are refused. */
    method MapMmio(phys: nat, bytes: nat) returns (ok: bool)
      requires Valid() && phys < U32 && bytes < U32
      modifies dir, mmio
      ensures Valid() && (ok <==> ready && 0 < TablesNeeded(phys, bytes) <= MMIO_TABLES)
      ensures !ok ==> View() == old(View())
      ensures ok ==> Maps(p, old(View()), View(), false, phys / FOURMB, Granted(false, phys, bytes), PCD + RW + 1)
      ensures ok ==> WindowIs(View(), phys / FOURMB, Granted(false, phys, bytes), 0x13)
    {
      if !ready {
        return false;
      }
      var b := phys / FOURMB;
      var n := (phys + bytes - b * FOURMB + FOURMB - 1) % U32 / FOURMB;
      if n == 0 || n > MMIO_TABLES {
        return false;
      }
      ghost var s := View();
      Fill(mmio, p.mmio, b, n, PCD + RW + 1);
      ok := true;
      RightsHold(s, false, b, n, PCD + RW + 1);
    }

    /** The loops both mappings share: n tables at `at`, from directory entry b on. */
    method Fill(tabs: array<nat>, at: nat, b: nat, n: nat, flags: nat)
      requires dir.Length == ENTRIES && tabs != dir && b < ENTRIES && n <= 8 && n * ENTRIES <= tabs.Length
      modifies dir, tabs
      ensures DirMapped(old(dir[..]), dir[..], at, b, n)
      ensures TablesMapped(old(tabs[..]), tabs[..], b, n, flags)
    {
      for t := 0 to n
        invariant DirMapped(old(dir[..]), dir[..], at, b, t)
        invariant TablesMapped(old(tabs[..]), tabs[..], b, t, flags)
      {
        var va := (b * FOURMB + t * FOURMB) % U32;
        assert va == PdeAt(b, t) * FOURMB;
        dir[va / FOURMB] := MakeEntry(at + t * PAGE, RW + 1);
        for e := 0 to ENTRIES
          invariant DirMapped(old(dir[..]), dir[..], at, b, t + 1)
          invariant forall w: nat :: w < tabs.Length ==> tabs[w] == if w < t * ENTRIES + e
                      then MakeEntry(PdeAt(b, w / ENTRIES) * FOURMB + w % ENTRIES * PAGE, flags) else old(tabs[w])
        {
          assert (t * ENTRIES + e) / ENTRIES == t && (t * ENTRIES + e) % ENTRIES == e;
          tabs[t * ENTRIES + e] := MakeEntry(va + e * PAGE, flags);
        }
      }
    }
  }
}
