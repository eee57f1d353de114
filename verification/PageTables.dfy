/** Two-level 32-bit paging: building tables and walking them (section 4.3 of volume 3A of the
    Intel SDM). Words are unsigned 32-bit values; masks and shifts are written as arithmetic. */
module PageTables {
  import opened Common

  const FOURMB := 0x40_0000
  const ENTRIES := 1024
  const RW := 2
  const USER := 4
  const PCD := 16

  // ----- addresses and entries -----

  function PdeIndex(va: nat): nat { va / FOURMB }
  function PteIndex(va: nat): nat { va / PAGE % ENTRIES }
  function Offset(va: nat): nat { va % PAGE }

  /** (phys & 0xFFFFF000) | (flags & 0xFFF). */
  function MakeEntry(phys: nat, flags: nat): nat {
    phys / PAGE * PAGE + flags % PAGE
  }

  /** flags | PTE_PRESENT. */
  function WithPresent(flags: nat): (f: nat)
    ensures f % 2 == 1 && f / 2 == flags / 2
  {
    if flags % 2 == 1 then flags else flags + 1
  }

  function EntryAddr(entry: nat): nat { entry / PAGE * PAGE }
  predicate Present(entry: nat) { entry % 2 == 1 }

  /** An entry gives back the page and the flags it was made from. */
  lemma EntryRoundTrip(phys: nat, flags: nat)
    requires phys < U32
    ensures MakeEntry(phys, flags) < U32
    ensures EntryAddr(MakeEntry(phys, flags)) == phys / PAGE * PAGE
    ensures Present(MakeEntry(phys, flags)) <==> flags % 2 == 1
    ensures MakeEntry(phys, flags) % PAGE == flags % PAGE
  {
    EntryParts(phys / PAGE, flags % PAGE);
    LowBit(flags);
  }

  lemma LowBit(x: nat)
    ensures x % PAGE % 2 == x % 2
  {
  }

  lemma EntryParts(page: nat, low: nat)
    requires low < PAGE
    ensures (page * PAGE + low) / PAGE == page && (page * PAGE + low) % PAGE == low
    ensures (page * PAGE + low) % 2 == low % 2
  {
  }

  /** The three parts of an address determine it. */
  lemma AddressSplit(va: nat)
    requires va < U32
    ensures PdeIndex(va) < ENTRIES && PteIndex(va) < ENTRIES
    ensures va == PdeIndex(va) * FOURMB + PteIndex(va) * PAGE + Offset(va)
    ensures va / PAGE == PdeIndex(va) * ENTRIES + PteIndex(va)
  {
  }

  datatype Walk = NotPresent | Mapped(phys: nat)

  /** A page table word's effect on the walk. */
  function Leaf(pte: nat, va: nat): Walk {
    if Present(pte) then Mapped(EntryAddr(pte) + Offset(va)) else NotPresent
  }

  // ----- one contiguous pool of tables -----

  /** Every present directory entry names a table of the pool at physical address `at`. */
  predicate InPool(pd: seq<nat>, at: nat, tables: nat) {
    forall i :: 0 <= i < |pd| && Present(pd[i]) ==>
      at <= EntryAddr(pd[i]) && EntryAddr(pd[i]) + PAGE <= at + tables * PAGE
  }

  /** vmm_translate. */
  function Translate(pd: seq<nat>, pts: seq<nat>, at: nat, va: nat): Walk
    requires |pd| == ENTRIES && va < U32 && at % PAGE == 0
    requires Present(pd[PdeIndex(va)]) ==>
               at <= EntryAddr(pd[PdeIndex(va)]) && EntryAddr(pd[PdeIndex(va)]) + PAGE <= at + 4 * |pts|
  {
    var pde := pd[PdeIndex(va)];
    if !Present(pde) then NotPresent
    else Leaf(pts[(EntryAddr(pde) - at) / 4 + PteIndex(va)], va)
  }

  function PagesFor(bytes: nat): nat { (bytes + PAGE - 1) % U32 / PAGE }
  function TablesFor(bytes: nat): nat { (PagesFor(bytes) + ENTRIES - 1) / ENTRIES }

  /** The page count covers the bytes, with less than a page to spare, exactly up to 0xFFFFF000;
      above that the rounding wraps and nothing would be mapped. */
  lemma PagesForExact(bytes: nat)
    requires bytes < U32
    ensures bytes <= PagesFor(bytes) * PAGE <==> bytes <= 0xFFFF_F000
    ensures bytes <= 0xFFFF_F000 ==> PagesFor(bytes) * PAGE < bytes + PAGE
    ensures bytes > 0xFFFF_F000 ==> PagesFor(bytes) == 0
    ensures PagesFor(bytes) <= TablesFor(bytes) * ENTRIES < PagesFor(bytes) + ENTRIES
  {
  }

  /** The tables vmm_identity_map leaves behind when the pool is large enough. */
  ghost predicate IdentityTables(pd: seq<nat>, pts: seq<nat>, at: nat, bytes: nat, flags: nat) {
    && |pd| == ENTRIES && TablesFor(bytes) * ENTRIES <= |pts|
    && (forall i: nat :: i < ENTRIES ==>
          pd[i] == if i < TablesFor(bytes) then MakeEntry(at + i * PAGE, WithPresent(flags)) else 0)
    && (forall p: nat :: p < TablesFor(bytes) * ENTRIES ==>
          pts[p] == if p < PagesFor(bytes) then MakeEntry(p * PAGE, WithPresent(flags)) else 0)
  }

  lemma PageEntry(a: nat, flags: nat)
    requires a % PAGE == 0 && a < U32 && flags < U32 && flags % 2 == 1
    ensures EntryAddr(MakeEntry(a, flags)) == a && Present(MakeEntry(a, flags))
  {
    EntryRoundTrip(a, flags);
    assert a / PAGE * PAGE == a;
  }

  lemma IdentityPde(pd: seq<nat>, pts: seq<nat>, at: nat, bytes: nat, flags: nat, d: nat)
    requires IdentityTables(pd, pts, at, bytes, flags) && d < ENTRIES
    requires at % PAGE == 0 && at + 4 * |pts| <= U32 && bytes < U32 && flags < U32
    ensures Present(pd[d]) <==> d < TablesFor(bytes)
    ensures d < TablesFor(bytes) ==> EntryAddr(pd[d]) == at + d * PAGE && at + d * PAGE + PAGE <= at + 4 * |pts|
  {
    if d < TablesFor(bytes) { PageEntry(at + d * PAGE, WithPresent(flags)); }
  }

  lemma IdentityPte(pd: seq<nat>, pts: seq<nat>, at: nat, bytes: nat, flags: nat, p: nat)
    requires IdentityTables(pd, pts, at, bytes, flags) && flags < U32
    requires p < TablesFor(bytes) * ENTRIES && p < ENTRIES * ENTRIES
    ensures Present(pts[p]) <==> p < PagesFor(bytes)
    ensures p < PagesFor(bytes) ==> EntryAddr(pts[p]) == p * PAGE
  {
    if p < PagesFor(bytes) { PageEntry(p * PAGE, WithPresent(flags)); }
  }

  /** The map against the walker: exactly the addresses below `bytes` rounded up to a page
      translate, each to itself. */
  lemma IdentityWalk(pd: seq<nat>, pts: seq<nat>, at: nat, bytes: nat, flags: nat, va: nat)
    requires IdentityTables(pd, pts, at, bytes, flags) && va < U32
    requires at % PAGE == 0 && at + 4 * |pts| <= U32 && bytes < U32 && flags < U32
    ensures Present(pd[PdeIndex(va)]) ==>
              at <= EntryAddr(pd[PdeIndex(va)]) && EntryAddr(pd[PdeIndex(va)]) + PAGE <= at + 4 * |pts|
    ensures Translate(pd, pts, at, va) == if va < PagesFor(bytes) * PAGE then Mapped(va) else NotPresent
  {
    AddressSplit(va);
    var d, p := PdeIndex(va), va / PAGE;
    IdentityPde(pd, pts, at, bytes, flags, d);
    if d < TablesFor(bytes) {
      assert (EntryAddr(pd[d]) - at) / 4 + PteIndex(va) == p;
      IdentityPte(pd, pts, at, bytes, flags, p);
    }
  }

  /** Changing one page table word of a table no other directory entry uses: that page now walks
      to the new frame with its offset kept, every other page of the entry and every other
      directory entry walks as before. */
  lemma SetPteWalk(pd: seq<nat>, pts: seq<nat>, at: nat, va: nat, phys: nat, flags: nat, va': nat)
    requires |pd| == ENTRIES && InPool(pd, at, |pts| / ENTRIES) && at % PAGE == 0 && va < U32 && va' < U32
    requires phys < U32 && flags < U32 && Present(pd[PdeIndex(va)])
    requires forall i :: 0 <= i < ENTRIES && Present(pd[i]) && EntryAddr(pd[i]) == EntryAddr(pd[PdeIndex(va)]) ==>
               i == PdeIndex(va)
    ensures InRange(pd, pts, at, va) && InRange(pd, pts, at, va')
    ensures var k := (EntryAddr(pd[PdeIndex(va)]) - at) / 4 + PteIndex(va);
            && k < |pts|
            && var pts' := pts[k := MakeEntry(phys, flags)];
               Translate(pd, pts', at, va') ==
                 if va' / PAGE == va / PAGE
                 then (if flags % 2 == 1 then Mapped(phys / PAGE * PAGE + Offset(va')) else NotPresent)
                 else Translate(pd, pts, at, va')
  {
    AddressSplit(va);
    AddressSplit(va');
    EntryRoundTrip(phys, flags);
    var a, a' := EntryAddr(pd[PdeIndex(va)]), EntryAddr(pd[PdeIndex(va')]);
    PoolIndex(a - at);
    if Present(pd[PdeIndex(va')]) {
      PoolIndex(a' - at);
      SlotsApart((a - at) / PAGE, PteIndex(va), (a' - at) / PAGE, PteIndex(va'));
    }
  }

  lemma SlotsApart(t: nat, e: nat, t': nat, e': nat)
    requires e < ENTRIES && e' < ENTRIES
    ensures t * ENTRIES + e == t' * ENTRIES + e' <==> t == t' && e == e'
  {
  }

  lemma PoolIndex(x: nat)
    requires x % PAGE == 0
    ensures x / 4 == x / PAGE * ENTRIES
  {
  }

  predicate InRange(pd: seq<nat>, pts: seq<nat>, at: nat, va: nat)
    requires |pd| == ENTRIES && va < U32
  {
    Present(pd[PdeIndex(va)]) ==>
      at <= EntryAddr(pd[PdeIndex(va)]) && EntryAddr(pd[PdeIndex(va)]) + PAGE <= at + 4 * |pts|
  }

  /** Changing one directory entry changes only walks under it. */
  lemma SetPdeWalk(pd: seq<nat>, pts: seq<nat>, at: nat, va: nat, table: nat, flags: nat, va': nat)
    requires |pd| == ENTRIES && at % PAGE == 0 && va < U32 && va' < U32 && table < U32 && flags < U32
    requires table % PAGE == 0 && at <= table && table + PAGE <= at + 4 * |pts|
    requires InRange(pd, pts, at, va')
    ensures var pd' := pd[PdeIndex(va) := MakeEntry(table, flags)];
            && InRange(pd', pts, at, va')
            && Translate(pd', pts, at, va') ==
                 if PdeIndex(va') != PdeIndex(va) then Translate(pd, pts, at, va')
                 else if flags % 2 == 1 then Leaf(pts[(table - at) / 4 + PteIndex(va')], va')
                 else NotPresent
  {
    AddressSplit(va);
    EntryRoundTrip(table, flags);
  }

  // ----- the builders -----

  /** vmm_translate over the tables in place. */
  method TranslateVa(pd: array<nat>, pts: array<nat>, at: nat, va: nat) returns (r: Walk)
    requires pd.Length == ENTRIES && va < U32 && at % PAGE == 0 && InRange(pd[..], pts[..], at, va)
    ensures r == Translate(pd[..], pts[..], at, va)
  {
    var pde := pd[PdeIndex(va)];
    if !Present(pde) {
      return NotPresent;
    }
    var pte := pts[(EntryAddr(pde) - at) / 4 + PteIndex(va)];
    if !Present(pte) {
      return NotPresent;
    }
    r := Mapped(EntryAddr(pte) + Offset(va));
  }

  method SetPde(pd: array<nat>, va: nat, table: nat, flags: nat)
    requires pd.Length == ENTRIES && va < U32
    modifies pd
    ensures pd[..] == old(pd[..])[PdeIndex(va) := MakeEntry(table, flags)]
  {
    pd[PdeIndex(va)] := MakeEntry(table, flags);
  }

  /** `first` is where the table starts in the pool. */
  method SetPte(pts: array<nat>, first: nat, va: nat, phys: nat, flags: nat)
    requires first + ENTRIES <= pts.Length
    modifies pts
    ensures pts[..] == old(pts[..])[first + PteIndex(va) := MakeEntry(phys, flags)]
  {
    pts[first + PteIndex(va)] := MakeEntry(phys, flags);
  }

  /** vmm_identity_map: the tables used, or 0 with nothing touched when the pool is too small. */
  method IdentityMap(pd: array<nat>, pts: array<nat>, at: nat, tables: nat, bytes: nat, flags: nat) returns (used: nat)
    requires pd.Length == ENTRIES && pts.Length == tables * ENTRIES && pd != pts && bytes < U32
    modifies pd, pts
    ensures used == if TablesFor(bytes) <= tables then TablesFor(bytes) else 0
    ensures TablesFor(bytes) > tables ==> pd[..] == old(pd[..]) && pts[..] == old(pts[..])
    ensures TablesFor(bytes) <= tables ==> IdentityTables(pd[..], pts[..], at, bytes, flags)
  {
    var pages := (bytes + PAGE - 1) % U32 / PAGE;
    var need := (pages + ENTRIES - 1) / ENTRIES;
    if need > tables {
      return 0;
    }
    for i := 0 to ENTRIES
      invariant forall j :: 0 <= j < i ==> pd[j] == 0
    {
      pd[i] := 0;
    }
    for t := 0 to need
      invariant forall i :: 0 <= i < ENTRIES ==>
                  pd[i] == if i < t then MakeEntry(at + i * PAGE, WithPresent(flags)) else 0
      invariant forall p :: 0 <= p < t * ENTRIES ==>
                  pts[p] == if p < pages then MakeEntry(p * PAGE, WithPresent(flags)) else 0
    {
      pd[t] := MakeEntry(at + t * PAGE, WithPresent(flags));
      for e := 0 to ENTRIES
        invariant forall i :: 0 <= i < ENTRIES ==>
                    pd[i] == if i < t + 1 then MakeEntry(at + i * PAGE, WithPresent(flags)) else 0
        invariant forall p :: 0 <= p < t * ENTRIES + e ==>
                    pts[p] == if p < pages then MakeEntry(p * PAGE, WithPresent(flags)) else 0
      {
        var page := t * ENTRIES + e;
        if page < pages {
          pts[page] := MakeEntry(page * PAGE, WithPresent(flags));
        } else {
          pts[page] := 0;
        }
      }
    }
    used := need;
  }
}
