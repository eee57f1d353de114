/** The in-memory file system: a slot table over a bump-allocated arena, refining a map from
    names to contents. Names are C strings, so they hold no NUL. */
module Ramfs {
  import opened Common

  const NAME_MAX := 32

  type Bytes = seq<bv8>

  datatype File = File(name: string, off: nat, size: nat, used: bool)

  datatype Fs = Fs(files: seq<File>, count: nat, arena: Bytes, spent: nat)

  datatype Option<+T> = None | Some(value: T)

  /** The first used slot whose stored name equals `name`, or |files|. */
  function FindName(files: seq<File>, name: string): (i: nat)
    ensures i <= |files|
    ensures i < |files| ==> files[i].used && files[i].name == name
    ensures forall j :: 0 <= j < i ==> !(files[j].used && files[j].name == name)
  {
    if files == [] then 0
    else if files[0].used && files[0].name == name then 0
    else 1 + FindName(files[1..], name)
  }

  function FirstUnused(files: seq<File>): (i: nat)
    ensures i <= |files|
    ensures i < |files| ==> !files[i].used
    ensures forall j :: 0 <= j < i ==> files[j].used
  {
    if files == [] || !files[0].used then 0 else 1 + FirstUnused(files[1..])
  }

  /** What rfs_ncopy keeps of a name. */
  function Stored(name: string): string {
    if |name| < NAME_MAX then name else name[..NAME_MAX - 1]
  }

  function Slot(files: seq<File>, name: string): nat {
    if FindName(files, name) < |files| then FindName(files, name) else FirstUnused(files)
  }

  /** ramfs_write succeeds. */
  predicate Accepts(fs: Fs, name: string, data: Bytes) {
    name != "" && (fs.spent + |data|) % U32 <= |fs.arena| && Slot(fs.files, name) < |fs.files|
  }

  function Written(fs: Fs, name: string, data: Bytes): Fs
    requires fs.spent + |data| < U32
  {
    if !Accepts(fs, name, data) then fs
    else
      var i := Slot(fs.files, name);
      var isNew := FindName(fs.files, name) == |fs.files|;
      Fs(fs.files[i := File(if isNew then Stored(name) else name, fs.spent, |data|, true)],
         if isNew then fs.count + 1 else fs.count,
         fs.arena[..fs.spent] + data + fs.arena[fs.spent + |data|..],
         fs.spent + |data|)
  }

  /** ramfs_read: the bytes behind the pointer and length it gives, or nothing. */
  function Read(fs: Fs, name: string): Option<Bytes>
    requires Extents(fs)
  {
    var i := FindName(fs.files, name);
    if i == |fs.files| then None else Some(fs.arena[fs.files[i].off..fs.files[i].off + fs.files[i].size])
  }

  // ----- invariants -----

  /** Every file lies in the spent part of the arena, under a name that fits its slot. */
  predicate Extents(fs: Fs) {
    && fs.spent <= |fs.arena| < U32
    && forall i :: 0 <= i < |fs.files| && fs.files[i].used ==>
         fs.files[i].off + fs.files[i].size <= fs.spent && |fs.files[i].name| < NAME_MAX
  }

  /** The names of the used slots. */
  function Names(files: seq<File>): set<string> {
    if files == [] then {} else Names(files[1..]) + if files[0].used then {files[0].name} else {}
  }

  predicate Distinct(files: seq<File>) {
    files == [] || (Distinct(files[1..]) && (files[0].used ==> files[0].name !in Names(files[1..])))
  }

  /** Names are distinct and the counter counts them. */
  predicate Inv(fs: Fs) {
    Extents(fs) && Distinct(fs.files) && fs.count == |Names(fs.files)|
  }

  function Empty(slots: nat, arena: Bytes): Fs {
    Fs(seq(slots, _ => File("", 0, 0, false)), 0, arena, 0)
  }

  lemma EmptyInv(slots: nat, arena: Bytes)
    requires |arena| < U32
    ensures Inv(Empty(slots, arena)) && Contents(Empty(slots, arena)) == map[]
  {
    NoneUsed(Empty(slots, arena).files);
  }

  lemma {:induction false} NoneUsed(files: seq<File>)
    requires forall i :: 0 <= i < |files| ==> !files[i].used
    ensures Names(files) == {} && Distinct(files)
    decreases |files|
  {
    if files != [] { NoneUsed(files[1..]); }
  }

  lemma {:induction false} FindInNames(files: seq<File>, name: string)
    ensures FindName(files, name) < |files| <==> name in Names(files)
    decreases |files|
  {
    if files != [] { FindInNames(files[1..], name); }
  }

  /** A write keeps every file inside the spent part of the arena. */
  lemma WriteKeepsExtents(fs: Fs, name: string, data: Bytes)
    requires Extents(fs) && fs.spent + |data| < U32
    ensures Extents(Written(fs, name, data))
  {
    if Accepts(fs, name, data) {
      assert (fs.spent + |data|) % U32 == fs.spent + |data|;
    }
  }

  /** Bytes before the bump pointer never change. */
  lemma OldBytesKept(fs: Fs, name: string, data: Bytes, off: nat, size: nat)
    requires Extents(fs) && fs.spent + |data| < U32 && off + size <= fs.spent
    ensures |Written(fs, name, data).arena| == |fs.arena|
    ensures Written(fs, name, data).arena[off..off + size] == fs.arena[off..off + size]
  {
    if Accepts(fs, name, data) {
      assert (fs.spent + |data|) % U32 == fs.spent + |data|;
      var tail := data + fs.arena[fs.spent + |data|..];
      assert Written(fs, name, data).arena == fs.arena[..fs.spent] + tail;
      PrefixSlice(fs.arena, fs.spent, tail, off, size);
    }
  }

  lemma PrefixSlice(a: Bytes, k: nat, tail: Bytes, off: nat, size: nat)
    requires off + size <= k <= |a|
    ensures (a[..k] + tail)[off..off + size] == a[off..off + size]
  {
  }

  /** Reading back what was just written gives it exactly when the name fits its slot: a name of
      32 characters or more is stored cut short and never found again. */
  lemma ReadBackExactly(fs: Fs, name: string, data: Bytes)
    requires Extents(fs) && fs.spent + |data| < U32 && Accepts(fs, name, data)
    ensures Extents(Written(fs, name, data))
    ensures Read(Written(fs, name, data), name) == Some(data) <==> |name| < NAME_MAX
    ensures |name| >= NAME_MAX ==> Read(Written(fs, name, data), name) == None
  {
    WriteKeepsExtents(fs, name, data);
    var fs' := Written(fs, name, data);
    var i := Slot(fs.files, name);
    var k := FindName(fs'.files, name);
    assert (fs.spent + |data|) % U32 == fs.spent + |data|;
    assert fs'.arena[fs.spent..fs.spent + |data|] == data;
    if |name| < NAME_MAX {
      assert fs'.files[i].used && fs'.files[i].name == name;
      assert k == i;
    }
  }

  // ----- refinement of a map -----

  /** It is kept under its first 31 characters instead, where it can be read unless an older file
      has that name. */
  lemma LongNameIsCutTo31(fs: Fs, name: string, data: Bytes)
    requires Extents(fs) && fs.spent + |data| < U32 && Accepts(fs, name, data) && |name| > 31
    requires FindName(fs.files, name[..31]) == |fs.files|
    ensures Extents(Written(fs, name, data)) && Read(Written(fs, name, data), name[..31]) == Some(data)
  {
    WriteKeepsExtents(fs, name, data);
    var fs', i := Written(fs, name, data), Slot(fs.files, name);
    assert FindName(fs.files, name) == |fs.files|;
    assert fs'.files[i].used && fs'.files[i].name == name[..31];
    var k := FindName(fs'.files, name[..31]);
    assert k <= i;
    assert fs'.arena[fs.spent..fs.spent + |data|] == data;
  }

  /** The files as a map. */
  function Contents(fs: Fs): (m: map<string, Bytes>)
    requires Extents(fs)
    ensures m.Keys == Names(fs.files)
    ensures forall n :: n in m ==> Read(fs, n) == Some(m[n])
  {
    assert forall n :: n in Names(fs.files) ==> FindName(fs.files, n) < |fs.files| by {
      forall n | n in Names(fs.files) ensures FindName(fs.files, n) < |fs.files| { FindInNames(fs.files, n); }
    }
    map n | n in Names(fs.files) :: Read(fs, n).value
  }

  lemma ReadIsLookup(fs: Fs, name: string)
    requires Extents(fs)
    ensures Read(fs, name) == if name in Contents(fs) then Some(Contents(fs)[name]) else None
  {
    FindInNames(fs.files, name);
  }

  /** Putting a file in its slot adds its name, keeps names distinct and moves no other file. */
  lemma {:induction false} NamesAfter(files: seq<File>, name: string, f: File)
    requires Slot(files, name) < |files| && f.used && f.name == name && Distinct(files)
    ensures var files' := files[Slot(files, name) := f]; Names(files') == Names(files) + {name} && Distinct(files')
  {
    FindInNames(files, name);
    PutName(files, Slot(files, name), f);
  }

  lemma {:induction false} PutName(files: seq<File>, s: nat, f: File)
    requires s < |files| && f.used && Distinct(files)
    requires if f.name in Names(files) then s == FindName(files, f.name) else !files[s].used
    ensures Names(files[s := f]) == Names(files) + {f.name} && Distinct(files[s := f])
    decreases |files|
  {
    var rest := files[1..];
    FindInNames(files, f.name);
    FindInNames(rest, f.name);
    if s > 0 {
      assert files[s := f][1..] == rest[s - 1 := f];
      PutName(rest, s - 1, f);
    } else {
      assert files[0 := f][1..] == rest;
    }
  }

  lemma OtherSlot(files: seq<File>, name: string, f: File, n: string)
    requires Slot(files, name) < |files| && f.name == name && n in Names(files) && n != name
    ensures FindName(files[Slot(files, name) := f], n) == FindName(files, n) < |files|
    ensures FindName(files, n) != Slot(files, name)
  {
    FindInNames(files, n);
    SameFind(files, files[Slot(files, name) := f], Slot(files, name), n);
  }

  lemma SameFind(files: seq<File>, files': seq<File>, s: nat, n: string)
    requires s < |files| && |files'| == |files| && files' == files[s := files'[s]]
    requires !(files[s].used && files[s].name == n) && !(files'[s].used && files'[s].name == n)
    ensures FindName(files', n) == FindName(files, n)
  {
    var a, b := FindName(files, n), FindName(files', n);
    assert a < |files| ==> files'[a] == files[a];
    assert b < |files| ==> files[b] == files'[b];
  }

  /** A write with a name of 1 to 31 characters: it fails exactly when the arena lacks room or a
      new name meets a full table, and then changes nothing; otherwise the map gains exactly that
      binding, every other file keeps its bytes, and the count is the number of names. */
  lemma WriteRefines(fs: Fs, name: string, data: Bytes)
    requires Inv(fs) && 0 < |name| < NAME_MAX && fs.spent + |data| < U32
    ensures Inv(Written(fs, name, data))
    ensures Accepts(fs, name, data) <==>
              fs.spent + |data| <= |fs.arena| && (name in Contents(fs) || |Contents(fs)| < |fs.files|)
    ensures Contents(Written(fs, name, data)) ==
              if Accepts(fs, name, data) then Contents(fs)[name := data] else Contents(fs)
    ensures Written(fs, name, data).count == |Contents(Written(fs, name, data))|
  {
    AcceptsExactly(fs, name, data);
    if Accepts(fs, name, data) {
      AcceptedRefines(fs, name, data);
    }
    SizeIsNames(Written(fs, name, data));
  }

  lemma SizeIsNames(fs: Fs)
    requires Extents(fs)
    ensures |Contents(fs)| == |Names(fs.files)|
  {
    assert |Contents(fs)| == |Contents(fs).Keys|;
  }

  lemma AcceptsExactly(fs: Fs, name: string, data: Bytes)
    requires Inv(fs) && 0 < |name| && fs.spent + |data| < U32
    ensures Accepts(fs, name, data) <==>
              fs.spent + |data| <= |fs.arena| && (name in Contents(fs) || |Contents(fs)| < |fs.files|)
  {
    NameListed(fs, name);
    RoomForName(fs);
    FitsWhen(fs, name, data);
  }

  lemma FitsWhen(fs: Fs, name: string, data: Bytes)
    requires 0 < |name| && fs.spent + |data| < U32
    ensures Accepts(fs, name, data) <==>
              fs.spent + |data| <= |fs.arena|
              && (FindName(fs.files, name) < |fs.files| || FirstUnused(fs.files) < |fs.files|)
  {
  }

  lemma NameListed(fs: Fs, name: string)
    requires Inv(fs)
    ensures name in Contents(fs) <==> FindName(fs.files, name) < |fs.files|
  {
    FindInNames(fs.files, name);
  }

  /** A slot is free exactly when there are fewer files than slots. */
  lemma RoomForName(fs: Fs)
    requires Inv(fs)
    ensures FirstUnused(fs.files) < |fs.files| <==> |Contents(fs)| < |fs.files|
  {
    FullIffAllNames(fs);
    SizeIsNames(fs);
  }

  lemma AcceptedRefines(fs: Fs, name: string, data: Bytes)
    requires Inv(fs) && 0 < |name| < NAME_MAX && fs.spent + |data| < U32 && Accepts(fs, name, data)
    ensures Inv(Written(fs, name, data))
    ensures Contents(Written(fs, name, data)) == Contents(fs)[name := data]
  {
    AcceptedKeepsInv(fs, name, data);
    var fs' := Written(fs, name, data);
    ReadBackExactly(fs, name, data);
    forall n | n in Names(fs.files) && n != name ensures Read(fs', n) == Read(fs, n) {
      OthersReadSame(fs, name, data, n);
    }
    MapExtends(Contents(fs), Contents(fs'), name, data);
  }

  lemma MapExtends(m: map<string, Bytes>, m': map<string, Bytes>, name: string, data: Bytes)
    requires m'.Keys == m.Keys + {name} && name in m' && m'[name] == data
    requires forall n :: n in m && n != name ==> n in m' && m'[n] == m[n]
    ensures m' == m[name := data]
  {
  }

  lemma AcceptedKeepsInv(fs: Fs, name: string, data: Bytes)
    requires Inv(fs) && 0 < |name| < NAME_MAX && fs.spent + |data| < U32 && Accepts(fs, name, data)
    ensures Inv(Written(fs, name, data)) && Names(Written(fs, name, data).files) == Names(fs.files) + {name}
  {
    var fs' := Written(fs, name, data);
    WriteKeepsExtents(fs, name, data);
    NamesAfter(fs.files, name, fs'.files[Slot(fs.files, name)]);
    FindInNames(fs.files, name);
  }

  lemma OthersReadSame(fs: Fs, name: string, data: Bytes, n: string)
    requires Inv(fs) && 0 < |name| < NAME_MAX && fs.spent + |data| < U32 && Accepts(fs, name, data)
    requires n in Names(fs.files) && n != name
    ensures Extents(Written(fs, name, data)) && Read(Written(fs, name, data), n) == Read(fs, n) && Read(fs, n).Some?
  {
    var fs' := Written(fs, name, data);
    WriteKeepsExtents(fs, name, data);
    OtherSlot(fs.files, name, fs'.files[Slot(fs.files, name)], n);
    FindInNames(fs.files, n);
    var f := fs.files[FindName(fs.files, n)];
    OldBytesKept(fs, name, data, f.off, f.size);
  }

  /** The table is full exactly when there are as many names as slots. */
  lemma FullIffAllNames(fs: Fs)
    requires Inv(fs)
    ensures FirstUnused(fs.files) == |fs.files| <==> |Names(fs.files)| == |fs.files|
    ensures |Names(fs.files)| <= |fs.files|
  {
    CountNames(fs.files);
  }

  lemma {:induction false} CountNames(files: seq<File>)
    requires Distinct(files)
    ensures |Names(files)| <= |files|
    ensures |Names(files)| == |files| <==> FirstUnused(files) == |files|
    decreases |files|
  {
    if files != [] { CountNames(files[1..]); }
  }

  // ----- runs -----

  datatype Write = Write(name: string, data: Bytes)

  /** The specification: a map, the bytes spent so far, and the limits. */
  datatype Spec = Spec(files: map<string, Bytes>, spent: nat)

  function SpecWrite(m: Spec, w: Write, slots: nat, room: nat): Spec {
    if m.spent + |w.data| <= room && (w.name in m.files || |m.files| < slots)
    then Spec(m.files[w.name := w.data], m.spent + |w.data|) else m
  }

  function SpecRun(m: Spec, ws: seq<Write>, slots: nat, room: nat): Spec {
    if ws == [] then m else SpecWrite(SpecRun(m, ws[..|ws| - 1], slots, room), ws[|ws| - 1], slots, room)
  }

  /** No write's length plus the arena's size passes 2^32. */
  predicate NoneWraps(room: nat, ws: seq<Write>) {
    forall i :: 0 <= i < |ws| ==> room + |ws[i].data| < U32
  }

  /** Any run of writes whose lengths do not wrap, refused ones included, from an empty file system. */
  function Run(slots: nat, arena: Bytes, ws: seq<Write>): (fs: Fs)
    requires |arena| < U32 && NoneWraps(|arena|, ws)
    ensures Extents(fs) && |fs.arena| == |arena|
  {
    if ws == [] then Empty(slots, arena)
    else
      var fs, w := Run(slots, arena, ws[..|ws| - 1]), ws[|ws| - 1];
      assert fs.spent + |w.data| < U32;
      WriteKeepsExtents(fs, w.name, w.data);
      OldBytesKept(fs, w.name, w.data, 0, 0);
      Written(fs, w.name, w.data)
  }

  /** Over any run of writes with names of 1 to 31 characters the file system is the map: reads
      return the last successful write, and the count is the number of names. */
  lemma {:induction false} RunRefinesMap(slots: nat, arena: Bytes, ws: seq<Write>)
    requires |arena| < U32 && NoneWraps(|arena|, ws)
    requires forall i :: 0 <= i < |ws| ==> 0 < |ws[i].name| < NAME_MAX
    ensures var fs := Run(slots, arena, ws); var m := SpecRun(Spec(map[], 0), ws, slots, |arena|);
            && Inv(fs) && Contents(fs) == m.files && fs.spent == m.spent && fs.count == |m.files|
            && |fs.files| == slots && |fs.arena| == |arena|
            && forall name :: Read(fs, name) == if name in m.files then Some(m.files[name]) else None
    decreases |ws|
  {
    if ws == [] {
      EmptyInv(slots, arena);
    } else {
      var init, w := ws[..|ws| - 1], ws[|ws| - 1];
      RunRefinesMap(slots, arena, init);
      var fs := Run(slots, arena, init);
      WriteRefines(fs, w.name, w.data);
      OldBytesKept(fs, w.name, w.data, 0, 0);
    }
    var fs := Run(slots, arena, ws);
    forall name ensures Read(fs, name) == if name in Contents(fs) then Some(Contents(fs)[name]) else None {
      ReadIsLookup(fs, name);
    }
  }

  // ----- the calls themselves -----

  /** A length returned as a C int. */
  function AsInt(n: nat): int {
    if n < 0x8000_0000 then n else n - U32
  }

  class Ram {
    const files: array<File>
    const arena: array<bv8>
    var count: nat
    var spent: nat

    ghost function View(): Fs
      reads this, files, arena
    {
      Fs(files[..], count, arena[..], spent)
    }

    /** The table and the arena are separate buffers. */
    ghost predicate Separate() {
      files as object != arena
    }

    constructor (files: array<File>, arena: array<bv8>)
      requires arena.Length < U32 && files as object != arena
      modifies files
      ensures Separate()
      ensures this.files == files && this.arena == arena && count == 0 && spent == 0 && Inv(View())
      ensures forall i :: 0 <= i < files.Length ==> !files[i].used
    {
      this.files, this.arena, count, spent := files, arena, 0, 0;
      new;
      for i := 0 to files.Length
        invariant forall j :: 0 <= j < i ==> !files[j].used
        invariant this.files == files && this.arena == arena && count == 0 && spent == 0
      {
        files[i] := files[i].(used := false, name := "");
      }
      NoneUsed(files[..]);
    }

    /** ramfs_find: a slot, or -1. */
    method Find(name: string) returns (i: int)
      ensures i == if FindName(files[..], name) < files.Length then FindName(files[..], name) else -1
    {
      i := 0;
      while i < files.Length
        invariant 0 <= i <= FindName(files[..], name)
      {
        assert files[..][i] == files[i];
        if files[i].used && files[i].name == name {
          return;
        }
        i := i + 1;
      }
      i := -1;
    }

    /** ramfs_alloc_slot: the file's slot, a new one set up for it, or -1. */
    method AllocSlot(name: string) returns (i: int)
      modifies `count, files
      ensures i == if Slot(old(files[..]), name) < files.Length then Slot(old(files[..]), name) else -1
      ensures var isNew := FindName(old(files[..]), name) == files.Length && i >= 0;
              && files[..] == (if isNew then old(files[..])[i := File(Stored(name), 0, 0, true)] else old(files[..]))
              && count == if isNew then old(count) + 1 else old(count)
    {
      i := Find(name);
      if i >= 0 {
        return;
      }
      i := 0;
      while i < files.Length
        invariant 0 <= i <= FirstUnused(files[..])
        invariant files[..] == old(files[..]) && count == old(count)
      {
        assert files[..][i] == files[i];
        if !files[i].used {
          files[i] := File(Stored(name), 0, 0, true);
          count := count + 1;
          return;
        }
        i := i + 1;
      }
      i := -1;
    }

    /** ramfs_write. */
    method Write(name: string, data: Bytes) returns (r: int)
      requires Separate() && Extents(View()) && spent + |data| < U32
      modifies this, files, arena
      ensures View() == Written(old(View()), name, data)
      ensures r == if Accepts(old(View()), name, data) then AsInt(|data|) else -1
      ensures |data| < 0x8000_0000 ==> (r == |data| <==> Accepts(old(View()), name, data))
    {
      ghost var fs := View();
      if name == "" {
        return -1;
      }
      if (spent + |data|) % U32 > arena.Length {
        return -1;
      }
      var i := AllocSlot(name);
      if i < 0 {
        return -1;
      }
      Copy(data);
      files[i] := files[i].(off := spent, size := |data|);
      spent := spent + |data|;
      r := AsInt(|data|);
      assert Accepts(fs, name, data) && i == Slot(fs.files, name);
      ghost var isNew := FindName(fs.files, name) == |fs.files|;
      assert files[..] == fs.files[i := File(if isNew then Stored(name) else name, fs.spent, |data|, true)];
    }

    /** The copy loop of ramfs_write, at the bump pointer. */
    method Copy(data: Bytes)
      requires spent + |data| <= arena.Length
      modifies arena
      ensures arena[..] == old(arena[..])[..spent] + data + old(arena[..])[spent + |data|..]
    {
      for i := 0 to |data|
        invariant forall k :: 0 <= k < arena.Length ==>
                    arena[k] == if spent <= k < spent + i then data[k - spent] else old(arena[k])
      {
        arena[spent + i] := data[i];
      }
    }

    /** ramfs_read: offset and length of the file's bytes, if there is one. */
    method ReadFile(name: string) returns (found: bool, off: nat, len: nat)
      requires Extents(View())
      ensures found ==> off + len <= arena.Length && Read(View(), name) == Some(arena[off..off + len])
      ensures !found ==> len == 0 && Read(View(), name) == None
    {
      var i := Find(name);
      if i < 0 {
        return false, 0, 0;
      }
      found, off, len := true, files[i].off, files[i].size;
    }
  }
}
