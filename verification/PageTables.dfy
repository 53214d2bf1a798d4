/** Four-level page tables stored in physical frames, and the ownership discipline that keeps
    address spaces apart: every table frame is reached by one path only, every mapped data frame
    belongs to one page of one address space, and no frame is both. */
module PageTables {
  import opened PhysMemory
  import opened Bits

  const FRAMES: nat := 0x100_0000_0000          // frames addressable by an entry (bits 12..51)
  const USER_PAGES: nat := 0x8_0000_0000        // pages below the canonical hole
  const NX: nat := 0x8000_0000_0000_0000

  datatype Option<+T> = None | Some(value: T)

  // ---- Entries ---------------------------------------------------------------------------------

  predicate Present(e: nat) { e % 2 == 1 }
  predicate Writable(e: nat) { (e / 2) % 2 == 1 }
  predicate User(e: nat) { (e / 4) % 2 == 1 }
  predicate NoExecute(e: nat) { (e / NX) % 2 == 1 }

  function Target(e: nat): nat { (e / PAGE) % FRAMES }

  /** present | write | user */
  function TableEntry(f: nat): nat { f * PAGE + 7 }

  predicate ProtWrite(prot: nat) { (prot / 2) % 2 == 1 }
  predicate ProtExec(prot: nat) { (prot / 4) % 2 == 1 }

  /** The entry opens its page to user mode with just these rights. */
  predicate Carries(e: nat, prot: nat) {
    User(e) && (Writable(e) <==> ProtWrite(prot)) && (NoExecute(e) <==> !ProtExec(prot))
  }

  function PageEntry(f: nat, prot: nat): nat {
    (f % FRAMES) * PAGE + 5 + (if ProtWrite(prot) then 2 else 0) + (if ProtExec(prot) then 0 else NX)
  }

  lemma TableEntryDecodes(f: nat)
    requires f < FRAMES
    ensures TableEntry(f) < WORD && Present(TableEntry(f)) && Target(TableEntry(f)) == f
    ensures User(TableEntry(f)) && Writable(TableEntry(f)) && !NoExecute(TableEntry(f))
  {
    EntryParts(f, 7, 0, TableEntry(f));
  }

  lemma PageEntryDecodes(f: nat, prot: nat)
    requires f < FRAMES
    ensures var e := PageEntry(f, prot);
      e < WORD && Present(e) && Target(e) == f && Carries(e, prot)
  {
    var low := if ProtWrite(prot) then 7 else 5;
    var high := if ProtExec(prot) then 0 else 0x8_0000_0000_0000;
    EntryParts(f, low, high, PageEntry(f, prot));
  }

  /** An entry is a frame number between low flag bits and the no-execute bit. */
  lemma EntryParts(f: nat, low: nat, high: nat, e: nat)
    requires f < FRAMES && (low == 5 || low == 7) && (high == 0 || high == 0x8_0000_0000_0000)
    requires e == (f + high) * PAGE + low
    ensures e < WORD && Present(e) && Target(e) == f && User(e)
    ensures (Writable(e) <==> low == 7) && (NoExecute(e) <==> high != 0)
  {
    DivUnique(e, PAGE, f + high, low);
    DivUnique(f + high, FRAMES, high / FRAMES, f);
    DivUnique(e, 2, (f + high) * 2048 + low / 2, 1);
    DivUnique(e / 2, 2, (f + high) * 1024 + low / 4, (low / 2) % 2);
    DivUnique(e, 4, (f + high) * 1024 + 1, low - 4);
    DivUnique(e, NX, if high == 0 then 0 else 1, f * PAGE + low);
  }

  // ---- Walking ---------------------------------------------------------------------------------

  /** Pages covered by one entry of a table at this level. */
  function Span(level: nat): nat
    requires level <= 4
  {
    if level == 0 then 1 else if level == 1 then 512 else if level == 2 then 0x4_0000
    else if level == 3 then 0x800_0000 else 0x10_0000_0000
  }

  function Index(vpn: nat, level: nat): (i: nat)
    requires level <= 3
    ensures i < 512
  {
    (vpn / Span(level)) % 512
  }

  lemma IndexSplits(vpn: nat, level: nat)
    requires level <= 3
    ensures vpn / Span(level) == (vpn / Span(level + 1)) * 512 + Index(vpn, level)
    ensures vpn < USER_PAGES ==> vpn / Span(4) == 0 && Index(vpn, 3) < 256
  {
    if level == 0 {
      assert vpn == (vpn / 512) * 512 + vpn % 512;
    } else if level == 1 {
      assert vpn / 0x4_0000 == (vpn / 512) / 512;
    } else if level == 2 {
      assert vpn / 0x800_0000 == (vpn / 0x4_0000) / 512;
    } else {
      assert vpn / 0x10_0000_0000 == (vpn / 0x800_0000) / 512;
    }
  }

  /** The leaf entry reached from a table at this level; None if some level is not present. */
  function Leaf(mem: Memory, table: nat, vpn: nat, level: nat): Option<nat>
    requires level <= 3
    decreases level, vpn
  {
    var e := Entry(mem, table, Index(vpn, level));
    if !Present(e) then None
    else if level == 0 then Some(e)
    else Leaf(mem, Target(e), vpn, level - 1)
  }

  /** amm_virt_to_kva, in frames: the frame behind a page of the address space rooted at `root`. */
  function Translate(mem: Memory, root: nat, vpn: nat): Option<nat> {
    match Leaf(mem, root, vpn, 3)
    case None => None
    case Some(e) => Some(Target(e))
  }

  // ---- Ownership ---------------------------------------------------------------------------------

  /** A table covers the pages of one address space whose number divided by its span is `prefix`. */
  datatype TableId = TableId(root: nat, level: nat, prefix: nat)
  datatype PageId = PageId(root: nat, vpn: nat)
  datatype Layout = Layout(mem: Memory, tables: map<nat, TableId>, data: map<nat, PageId>)

  /** Entries 256..511 of a root are the shared kernel half and belong to no address space. */
  predicate UserSlot(id: TableId, i: nat) {
    id.level <= 3 && i < 512 && (id.level == 3 ==> i < 256)
  }

  /** Every entry is open to user mode, and one above the leaves takes no right away. */
  predicate Passes(level: nat, e: nat) {
    User(e) && (level > 0 ==> Writable(e) && !NoExecute(e))
  }

  predicate PointsRight(y: Layout, id: TableId, i: nat, e: nat) {
    var t := Target(e);
    Passes(id.level, e) &&
    if id.level > 0 then t in y.tables && y.tables[t] == TableId(id.root, id.level - 1, id.prefix * 512 + i)
    else t in y.data && y.data[t] == PageId(id.root, id.prefix * 512 + i)
  }

  ghost predicate Wired(y: Layout) {
    && y.tables.Keys !! y.data.Keys
    && (forall f :: f in y.tables ==> y.tables[f].level <= 3)
    && (forall f, i :: f in y.tables && UserSlot(y.tables[f], i) && Present(Entry(y.mem, f, i)) ==>
          PointsRight(y, y.tables[f], i, Entry(y.mem, f, i)))
  }

  predicate IsRoot(y: Layout, r: nat) {
    r in y.tables && y.tables[r] == TableId(r, 3, 0)
  }

  /** f is the table at this level on the walk for page vpn from root r. */
  predicate OnPath(y: Layout, f: nat, r: nat, vpn: nat, level: nat) {
    level <= 3 && f in y.tables && y.tables[f] == TableId(r, level, vpn / Span(level + 1))
  }

  lemma RootOnPath(y: Layout, r: nat, vpn: nat)
    requires IsRoot(y, r) && vpn < USER_PAGES
    ensures OnPath(y, r, r, vpn, 3)
  {
    IndexSplits(vpn, 3);
  }

  lemma StepOnPath(y: Layout, f: nat, r: nat, vpn: nat, level: nat)
    requires Wired(y) && OnPath(y, f, r, vpn, level) && vpn < USER_PAGES
    requires Present(Entry(y.mem, f, Index(vpn, level)))
    ensures Passes(level, Entry(y.mem, f, Index(vpn, level)))
    ensures var t := Target(Entry(y.mem, f, Index(vpn, level)));
      if level > 0 then OnPath(y, t, r, vpn, level - 1) else t in y.data && y.data[t] == PageId(r, vpn)
  {
    IndexSplits(vpn, level);
    assert UserSlot(y.tables[f], Index(vpn, level));
  }

  /** Whatever a walk reaches belongs to exactly the page it was made for. */
  lemma {:induction false} LeafBelongs(y: Layout, f: nat, r: nat, vpn: nat, level: nat)
    requires Wired(y) && OnPath(y, f, r, vpn, level) && vpn < USER_PAGES
    ensures var e := Leaf(y.mem, f, vpn, level);
      e.Some? ==> Target(e.value) in y.data && y.data[Target(e.value)] == PageId(r, vpn)
    decreases level
  {
    var e := Entry(y.mem, f, Index(vpn, level));
    if Present(e) {
      StepOnPath(y, f, r, vpn, level);
      if level > 0 {
        LeafBelongs(y, Target(e), r, vpn, level - 1);
      }
    }
  }

  // ---- What the processor lets through ---------------------------------------------------------------

  datatype Access = Load | Store | Fetch

  predicate Permits(e: nat, a: Access) {
    User(e) &&
    match a
    case Load => true
    case Store => Writable(e)
    case Fetch => !NoExecute(e)
  }

  /** User mode is let through to a page only if every entry on the walk allows the access. */
  predicate Granted(mem: Memory, table: nat, vpn: nat, level: nat, a: Access)
    requires level <= 3
    decreases level, vpn
  {
    var e := Entry(mem, table, Index(vpn, level));
    Present(e) && Permits(e, a) && (level == 0 || Granted(mem, Target(e), vpn, level - 1, a))
  }

  /** The leaf entry alone decides: no table above it stands in the way. */
  lemma {:induction false} LeafDecides(y: Layout, f: nat, r: nat, vpn: nat, level: nat, a: Access)
    requires Wired(y) && OnPath(y, f, r, vpn, level) && vpn < USER_PAGES
    ensures Granted(y.mem, f, vpn, level, a)
       <==> Leaf(y.mem, f, vpn, level).Some? && Permits(Leaf(y.mem, f, vpn, level).value, a)
    decreases level
  {
    var e := Entry(y.mem, f, Index(vpn, level));
    if Present(e) {
      StepOnPath(y, f, r, vpn, level);
      if level > 0 {
        LeafDecides(y, Target(e), r, vpn, level - 1, a);
      }
    }
  }

  /** The page is readable from user mode, and writable and executable just as `prot` says. */
  ghost predicate Protected(mem: Memory, root: nat, vpn: nat, prot: nat) {
    && Granted(mem, root, vpn, 3, Load)
    && (Granted(mem, root, vpn, 3, Store) <==> ProtWrite(prot))
    && (Granted(mem, root, vpn, 3, Fetch) <==> ProtExec(prot))
  }

  lemma LeafProtects(y: Layout, r: nat, vpn: nat, prot: nat)
    requires Wired(y) && IsRoot(y, r) && vpn < USER_PAGES
    requires Leaf(y.mem, r, vpn, 3).Some? && Carries(Leaf(y.mem, r, vpn, 3).value, prot)
    ensures Protected(y.mem, r, vpn, prot)
  {
    RootOnPath(y, r, vpn);
    LeafDecides(y, r, r, vpn, 3, Load);
    LeafDecides(y, r, r, vpn, 3, Store);
    LeafDecides(y, r, r, vpn, 3, Fetch);
  }

  /** Two pages, of one address space or of two, never share a frame. */
  lemma TranslationsAreInjective(y: Layout, r: nat, vpn: nat, r': nat, vpn': nat)
    requires Wired(y) && IsRoot(y, r) && IsRoot(y, r') && vpn < USER_PAGES && vpn' < USER_PAGES
    requires Translate(y.mem, r, vpn).Some? && Translate(y.mem, r, vpn) == Translate(y.mem, r', vpn')
    ensures r == r' && vpn == vpn'
  {
    RootOnPath(y, r, vpn);
    RootOnPath(y, r', vpn');
    LeafBelongs(y, r, r, vpn, 3);
    LeafBelongs(y, r', r', vpn', 3);
  }

  // ---- What writes change -------------------------------------------------------------------------

  /** Writing outside the tables changes no walk. */
  lemma {:induction false} LeafUntouched(y: Layout, mem': Memory, f: nat, r: nat, vpn: nat, level: nat)
    requires Wired(y) && OnPath(y, f, r, vpn, level) && vpn < USER_PAGES
    requires forall g :: g in y.tables ==> FrameAt(mem', g) == FrameAt(y.mem, g)
    ensures Leaf(mem', f, vpn, level) == Leaf(y.mem, f, vpn, level)
    decreases level
  {
    var e := Entry(y.mem, f, Index(vpn, level));
    assert Entry(mem', f, Index(vpn, level)) == e;
    if Present(e) && level > 0 {
      StepOnPath(y, f, r, vpn, level);
      LeafUntouched(y, mem', Target(e), r, vpn, level - 1);
    }
  }

  /** Slot i of table g is the one that the walk for (r, vpn) reads. */
  predicate SlotFor(y: Layout, g: nat, i: nat, r: nat, vpn: nat)
    requires g in y.tables && y.tables[g].level <= 3
  {
    y.tables[g].root == r && vpn / Span(y.tables[g].level) == y.tables[g].prefix * 512 + i
  }

  /** Writing one entry changes only the walks that read it. */
  lemma {:induction false} LeafElsewhere(y: Layout, g: nat, i: nat, v: nat, f: nat, r: nat, vpn: nat, level: nat)
    requires Wired(y) && OnPath(y, f, r, vpn, level) && vpn < USER_PAGES
    requires g in y.tables && i < 512 && v < WORD && !SlotFor(y, g, i, r, vpn)
    ensures Leaf(SetEntry(y.mem, g, i, v), f, vpn, level) == Leaf(y.mem, f, vpn, level)
    decreases level
  {
    var j := Index(vpn, level);
    IndexSplits(vpn, level);
    EntryAfterSet(y.mem, g, i, v, f, j);
    var e := Entry(y.mem, f, j);
    if Present(e) && level > 0 {
      StepOnPath(y, f, r, vpn, level);
      LeafElsewhere(y, g, i, v, Target(e), r, vpn, level - 1);
    }
  }

  // ---- Passing through a table ----------------------------------------------------------------------

  /** The walk for vpn from table f at `level` passes through table g at `low`. */
  predicate Reaches(mem: Memory, f: nat, vpn: nat, level: nat, g: nat, low: nat)
    requires level <= 3
    decreases level, vpn
  {
    if level <= low then f == g && level == low
    else
      var e := Entry(mem, f, Index(vpn, level));
      Present(e) && Reaches(mem, Target(e), vpn, level - 1, g, low)
  }

  lemma {:induction false} LeafThrough(mem: Memory, f: nat, vpn: nat, level: nat, g: nat, low: nat)
    requires low <= level <= 3 && Reaches(mem, f, vpn, level, g, low)
    ensures Leaf(mem, f, vpn, level) == Leaf(mem, g, vpn, low)
    decreases level
  {
    if level > low {
      LeafThrough(mem, Target(Entry(mem, f, Index(vpn, level))), vpn, level - 1, g, low);
    }
  }

  lemma {:induction false} ReachesNext(mem: Memory, f: nat, vpn: nat, level: nat, g: nat, low: nat)
    requires 0 < low <= level <= 3 && Reaches(mem, f, vpn, level, g, low)
    requires Present(Entry(mem, g, Index(vpn, low)))
    ensures Reaches(mem, f, vpn, level, Target(Entry(mem, g, Index(vpn, low))), low - 1)
    decreases level
  {
    if level > low {
      ReachesNext(mem, Target(Entry(mem, f, Index(vpn, level))), vpn, level - 1, g, low);
    } else {
      var next := Target(Entry(mem, g, Index(vpn, low)));
      assert Reaches(mem, next, vpn, level - 1, next, low - 1);
    }
  }

  /** A write at or below `low` leaves the way down to `low` as it was. */
  lemma {:induction false} ReachesAfterSet(y: Layout, h: nat, i: nat, v: nat, f: nat, r: nat, vpn: nat, level: nat,
                                           g: nat, low: nat)
    requires Wired(y) && OnPath(y, f, r, vpn, level) && vpn < USER_PAGES
    requires Reaches(y.mem, f, vpn, level, g, low)
    requires h in y.tables && y.tables[h].level <= low && i < 512 && v < WORD
    ensures Reaches(SetEntry(y.mem, h, i, v), f, vpn, level, g, low)
    decreases level
  {
    if level > low {
      EntryAfterSet(y.mem, h, i, v, f, Index(vpn, level));
      StepOnPath(y, f, r, vpn, level);
      ReachesAfterSet(y, h, i, v, Target(Entry(y.mem, f, Index(vpn, level))), r, vpn, level - 1, g, low);
    }
  }

  lemma {:induction false} ReachesUntouched(y: Layout, mem': Memory, f: nat, r: nat, vpn: nat, level: nat, g: nat,
                                            low: nat)
    requires Wired(y) && OnPath(y, f, r, vpn, level) && vpn < USER_PAGES
    requires Reaches(y.mem, f, vpn, level, g, low)
    requires forall h :: h in y.tables ==> FrameAt(mem', h) == FrameAt(y.mem, h)
    ensures Reaches(mem', f, vpn, level, g, low)
    decreases level
  {
    if level > low {
      assert Entry(mem', f, Index(vpn, level)) == Entry(y.mem, f, Index(vpn, level));
      StepOnPath(y, f, r, vpn, level);
      ReachesUntouched(y, mem', Target(Entry(y.mem, f, Index(vpn, level))), r, vpn, level - 1, g, low);
    }
  }

  // ---- The two kinds of store --------------------------------------------------------------------------

  /** Hang the zeroed table p below slot i of table g. */
  function LinkTable(y: Layout, g: nat, i: nat, p: nat): Layout
    requires g in y.tables && y.tables[g].level > 0 && i < 512
  {
    var id := y.tables[g];
    Layout(SetEntry(y.mem, g, i, TableEntry(p)),
           y.tables[p := TableId(id.root, id.level - 1, id.prefix * 512 + i)], y.data)
  }

  /** Map data frame p at slot i of leaf table g. */
  function MapLeaf(y: Layout, g: nat, i: nat, p: nat, prot: nat): Layout
    requires g in y.tables && i < 512
  {
    var id := y.tables[g];
    Layout(SetEntry(y.mem, g, i, PageEntry(p, prot)), y.tables, y.data[p := PageId(id.root, id.prefix * 512 + i)])
  }

  predicate Unowned(y: Layout, p: nat) {
    p !in y.tables && p !in y.data
  }

  lemma LinkTableWired(y: Layout, g: nat, i: nat, p: nat)
    requires Wired(y) && g in y.tables && y.tables[g].level > 0 && UserSlot(y.tables[g], i)
    requires Unowned(y, p) && p < FRAMES && FrameAt(y.mem, p) == Zeros(PAGE)
    ensures Wired(LinkTable(y, g, i, p))
  {
    var z := LinkTable(y, g, i, p);
    TableEntryDecodes(p);
    forall f, j | f in z.tables && UserSlot(z.tables[f], j) && Present(Entry(z.mem, f, j))
      ensures PointsRight(z, z.tables[f], j, Entry(z.mem, f, j))
    {
      EntryAfterSet(y.mem, g, i, TableEntry(p), f, j);
      if f == p {
        EntryOfZero(y.mem, p, j);
      } else if f != g || j != i {
        assert PointsRight(y, y.tables[f], j, Entry(y.mem, f, j));
      }
    }
  }

  /** Linking a fresh table into an empty slot changes no translation anywhere. */
  lemma LinkTableTranslates(y: Layout, g: nat, i: nat, p: nat, r: nat, vpn: nat)
    requires Wired(y) && g in y.tables && y.tables[g].level > 0 && UserSlot(y.tables[g], i)
    requires Unowned(y, p) && p < FRAMES && FrameAt(y.mem, p) == Zeros(PAGE)
    requires !Present(Entry(y.mem, g, i)) && IsRoot(y, r) && vpn < USER_PAGES
    ensures Leaf(LinkTable(y, g, i, p).mem, r, vpn, 3) == Leaf(y.mem, r, vpn, 3)
  {
    RootOnPath(y, r, vpn);
    TableEntryDecodes(p);
    if SlotFor(y, g, i, r, vpn) {
      SlotIsOnPath(y, g, i, r, vpn);
      LinkedSlotIsEmpty(y, g, i, p, r, r, vpn, 3);
    } else {
      LeafElsewhere(y, g, i, TableEntry(p), r, r, vpn, 3);
    }
  }

  lemma SlotIsOnPath(y: Layout, g: nat, i: nat, r: nat, vpn: nat)
    requires g in y.tables && y.tables[g].level <= 3 && i < 512 && SlotFor(y, g, i, r, vpn)
    ensures OnPath(y, g, r, vpn, y.tables[g].level) && i == Index(vpn, y.tables[g].level)
  {
    IndexSplits(vpn, y.tables[g].level);
  }

  /** Below the slot there was nothing, and a zeroed table still holds nothing. */
  lemma {:induction false} LinkedSlotIsEmpty(y: Layout, g: nat, i: nat, p: nat, f: nat, r: nat, vpn: nat, level: nat)
    requires Wired(y) && g in y.tables && y.tables[g].level > 0 && UserSlot(y.tables[g], i)
    requires Unowned(y, p) && p < FRAMES && FrameAt(y.mem, p) == Zeros(PAGE) && !Present(Entry(y.mem, g, i))
    requires OnPath(y, f, r, vpn, level) && vpn < USER_PAGES
    requires OnPath(y, g, r, vpn, y.tables[g].level) && i == Index(vpn, y.tables[g].level) && y.tables[g].level <= level
    ensures Leaf(LinkTable(y, g, i, p).mem, f, vpn, level) == Leaf(y.mem, f, vpn, level)
    decreases level
  {
    var j := Index(vpn, level);
    TableEntryDecodes(p);
    EntryAfterSet(y.mem, g, i, TableEntry(p), f, j);
    if f == g {
      EntryAfterSet(y.mem, g, i, TableEntry(p), p, Index(vpn, level - 1));
      EntryOfZero(y.mem, p, Index(vpn, level - 1));
    } else if Present(Entry(y.mem, f, j)) && level > 0 {
      StepOnPath(y, f, r, vpn, level);
      if level == y.tables[g].level {
        LeafBelow(y, g, i, TableEntry(p), Target(Entry(y.mem, f, j)), r, vpn, level - 1);
      } else {
        LinkedSlotIsEmpty(y, g, i, p, Target(Entry(y.mem, f, j)), r, vpn, level - 1);
      }
    }
  }

  /** A write to a higher level is not seen below it. */
  lemma {:induction false} LeafBelow(y: Layout, g: nat, i: nat, v: nat, f: nat, r: nat, vpn: nat, level: nat)
    requires Wired(y) && OnPath(y, f, r, vpn, level) && vpn < USER_PAGES
    requires g in y.tables && y.tables[g].level > level && i < 512 && v < WORD
    ensures Leaf(SetEntry(y.mem, g, i, v), f, vpn, level) == Leaf(y.mem, f, vpn, level)
    decreases level
  {
    var j := Index(vpn, level);
    EntryAfterSet(y.mem, g, i, v, f, j);
    if Present(Entry(y.mem, f, j)) && level > 0 {
      StepOnPath(y, f, r, vpn, level);
      LeafBelow(y, g, i, v, Target(Entry(y.mem, f, j)), r, vpn, level - 1);
    }
  }

  lemma MapLeafWired(y: Layout, g: nat, i: nat, p: nat, prot: nat)
    requires Wired(y) && g in y.tables && y.tables[g].level == 0 && i < 512 && Unowned(y, p) && p < FRAMES
    ensures Wired(MapLeaf(y, g, i, p, prot))
  {
    var z := MapLeaf(y, g, i, p, prot);
    PageEntryDecodes(p, prot);
    forall f, j | f in z.tables && UserSlot(z.tables[f], j) && Present(Entry(z.mem, f, j))
      ensures PointsRight(z, z.tables[f], j, Entry(z.mem, f, j))
    {
      EntryAfterSet(y.mem, g, i, PageEntry(p, prot), f, j);
      if f != g || j != i {
        assert PointsRight(y, y.tables[f], j, Entry(y.mem, f, j));
      }
    }
  }

  /** Storing a leaf entry changes the translation of its own page and of no other. */
  lemma MapLeafTranslates(y: Layout, g: nat, p: nat, prot: nat, r: nat, vpn: nat, r': nat, vpn': nat)
    requires Wired(y) && IsRoot(y, r) && IsRoot(y, r') && vpn < USER_PAGES && vpn' < USER_PAGES
    requires OnPath(y, g, r, vpn, 0) && Reaches(y.mem, r, vpn, 3, g, 0) && p < FRAMES
    ensures Leaf(MapLeaf(y, g, Index(vpn, 0), p, prot).mem, r', vpn', 3)
         == if r == r' && vpn == vpn' then Some(PageEntry(p, prot)) else Leaf(y.mem, r', vpn', 3)
  {
    var i, v := Index(vpn, 0), PageEntry(p, prot);
    PageEntryDecodes(p, prot);
    RootOnPath(y, r, vpn);
    RootOnPath(y, r', vpn');
    IndexSplits(vpn, 0);
    if r == r' && vpn == vpn' {
      ReachesAfterSet(y, g, i, v, r, r, vpn, 3, g, 0);
      LeafThrough(SetEntry(y.mem, g, i, v), r, vpn, 3, g, 0);
      EntryAfterSet(y.mem, g, i, v, g, i);
    } else {
      LeafElsewhere(y, g, i, v, r', r', vpn', 3);
    }
  }
}
