/** The four-level page tables of kernel/src/mm/vmm.c, held in frames of the frame allocator.
    A page table entry is a 64-bit word: bit 0 says present, `e & ~0xFFF` is FrameOf(e) * PAGE_SIZE. */
module Vmm {
  import opened Machine
  import opened Arith
  import opened Options
  import opened Pmm

  const ENTRIES: nat := 512
  const VPN_COUNT: nat := 0x10_0000_0000    // four indices of 9 bits

  predicate Present(e: nat) {
    e % 2 == 1
  }

  function FrameOf(e: nat): nat {
    e / PAGE_SIZE
  }

  /** `addr | flags | PTE_PRESENT` for the address of a frame and flags below 0x1000. */
  function MakeEntry(frame: nat, flags: nat): (e: nat)
    requires flags < PAGE_SIZE
    ensures Present(e) && FrameOf(e) == frame && e % PAGE_SIZE == flags / 2 * 2 + 1
  {
    var low := flags / 2 * 2 + 1;
    var entry := frame * PAGE_SIZE + low;
    assert entry == 2 * (frame * 2048 + flags / 2) + 1;
    DivUnique(entry, PAGE_SIZE, frame, low);
    entry
  }

  /** The four 9-bit indices of an address: the virtual page it lies in. */
  datatype Indices = Indices(pml4: nat, pdp: nat, pd: nat, pt: nat)

  type Page = p: Indices | p.pml4 < ENTRIES && p.pdp < ENTRIES && p.pd < ENTRIES && p.pt < ENTRIES
    witness Indices(0, 0, 0, 0)

  /** The number of a virtual page, whose base-512 digits are its indices. */
  function Number(page: Page): nat {
    page.pml4 * 0x800_0000 + page.pdp * 0x4_0000 + page.pd * 0x200 + page.pt
  }

  /** The virtual page number of an address: bits 12 to 47. */
  function Vpn(virt: nat): nat {
    virt / PAGE_SIZE % VPN_COUNT
  }

  /** get_page_indices splits the virtual page number into its digits. */
  method GetPageIndices(virt: nat) returns (page: Page)
    ensures Number(page) == Vpn(virt)
  {
    DigitsOf(virt);
    return Indices(virt / 0x80_0000_0000 % ENTRIES, virt / 0x4000_0000 % ENTRIES,
                   virt / 0x20_0000 % ENTRIES, virt / 0x1000 % ENTRIES);
  }

  lemma DigitsOf(virt: nat)
    ensures virt / 0x80_0000_0000 % ENTRIES * 0x800_0000 + virt / 0x4000_0000 % ENTRIES * 0x4_0000
      + virt / 0x20_0000 % ENTRIES * 0x200 + virt / 0x1000 % ENTRIES == virt / 0x1000 % VPN_COUNT
  {
    DivDiv(virt, 0x1000, ENTRIES);
    DivDiv(virt, 0x20_0000, ENTRIES);
    DivDiv(virt, 0x4000_0000, ENTRIES);
    FourDigits(virt / 0x1000, virt / 0x20_0000, virt / 0x4000_0000, virt / 0x80_0000_0000);
  }

  /** The last four digits of a number to the base 512. */
  lemma FourDigits(x: nat, q: nat, r: nat, s: nat)
    requires q == x / ENTRIES && r == q / ENTRIES && s == r / ENTRIES
    ensures s % ENTRIES * 0x800_0000 + r % ENTRIES * 0x4_0000 + q % ENTRIES * 0x200 + x % ENTRIES == x % VPN_COUNT
  {
    DivUnique(x, VPN_COUNT, s / ENTRIES,
              s % ENTRIES * 0x800_0000 + r % ENTRIES * 0x4_0000 + q % ENTRIES * 0x200 + x % ENTRIES);
  }

  lemma LastDigit(x: nat, r: nat, y: nat, s: nat)
    requires r < ENTRIES && s < ENTRIES && x * ENTRIES + r == y * ENTRIES + s
    ensures x == y && r == s
  {
  }

  lemma NumberInjective(v: Page, w: Page)
    requires Number(v) == Number(w)
    ensures v == w
  {
    LastDigit(v.pml4 * 0x4_0000 + v.pdp * 0x200 + v.pd, v.pt, w.pml4 * 0x4_0000 + w.pdp * 0x200 + w.pd, w.pt);
    LastDigit(v.pml4 * 0x200 + v.pdp, v.pd, w.pml4 * 0x200 + w.pdp, w.pd);
    LastDigit(v.pml4, v.pdp, w.pml4, w.pdp);
  }

  /** The page with a given number. */
  function PageNumbered(n: nat): Page {
    Indices(n / 0x800_0000 % ENTRIES, n / 0x4_0000 % ENTRIES, n / 0x200 % ENTRIES, n % ENTRIES)
  }

  lemma NumberedPage(page: Page)
    ensures PageNumbered(Number(page)) == page
  {
    var n := Number(page);
    DivUnique(n, 0x200, page.pml4 * 0x4_0000 + page.pdp * 0x200 + page.pd, page.pt);
    DivUnique(n, 0x4_0000, page.pml4 * 0x200 + page.pdp, page.pd * 0x200 + page.pt);
    DivUnique(n, 0x800_0000, page.pml4, page.pdp * 0x4_0000 + page.pd * 0x200 + page.pt);
    DivUnique(page.pml4 * 0x4_0000 + page.pdp * 0x200 + page.pd, ENTRIES, page.pml4 * 0x200 + page.pdp, page.pd);
    DivUnique(page.pml4 * 0x200 + page.pdp, ENTRIES, page.pml4, page.pdp);
    DivUnique(page.pml4, ENTRIES, 0, page.pml4);
  }

  function Index(page: Page, level: nat): (i: nat)
    requires 1 <= level <= 4
    ensures i < ENTRIES
  {
    match level
    case 4 => page.pml4
    case 3 => page.pdp
    case 2 => page.pd
    case _ => page.pt
  }

  type Ram = map<nat, seq<nat>>    // frame number to the 512 words it holds

  function Entry(ram: Ram, f: nat, i: nat): nat {
    if f in ram && i < |ram[f]| then ram[f][i] else 0
  }

  function WriteEntry(ram: Ram, f: nat, i: nat, e: nat): Ram
    requires f in ram && i < |ram[f]|
  {
    var table: seq<nat> := ram[f][i := e];
    ram[f := table]
  }

  /** The table the walk for `page` reaches at `level`. */
  function TableAt(ram: Ram, root: nat, page: Page, level: nat): Option<nat>
    requires 1 <= level <= 4
    decreases 4 - level
  {
    if level == 4 then Some(root)
    else match TableAt(ram, root, page, level + 1)
      case None => None
      case Some(f) =>
        var e := Entry(ram, f, Index(page, level + 1));
        if Present(e) then Some(FrameOf(e)) else None
  }

  /** The frame `page` translates to. */
  function Lookup(ram: Ram, root: nat, page: Page): Option<nat> {
    match TableAt(ram, root, page, 1)
    case None => None
    case Some(f) =>
      var e := Entry(ram, f, Index(page, 1));
      if Present(e) then Some(FrameOf(e)) else None
  }

  function Get(m: map<nat, nat>, k: nat): Option<nat> {
    if k in m then Some(m[k]) else None
  }

  /** `mapping` is the translation the tables compute. */
  ghost predicate Translates(ram: Ram, root: nat, mapping: map<nat, nat>) {
    && (forall vpn: nat | vpn in mapping :: vpn < VPN_COUNT)
    && (forall page: Page {:trigger Lookup(ram, root, page)} :: Lookup(ram, root, page) == Get(mapping, Number(page)))
  }

  /** What the tree remembers of a table frame: its level, and the slot that points to it. */
  datatype Node = Node(level: nat, parent: nat, slot: nat)

  predicate PointsTo(ram: Ram, tree: map<nat, Node>, f: nat, i: nat) {
    f in tree && tree[f].level > 1 && i < ENTRIES && Present(Entry(ram, f, i))
  }

  /** The table frames form a tree: every present entry of an upper table points to a table one
      level down, and each table has only one slot that points to it. */
  ghost predicate Tree(ram: Ram, root: nat, tree: map<nat, Node>) {
    && root in tree && tree[root].level == 4
    && (forall f: nat | f in tree :: 1 <= tree[f].level <= 4 && f in ram && |ram[f]| == ENTRIES && f != NULL)
    && (forall f: nat, i: nat {:trigger PointsTo(ram, tree, f, i)} | PointsTo(ram, tree, f, i) ::
         var child := FrameOf(Entry(ram, f, i));
         child in tree && tree[child] == Node(tree[f].level - 1, f, i))
  }

  lemma {:induction false} TableAtLevel(ram: Ram, root: nat, tree: map<nat, Node>, page: Page, level: nat)
    requires 1 <= level <= 4 && Tree(ram, root, tree)
    ensures var t := TableAt(ram, root, page, level); t.Some? ==> t.value in tree && tree[t.value].level == level
    decreases 4 - level
  {
    if level < 4 {
      TableAtLevel(ram, root, tree, page, level + 1);
      var t := TableAt(ram, root, page, level + 1);
      assert t.Some? && Present(Entry(ram, t.value, Index(page, level + 1)))
        ==> PointsTo(ram, tree, t.value, Index(page, level + 1));
    }
  }

  /** One step of the walk, through a present slot. */
  lemma WalkStep(ram: Ram, root: nat, tree: map<nat, Node>, page: Page, level: nat, f: nat, i: nat, e: nat)
    requires Tree(ram, root, tree) && 2 <= level <= 4 && TableAt(ram, root, page, level) == Some(f)
    requires i == Index(page, level) && e == Entry(ram, f, i) && Present(e)
    ensures TableAt(ram, root, page, level - 1) == Some(FrameOf(e)) && FrameOf(e) != NULL
  {
    var below := level - 1;
    assert TableAt(ram, root, page, below + 1) == Some(f);
    TableAtLevel(ram, root, tree, page, below);
  }

  /** The walk ends at an empty slot. */
  lemma NoStep(ram: Ram, root: nat, page: Page, level: nat, f: nat)
    requires 2 <= level <= 4 && TableAt(ram, root, page, level) == Some(f)
    requires !Present(Entry(ram, f, Index(page, level)))
    ensures TableAt(ram, root, page, level - 1) == None
  {
    var below := level - 1;
    assert TableAt(ram, root, page, below + 1) == Some(f);
  }

  /** Two walks that meet in one table took the same slots to it. */
  lemma {:induction false} SamePath(ram: Ram, root: nat, tree: map<nat, Node>, v: Page, w: Page, level: nat)
    requires 1 <= level <= 4 && Tree(ram, root, tree)
    requires TableAt(ram, root, v, level).Some? && TableAt(ram, root, v, level) == TableAt(ram, root, w, level)
    ensures forall l | level < l <= 4 :: Index(v, l) == Index(w, l)
    decreases 4 - level
  {
    if level < 4 {
      TableAtLevel(ram, root, tree, v, level + 1);
      TableAtLevel(ram, root, tree, w, level + 1);
      var f, g := TableAt(ram, root, v, level + 1).value, TableAt(ram, root, w, level + 1).value;
      assert PointsTo(ram, tree, f, Index(v, level + 1)) && PointsTo(ram, tree, g, Index(w, level + 1));
      SamePath(ram, root, tree, v, w, level + 1);
    }
  }

  /** Writing entry `e` into slot `i` of a last-level table keeps the tree. */
  lemma LeafKeepsTree(ram: Ram, root: nat, tree: map<nat, Node>, pt: nat, i: nat, e: nat)
    requires Tree(ram, root, tree) && pt in tree && tree[pt].level == 1 && i < ENTRIES
    ensures Tree(WriteEntry(ram, pt, i, e), root, tree)
  {
    var ram' := WriteEntry(ram, pt, i, e);
    forall f: nat, i: nat | PointsTo(ram', tree, f, i)
      ensures PointsTo(ram, tree, f, i) && Entry(ram', f, i) == Entry(ram, f, i)
    {
    }
  }

  /** ... and changes no translation but that of the page that slot belongs to. */
  lemma LeafLookup(ram: Ram, root: nat, tree: map<nat, Node>, page: Page, pt: nat, e: nat, w: Page)
    requires Tree(ram, root, tree) && TableAt(ram, root, page, 1) == Some(pt)
    requires pt in tree && tree[pt].level == 1
    ensures Lookup(WriteEntry(ram, pt, page.pt, e), root, w) ==
      if w == page then (if Present(e) then Some(FrameOf(e)) else None) else Lookup(ram, root, w)
  {
    UpperWalkUnchanged(ram, WriteEntry(ram, pt, page.pt, e), root, tree, w, 1);
    TableAtLevel(ram, root, tree, w, 1);
    if TableAt(ram, root, w, 1) == Some(pt) && w.pt == page.pt {
      SamePath(ram, root, tree, page, w, 1);
      assert Index(page, 4) == Index(w, 4) && Index(page, 3) == Index(w, 3) && Index(page, 2) == Index(w, 2);
    }
  }

  /** The translation after writing entry `e` for `page`. */
  function Updated(mapping: map<nat, nat>, page: Page, e: nat): map<nat, nat> {
    if Present(e) then mapping[Number(page) := FrameOf(e)] else mapping - {Number(page)}
  }

  lemma LeafTranslates(ram: Ram, root: nat, tree: map<nat, Node>, mapping: map<nat, nat>, page: Page, pt: nat, e: nat)
    requires Tree(ram, root, tree) && Translates(ram, root, mapping) && TableAt(ram, root, page, 1) == Some(pt)
    ensures pt in tree && tree[pt].level == 1
    ensures Tree(WriteEntry(ram, pt, page.pt, e), root, tree)
    ensures Translates(WriteEntry(ram, pt, page.pt, e), root, Updated(mapping, page, e))
  {
    TableAtLevel(ram, root, tree, page, 1);
    LeafKeepsTree(ram, root, tree, pt, page.pt, e);
    var ram' := WriteEntry(ram, pt, page.pt, e);
    NumberBound(page);
    forall w: Page ensures Lookup(ram', root, w) == Get(Updated(mapping, page, e), Number(w)) {
      LeafLookup(ram, root, tree, page, pt, e, w);
      if Number(w) == Number(page) {
        NumberInjective(w, page);
      }
    }
  }

  lemma NumberBound(page: Page)
    ensures Number(page) < VPN_COUNT
  {
  }

  lemma {:induction false} UpperWalkUnchanged(ram: Ram, ram': Ram, root: nat, tree: map<nat, Node>, page: Page,
                                              level: nat)
    requires 1 <= level <= 4 && Tree(ram, root, tree)
    requires forall f: nat | f in tree && tree[f].level > level :: f in ram' && ram'[f] == ram[f]
    ensures TableAt(ram', root, page, level) == TableAt(ram, root, page, level)
    decreases 4 - level
  {
    if level < 4 {
      TableAtLevel(ram, root, tree, page, level + 1);
      UpperWalkUnchanged(ram, ram', root, tree, page, level + 1);
    }
  }

  const ZERO_TABLE: seq<nat> := seq(ENTRIES, i => 0)

  /** Linking a zeroed frame `c` into the empty slot `i` of table `f` keeps the tree. */
  lemma ChildKeepsTree(ram: Ram, root: nat, tree: map<nat, Node>, f: nat, i: nat, c: nat, e: nat)
    requires Tree(ram, root, tree) && f in tree && tree[f].level > 1 && i < ENTRIES
    requires c !in tree && c != NULL && Present(e) && FrameOf(e) == c
    ensures Tree(WriteEntry(ram[c := ZERO_TABLE], f, i, e), root, tree[c := Node(tree[f].level - 1, f, i)])
  {
    var ram' := WriteEntry(ram[c := ZERO_TABLE], f, i, e);
    var tree' := tree[c := Node(tree[f].level - 1, f, i)];
    forall g: nat, j: nat | PointsTo(ram', tree', g, j)
      ensures var child := FrameOf(Entry(ram', g, j));
        child in tree' && tree'[child] == Node(tree'[g].level - 1, g, j)
    {
      if (g, j) != (f, i) {
        assert PointsTo(ram, tree, g, j);
      }
    }
  }

  /** ... gives the walk through that slot its table, and changes no translation. */
  lemma {:induction false} ChildLookup(ram: Ram, root: nat, tree: map<nat, Node>, f: nat, i: nat, c: nat, e: nat,
                                       w: Page, level: nat)
    requires Tree(ram, root, tree) && f in tree && tree[f].level > 1 && i < ENTRIES
    requires c !in tree && c != NULL && Present(e) && FrameOf(e) == c && !Present(Entry(ram, f, i))
    requires 1 <= level <= 4
    ensures var ram' := WriteEntry(ram[c := ZERO_TABLE], f, i, e);
      var old_ := TableAt(ram, root, w, level);
      var new_ := TableAt(ram', root, w, level);
      old_ == new_ || (old_ == None && level < tree[f].level && new_ == Some(c) && level == tree[f].level - 1)
    decreases 4 - level
  {
    if level < 4 {
      TableAtLevel(ram, root, tree, w, level + 1);
      ChildLookup(ram, root, tree, f, i, c, e, w, level + 1);
      var t := TableAt(ram, root, w, level + 1);
      if t.Some? {
        ChildEntry(ram, f, i, c, e, t.value, Index(w, level + 1));
      } else {
        ChildEntry(ram, f, i, c, e, c, Index(w, level + 1));
      }
    }
  }

  /** The only entry that differs is the one of the link, and the fresh table has none. */
  lemma ChildEntry(ram: Ram, f: nat, i: nat, c: nat, e: nat, g: nat, j: nat)
    requires c != f && f in ram && |ram[f]| == ENTRIES && i < ENTRIES
    ensures var ram' := WriteEntry(ram[c := ZERO_TABLE], f, i, e);
      Entry(ram', g, j) == if g == c then 0 else if g == f && j == i then e else Entry(ram, g, j)
  {
  }

  lemma ChildTranslates(ram: Ram, root: nat, tree: map<nat, Node>, mapping: map<nat, nat>,
                        f: nat, i: nat, c: nat, e: nat)
    requires Tree(ram, root, tree) && f in tree && tree[f].level > 1 && i < ENTRIES
    requires c !in tree && c != NULL && Present(e) && FrameOf(e) == c && !Present(Entry(ram, f, i))
    requires Translates(ram, root, mapping)
    ensures Translates(WriteEntry(ram[c := ZERO_TABLE], f, i, e), root, mapping)
  {
    var ram' := WriteEntry(ram[c := ZERO_TABLE], f, i, e);
    forall w: Page ensures Lookup(ram', root, w) == Lookup(ram, root, w) {
      ChildLookup(ram, root, tree, f, i, c, e, w, 1);
      TableAtLevel(ram, root, tree, w, 1);
    }
  }

  /** The first page of those that share a table at `level`: their indices above that level are the same. */
  function Stem(page: Page, level: nat): Page {
    Indices(page.pml4, if level <= 2 then page.pdp else 0, if level <= 1 then page.pd else 0, 0)
  }

  /** A place in the tree below the root: the table at `level` for the pages with this stem. */
  datatype Place = Place(level: nat, stem: Page)

  predicate IsPlace(k: Place) {
    1 <= k.level <= 3 && k.stem == Stem(k.stem, k.level)
  }

  function PlaceOf(page: Page, level: nat): (k: Place)
    requires 1 <= level <= 3
    ensures IsPlace(k)
  {
    Place(level, Stem(page, level))
  }

  predicate HasTable(ram: Ram, root: nat, k: Place)
    requires IsPlace(k)
  {
    TableAt(ram, root, k.stem, k.level).Some?
  }

  lemma {:induction false} SameWalk(ram: Ram, root: nat, v: Page, w: Page, level: nat)
    requires 1 <= level <= 4 && forall l | level < l <= 4 :: Index(v, l) == Index(w, l)
    ensures TableAt(ram, root, v, level) == TableAt(ram, root, w, level)
    decreases 4 - level
  {
    if level < 4 {
      SameWalk(ram, root, v, w, level + 1);
    }
  }

  /** All pages with a stem reach its table. */
  lemma PlaceTable(ram: Ram, root: nat, page: Page, level: nat)
    requires 1 <= level <= 3
    ensures HasTable(ram, root, PlaceOf(page, level)) <==> TableAt(ram, root, page, level).Some?
  {
    SameWalk(ram, root, page, Stem(page, level), level);
  }

  /** From `ram0` to `ram` tables were made at exactly the places in `made`, where there was none. */
  ghost predicate Made(ram0: Ram, ram: Ram, root: nat, made: set<Place>) {
    && (forall k | k in made :: IsPlace(k) && !HasTable(ram0, root, k))
    && (forall k: Place {:trigger HasTable(ram, root, k)} | IsPlace(k) ::
         HasTable(ram, root, k) <==> HasTable(ram0, root, k) || k in made)
  }

  lemma MadeMore(ram0: Ram, ram1: Ram, ram: Ram, root: nat, made1: set<Place>, made2: set<Place>)
    requires Made(ram0, ram1, root, made1) && Made(ram1, ram, root, made2)
    ensures Made(ram0, ram, root, made1 + made2) && made1 !! made2
  {
    forall k: Place | IsPlace(k) ensures HasTable(ram, root, k) <==> HasTable(ram0, root, k) || k in made1 + made2 {
      assert HasTable(ram1, root, k) <==> HasTable(ram0, root, k) || k in made1;
    }
    forall k | k in made2 ensures k !in made1 && !HasTable(ram0, root, k) {
      assert HasTable(ram1, root, k) <==> HasTable(ram0, root, k) || k in made1;
    }
  }

  lemma NothingMade(ram: Ram, root: nat)
    ensures Made(ram, ram, root, {})
  {
  }

  /** The places where vmm_map_page makes a table for `page`. */
  function NoTableAt(ram: Ram, root: nat, k: Place): set<Place>
    requires IsPlace(k)
  {
    if HasTable(ram, root, k) then {} else {k}
  }

  function MissingFor(ram: Ram, root: nat, page: Page): set<Place> {
    NoTableAt(ram, root, PlaceOf(page, 3)) + NoTableAt(ram, root, PlaceOf(page, 2))
    + NoTableAt(ram, root, PlaceOf(page, 1))
  }

  /** Linking a zeroed frame into the empty slot for `page` in its table at `level` makes one table. */
  lemma ChildIsMade(ram: Ram, root: nat, tree: map<nat, Node>, page: Page, level: nat, f: nat, c: nat, e: nat)
    requires Tree(ram, root, tree) && 2 <= level <= 4 && TableAt(ram, root, page, level) == Some(f)
    requires c !in tree && c != NULL && Present(e) && FrameOf(e) == c && !Present(Entry(ram, f, Index(page, level)))
    ensures f in tree && f in ram && |ram[f]| == ENTRIES
    ensures Made(ram, WriteEntry(ram[c := ZERO_TABLE], f, Index(page, level), e), root, {PlaceOf(page, level - 1)})
  {
    TableAtLevel(ram, root, tree, page, level);
    var i, place := Index(page, level), PlaceOf(page, level - 1);
    var ram' := WriteEntry(ram[c := ZERO_TABLE], f, i, e);
    PlaceTable(ram, root, page, level - 1);
    var below := level - 1;
    assert TableAt(ram, root, page, below + 1) == Some(f);
    forall k: Place | IsPlace(k) ensures HasTable(ram', root, k) <==> HasTable(ram, root, k) || k == place {
      ChildAtPlace(ram, root, tree, page, level, f, c, e, k);
    }
  }

  lemma ChildAtPlace(ram: Ram, root: nat, tree: map<nat, Node>, page: Page, level: nat, f: nat, c: nat, e: nat,
                     k: Place)
    requires Tree(ram, root, tree) && 2 <= level <= 4 && TableAt(ram, root, page, level) == Some(f)
    requires c !in tree && c != NULL && Present(e) && FrameOf(e) == c && !Present(Entry(ram, f, Index(page, level)))
    requires f in tree && tree[f].level == level && IsPlace(k)
    ensures HasTable(WriteEntry(ram[c := ZERO_TABLE], f, Index(page, level), e), root, k)
      <==> HasTable(ram, root, k) || k == PlaceOf(page, level - 1)
  {
    var i, tree' := Index(page, level), tree[c := Node(level - 1, f, Index(page, level))];
    var ram' := WriteEntry(ram[c := ZERO_TABLE], f, i, e);
    ChildKeepsTree(ram, root, tree, f, i, c, e);
    ChildLookup(ram, root, tree, f, i, c, e, k.stem, k.level);
    ChildLookup(ram, root, tree, f, i, c, e, page, level);
    var below := level - 1;
    assert TableAt(ram', root, page, below + 1) == Some(f);
    assert TableAt(ram', root, page, below) == Some(c);
    PlaceTable(ram', root, page, below);
    if k.level == below && TableAt(ram', root, k.stem, k.level) == Some(c) {
      SameTable(ram', root, tree', page, k);
    }
  }

  /** Pages that reach the same table have the same stem. */
  lemma SameTable(ram: Ram, root: nat, tree: map<nat, Node>, page: Page, k: Place)
    requires Tree(ram, root, tree) && IsPlace(k)
    requires HasTable(ram, root, k) && TableAt(ram, root, page, k.level) == TableAt(ram, root, k.stem, k.level)
    ensures k == PlaceOf(page, k.level)
  {
    SamePath(ram, root, tree, page, k.stem, k.level);
    assert Index(page, 4) == Index(k.stem, 4);
    assert k.level < 3 ==> Index(page, 3) == Index(k.stem, 3);
    assert k.level < 2 ==> Index(page, 2) == Index(k.stem, 2);
  }

  /** Writing into a last-level table makes none. */
  lemma LeafMakesNone(ram: Ram, root: nat, tree: map<nat, Node>, pt: nat, i: nat, e: nat)
    requires Tree(ram, root, tree) && pt in tree && tree[pt].level == 1 && i < ENTRIES
    ensures Made(ram, WriteEntry(ram, pt, i, e), root, {})
  {
    var ram' := WriteEntry(ram, pt, i, e);
    forall k: Place | IsPlace(k) ensures HasTable(ram', root, k) <==> HasTable(ram, root, k) {
      UpperWalkUnchanged(ram, ram', root, tree, k.stem, k.level);
    }
  }

  /** Table frames are existing frames the allocator counts as used. */
  ghost predicate InUse(tree: map<nat, Node>, free: set<nat>) {
    forall f: nat | f in tree :: f < TOTAL_PAGES && f !in free
  }

  /** From (`tree0`, `free0`) to (`tree`, `free`) frames were taken for new tables only, and no table was dropped. */
  ghost predicate Taken(tree0: map<nat, Node>, free0: set<nat>, tree: map<nat, Node>, free: set<nat>) {
    tree0.Keys <= tree.Keys <= tree0.Keys + free0 && free == free0 - tree.Keys && OnlyTaken(free0, free)
  }

  /** ... at the places in `made`. */
  ghost predicate TablesMade(ram0: Ram, tree0: map<nat, Node>, free0: set<nat>,
                           ram: Ram, root: nat, tree: map<nat, Node>, free: set<nat>, made: set<Place>) {
    Taken(tree0, free0, tree, free) && Made(ram0, ram, root, made) && |tree.Keys - tree0.Keys| == |made|
  }

  lemma NoTablesMade(ram: Ram, root: nat, tree: map<nat, Node>, free: set<nat>)
    requires InUse(tree, free)
    ensures TablesMade(ram, tree, free, ram, root, tree, free, {})
  {
    assert tree.Keys - tree.Keys == {};
  }

  lemma OneTableMade(ram0: Ram, tree0: map<nat, Node>, free0: set<nat>,
                      ram1: Ram, ram: Ram, root: nat, tree: map<nat, Node>, free: set<nat>,
                      made: set<Place>, k: Place, c: nat, n: Node)
    requires TablesMade(ram0, tree0, free0, ram1, root, tree, free, made) && Made(ram1, ram, root, {k})
    requires c in free && c >= BITS_PER_ENTRY
    ensures TablesMade(ram0, tree0, free0, ram, root, tree[c := n], free - {c}, made + {k})
  {
    TakeTable(tree0, free0, tree, free, c, n);
    MadeMore(ram0, ram1, ram, root, made, {k});
    OneMoreTable(tree0, tree, c, n, made, k);
  }

  lemma OneMoreTable(tree0: map<nat, Node>, tree: map<nat, Node>, c: nat, n: Node, made: set<Place>, k: Place)
    requires c !in tree && tree0.Keys <= tree.Keys && |tree.Keys - tree0.Keys| == |made| && made !! {k}
    ensures |tree[c := n].Keys - tree0.Keys| == |made + {k}|
  {
    assert tree[c := n].Keys - tree0.Keys == (tree.Keys - tree0.Keys) + {c};
  }

  lemma LeafTablesMade(ram0: Ram, tree0: map<nat, Node>, free0: set<nat>,
                     ram1: Ram, ram: Ram, root: nat, tree: map<nat, Node>, free: set<nat>, made: set<Place>)
    requires TablesMade(ram0, tree0, free0, ram1, root, tree, free, made) && Made(ram1, ram, root, {})
    ensures TablesMade(ram0, tree0, free0, ram, root, tree, free, made)
  {
    MadeMore(ram0, ram1, ram, root, made, {});
    assert made + {} == made;
  }

  /** A step through place `k` makes the table if it is missing, and nothing else. */
  ghost predicate Stepped(ram0: Ram, root: nat, k: Place, made0: set<Place>, made: set<Place>, ok: bool)
    requires IsPlace(k)
  {
    made0 <= made <= made0 + NoTableAt(ram0, root, k) && (ok <==> NoTableAt(ram0, root, k) <= made)
  }

  lemma StepThere(ram0: Ram, ram: Ram, root: nat, made: set<Place>, k: Place)
    requires Made(ram0, ram, root, made) && IsPlace(k)
    ensures Stepped(ram0, root, k, made, made, HasTable(ram, root, k))
  {
  }

  lemma StepPresent(ram0: Ram, ram: Ram, root: nat, tree: map<nat, Node>, page: Page, level: nat, f: nat, e: nat,
                    made: set<Place>)
    requires Made(ram0, ram, root, made) && Tree(ram, root, tree)
    requires 2 <= level <= 4 && TableAt(ram, root, page, level) == Some(f)
    requires e == Entry(ram, f, Index(page, level)) && Present(e)
    ensures TableAt(ram, root, page, level - 1) == Some(FrameOf(e)) && FrameOf(e) != NULL
    ensures Stepped(ram0, root, PlaceOf(page, level - 1), made, made, true)
  {
    WalkStep(ram, root, tree, page, level, f, Index(page, level), e);
    PlaceTable(ram, root, page, level - 1);
    StepThere(ram0, ram, root, made, PlaceOf(page, level - 1));
  }

  lemma StepAbsent(ram0: Ram, ram: Ram, root: nat, page: Page, level: nat, f: nat, made: set<Place>)
    requires Made(ram0, ram, root, made)
    requires 2 <= level <= 4 && TableAt(ram, root, page, level) == Some(f)
    requires !Present(Entry(ram, f, Index(page, level)))
    ensures Stepped(ram0, root, PlaceOf(page, level - 1), made, made, false)
  {
    NoStep(ram, root, page, level, f);
    PlaceTable(ram, root, page, level - 1);
    StepThere(ram0, ram, root, made, PlaceOf(page, level - 1));
  }

  lemma StepMade(ram0: Ram, ram: Ram, root: nat, made: set<Place>, k: Place)
    requires Made(ram0, ram, root, made + {k}) && IsPlace(k)
    ensures Stepped(ram0, root, k, made, made + {k}, true)
  {
    assert k in made + {k};
  }

  /** After the three steps for a page, of which a later one needs the one before. */
  lemma ThreeSteps(ram0: Ram, root: nat, page: Page, made3: set<Place>, made2: set<Place>, made: set<Place>,
                   third: bool, second: bool, ok: bool)
    requires Stepped(ram0, root, PlaceOf(page, 3), {}, made3, third)
    requires if third then Stepped(ram0, root, PlaceOf(page, 2), made3, made2, second) else made2 == made3 && !second
    requires if second then Stepped(ram0, root, PlaceOf(page, 1), made2, made, ok) else made == made2 && !ok
    ensures made <= MissingFor(ram0, root, page) && (ok <==> made == MissingFor(ram0, root, page))
  {
  }

  lemma TakeTable(tree0: map<nat, Node>, free0: set<nat>, tree: map<nat, Node>, free: set<nat>, c: nat, n: Node)
    requires Taken(tree0, free0, tree, free) && c in free && c >= BITS_PER_ENTRY
    ensures Taken(tree0, free0, tree[c := n], free - {c})
  {
  }

  /** The whole effect of linking a new table under the table of `page` at `level`. */
  lemma LinkChild(ram: Ram, root: nat, tree: map<nat, Node>, mapping: map<nat, nat>,
                  page: Page, level: nat, f: nat, i: nat, c: nat, e: nat)
    requires Tree(ram, root, tree) && Translates(ram, root, mapping)
    requires 2 <= level <= 4 && TableAt(ram, root, page, level) == Some(f) && i == Index(page, level)
    requires c !in tree && c != NULL && Present(e) && FrameOf(e) == c && !Present(Entry(ram, f, i))
    ensures f in tree && tree[f].level == level && f in ram && |ram[f]| == ENTRIES
    ensures Tree(WriteEntry(ram[c := ZERO_TABLE], f, i, e), root, tree[c := Node(level - 1, f, i)])
    ensures Translates(WriteEntry(ram[c := ZERO_TABLE], f, i, e), root, mapping)
    ensures TableAt(WriteEntry(ram[c := ZERO_TABLE], f, i, e), root, page, level - 1) == Some(c)
  {
    TableAtLevel(ram, root, tree, page, level);
    ChildKeepsTree(ram, root, tree, f, i, c, e);
    ChildTranslates(ram, root, tree, mapping, f, i, c, e);
    ChildLookup(ram, root, tree, f, i, c, e, page, level);
  }

  /** current_pml4, the memory that holds the tables, and the allocator the tables come from. */
  class AddressSpace {
    const pmm: FrameAllocator
    var ram: Ram
    const pml4: nat
    ghost var tree: map<nat, Node>
    ghost var mapping: map<nat, nat>       // virtual page number to frame number

    ghost predicate Valid()
      reads this, pmm, pmm.bitmap
    {
      && pmm.Valid()
      && Tree(ram, pml4, tree)
      && Translates(ram, pml4, mapping)
      && InUse(tree, pmm.free)
    }

    /** An address space whose only table is an empty page map level 4. */
    constructor (pmm: FrameAllocator)
      requires pmm.Valid() && !Exhausted(pmm.free)
      modifies pmm`freePages, pmm`free, pmm.bitmap
      ensures this.pmm == pmm && Valid() && mapping == map[]
    {
      this.pmm := pmm;
      var addr := pmm.AllocPage();
      pml4 := addr / PAGE_SIZE;
      ram := map[addr / PAGE_SIZE := ZERO_TABLE];
      tree := map[addr / PAGE_SIZE := Node(4, 0, 0)];
      mapping := map[];
    }

    /** create_page_table, linked into the empty slot `i` of the table of `page` at `level`; NULL on failure. */
    method AddTable(f: nat, i: nat, flags: nat, ghost page: Page, ghost level: nat) returns (child: nat)
      requires Valid() && flags < PAGE_SIZE && !Present(Entry(ram, f, i))
      requires 2 <= level <= 4 && TableAt(ram, pml4, page, level) == Some(f) && i == Index(page, level)
      modifies this`ram, this`tree, pmm`freePages, pmm`free, pmm.bitmap
      ensures Valid()
      ensures child == NULL ==>
        Exhausted(old(pmm.free)) && ram == old(ram) && tree == old(tree) && pmm.free == old(pmm.free)
      ensures child != NULL ==> Made(old(ram), ram, pml4, {PlaceOf(page, level - 1)})
      ensures child != NULL ==> TableAt(ram, pml4, page, level - 1) == Some(child)
      ensures child != NULL ==> child in old(pmm.free) && child >= BITS_PER_ENTRY && pmm.free == old(pmm.free) - {child}
      ensures child != NULL ==> tree == old(tree)[child := Node(level - 1, f, i)]
    {
      var phys := pmm.AllocPage();
      if phys == NULL {
        return NULL;
      }
      child := phys / PAGE_SIZE;
      var e := MakeEntry(child, flags);
      LinkChild(ram, pml4, tree, mapping, page, level, f, i, child, e);
      ChildIsMade(ram, pml4, tree, page, level, f, child, e);
      ram := WriteEntry(ram[child := ZERO_TABLE], f, i, e);
      tree := tree[child := Node(level - 1, f, i)];
    }

    /** One "get or create" step of vmm_map_page: from the table of `page` at `level`, through slot `i`. */
    method NextTable(f: nat, i: nat, flags: nat, ghost page: Page, ghost level: nat, ghost k: Place,
                     ghost ram0: Ram, ghost tree0: map<nat, Node>, ghost free0: set<nat>, ghost made0: set<Place>)
      returns (child: nat, ghost made: set<Place>)
      requires Valid() && flags < PAGE_SIZE && TablesMade(ram0, tree0, free0, ram, pml4, tree, pmm.free, made0)
      requires 2 <= level <= 4 && TableAt(ram, pml4, page, level) == Some(f) && i == Index(page, level)
      requires k == PlaceOf(page, level - 1)
      modifies this`ram, this`tree, pmm`freePages, pmm`free, pmm.bitmap
      ensures Valid() && TablesMade(ram0, tree0, free0, ram, pml4, tree, pmm.free, made)
      ensures Stepped(ram0, pml4, k, made0, made, child != NULL)
      ensures child == NULL ==> Exhausted(pmm.free)
      ensures child != NULL ==> TableAt(ram, pml4, page, level - 1) == Some(child)
    {
      var e := Entry(ram, f, i);
      if Present(e) {
        StepPresent(ram0, ram, pml4, tree, page, level, f, e, made0);
        return FrameOf(e), made0;
      }
      StepAbsent(ram0, ram, pml4, page, level, f, made0);
      child, made := MakeTable(f, i, flags, page, level, k, ram0, tree0, free0, made0);
    }

    /** The branch of such a step that creates the table. */
    method MakeTable(f: nat, i: nat, flags: nat, ghost page: Page, ghost level: nat, ghost k: Place,
                     ghost ram0: Ram, ghost tree0: map<nat, Node>, ghost free0: set<nat>, ghost made0: set<Place>)
      returns (child: nat, ghost made: set<Place>)
      requires Valid() && flags < PAGE_SIZE && TablesMade(ram0, tree0, free0, ram, pml4, tree, pmm.free, made0)
      requires 2 <= level <= 4 && TableAt(ram, pml4, page, level) == Some(f) && i == Index(page, level)
      requires k == PlaceOf(page, level - 1)
      requires !Present(Entry(ram, f, i)) && Stepped(ram0, pml4, k, made0, made0, false)
      modifies this`ram, this`tree, pmm`freePages, pmm`free, pmm.bitmap
      ensures Valid() && TablesMade(ram0, tree0, free0, ram, pml4, tree, pmm.free, made)
      ensures Stepped(ram0, pml4, k, made0, made, child != NULL)
      ensures child == NULL ==> Exhausted(pmm.free)
      ensures child != NULL ==> TableAt(ram, pml4, page, level - 1) == Some(child)
    {
      made := made0;
      child := AddTable(f, i, flags, page, level);
      if child != NULL {
        OneTableMade(ram0, tree0, free0, old(ram), ram, pml4, old(tree), old(pmm.free), made0,
                      k, child, Node(level - 1, f, i));
        StepMade(ram0, ram, pml4, made0, k);
        made := made0 + {k};
      }
    }

    /** vmm_map_page: a one-key update of the translation, or none at all even if tables were added. It makes exactly
        the tables that are missing, and fails exactly if it cannot make one of them. */
    method MapPage(virt: nat, phys: nat, flags: nat) returns (ok: bool, ghost made: set<Place>)
      requires Valid() && phys % PAGE_SIZE == 0 && flags < PAGE_SIZE
      modifies this`ram, this`tree, this`mapping, pmm`freePages, pmm`free, pmm.bitmap
      ensures Valid()
      ensures ok ==> mapping == old(mapping)[Vpn(virt) := phys / PAGE_SIZE]
      ensures !ok ==> mapping == old(mapping) && Exhausted(pmm.free)
      ensures TablesMade(old(ram), old(tree), old(pmm.free), ram, pml4, tree, pmm.free, made)
      ensures made <= MissingFor(old(ram), pml4, PageNumbered(Vpn(virt)))
      ensures ok <==> made == MissingFor(old(ram), pml4, PageNumbered(Vpn(virt)))
    {
      var page := GetPageIndices(virt);
      NumberedPage(page);
      ok, made := MapIndices(page, phys / PAGE_SIZE, flags);
    }

    method MapIndices(page: Page, frame: nat, flags: nat) returns (ok: bool, ghost made: set<Place>)
      requires Valid() && flags < PAGE_SIZE
      modifies this`ram, this`tree, this`mapping, pmm`freePages, pmm`free, pmm.bitmap
      ensures Valid()
      ensures ok ==> mapping == old(mapping)[Number(page) := frame]
      ensures !ok ==> mapping == old(mapping) && Exhausted(pmm.free)
      ensures TablesMade(old(ram), old(tree), old(pmm.free), ram, pml4, tree, pmm.free, made)
      ensures made <= MissingFor(old(ram), pml4, page) && (ok <==> made == MissingFor(old(ram), pml4, page))
    {
      var pt;
      pt, made := CreateTables(page, flags);
      if pt == NULL {
        return false, made;
      }
      ghost var ram1 := ram;
      SetLeaf(page, pt, MakeEntry(frame, flags));
      LeafTablesMade(old(ram), old(tree), old(pmm.free), ram1, ram, pml4, tree, pmm.free, made);
      ok := true;
    }

    /** The upper part of vmm_map_page: the last-level table of `page`, made if need be; NULL on failure. */
    method CreateTables(page: Page, flags: nat) returns (pt: nat, ghost made: set<Place>)
      requires Valid() && flags < PAGE_SIZE
      modifies this`ram, this`tree, pmm`freePages, pmm`free, pmm.bitmap
      ensures Valid() && TablesMade(old(ram), old(tree), old(pmm.free), ram, pml4, tree, pmm.free, made)
      ensures made <= MissingFor(old(ram), pml4, page) && (pt != NULL <==> made == MissingFor(old(ram), pml4, page))
      ensures pt == NULL ==> Exhausted(pmm.free)
      ensures pt != NULL ==> TableAt(ram, pml4, page, 1) == Some(pt)
    {
      ghost var ram0, tree0, free0 := ram, tree, pmm.free;
      NoTablesMade(ram, pml4, tree, pmm.free);
      var pdp, pd := NULL, NULL;
      ghost var made3, made2 := {}, {};
      pt := NULL;
      pdp, made3 := NextTable(pml4, page.pml4, flags, page, 4, PlaceOf(page, 3), ram0, tree0, free0, {});
      made2, made := made3, made3;
      if pdp != NULL {
        pd, made2 := NextTable(pdp, page.pdp, flags, page, 3, PlaceOf(page, 2), ram0, tree0, free0, made3);
        made := made2;
      }
      if pd != NULL {
        pt, made := NextTable(pd, page.pd, flags, page, 2, PlaceOf(page, 1), ram0, tree0, free0, made2);
      }
      ThreeSteps(ram0, pml4, page, made3, made2, made, pdp != NULL, pd != NULL, pt != NULL);
    }

    /** pt->entries[pt_index] = e */
    method SetLeaf(page: Page, pt: nat, e: nat)
      requires Valid() && TableAt(ram, pml4, page, 1) == Some(pt)
      modifies this`ram, this`mapping
      ensures Valid()
      ensures mapping == Updated(old(mapping), page, e) && Made(old(ram), ram, pml4, {})
    {
      TableAtLevel(ram, pml4, tree, page, 1);
      LeafMakesNone(ram, pml4, tree, pt, page.pt, e);
      LeafTranslates(ram, pml4, tree, mapping, page, pt, e);
      ram := WriteEntry(ram, pt, page.pt, e);
      mapping := Updated(mapping, page, e);
    }

    /** vmm_unmap_page removes one key, and returns true exactly when it was there. */
    method UnmapPage(virt: nat) returns (ok: bool)
      requires Valid()
      modifies this`ram, this`mapping
      ensures Valid()
      ensures ok <==> Vpn(virt) in old(mapping)
      ensures mapping == old(mapping) - {Vpn(virt)}
    {
      var page := GetPageIndices(virt);
      assert Lookup(ram, pml4, page) == Get(mapping, Number(page));
      var pt := LeafTable(page);
      if pt == NULL || !Present(Entry(ram, pt, page.pt)) {
        return false;
      }
      SetLeaf(page, pt, 0);
      return true;
    }

    /** The three upper steps of the walk in vmm_unmap_page and vmm_get_phys_addr; NULL if a table is missing. */
    method LeafTable(page: Page) returns (pt: nat)
      requires Valid()
      ensures pt == NULL ==> TableAt(ram, pml4, page, 1) == None
      ensures pt != NULL ==> TableAt(ram, pml4, page, 1) == Some(pt)
    {
      TableAtLevel(ram, pml4, tree, page, 3);
      TableAtLevel(ram, pml4, tree, page, 2);
      TableAtLevel(ram, pml4, tree, page, 1);
      var e := Entry(ram, pml4, page.pml4);
      if !Present(e) {
        return NULL;
      }
      var pdp := FrameOf(e);
      e := Entry(ram, pdp, page.pdp);
      if !Present(e) {
        return NULL;
      }
      var pd := FrameOf(e);
      e := Entry(ram, pd, page.pd);
      if !Present(e) {
        return NULL;
      }
      return FrameOf(e);
    }

    /** vmm_get_phys_addr computes the translation; 0 stands for an unmapped address. */
    method GetPhysAddr(virt: nat) returns (phys: nat)
      requires Valid()
      ensures phys == match Get(mapping, Vpn(virt)) case None => 0 case Some(f) => f * PAGE_SIZE + virt % PAGE_SIZE
    {
      var page := GetPageIndices(virt);
      assert Lookup(ram, pml4, page) == Get(mapping, Number(page));
      var pt := LeafTable(page);
      if pt == NULL {
        return 0;
      }
      var e := Entry(ram, pt, page.pt);
      if !Present(e) {
        return 0;
      }
      return FrameOf(e) * PAGE_SIZE + virt % PAGE_SIZE;
    }
  }
}
