/** The EPT builder: page tables written in place in physical memory. */
module Ept {
  import opened Bits
  import opened EptEntry
  import opened EptWalk

  // ---- what single writes do, on values

  lemma TreeAfterWrite(pages: Pages, pages': Pages, tables: map<nat, Node>, tables': map<nat, Node>,
                       pt: nat, off: nat)
    requires Tree(pages, tables) && pt in tables && off < 512
    requires SameExcept(pages, pages', tables, pt, off)
    requires forall q :: q in tables ==> q in tables' && tables'[q] == tables[q]
    requires IsTable(pages', pt)
    requires EntryOk(pages'[pt][off], tables', tables[pt].level, tables[pt].prefix * 512 + off)
    requires forall q :: q in tables' && q !in tables ==> TableOk(pages', tables', q)
    ensures Tree(pages', tables')
  {
    forall p | p in tables
      ensures TableOk(pages', tables', p)
    {
      assert TableOk(pages, tables, p);
      forall i | 0 <= i < 512
        ensures EntryOk(pages'[p][i], tables', tables[p].level, tables[p].prefix * 512 + i)
      {
        assert EntryOk(pages[p][i], tables, tables[p].level, tables[p].prefix * 512 + i);
      }
    }
  }

  const ZERO_PAGE: seq<nat> := seq(512, i => 0)

  /** Hanging an empty table under an absent entry: the walk still finds nothing there. */
  lemma NewTableWalk(pages: Pages, pages': Pages, pt: nat, page: nat, l: nat, g: nat, stop: nat)
    requires IsTable(pages, pt) && IsTable(pages', pt) && 1 < l <= 4 && stop < l && IsFrame(page)
    requires !Present(pages[pt][Index(g, l)]) && pages'[pt][Index(g, l)] == TableEntry(page)
    requires page in pages' && pages'[page] == ZERO_PAGE
    ensures Walk(pages', pt, l, g, stop).rwx == Walk(pages, pt, l, g, stop).rwx
    ensures stop < l - 1 ==> Walk(pages', pt, l, g, stop) == Walk(pages, pt, l, g, stop)
  {
    TableEntryFields(page);
    AndSeven(7);
    assert !Present(0);
    var w := Walk(pages', page, l - 1, g, stop);
    assert w == if stop < l - 1 then Absent(7) else Table(7, page);
  }

  /** Address of the i-th of the 512 pieces of a leaf of level l that starts at a. */
  function PieceAddr(a: nat, l: nat, i: nat): nat {
    if l == 2 then a + i * PAGE_SIZE else a + i * PAGE_SIZE_2M
  }

  /** What entry i of the table that replaces the leaf `pte` of level l holds. */
  function SplitChild(pte: nat, l: nat, i: nat): nat {
    Or(SplitPrototype(pte, l), PieceAddr(Addr(pte), l, i))
  }

  lemma PieceFrames(a: nat, l: nat, i: nat)
    requires 2 <= l <= 3 && i < 512 && a <= EPT_ADDR_MASK && a % Span(l) == 0
    ensures IsFrame(PieceAddr(a, l, i)) && PieceAddr(a, l, i) % Span(l - 1) == 0
  {
    var q := a / Span(l);
    if l == 2 {
      assert a == q * PAGE_SIZE_2M;
      DivModUnique(PieceAddr(a, l, i), PAGE_SIZE, q * 512 + i, 0);
    } else {
      assert a == q * PAGE_SIZE_1G;
      DivModUnique(PieceAddr(a, l, i), PAGE_SIZE_2M, q * 512 + i, 0);
      DivModUnique(PieceAddr(a, l, i), PAGE_SIZE, (q * 512 + i) * 512, 0);
    }
  }

  /** Replacing a leaf by a table of its pieces changes no translation. */
  lemma SplitWalk(pages: Pages, pages': Pages, pt: nat, page: nat, l: nat, g: nat, stop: nat)
    requires IsTable(pages, pt) && IsTable(pages', pt) && IsTable(pages', page)
    requires 2 <= l <= 3 && stop < l && IsFrame(page)
    requires var e := pages[pt][Index(g, l)];
             e < U64 && Present(e) && IsLarge(e) && Addr(e) % Span(l) == 0 &&
             pages'[pt][Index(g, l)] == SplitParent(e, page) &&
             forall i :: 0 <= i < 512 ==> pages'[page][i] == SplitChild(e, l, i)
    ensures Walk(pages', pt, l, g, stop).rwx == Walk(pages, pt, l, g, stop).rwx
    ensures stop < l - 1 ==> Walk(pages', pt, l, g, stop) == Walk(pages, pt, l, g, stop)
  {
    var e := pages[pt][Index(g, l)];
    var i := Index(g, l - 1);
    SplitParentFields(e, page);
    AndBound(e, EPT_ADDR_MASK);
    PieceFrames(Addr(e), l, i);
    SplitChildFields(e, l, PieceAddr(Addr(e), l, i));
    IndexStep(g, l - 1);
    AndBound(e, EPT_PRESENT);
    AndSeven(Rwx(e));
    AndIdempotent(Rwx(e));
    if stop < l - 1 {
      var c := pages'[page][i];
      assert c == SplitChild(e, l, i);
      PieceWalk(pages', page, l, g, stop, c);
    } else {
      assert Walk(pages', page, l - 1, g, stop) == Table(7, page);
    }
  }

  lemma PieceWalk(pages: Pages, page: nat, l: nat, g: nat, stop: nat, c: nat)
    requires IsTable(pages, page) && 2 <= l <= 3 && stop < l - 1
    requires c == pages[page][Index(g, l - 1)] && Present(c) && (l == 3 ==> IsLarge(c))
    ensures Walk(pages, page, l - 1, g, stop) == Mapped(Rwx(c), Addr(c) + g % Span(l - 1))
  {
  }

  /** What an address in the span of entry `pte` of level l translates to, when the tables above
      leave the permissions r. */
  function EntryMeaning(pte: nat, l: nat, r: nat, g: nat): Outcome {
    if Present(pte) then Mapped(And(r, Rwx(pte)), Addr(pte) + g % Span(l)) else Absent(r)
  }

  predicate Installable(pte: nat, l: nat) {
    pte < U64 && (Present(pte) ==> IsLeaf(pte, l) && Addr(pte) % Span(l) == 0)
  }

  /** The walk to an entry of level l, and the outcome for every address behind that entry. */
  lemma EntryDecides(pages: Pages, tables: map<nat, Node>, root: nat, gpa: nat, g: nat, l: nat)
    requires Tree(pages, tables) && At(tables, root, 4, g) && At(tables, root, 4, gpa)
    requires 1 <= l <= 4 && g / Span(l) == gpa / Span(l)
    requires var w := Walk(pages, root, 4, gpa, l);
             w.Table? && IsTable(pages, w.page) && Installable(pages[w.page][Index(gpa, l)], l)
    ensures var w := Walk(pages, root, 4, gpa, l);
            Walk(pages, root, 4, g, 0) == EntryMeaning(pages[w.page][Index(gpa, l)], l, w.rwx, g)
  {
    WalkSamePath(pages, root, 4, gpa, g, l);
    WalkThrough(pages, root, 4, g, l, 0);
    WalkRwx(pages, root, 4, g, l);
    AndSeven(Walk(pages, root, 4, g, l).rwx);
  }

  /** Addresses that agree above level l take the same way down to level l. */
  lemma {:induction false} WalkSamePath(pages: Pages, p: nat, k: nat, g: nat, h: nat, l: nat)
    requires 1 <= l <= k <= 4 && g / Span(l) == h / Span(l)
    ensures Index(g, l) == Index(h, l)
    ensures var w := Walk(pages, p, k, g, l); w.Table? ==> Walk(pages, p, k, h, l) == w
    ensures Walk(pages, p, k, h, l).rwx == Walk(pages, p, k, g, l).rwx
    ensures g / Span(k) == h / Span(k)
    decreases k
  {
    SamePrefix(g, h, l, k);
    if l < k && IsTable(pages, p) {
      var e := pages[p][Index(g, k)];
      if Present(e) && !IsLeaf(e, k) {
        WalkSamePath(pages, Addr(e), k - 1, g, h, l);
      }
    }
  }

  lemma {:induction false} SamePrefix(g: nat, h: nat, l: nat, k: nat)
    requires 1 <= l <= k <= 4 && g / Span(l) == h / Span(l)
    ensures g / Span(k) == h / Span(k) && Index(g, k) == Index(h, k)
    decreases k
  {
    if l < k {
      SamePrefix(g, h, l, k - 1);
      IndexStep(g, k - 1);
      IndexStep(h, k - 1);
    }
  }

  lemma SplitTableOk(pages: Pages, pages': Pages, tables': map<nat, Node>, pt: nat, page: nat, off: nat, l: nat)
    requires IsTable(pages, pt) && off < 512 && 2 <= l <= 3
    requires var e := pages[pt][off];
             e < U64 && IsLarge(e) && Addr(e) % Span(l) == 0 && IsTable(pages', page) &&
             forall i :: 0 <= i < 512 ==> pages'[page][i] == SplitChild(e, l, i)
    requires page in tables' && tables'[page].level == l - 1
    ensures TableOk(pages', tables', page)
  {
    var e := pages[pt][off];
    AndBound(e, EPT_ADDR_MASK);
    forall i | 0 <= i < 512
      ensures EntryOk(pages'[page][i], tables', l - 1, tables'[page].prefix * 512 + i)
    {
      PieceFrames(Addr(e), l, i);
      SplitChildFields(e, l, PieceAddr(Addr(e), l, i));
      assert pages'[page][i] == SplitChild(e, l, i);
    }
  }

  /** The two outcomes of a walk that stops at level k: same permissions, and if the walk is a
      full translation, the same result. */
  predicate Alike(w: Outcome, w': Outcome, k: nat) {
    w'.rwx == w.rwx && (k == 0 ==> w' == w)
  }

  /** No translation differs, nor do the permissions a walk to any level arrives with. */
  ghost predicate SameMeaning(pages: Pages, pages': Pages, root: nat) {
    forall g: nat, k: nat :: g < GPA_LIMIT && k <= 4 ==>
      Alike(Walk(pages, root, 4, g, k), Walk(pages', root, 4, g, k), k)
  }

  /** The same for what lies behind entry `off` of the level-l table pt. */
  ghost predicate SameBehind(pages: Pages, pages': Pages, pt: nat, l: nat, off: nat) {
    forall g: nat, k: nat :: k < l && Index(g, l) == off ==>
      Behind(Walk(pages, pt, l, g, k), Walk(pages', pt, l, g, k), k, l)
  }

  /** Seen from a table of level l, the walks agree, save that one which stopped just behind the entry
      may have got a level further. */
  predicate Behind(w: Outcome, w': Outcome, k: nat, l: nat) {
    w'.rwx == w.rwx && (k + 1 < l ==> w' == w)
  }

  /** Entry `off` of pt now points at a new table, and nothing else changed in the tables in use. */
  ghost predicate LinkWritten(pages: Pages, pages': Pages, tables: map<nat, Node>, tables': map<nat, Node>,
                              pt: nat, off: nat)
  {
    && pt in tables && tables[pt].level > 1 && off < 512 && IsTable(pages', pt)
    && SameExcept(pages, pages', tables, pt, off)
    && var e := pages'[pt][off];
       && e < U64 && Present(e) && !IsLarge(e)
       && Addr(e) !in tables
       && tables' == tables[Addr(e) := Node(tables[pt].level - 1, tables[pt].prefix * 512 + off)]
  }

  /** Linking in a well-formed table keeps the tree. */
  lemma LinkKeepsTree(pages: Pages, pages': Pages, tables: map<nat, Node>, tables': map<nat, Node>,
                      pt: nat, off: nat)
    requires Tree(pages, tables) && LinkWritten(pages, pages', tables, tables', pt, off)
    requires TableOk(pages', tables', Addr(pages'[pt][off]))
    ensures Tree(pages', tables')
  {
    TreeAfterWrite(pages, pages', tables, tables', pt, off);
  }

  /** A write that keeps what lies behind its entry keeps all meaning. */
  lemma WriteKeepsMeaning(pages: Pages, pages': Pages, tables: map<nat, Node>, root: nat, pt: nat, off: nat)
    requires Tree(pages, tables) && root in tables && tables[root] == Node(4, 0)
    requires pt in tables && off < 512 && SameExcept(pages, pages', tables, pt, off)
    requires tables[pt].level > 1 && SameBehind(pages, pages', pt, tables[pt].level, off)
    ensures SameMeaning(pages, pages', root)
  {
    forall g: nat, k: nat | g < GPA_LIMIT && k <= 4
      ensures Alike(Walk(pages, root, 4, g, k), Walk(pages', root, 4, g, k), k)
    {
      MeaningAt(pages, pages', tables, root, pt, off, g, k);
    }
  }

  lemma MeaningAt(pages: Pages, pages': Pages, tables: map<nat, Node>, root: nat, pt: nat, off: nat, g: nat, k: nat)
    requires Tree(pages, tables) && root in tables && tables[root] == Node(4, 0)
    requires pt in tables && off < 512 && SameExcept(pages, pages', tables, pt, off)
    requires tables[pt].level > 1 && SameBehind(pages, pages', pt, tables[pt].level, off)
    requires g < GPA_LIMIT && k <= 4
    ensures Alike(Walk(pages, root, 4, g, k), Walk(pages', root, 4, g, k), k)
  {
    var l := tables[pt].level;
    AtRoot(tables, root, g);
    WalkAgree(pages, pages', tables, pt, off, root, 4, g, k);
    if k < l && g / Span(l) == tables[pt].prefix * 512 + off {
      IndexOf(g, l, tables[pt].prefix, off);
      assert Behind(Walk(pages, pt, l, g, k), Walk(pages', pt, l, g, k), k, l);
    }
  }

  lemma AtRoot(tables: map<nat, Node>, root: nat, g: nat)
    requires root in tables && tables[root] == Node(4, 0) && g < GPA_LIMIT
    ensures At(tables, root, 4, g)
  {
  }

  lemma IndexOf(g: nat, l: nat, prefix: nat, off: nat)
    requires g / Span(l) == prefix * 512 + off && off < 512
    ensures Index(g, l) == off
  {
    DivModUnique(g / Span(l), 512, prefix, off);
  }

  /** The whole effect of splitting a leaf. */
  lemma SplitKeepsMeaning(pages: Pages, pages': Pages, tables: map<nat, Node>, tables': map<nat, Node>,
                          root: nat, pt: nat, off: nat, page: nat)
    requires Tree(pages, tables) && root in tables && tables[root] == Node(4, 0)
    requires pt in tables && off < 512 && 2 <= tables[pt].level <= 3 && IsTable(pages, pt)
    requires Present(pages[pt][off]) && IsLarge(pages[pt][off]) && pages[pt][off] < U64
    requires Addr(pages[pt][off]) % Span(tables[pt].level) == 0
    requires IsFrame(page) && page !in tables && IsTable(pages', page)
    requires SameExcept(pages, pages', tables, pt, off) && IsTable(pages', pt)
    requires pages'[pt][off] == SplitParent(pages[pt][off], page)
    requires forall i :: 0 <= i < 512 ==> pages'[page][i] == SplitChild(pages[pt][off], tables[pt].level, i)
    requires tables' == tables[page := Node(tables[pt].level - 1, tables[pt].prefix * 512 + off)]
    ensures Tree(pages', tables') && SameMeaning(pages, pages', root)
    ensures LinkWritten(pages, pages', tables, tables', pt, off)
    ensures SameBehind(pages, pages', pt, tables[pt].level, off)
  {
    var l := tables[pt].level;
    SplitParentFields(pages[pt][off], page);
    SplitTableOk(pages, pages', tables', pt, page, off, l);
    LinkKeepsTree(pages, pages', tables, tables', pt, off);
    forall g: nat, k: nat | k < l && Index(g, l) == off
      ensures Behind(Walk(pages, pt, l, g, k), Walk(pages', pt, l, g, k), k, l)
    {
      SplitWalk(pages, pages', pt, page, l, g, k);
    }
    WriteKeepsMeaning(pages, pages', tables, root, pt, off);
  }

  /** The whole effect of hanging an empty table under an absent entry. */
  lemma NewTableKeepsMeaning(pages: Pages, pages': Pages, tables: map<nat, Node>, tables': map<nat, Node>,
                             root: nat, pt: nat, off: nat, page: nat)
    requires Tree(pages, tables) && root in tables && tables[root] == Node(4, 0)
    requires pt in tables && off < 512 && 2 <= tables[pt].level <= 4 && IsTable(pages, pt)
    requires !Present(pages[pt][off])
    requires IsFrame(page) && page !in tables && page in pages' && pages'[page] == ZERO_PAGE
    requires SameExcept(pages, pages', tables, pt, off) && IsTable(pages', pt)
    requires pages'[pt][off] == TableEntry(page)
    requires tables' == tables[page := Node(tables[pt].level - 1, tables[pt].prefix * 512 + off)]
    ensures Tree(pages', tables') && SameMeaning(pages, pages', root)
    ensures LinkWritten(pages, pages', tables, tables', pt, off)
    ensures SameBehind(pages, pages', pt, tables[pt].level, off)
  {
    var l := tables[pt].level;
    TableEntryFields(page);
    assert !Present(0);
    LinkKeepsTree(pages, pages', tables, tables', pt, off);
    forall g: nat, k: nat | k < l && Index(g, l) == off
      ensures Behind(Walk(pages, pt, l, g, k), Walk(pages', pt, l, g, k), k, l)
    {
      NewTableWalk(pages, pages', pt, page, l, g, k);
    }
    WriteKeepsMeaning(pages, pages', tables, root, pt, off);
  }

  /** A walk that reached pt goes on into the table that was linked there. */
  lemma LinkExtends(pages: Pages, pages': Pages, tables: map<nat, Node>, tables': map<nat, Node>,
                    root: nat, pt: nat, off: nat, gpa: nat, l: nat)
    requires Tree(pages, tables) && root in tables && tables[root] == Node(4, 0) && gpa < GPA_LIMIT
    requires LinkWritten(pages, pages', tables, tables', pt, off) && tables[pt].level == l
    requires Walk(pages, root, 4, gpa, l).Table? && Walk(pages, root, 4, gpa, l).page == pt
    requires off == Index(gpa, l) && 2 <= l <= 4
    ensures var w := Walk(pages', root, 4, gpa, l - 1);
            w.Table? && w.page == Addr(pages'[pt][off])
  {
    AtRoot(tables, root, gpa);
    WalkAgree(pages, pages', tables, pt, off, root, 4, gpa, l);
    WalkExtends(pages', root, gpa, l);
  }

  // ---- which tables exist

  /** The walk of g gets as far as a table of level k. */
  predicate HasTable(pages: Pages, root: nat, g: nat, k: nat) {
    Walk(pages, root, 4, g, k).Table?
  }

  /** Exactly the tables on the way of gpa down to level l have been added. */
  ghost predicate PathAdded(pages: Pages, pages': Pages, root: nat, gpa: nat, l: nat) {
    forall g: nat, k: nat :: g < GPA_LIMIT && 1 <= k <= 4 ==>
      (HasTable(pages', root, g, k) <==>
         HasTable(pages, root, g, k) || (l <= k && g / Span(k + 1) == gpa / Span(k + 1)))
  }

  /** Addresses that share a table of level l take the same way to it. */
  lemma {:induction false} WalkSameTable(pages: Pages, p: nat, k: nat, g: nat, h: nat, l: nat)
    requires 1 <= l <= k <= 4 && g / Span(l + 1) == h / Span(l + 1)
    ensures Walk(pages, p, k, g, l).Table? ==> Walk(pages, p, k, h, l) == Walk(pages, p, k, g, l)
    decreases k
  {
    if l < k && IsTable(pages, p) {
      SamePrefix(g, h, l + 1, k);
      var e := pages[p][Index(g, k)];
      if Present(e) && !IsLeaf(e, k) {
        WalkSameTable(pages, Addr(e), k - 1, g, h, l);
      }
    }
  }

  /** Linking a table into the tree adds that one table. */
  lemma LinkAddsTable(pages: Pages, pages': Pages, tables: map<nat, Node>, tables': map<nat, Node>,
                      root: nat, pt: nat, off: nat, gpa: nat, l: nat, g: nat, k: nat)
    requires Tree(pages, tables) && root in tables && tables[root] == Node(4, 0) && gpa < GPA_LIMIT && g < GPA_LIMIT
    requires LinkWritten(pages, pages', tables, tables', pt, off) && tables[pt].level == l
    requires SameBehind(pages, pages', pt, l, off)
    requires Walk(pages, root, 4, gpa, l).Table? && Walk(pages, root, 4, gpa, l).page == pt
    requires off == Index(gpa, l) && 2 <= l <= 4 && 1 <= k <= 4
    ensures HasTable(pages', root, g, k) <==>
            HasTable(pages, root, g, k) || (k + 1 == l && g / Span(l) == gpa / Span(l))
  {
    AtRoot(tables, root, g);
    AtRoot(tables, root, gpa);
    WalkArrives(pages, tables, root, 4, gpa, l);
    IndexStep(gpa, l);
    WalkAgree(pages, pages', tables, pt, off, root, 4, g, k);
    if g / Span(l) == gpa / Span(l) {
      WalkSamePath(pages, root, 4, gpa, g, l);
      if k + 1 == l {
        LinkExtends(pages, pages', tables, tables', root, pt, off, g, l);
      } else if k < l {
        assert Behind(Walk(pages, pt, l, g, k), Walk(pages', pt, l, g, k), k, l);
      }
    }
  }

  /** One more level of the way. */
  lemma PathGrows(was: Pages, pages: Pages, pages': Pages, root: nat, gpa: nat, l: nat)
    requires PathAdded(was, pages, root, gpa, l) && 2 <= l <= 4
    requires StepTaken(pages, pages', root, gpa, l)
    ensures PathAdded(was, pages', root, gpa, l - 1)
  {
  }

  lemma PathStart(pages: Pages, root: nat, gpa: nat)
    ensures PathAdded(pages, pages, root, gpa, 4)
  {
  }

  /** Where the next table of the way is there already, it is there for all who share it. */
  lemma StepShared(pages: Pages, root: nat, gpa: nat, l: nat)
    requires 2 <= l <= 4 && HasTable(pages, root, gpa, l - 1)
    ensures StepTaken(pages, pages, root, gpa, l)
  {
    forall g: nat | g / Span(l) == gpa / Span(l)
      ensures HasTable(pages, root, g, l - 1)
    {
      WalkSameTable(pages, root, 4, gpa, g, l - 1);
    }
  }

  /** After an installation the tables on the way of gpa down to level l are there, those below its
      entry are not, and all others are as they were. */
  ghost predicate TableUpdate(pages: Pages, pages': Pages, root: nat, gpa: nat, l: nat) {
    forall g: nat, k: nat :: g < GPA_LIMIT && 1 <= k <= 4 ==>
      (HasTable(pages', root, g, k) <==>
         if l <= k then HasTable(pages, root, g, k) || g / Span(k + 1) == gpa / Span(k + 1)
         else HasTable(pages, root, g, k) && g / Span(l) != gpa / Span(l))
  }

  lemma SameMeaningTransitive(p0: Pages, p1: Pages, p2: Pages, root: nat)
    requires SameMeaning(p0, p1, root) && SameMeaning(p1, p2, root)
    ensures SameMeaning(p0, p2, root)
  {
    forall g: nat, k: nat | g < GPA_LIMIT && k <= 4
      ensures Alike(Walk(p0, root, 4, g, k), Walk(p2, root, 4, g, k), k)
    {
      assert Alike(Walk(p0, root, 4, g, k), Walk(p1, root, 4, g, k), k);
      assert Alike(Walk(p1, root, 4, g, k), Walk(p2, root, 4, g, k), k);
    }
  }

  /** The translation after is the translation before, changed only in the span of the level-l entry
      of gpa, where it is what `pte` says under the permissions that applied there before. */
  ghost predicate PointUpdate(pages: Pages, pages': Pages, root: nat, gpa: nat, l: nat, pte: nat) {
    forall g: nat :: g < GPA_LIMIT ==>
      Walk(pages', root, 4, g, 0) ==
      if g / Span(l) == gpa / Span(l) then EntryMeaning(pte, l, Walk(pages, root, 4, gpa, l).rwx, g)
      else Walk(pages, root, 4, g, 0)
  }

  /** The final write of an installation. */
  lemma PteWritten(was: Pages, pages: Pages, pages': Pages, tables: map<nat, Node>, root: nat, pt: nat,
                   gpa: nat, l: nat, pte: nat)
    requires SameMeaning(was, pages, root)
    requires Tree(pages, tables) && root in tables && tables[root] == Node(4, 0) && gpa < GPA_LIMIT
    requires 1 <= l <= 4 && At(tables, pt, l, gpa) && IsTable(pages, pt) && Installable(pte, l)
    requires Walk(pages, root, 4, gpa, l).Table? && Walk(pages, root, 4, gpa, l).page == pt
    requires pages' == Store(pages, pt, Index(gpa, l), pte)
    ensures Tree(pages', tables)
    ensures Walk(pages', root, 4, gpa, l) == Walk(pages, root, 4, gpa, l)
    ensures PointUpdate(was, pages', root, gpa, l, pte)
  {
    var off := Index(gpa, l);
    TreeAfterWrite(pages, pages', tables, tables, pt, off);
    AtRoot(tables, root, gpa);
    WalkAgree(pages, pages', tables, pt, off, root, 4, gpa, l);
    IndexStep(gpa, l);
    assert Alike(Walk(was, root, 4, gpa, l), Walk(pages, root, 4, gpa, l), l);
    forall g: nat | g < GPA_LIMIT
      ensures Walk(pages', root, 4, g, 0) ==
              if g / Span(l) == gpa / Span(l) then EntryMeaning(pte, l, Walk(was, root, 4, gpa, l).rwx, g)
              else Walk(was, root, 4, g, 0)
    {
      AtRoot(tables, root, g);
      assert Alike(Walk(was, root, 4, g, 0), Walk(pages, root, 4, g, 0), 0);
      if g / Span(l) == gpa / Span(l) {
        EntryDecides(pages', tables, root, gpa, g, l);
      } else {
        WalkAgree(pages, pages', tables, pt, off, root, 4, g, 0);
      }
    }
  }

  /** The effect on all walks of making the entry for gpa in its table of level l lead to a table. */
  ghost predicate StepTaken(pages: Pages, pages': Pages, root: nat, gpa: nat, l: nat) {
    forall g: nat, k: nat :: g < GPA_LIMIT && 1 <= k <= 4 ==>
      (HasTable(pages', root, g, k) <==>
         HasTable(pages, root, g, k) || (k + 1 == l && g / Span(l) == gpa / Span(l)))
  }

  /** Linking a table in where the walk of gpa ended. */
  lemma LinkStep(pages: Pages, pages': Pages, tables: map<nat, Node>, tables': map<nat, Node>,
                 root: nat, pt: nat, off: nat, gpa: nat, l: nat)
    requires Tree(pages, tables) && root in tables && tables[root] == Node(4, 0) && gpa < GPA_LIMIT
    requires LinkWritten(pages, pages', tables, tables', pt, off) && tables[pt].level == l
    requires SameBehind(pages, pages', pt, l, off)
    requires Walk(pages, root, 4, gpa, l).Table? && Walk(pages, root, 4, gpa, l).page == pt
    requires off == Index(gpa, l) && 2 <= l <= 4
    ensures StepTaken(pages, pages', root, gpa, l)
    ensures var w := Walk(pages', root, 4, gpa, l - 1);
            w.Table? && w.page == Addr(pages'[pt][off])
  {
    LinkExtends(pages, pages', tables, tables', root, pt, off, gpa, l);
    forall g: nat, k: nat | g < GPA_LIMIT && 1 <= k <= 4
      ensures HasTable(pages', root, g, k) <==>
              HasTable(pages, root, g, k) || (k + 1 == l && g / Span(l) == gpa / Span(l))
    {
      LinkAddsTable(pages, pages', tables, tables', root, pt, off, gpa, l, g, k);
    }
  }

  /** Walks that are to stop further down still end where they did. */
  ghost predicate SameBelow(pages: Pages, pages': Pages, root: nat, gpa: nat, l: nat) {
    forall k: nat :: k + 1 < l ==> Walk(pages', root, 4, gpa, k) == Walk(pages, root, 4, gpa, k)
  }

  lemma LinkKeepsBelow(pages: Pages, pages': Pages, tables: map<nat, Node>, tables': map<nat, Node>,
                       root: nat, pt: nat, off: nat, gpa: nat, l: nat)
    requires Tree(pages, tables) && root in tables && tables[root] == Node(4, 0) && gpa < GPA_LIMIT
    requires LinkWritten(pages, pages', tables, tables', pt, off) && tables[pt].level == l
    requires SameBehind(pages, pages', pt, l, off) && off == Index(gpa, l)
    ensures SameBelow(pages, pages', root, gpa, l)
  {
    AtRoot(tables, root, gpa);
    forall k: nat | k + 1 < l
      ensures Walk(pages', root, 4, gpa, k) == Walk(pages, root, 4, gpa, k)
    {
      WalkAgree(pages, pages', tables, pt, off, root, 4, gpa, k);
      assert Behind(Walk(pages, pt, l, gpa, k), Walk(pages', pt, l, gpa, k), k, l);
    }
  }

  lemma BelowReflexive(pages: Pages, root: nat, gpa: nat, l: nat)
    ensures SameBelow(pages, pages, root, gpa, l)
  {
  }

  /** A step adds the next table only. */
  lemma StepIsOne(pages: Pages, pages': Pages, root: nat, gpa: nat, l: nat)
    requires StepTaken(pages, pages', root, gpa, l) && 2 <= l <= 4 && gpa < GPA_LIMIT
    requires !HasTable(pages, root, gpa, l - 1)
    ensures !HasTable(pages', root, gpa, l - 2)
  {
    ShortWalk(pages, root, gpa, l - 1, l - 2);
    if l == 2 {
      NoTableBelow(pages', root, 4, gpa);
    }
  }

  lemma {:induction false} NoTableBelow(pages: Pages, p: nat, l: nat, g: nat)
    requires l >= 1
    ensures !Walk(pages, p, l, g, 0).Table?
    decreases l
  {
    if l > 1 && IsTable(pages, p) {
      var e := pages[p][Index(g, l)];
      if Present(e) && !IsLeaf(e, l) {
        NoTableBelow(pages, Addr(e), l - 1, g);
      }
    }
  }

  /** What the builder leaves alone: it only ever adds tables, from the pool or the caller's own page;
      a page that is no table keeps its contents; and it takes pages from the front of the pool. */
  ghost predicate Framed(pages: Pages, tables: map<nat, Node>, free: seq<nat>, own: nat,
                         pages': Pages, tables': map<nat, Node>, free': seq<nat>)
  {
    && (forall q :: q in tables ==> q in tables' && tables'[q] == tables[q])
    && (forall q :: q in tables' ==> q in tables || q in free || (q == own && own != 0))
    && (forall q :: q in pages && q !in tables' ==> q in pages' && pages'[q] == pages[q])
    && |free'| <= |free| && free' == free[|free| - |free'|..]
  }

  /** The memory writes behind a new table: its own page, and one entry that leads to it. */
  lemma LinkFrames(pages: Pages, tables: map<nat, Node>, free: seq<nat>, own: nat, pages': Pages,
                   tables': map<nat, Node>, free': seq<nat>, page: nat, content: seq<nat>, node: Node,
                   pt: nat, off: nat, w: nat)
    requires pt in tables && IsTable(pages, pt) && off < 512 && |content| == 512
    requires page !in tables && (page in free || (page == own && own != 0))
    requires |free'| <= |free| && free' == free[|free| - |free'|..]
    requires pages' == Store(pages[page := content], pt, off, w) && tables' == tables[page := node]
    ensures SameExcept(pages, pages', tables, pt, off) && IsTable(pages', pt) && pages'[pt][off] == w
    ensures page in pages' && pages'[page] == content
    ensures Framed(pages, tables, free, own, pages', tables', free')
  {
  }

  lemma FramedReflexive(pages: Pages, tables: map<nat, Node>, free: seq<nat>, own: nat)
    ensures Framed(pages, tables, free, own, pages, tables, free)
  {
  }

  lemma FramedTransitive(p0: Pages, t0: map<nat, Node>, f0: seq<nat>, own: nat,
                         p1: Pages, t1: map<nat, Node>, f1: seq<nat>, own': nat,
                         p2: Pages, t2: map<nat, Node>, f2: seq<nat>)
    requires Framed(p0, t0, f0, own, p1, t1, f1) && Framed(p1, t1, f1, own', p2, t2, f2)
    requires own' == own || own' == 0
    ensures Framed(p0, t0, f0, own, p2, t2, f2)
  {
  }

  /** Whether the step of the descent at level l uses the caller's page. */
  predicate UsesOwn(pages: Pages, root: nat, g: nat, l: nat, own: nat)
    requires l > 0
  {
    own != 0 && Walk(pages, root, 4, g, l - 1).Absent?
  }

  /** A step of the descent supplies the one table it needs, if it needs any. */
  lemma StepDownNeed(was: Pages, pages: Pages, root: nat, g: nat, level: nat, l: nat, own: nat, left: nat)
    requires 2 <= level <= 4 && l < level && Walk(was, root, 4, g, level).Table?
    requires Walk(pages, root, 4, g, level - 1).Table?
    requires g < GPA_LIMIT && StepTaken(was, pages, root, g, level) && SameBelow(was, pages, root, g, level)
    requires Walk(was, root, 4, g, level - 1).Table? ==> pages == was
    requires left == if UsesOwn(was, root, g, level, own) then 0 else own
    ensures PagesNeeded(was, root, g, l, own) == PagesNeeded(pages, root, g, l, left) +
              if Walk(was, root, 4, g, level - 1).Table? || UsesOwn(was, root, g, level, own) then 0 else 1
  {
    if !Walk(was, root, 4, g, level - 1).Table? {
      StepIsOne(was, pages, root, g, level);
      MissingBelow(was, root, g, level, l);
      MissingBelow(pages, root, g, level - 1, l);
      ShortWalk(was, root, g, level - 1, l);
    }
  }

  /** A step that has to allocate a page shows that one is needed. */
  lemma StepNeeds(pages: Pages, root: nat, g: nat, level: nat, l: nat, own: nat)
    requires 2 <= level <= 4 && l < level && !Walk(pages, root, 4, g, level - 1).Table?
    requires !UsesOwn(pages, root, g, level, own)
    ensures PagesNeeded(pages, root, g, l, own) > 0
  {
    ShortWalk(pages, root, g, level - 1, l);
  }

  /** What the walk of g makes of entry `pte` of a table of level l. */
  function EntryOutcome(pages: Pages, pte: nat, l: nat, g: nat): Outcome {
    if !Present(pte) then Absent(7)
    else if IsLeaf(pte, l) then Mapped(Rwx(pte), Addr(pte) + g % Span(l))
    else Restrict(Walk(pages, Addr(pte), if l > 0 then l - 1 else 0, g, 0), Rwx(pte))
  }

  /** The translation has changed in the span of the level-l entry of gpa only, where it is what `pte`
      leads to, be it a leaf, a table or nothing. */
  ghost predicate EntryUpdate(pages: Pages, pages': Pages, root: nat, gpa: nat, l: nat, pte: nat) {
    forall g: nat :: g < GPA_LIMIT ==>
      Walk(pages', root, 4, g, 0) ==
      if g / Span(l) == gpa / Span(l) then
        Restrict(EntryOutcome(pages, pte, l, g), Walk(pages, root, 4, gpa, l).rwx)
      else Walk(pages, root, 4, g, 0)
  }

  /** A write to a table does not show in walks that begin further down. */
  lemma {:induction false} WalkBelow(pages: Pages, pages': Pages, tables: map<nat, Node>, pt: nat, off: nat,
                                     p: nat, k: nat, g: nat)
    requires Tree(pages, tables) && pt in tables && SameExcept(pages, pages', tables, pt, off)
    requires At(tables, p, k, g) && k < tables[pt].level
    ensures Walk(pages', p, k, g, 0) == Walk(pages, p, k, g, 0)
    decreases k
  {
    hide And, Span;
    Descend(pages, tables, p, k, g);
    var e := pages[p][Index(g, k)];
    if Present(e) && !IsLeaf(e, k) {
      WalkBelow(pages, pages', tables, pt, off, Addr(e), k - 1, g);
    }
  }

  /** Overwriting an entry with any word that suits its place. */
  lemma EntryWritten(pages: Pages, pages': Pages, tables: map<nat, Node>, root: nat, pt: nat,
                     gpa: nat, l: nat, pte: nat)
    requires Tree(pages, tables) && root in tables && tables[root] == Node(4, 0) && gpa < GPA_LIMIT
    requires 1 <= l <= 4 && At(tables, pt, l, gpa) && IsTable(pages, pt) && EntryOk(pte, tables, l, gpa / Span(l))
    requires Walk(pages, root, 4, gpa, l).Table? && Walk(pages, root, 4, gpa, l).page == pt
    requires pages' == Store(pages, pt, Index(gpa, l), pte)
    ensures Tree(pages', tables)
    ensures Walk(pages', root, 4, gpa, l) == Walk(pages, root, 4, gpa, l)
    ensures EntryUpdate(pages, pages', root, gpa, l, pte)
  {
    var off := Index(gpa, l);
    IndexStep(gpa, l);
    TreeAfterWrite(pages, pages', tables, tables, pt, off);
    AtRoot(tables, root, gpa);
    WalkAgree(pages, pages', tables, pt, off, root, 4, gpa, l);
    forall g: nat | g < GPA_LIMIT
      ensures Walk(pages', root, 4, g, 0) ==
              if g / Span(l) == gpa / Span(l) then
                Restrict(EntryOutcome(pages, pte, l, g), Walk(pages, root, 4, gpa, l).rwx)
              else Walk(pages, root, 4, g, 0)
    {
      AtRoot(tables, root, g);
      if g / Span(l) == gpa / Span(l) {
        WalkSamePath(pages', root, 4, gpa, g, l);
        WalkThrough(pages', root, 4, g, l, 0);
        if Present(pte) && !IsLeaf(pte, l) {
          WalkBelow(pages, pages', tables, pt, off, Addr(pte), l - 1, g);
        }
      } else {
        WalkAgree(pages, pages', tables, pt, off, root, 4, g, 0);
      }
    }
  }

  /** What the final write does to the tables below its entry. */
  lemma TablesWritten(was: Pages, pages: Pages, pages': Pages, tables: map<nat, Node>, root: nat, pt: nat,
                      gpa: nat, l: nat, pte: nat)
    requires PathAdded(was, pages, root, gpa, l)
    requires Tree(pages, tables) && root in tables && tables[root] == Node(4, 0) && gpa < GPA_LIMIT
    requires 1 <= l <= 4 && At(tables, pt, l, gpa) && IsTable(pages, pt) && Installable(pte, l)
    requires Walk(pages, root, 4, gpa, l).Table? && Walk(pages, root, 4, gpa, l).page == pt
    requires pages' == Store(pages, pt, Index(gpa, l), pte)
    ensures TableUpdate(was, pages', root, gpa, l)
  {
    hide And, Span;
    var off := Index(gpa, l);
    IndexStep(gpa, l);
    forall g: nat, k: nat | g < GPA_LIMIT && 1 <= k <= 4
      ensures HasTable(pages', root, g, k) <==>
              HasTable(pages, root, g, k) && !(k < l && g / Span(l) == gpa / Span(l))
    {
      AtRoot(tables, root, g);
      WalkAgree(pages, pages', tables, pt, off, root, 4, g, k);
      if k < l && g / Span(l) == gpa / Span(l) {
        AtRoot(tables, root, gpa);
        WalkAgree(pages, pages', tables, pt, off, root, 4, gpa, l);
        WalkSamePath(pages', root, 4, gpa, g, l);
        DeadEnd(pages', root, g, l);
        ShortWalk(pages', root, g, l - 1, k);
      }
    }
  }

  lemma FramedWrite(p0: Pages, t0: map<nat, Node>, f0: seq<nat>, own: nat, p1: Pages, t1: map<nat, Node>, f1: seq<nat>,
                    p2: Pages, pt: nat, off: nat, pte: nat)
    requires Framed(p0, t0, f0, own, p1, t1, f1)
    requires pt in t1 && IsTable(p1, pt) && off < 512 && p2 == Store(p1, pt, off, pte)
    ensures Framed(p0, t0, f0, own, p2, t1, f1)
  {
  }

  lemma RootTable(pages: Pages, root: nat, g: nat)
    ensures Walk(pages, root, 4, g, 4) == Table(7, root)
  {
  }

  lemma SameMeaningReflexive(pages: Pages, root: nat)
    ensures SameMeaning(pages, pages, root)
  {
  }

  // ---- identity maps

  /** What a mapping of hpa with `perm` below tables that leave r amounts to; without any of the
      three permissions it maps nothing. */
  function LeafMeaning(hpa: nat, perm: nat, r: nat): Outcome {
    if Present(perm) then Mapped(And(r, Rwx(perm)), hpa) else Absent(r)
  }

  lemma LeafDecides(phys: nat, perm: nat, l: nat, r: nat, g: nat)
    requires 1 <= l <= 3 && phys < PHYS_LIMIT && Frame(phys) % Span(l) == 0 && IsPerm(perm)
    ensures Installable(LeafEntry(phys, perm, l > 1), l)
    ensures EntryMeaning(LeafEntry(phys, perm, l > 1), l, r, g) == LeafMeaning(Frame(phys) + g % Span(l), perm, r)
  {
    LeafEntryFields(phys, perm, l > 1);
  }

  /** No address from lo to hi is mapped, and no table on their way restricts permissions. */
  ghost predicate Unmapped(pages: Pages, root: nat, lo: nat, hi: nat) {
    forall g: nat :: lo <= g < hi ==> Walk(pages, root, 4, g, 0) == Absent(7)
  }

  /** Where the ranges mapped by 1G and by 2M pages end. */
  datatype Phases = Phases(end1g: nat, end2m: nat) {
    /** The level of the leaf that an address gets. */
    function Level(g: nat): nat {
      if g < end1g then 3 else if g < end2m then 2 else 1
    }
  }

  /** The addresses from lo to hi are mapped to themselves with `perm`, as far as the tables that were
      on their way before allow; every other address is as it was. */
  ghost predicate IdentityUpTo(was: Pages, pages: Pages, root: nat, lo: nat, hi: nat, perm: nat, ph: Phases) {
    forall g: nat :: g < GPA_LIMIT ==>
      Walk(pages, root, 4, g, 0) ==
      if lo <= g < hi then LeafMeaning(g, perm, Walk(was, root, 4, g, ph.Level(g)).rwx)
      else Walk(was, root, 4, g, 0)
  }

  /** Where nothing was mapped, and no table restricted permissions, they are exactly `perm`. */
  lemma FreshIdentity(was: Pages, pages: Pages, root: nat, lo: nat, hi: nat, perm: nat, ph: Phases)
    requires Unmapped(was, root, lo, hi) && IdentityUpTo(was, pages, root, lo, hi, perm, ph) && hi <= GPA_LIMIT
    ensures forall g: nat :: lo <= g < hi ==>
      Walk(pages, root, 4, g, 0) == if Present(perm) then Mapped(Rwx(perm), g) else Absent(7)
  {
    AndBound(perm, EPT_PRESENT);
    AndSeven(Rwx(perm));
    forall g: nat | lo <= g < hi
      ensures Walk(pages, root, 4, g, 0) == if Present(perm) then Mapped(Rwx(perm), g) else Absent(7)
    {
      UnmappedIsOpen(was, root, g, ph.Level(g));
    }
  }

  /** The permissions that walks of addresses ahead arrive with are as before. */
  ghost predicate RwxAhead(was: Pages, pages: Pages, root: nat, a: nat) {
    forall g: nat, k: nat :: a <= g < GPA_LIMIT && k <= 4 ==>
      Walk(pages, root, 4, g, k).rwx == Walk(was, root, 4, g, k).rwx
  }

  /** No walk arrives with other permissions than before, save those that get past the level-l entry of
      gpa. */
  ghost predicate RwxUpdate(pages: Pages, pages': Pages, root: nat, gpa: nat, l: nat) {
    forall g: nat, k: nat :: g < GPA_LIMIT && k <= 4 && !(k < l && g / Span(l) == gpa / Span(l)) ==>
      Walk(pages', root, 4, g, k).rwx == Walk(pages, root, 4, g, k).rwx
  }

  /** What the final write of an installation does to the permissions that walks arrive with. */
  lemma RwxWritten(was: Pages, pages: Pages, pages': Pages, tables: map<nat, Node>, root: nat, pt: nat,
                   gpa: nat, l: nat, pte: nat)
    requires SameMeaning(was, pages, root)
    requires Tree(pages, tables) && root in tables && tables[root] == Node(4, 0) && gpa < GPA_LIMIT
    requires 1 <= l <= 4 && At(tables, pt, l, gpa) && IsTable(pages, pt)
    requires pages' == Store(pages, pt, Index(gpa, l), pte)
    ensures RwxUpdate(was, pages', root, gpa, l)
  {
    IndexStep(gpa, l);
    forall g: nat, k: nat | g < GPA_LIMIT && k <= 4 && !(k < l && g / Span(l) == gpa / Span(l))
      ensures Walk(pages', root, 4, g, k).rwx == Walk(was, root, 4, g, k).rwx
    {
      AtRoot(tables, root, g);
      WalkAgree(pages, pages', tables, pt, Index(gpa, l), root, 4, g, k);
      assert Alike(Walk(was, root, 4, g, k), Walk(pages, root, 4, g, k), k);
    }
  }

  lemma RwxGrows(was: Pages, p0: Pages, p1: Pages, root: nat, a: nat, l: nat)
    requires RwxAhead(was, p0, root, a) && RwxUpdate(p0, p1, root, a, l) && a % Span(l) == 0
    ensures RwxAhead(was, p1, root, a + Span(l))
  {
    forall g: nat | a + Span(l) <= g < GPA_LIMIT
      ensures g / Span(l) != a / Span(l)
    {
      SpanMembers(a, g, l);
    }
  }

  lemma SpanIsFrames(a: nat, l: nat)
    requires 1 <= l <= 3 && a % Span(l) == 0
    ensures a % PAGE_SIZE == 0
  {
    var q := a / Span(l);
    if l == 2 {
      DivModUnique(a, PAGE_SIZE, q * 512, 0);
    } else if l == 3 {
      DivModUnique(a, PAGE_SIZE, q * 512 * 512, 0);
    }
  }

  lemma AlignedDown(a: nat, map1g: bool, map2m: bool)
    requires a % (if map1g then Span(3) else if map2m then Span(2) else Span(1)) == 0
    ensures a % Span(1) == 0 && (map2m ==> a % Span(2) == 0) && (map1g ==> a % Span(3) == 0)
  {
    if map1g {
      SpanIsFrames(a, 3);
      DivModUnique(a, Span(2), a / Span(3) * 512, 0);
    } else if map2m {
      SpanIsFrames(a, 2);
    }
  }

  lemma LastPage(start: nat, len: nat, phys: nat)
    requires start % PAGE_SIZE == 0 && phys % PAGE_SIZE == 0
    requires start <= phys <= start + len < phys + PAGE_SIZE
    ensures phys == start + len - len % PAGE_SIZE
  {
    DivModUnique(len, PAGE_SIZE, phys / PAGE_SIZE - start / PAGE_SIZE, start + len - phys);
  }

  lemma NextMultiple(a: nat, s: nat)
    requires s > 0 && a % s == 0
    ensures (a + s) % s == 0
  {
    DivModUnique(a + s, s, a / s + 1, 0);
  }

  lemma SameIdentity(was: Pages, p0: Pages, p1: Pages, root: nat, lo: nat, hi: nat, perm: nat, ph: Phases)
    requires IdentityUpTo(was, p0, root, lo, hi, perm, ph) && SameMeaning(p0, p1, root)
    ensures IdentityUpTo(was, p1, root, lo, hi, perm, ph)
  {
    forall g: nat | g < GPA_LIMIT
      ensures Walk(p1, root, 4, g, 0) == Walk(p0, root, 4, g, 0)
    {
      assert Alike(Walk(p0, root, 4, g, 0), Walk(p1, root, 4, g, 0), 0);
    }
  }

  lemma SpanMembers(a: nat, g: nat, l: nat)
    requires a % Span(l) == 0
    ensures g / Span(l) == a / Span(l) <==> a <= g < a + Span(l)
    ensures a <= g < a + Span(l) ==> a + g % Span(l) == g
  {
    var s := Span(l);
    if a <= g < a + s {
      DivModUnique(g, s, a / s, g - a);
    }
  }

  lemma IdentityGrows(was: Pages, p0: Pages, p1: Pages, root: nat, lo: nat, a: nat, perm: nat, ph: Phases, l: nat)
    requires IdentityUpTo(was, p0, root, lo, a, perm, ph) && RwxAhead(was, p0, root, a)
    requires lo <= a < GPA_LIMIT && 1 <= l <= 3 && a % Span(l) == 0 && IsPerm(perm)
    requires forall g :: a <= g < a + Span(l) ==> ph.Level(g) == l
    requires PointUpdate(p0, p1, root, a, l, LeafEntry(a, perm, l > 1))
    ensures IdentityUpTo(was, p1, root, lo, a + Span(l), perm, ph)
  {
    hide Walk, Span, And, LeafEntry, Addr, Frame, IsPerm;
    PageFits(a, l);
    var r := Walk(was, root, 4, a, l).rwx;
    assert Walk(p0, root, 4, a, l).rwx == r;
    forall g: nat | g < GPA_LIMIT
      ensures Walk(p1, root, 4, g, 0) ==
              if lo <= g < a + Span(l) then LeafMeaning(g, perm, Walk(was, root, 4, g, ph.Level(g)).rwx)
              else Walk(was, root, 4, g, 0)
    {
      SpanMembers(a, g, l);
      if a <= g < a + Span(l) {
        LeafDecides(a, perm, l, r, g);
        WalkSamePath(was, root, 4, a, g, l);
      }
    }
  }

  // ---- how many tables an identity range takes

  lemma SpanFactor(l: nat, h: nat) returns (m: nat)
    requires 1 <= l <= h <= 4
    ensures m > 0 && Span(h) == m * Span(l)
  {
    m := Span(h) / Span(l);
  }

  /** A table of level k is missing for the page at a: neither was it there, nor does an earlier page
      of the range, which begins at start, share it. */
  predicate NeedsTable(was: Pages, root: nat, start: nat, a: nat, k: nat) {
    !HasTable(was, root, a, k) && (a == start || a % Span(k + 1) == 0)
  }

  /** Tables that mapping the page of size Span(l) at a adds. */
  function NewTables(was: Pages, root: nat, start: nat, a: nat, l: nat): (n: nat)
    ensures n <= if l <= 4 then 4 - l else 0
    decreases 4 - l
  {
    if l >= 4 then 0
    else (if NeedsTable(was, root, start, a, l) then 1 else 0) + NewTables(was, root, start, a, l + 1)
  }

  /** Tables that mapping all whole pages of size Span(l) from a to max adds. */
  function PhaseTables(was: Pages, root: nat, start: nat, a: nat, max: nat, l: nat): (n: nat)
    decreases if max > a then max - a else 0
  {
    if a + Span(l) > max then 0
    else NewTables(was, root, start, a, l) + PhaseTables(was, root, start, a + Span(l), max, l)
  }

  /** Where that ends. */
  function PhaseEnd(a: nat, max: nat, l: nat): (end: nat)
    ensures a <= end && (a <= max ==> end <= max < end + Span(l))
    decreases if max > a then max - a else 0
  {
    if a + Span(l) > max then a else PhaseEnd(a + Span(l), max, l)
  }

  /** The phases of setup_ept_range. */
  function PhasesOf(start: nat, len: nat, map1g: bool, map2m: bool): (ph: Phases)
    ensures start <= ph.end1g <= ph.end2m <= start + len
  {
    var max := start + len;
    var end1g := if map1g then PhaseEnd(start, max, 3) else start;
    Phases(end1g, if map2m then PhaseEnd(end1g, max, 2) else end1g)
  }

  /** Tables that setup_ept_range adds. */
  function RangeTables(was: Pages, root: nat, start: nat, len: nat, map1g: bool, map2m: bool): nat {
    var max, ph := start + len, PhasesOf(start, len, map1g, map2m);
    (if map1g then PhaseTables(was, root, start, start, max, 3) else 0)
    + (if map2m then PhaseTables(was, root, start, ph.end1g, max, 2) else 0)
    + PhaseTables(was, root, start, ph.end2m, max, 1)
  }

  lemma SmallestSpan()
    ensures Span(1) == PAGE_SIZE
  {
  }

  lemma {:induction false} PhaseBound(was: Pages, root: nat, start: nat, a: nat, max: nat, l: nat) returns (q: nat)
    requires 1 <= l <= 3
    ensures PhaseEnd(a, max, l) == a + q * PAGE_SIZE
    ensures PhaseTables(was, root, start, a, max, l) <= 3 * q
    decreases if max > a then max - a else 0
  {
    hide Walk, HasTable, NewTables, Span;
    var m := SpanFactor(1, l);
    SmallestSpan();
    if a + Span(l) <= max {
      var rest := PhaseBound(was, root, start, a + Span(l), max, l);
      q := rest + m;
    } else {
      q := 0;
    }
  }

  /** Three tables for each 4K page always suffice. */
  lemma RangeBound(was: Pages, root: nat, start: nat, len: nat, map1g: bool, map2m: bool)
    ensures RangeTables(was, root, start, len, map1g, map2m) <= 3 * (len / PAGE_SIZE)
  {
    hide PhaseTables, PhaseEnd;
    var max, ph := start + len, PhasesOf(start, len, map1g, map2m);
    var q3 := PhaseBound(was, root, start, start, max, 3);
    var q2 := PhaseBound(was, root, start, ph.end1g, max, 2);
    var q1 := PhaseBound(was, root, start, ph.end2m, max, 1);
    var q := (if map1g then q3 else 0) + (if map2m then q2 else 0) + q1;
    assert q * PAGE_SIZE <= len;
  }

  /** While the range is being mapped, the tables for addresses ahead are those of before and those
      that the page just mapped needed. */
  ghost predicate TablesAhead(was: Pages, pages: Pages, root: nat, start: nat, a: nat) {
    forall g: nat, k: nat :: a <= g < GPA_LIMIT && 1 <= k <= 3 ==>
      (HasTable(pages, root, g, k) <==>
         HasTable(was, root, g, k) || (start < a && g / Span(k + 1) == (a - 1) / Span(k + 1)))
  }

  lemma Monotone(x: nat, y: nat, d: nat)
    requires x <= y && d > 0
    ensures x / d <= y / d
  {
    Division(x, d);
    Division(y, d);
    if x / d > y / d {
      SmallDigit(y / d, x / d, d);
    }
  }

  /** A page of size s lies within one block of the size S. */
  lemma OneBlock(a: nat, x: nat, s: nat, S: nat, m: nat)
    requires s > 0 && m > 0 && S == m * s && a % s == 0 && a <= x < a + s
    ensures S > 0 && x / S == a / S
  {
    NestedDivision(a, s, m, S);
    NestedDivision(x, s, m, S);
    DivModUnique(x, s, a / s, x - a);
  }

  /** A multiple of a block size begins a new block. */
  lemma NewBlock(b: nat, s: nat, S: nat, m: nat)
    requires s > 0 && m > 0 && s == m * S && S > 0 && b % s == 0 && b > 0
    ensures (b - 1) / S < b / S && b % S == 0
  {
    NestedDivision(b, S, m, s);
    Division(b, S);
    Division(b, s);
    SmallDigit(0, b / s, s);
    DivModUnique(b, S, b / s * m, 0);
    DivModUnique(b - 1, S, b / s * m - 1, S - 1);
  }

  /** An address begins a block if and only if the one before it is in another. */
  lemma BlockStart(a: nat, d: nat)
    requires a > 0 && d > 0
    ensures a % d == 0 <==> a / d != (a - 1) / d
  {
    Division(a, d);
    if a % d == 0 {
      SmallDigit(0, a / d, d);
      DivModUnique(a - 1, d, a / d - 1, d - 1);
    } else {
      DivModUnique(a - 1, d, a / d, a % d - 1);
    }
  }

  /** Mapping the next page moves the account on. */
  lemma AheadGrows(was: Pages, p0: Pages, p1: Pages, root: nat, start: nat, a: nat, l: nat)
    requires TablesAhead(was, p0, root, start, a) && TableUpdate(p0, p1, root, a, l)
    requires start <= a && 1 <= l <= 3 && a % Span(l) == 0
    ensures TablesAhead(was, p1, root, start, a + Span(l))
  {
    forall g: nat, k: nat | a + Span(l) <= g < GPA_LIMIT && 1 <= k <= 3
      ensures HasTable(p1, root, g, k) <==>
              HasTable(was, root, g, k) || g / Span(k + 1) == (a + Span(l) - 1) / Span(k + 1)
    {
      AheadAt(was, p0, p1, root, start, a, l, g, k);
    }
  }

  lemma AheadAt(was: Pages, p0: Pages, p1: Pages, root: nat, start: nat, a: nat, l: nat, g: nat, k: nat)
    requires TablesAhead(was, p0, root, start, a) && TableUpdate(p0, p1, root, a, l)
    requires start <= a && 1 <= l <= 3 && a % Span(l) == 0
    requires a + Span(l) <= g < GPA_LIMIT && 1 <= k <= 3
    ensures HasTable(p1, root, g, k) <==>
            HasTable(was, root, g, k) || g / Span(k + 1) == (a + Span(l) - 1) / Span(k + 1)
  {
    hide Span, HasTable;
    var s, S := Span(l), Span(k + 1);
    Monotone(a, g, S);
    if start < a { Monotone(a - 1, a, S); }
    if l <= k {
      var m := SpanFactor(l, k + 1);
      OneBlock(a, a + s - 1, s, S, m);
    } else {
      var m := SpanFactor(k + 1, l);
      NextMultiple(a, s);
      NewBlock(a + s, s, S, m);
      Monotone(a + s, g, S);
      Monotone(a, a + s - 1, S);
      NewBlockBelow(a, g, l);
    }
  }

  lemma NewBlockBelow(a: nat, g: nat, l: nat)
    requires a % Span(l) == 0 && a + Span(l) <= g
    ensures g / Span(l) != a / Span(l)
  {
    SpanMembers(a, g, l);
  }

  /** The tables missing on the way to the next page are those counted for it. */
  lemma {:induction false} CountIsMissing(was: Pages, pages: Pages, root: nat, start: nat, a: nat, l: nat)
    requires TablesAhead(was, pages, root, start, a) && start <= a < GPA_LIMIT && 1 <= l <= 4
    ensures Missing(pages, root, a, l) == NewTables(was, root, start, a, l)
    decreases 4 - l
  {
    hide Span, Walk;
    if l < 4 {
      CountIsMissing(was, pages, root, start, a, l + 1);
      if start < a { BlockStart(a, Span(l + 1)); }
      assert HasTable(pages, root, a, l) <==> !NeedsTable(was, root, start, a, l);
      if HasTable(pages, root, a, l) && !HasTable(pages, root, a, l + 1) {
        ShortWalk(pages, root, a, l + 1, l);
      }
    }
  }

  // ---- the sizes of the pages of an identity range

  /** The walk of g ends in an entry of level l. */
  predicate EndsAt(pages: Pages, root: nat, g: nat, l: nat)
    requires l > 0
  {
    HasTable(pages, root, g, l) && (l > 1 ==> !HasTable(pages, root, g, l - 1))
  }

  /** Each address from lo to hi has a leaf of the level of its phase. */
  ghost predicate Sized(pages: Pages, root: nat, lo: nat, hi: nat, ph: Phases) {
    forall g: nat :: lo <= g < hi ==> EndsAt(pages, root, g, ph.Level(g))
  }

  /** A phase ends at a multiple of its page size. */
  ghost predicate PhasesOk(start: nat, ph: Phases) {
    && start <= ph.end1g <= ph.end2m
    && (start < ph.end1g ==> ph.end1g % Span(3) == 0)
    && (ph.end1g < ph.end2m ==> ph.end2m % Span(2) == 0)
  }

  lemma Separated(g: nat, e: nat, a: nat, d: nat)
    requires d > 0 && g < e <= a && e % d == 0
    ensures g / d != a / d
  {
    BlockStart(e, d);
    Monotone(g, e - 1, d);
    Monotone(e - 1, e, d);
    Monotone(e, a, d);
  }

  lemma SizedAt(p0: Pages, p1: Pages, root: nat, lo: nat, a: nat, ph: Phases, l: nat, g: nat)
    requires Sized(p0, root, lo, a, ph) && TableUpdate(p0, p1, root, a, l) && PhasesOk(lo, ph)
    requires lo <= a && 1 <= l <= 3 && a % Span(l) == 0 && a + Span(l) <= GPA_LIMIT
    requires forall g :: a <= g < a + Span(l) ==> ph.Level(g) == l
    requires lo <= g < a + Span(l)
    ensures EndsAt(p1, root, g, ph.Level(g))
  {
    hide Span, HasTable;
    assert ph.Level(a) == l;
    if g >= a {
      var m := SpanFactor(l, l + 1);
      OneBlock(a, g, Span(l), Span(l + 1), m);
      SpanMembers(a, g, l);
    } else {
      var m := ph.Level(g);
      assert EndsAt(p0, root, g, m);
      if m > l {
        Separated(g, if m == 3 then ph.end1g else ph.end2m, a, Span(m));
      }
    }
  }

  lemma SizedGrows(p0: Pages, p1: Pages, root: nat, lo: nat, a: nat, ph: Phases, l: nat)
    requires Sized(p0, root, lo, a, ph) && TableUpdate(p0, p1, root, a, l) && PhasesOk(lo, ph)
    requires lo <= a && 1 <= l <= 3 && a % Span(l) == 0 && a + Span(l) <= GPA_LIMIT
    requires forall g :: a <= g < a + Span(l) ==> ph.Level(g) == l
    ensures Sized(p1, root, lo, a + Span(l), ph)
  {
    forall g: nat | lo <= g < a + Span(l)
      ensures EndsAt(p1, root, g, ph.Level(g))
    {
      SizedAt(p0, p1, root, lo, a, ph, l, g);
    }
  }

  /** The level of the page at g in an identity range, by arithmetic: as many 1G pages from the start of
      the range on as fit, if they are enabled, then as many 2M pages, if they are, and 4K pages for
      what remains. */
  function PageLevel(start: nat, len: nat, map1g: bool, map2m: bool, g: nat): (l: nat)
    ensures 1 <= l <= 3
  {
    var end1g := if map1g then start + len / 0x4000_0000 * 0x4000_0000 else start;
    var end2m := if map2m then end1g + (start + len - end1g) / 0x20_0000 * 0x20_0000 else end1g;
    if g < end1g then 3 else if g < end2m then 2 else 1
  }

  /** Each whole 4K page of the range lies in a page of just that size. */
  ghost predicate RightSizes(pages: Pages, root: nat, start: nat, len: nat, map1g: bool, map2m: bool) {
    forall g: nat :: start <= g < start + len - len % 0x1000 ==>
      EndsAt(pages, root, g, PageLevel(start, len, map1g, map2m, g))
  }

  lemma SizedByArithmetic(pages: Pages, root: nat, start: nat, len: nat, map1g: bool, map2m: bool)
    requires start % (if map1g then Span(3) else if map2m then Span(2) else Span(1)) == 0
    requires Sized(pages, root, start, start + len - len % PAGE_SIZE, PhasesOf(start, len, map1g, map2m))
    ensures RightSizes(pages, root, start, len, map1g, map2m)
  {
    hide HasTable;
    PhasesAre(start, len, map1g, map2m);
    forall g: nat | start <= g < start + len - len % 0x1000
      ensures EndsAt(pages, root, g, PageLevel(start, len, map1g, map2m, g))
    {
      assert EndsAt(pages, root, g, PhasesOf(start, len, map1g, map2m).Level(g));
    }
  }

  /** Where a phase ends, by division. */
  lemma {:induction false} PhaseEndIs(a: nat, max: nat, l: nat)
    requires a <= max
    ensures PhaseEnd(a, max, l) == a + (max - a) / Span(l) * Span(l)
    ensures a % Span(l) == 0 ==> PhaseEnd(a, max, l) % Span(l) == 0
    decreases max - a
  {
    hide Span;
    var s := Span(l);
    Division(max - a, s);
    if a + s <= max {
      PhaseEndIs(a + s, max, l);
      OneFewer(max - a, s);
      if a % s == 0 { NextMultiple(a, s); }
    } else {
      DivModUnique(max - a, s, 0, max - a);
    }
  }

  lemma OneFewer(x: nat, s: nat)
    requires s > 0 && x >= s
    ensures x / s * s == (x - s) / s * s + s
  {
    Division(x - s, s);
    DivModUnique(x, s, (x - s) / s + 1, (x - s) % s);
  }

  lemma PhasesAre(start: nat, len: nat, map1g: bool, map2m: bool)
    requires start % (if map1g then Span(3) else if map2m then Span(2) else Span(1)) == 0
    ensures var ph := PhasesOf(start, len, map1g, map2m);
            && ph.end1g == (if map1g then start + len / 0x4000_0000 * 0x4000_0000 else start)
            && ph.end2m ==
               (if map2m then ph.end1g + (start + len - ph.end1g) / 0x20_0000 * 0x20_0000 else ph.end1g)
            && PhasesOk(start, ph)
  {
    hide PhaseEnd;
    var max, end1g := start + len, PhasesOf(start, len, map1g, map2m).end1g;
    AlignedDown(start, map1g, map2m);
    PhaseEndIs(start, max, 3);
    if map1g { AlignedDown(end1g, true, map2m); }
    PhaseEndIs(end1g, max, 2);
  }

  /** The least range that takes a 2M page: where the walk of its start reaches no table below the root,
      two tables are needed for it, though with 4K pages it would take three. */
  lemma OneLargePage(was: Pages, root: nat, start: nat)
    requires start % 0x20_0000 == 0 && !HasTable(was, root, start, 3)
    ensures RangeTables(was, root, start, 0x20_0000, false, true) == 2
  {
    hide HasTable;
    ShortTable(was, root, start, 2);
    assert PhaseTables(was, root, start, start + 0x20_0000, start + 0x20_0000, 2) == 0;
    assert PhaseEnd(start, start + 0x20_0000, 2) == start + 0x20_0000;
    assert NewTables(was, root, start, start, 4) == 0;
    assert NewTables(was, root, start, start, 3) == 1;
  }

  lemma ShortTable(was: Pages, root: nat, g: nat, k: nat)
    requires k <= 3 && !HasTable(was, root, g, 3)
    ensures !HasTable(was, root, g, k)
  {
    ShortWalk(was, root, g, 3, k);
  }

  lemma IdentityStart(pages: Pages, root: nat, start: nat, perm: nat, ph: Phases)
    ensures IdentityUpTo(pages, pages, root, start, start, perm, ph) && RwxAhead(pages, pages, root, start)
    ensures Sized(pages, root, start, start, ph)
  {
  }

  /** A size-aligned guest address is a frame that a leaf can hold. */
  lemma PageFits(a: nat, l: nat)
    requires 1 <= l <= 3 && a % Span(l) == 0 && a < GPA_LIMIT
    ensures a < PHYS_LIMIT && Frame(a) == a
  {
    SpanIsFrames(a, l);
  }

  lemma AheadStart(pages: Pages, root: nat, start: nat)
    ensures TablesAhead(pages, pages, root, start, start)
  {
  }

  // ---- the builder

  predicate FreshPage(tables: map<nat, Node>, free: seq<nat>, p: nat) {
    p != 0 && IsFrame(p) && p !in tables && p !in free
  }

  /** The pages that alloc_page will hand out are fresh, each for those after it too. */
  ghost predicate PoolOk(tables: map<nat, Node>, free: seq<nat>) {
    forall i :: 0 <= i < |free| ==> FreshPage(tables, free[i + 1..], free[i])
  }

  lemma PoolAfter(tables: map<nat, Node>, free: seq<nat>, page: nat, node: Node)
    requires PoolOk(tables, free) && page !in free
    ensures PoolOk(tables[page := node], free)
  {
    forall i | 0 <= i < |free|
      ensures FreshPage(tables[page := node], free[i + 1..], free[i])
    {
      assert FreshPage(tables, free[i + 1..], free[i]);
    }
  }

  lemma EntryOfTree(pages: Pages, tables: map<nat, Node>, pt: nat, off: nat)
    requires Tree(pages, tables) && pt in tables && off < 512
    ensures IsTable(pages, pt) && EntryOk(pages[pt][off], tables, tables[pt].level, tables[pt].prefix * 512 + off)
  {
    assert TableOk(pages, tables, pt);
  }

  /** Physical memory as the builder sees it: the contents of pages, and the pages that alloc_page
      hands out next. `tables` records the place of every page in use as a table. */
  class EptMemory {
    var pages: Pages
    var free: seq<nat>
    const root: nat
    ghost var tables: map<nat, Node>

    ghost predicate Valid()
      reads this
    {
      && Tree(pages, tables)
      && root in tables && tables[root] == Node(4, 0)
      && PoolOk(tables, free)
    }

    ghost function Translate(g: nat): Outcome
      reads this
    {
      Walk(pages, root, 4, g, 0)
    }

    /** How far the walk of g gets on its way to a table of level l. */
    ghost function Approach(g: nat, l: nat): Outcome
      reads this
    {
      Walk(pages, root, 4, g, l)
    }

    /** The entry of level l that the walk of g arrives at holds pte. */
    ghost predicate HasEntry(g: nat, l: nat, pte: nat)
      reads this
    {
      var w := Approach(g, l);
      w.Table? && IsTable(pages, w.page) && pages[w.page][Index(g, l)] == pte
    }

    /** An empty page-map level 4 and a pool of pages. */
    constructor (pml4: nat, pool: seq<nat>)
      requires IsFrame(pml4)
      requires forall i :: 0 <= i < |pool| ==> pool[i] != 0 && IsFrame(pool[i]) && pool[i] != pml4
      requires forall i, j :: 0 <= i < j < |pool| ==> pool[i] != pool[j]
      ensures Valid() && root == pml4 && free == pool
      ensures forall g: nat :: Translate(g) == Absent(7)
    {
      root := pml4;
      free := pool;
      pages := map[pml4 := ZERO_PAGE];
      tables := map[pml4 := Node(4, 0)];
      new;
      assert !Present(0);
      assert TableOk(pages, tables, root);
    }

    method AllocPage() returns (p: nat)
      requires Valid()
      modifies this`free
      ensures Valid()
      ensures old(free) == [] ==> p == 0 && free == []
      ensures old(free) != [] ==> old(free) == [p] + free && FreshPage(tables, free, p)
    {
      if free == [] {
        p := 0;
      } else {
        p := free[0];
        assert FreshPage(tables, free[1..], free[0]);
        ghost var was := free;
        free := free[1..];
        forall i | 0 <= i < |free|
          ensures FreshPage(tables, free[i + 1..], free[i])
        {
          assert was[i + 2..] == free[i + 1..];
          assert FreshPage(tables, was[(i + 1) + 1..], was[i + 1]);
        }
      }
    }

    /** The loop of split_large_ept_entry: the 512 pieces of the leaf pte, one after the other. */
    method WritePieces(newPt: nat, pte: nat, prototype: nat, level: nat)
      requires IsTable(pages, newPt) && pte < U64 && 2 <= level <= 3 && prototype == SplitPrototype(pte, level)
      modifies this`pages
      ensures IsTable(pages, newPt) && pages == old(pages)[newPt := pages[newPt]]
      ensures forall i :: 0 <= i < 512 ==> pages[newPt][i] == SplitChild(pte, level, i)
    {
      hide And, Or;
      var gpa := Addr(pte);
      for i := 0 to 512
        invariant IsTable(pages, newPt) && pages == old(pages)[newPt := pages[newPt]]
        invariant gpa == PieceAddr(Addr(pte), level, i)
        invariant forall j :: 0 <= j < i ==> pages[newPt][j] == SplitChild(pte, level, j)
      {
        pages := Store(pages, newPt, i, Or(prototype, gpa));
        gpa := gpa + Span(level - 1);
      }
    }

    method SplitLargeEptEntry(pt: nat, off: nat, level: nat) returns (ok: bool)
      requires Valid() && pt in tables && off < 512
      requires tables[pt].level == level && IsTable(pages, pt)
      requires Present(pages[pt][off]) && IsLarge(pages[pt][off]) && (level == 2 || level == 3)
      modifies this`pages, this`free, this`tables
      ensures Valid()
      ensures ok <==> old(free) != []
      ensures ok ==> |free| == |old(free)| - 1
      ensures !ok ==> unchanged(this)
      ensures SameMeaning(old(pages), pages, root)
      ensures ok ==> LinkWritten(old(pages), pages, old(tables), tables, pt, off)
      ensures ok ==> SameBehind(old(pages), pages, pt, level, off)
      ensures ok ==>
        var pte, newPt := old(pages)[pt][off], old(free)[0];
        && pages[pt][off] == SplitParent(pte, newPt) && IsTable(pages, newPt)
        && forall i :: 0 <= i < 512 ==> pages[newPt][i] == SplitChild(pte, level, i)
      ensures Framed(old(pages), old(tables), old(free), 0, pages, tables, free)
    {
      hide And, Or, Walk, SameMeaning, SameBehind, SameExcept, Framed, LinkWritten, Tree, PoolOk;
      ghost var was := pages;
      SameMeaningReflexive(pages, root);
      FramedReflexive(pages, tables, free, 0);
      var pte := pages[pt][off];
      EntryOfTree(pages, tables, pt, off);
      var newPt := AllocPage();
      if newPt == 0 {
        return false;
      }
      pages := pages[newPt := ZERO_PAGE];
      var prototype := WithoutAddr(pte);
      if level == 2 {
        prototype := WithoutLarge(prototype);
      }
      WritePieces(newPt, pte, prototype, level);
      pte := SplitParent(pte, newPt);
      pages := Store(pages, pt, off, pte);
      PoolAfter(tables, free, newPt, Node(level - 1, tables[pt].prefix * 512 + off));
      tables := tables[newPt := Node(level - 1, tables[pt].prefix * 512 + off)];
      LinkFrames(was, old(tables), old(free), 0, pages, tables, free, newPt, pages[newPt], tables[newPt],
                 pt, off, pte);
      SplitKeepsMeaning(was, pages, old(tables), tables, root, pt, off, newPt);
      return true;
    }

    /** Hang the fresh page newPt, zeroed, under the absent entry `off` of pt. */
    method CreateTable(pt: nat, off: nat, newPt: nat)
      requires Valid() && pt in tables && off < 512 && FreshPage(tables, free, newPt)
      requires 2 <= tables[pt].level <= 4 && IsTable(pages, pt) && !Present(pages[pt][off])
      modifies this`pages, this`tables
      ensures Valid()
      ensures SameMeaning(old(pages), pages, root)
      ensures LinkWritten(old(pages), pages, old(tables), tables, pt, off)
      ensures SameBehind(old(pages), pages, pt, old(tables)[pt].level, off)
      ensures pages[pt][off] == TableEntry(newPt) && newPt in pages && pages[newPt] == ZERO_PAGE
      ensures Framed(old(pages), old(tables), free, newPt, pages, tables, free)
    {
      hide And, Or, Walk, SameMeaning, SameBehind, SameExcept, Framed, LinkWritten, Tree, PoolOk;
      hide Present, TableEntry;
      ghost var node := Node(tables[pt].level - 1, tables[pt].prefix * 512 + off);
      pages := pages[newPt := ZERO_PAGE];
      pages := Store(pages, pt, off, TableEntry(newPt));
      PoolAfter(tables, free, newPt, node);
      tables := tables[newPt := node];
      LinkFrames(old(pages), old(tables), free, newPt, pages, tables, free, newPt, ZERO_PAGE, node,
                 pt, off, TableEntry(newPt));
      NewTableKeepsMeaning(old(pages), pages, old(tables), tables, root, pt, off, newPt);
    }

    /** One turn of the descent in InstallEptEntry: make sure that entry leads to a table. */
    method StepDown(pt: nat, level: nat, guestAddr: nat, ptPage: nat) returns (ok: bool, next: nat, page: nat)
      requires Valid() && 2 <= level <= 4 && guestAddr < GPA_LIMIT
      requires Approach(guestAddr, level).Table? && Approach(guestAddr, level).page == pt
      requires ptPage != 0 ==> FreshPage(tables, free, ptPage)
      modifies this`pages, this`free, this`tables
      ensures Valid() && SameMeaning(old(pages), pages, root)
      ensures Framed(old(pages), old(tables), old(free), ptPage, pages, tables, free)
      ensures !ok ==> free == [] && old(free) == []
      ensures ok ==> Approach(guestAddr, level - 1).Table? && Approach(guestAddr, level - 1).page == next
      ensures ok ==> StepTaken(old(pages), pages, root, guestAddr, level)
      ensures page == 0 || page == ptPage
      ensures page != 0 ==> FreshPage(tables, free, page)
      ensures ok ==> SameBelow(old(pages), pages, root, guestAddr, level)
      ensures old(Approach(guestAddr, level - 1)).Table? ==> ok && pages == old(pages)
      ensures var uses := UsesOwn(old(pages), root, guestAddr, level, ptPage);
              && (ok <==> old(Approach(guestAddr, level - 1)).Table? || uses || old(free) != [])
              && (ok ==> page == if uses then 0 else ptPage)
              && (ok ==> |free| == |old(free)| - if old(Approach(guestAddr, level - 1)).Table? || uses then 0 else 1)
    {
      hide And, Or, Walk, Span, Index, SameMeaning, SameBehind, LinkWritten, StepTaken, SameBelow;
      BelowReflexive(pages, root, guestAddr, level);
      ghost var was, wasTables, wasFree := pages, tables, free;
      SameMeaningReflexive(pages, root);
      FramedReflexive(pages, tables, free, ptPage);
      AtRoot(tables, root, guestAddr);
      WalkArrives(pages, tables, root, 4, guestAddr, level);
      Descend(pages, tables, pt, level, guestAddr);
      page := ptPage;
      next := 0;
      var offset := Index(guestAddr, level);
      if !Present(pages[pt][offset]) {
        DeadEnd(pages, root, guestAddr, level);
        var newPt := page;
        if newPt == 0 {
          newPt := AllocPage();
        } else {
          page := 0;
        }
        if newPt == 0 {
          return false, next, page;
        }
        CreateTable(pt, offset, newPt);
        LinkStep(was, pages, wasTables, tables, root, pt, offset, guestAddr, level);
        LinkKeepsBelow(was, pages, wasTables, tables, root, pt, offset, guestAddr, level);
      } else if IsLarge(pages[pt][offset]) {
        DeadEnd(pages, root, guestAddr, level);
        var split := SplitLargeEptEntry(pt, offset, level);
        if !split {
          return false, next, page;
        }
        LinkStep(was, pages, wasTables, tables, root, pt, offset, guestAddr, level);
        LinkKeepsBelow(was, pages, wasTables, tables, root, pt, offset, guestAddr, level);
      } else {
        WalkExtends(pages, root, guestAddr, level);
        StepShared(pages, root, guestAddr, level);
      }
      next := Addr(pages[pt][offset]);
      ok := true;
    }

    /** The loop of install_ept_entry: go down to the table of level pteLevel, making what is missing. */
    method WalkDown(pteLevel: nat, guestAddr: nat, ptPage: nat) returns (ok: bool, pt: nat)
      requires Valid() && 1 <= pteLevel <= 4 && guestAddr < GPA_LIMIT
      requires ptPage != 0 ==> FreshPage(tables, free, ptPage)
      modifies this`pages, this`free, this`tables
      ensures Valid() && SameMeaning(old(pages), pages, root)
      ensures Framed(old(pages), old(tables), old(free), ptPage, pages, tables, free)
      ensures ok ==> Approach(guestAddr, pteLevel).Table? && Approach(guestAddr, pteLevel).page == pt
      ensures ok ==> PathAdded(old(pages), pages, root, guestAddr, pteLevel)
      ensures ok <==> |old(free)| >= PagesNeeded(old(pages), root, guestAddr, pteLevel, ptPage)
      ensures ok ==> |free| == |old(free)| - PagesNeeded(old(pages), root, guestAddr, pteLevel, ptPage)
      ensures !ok ==> free == []
    {
      hide And, Or, Walk, PagesNeeded, Span, Index, SameMeaning, PathAdded, StepTaken, Framed, FreshPage, Valid;
      hide SameBelow, UsesOwn;
      var page := ptPage;
      pt := root;
      var level := 4;
      SameMeaningReflexive(pages, root);
      FramedReflexive(pages, tables, free, ptPage);
      PathStart(pages, root, guestAddr);
      RootTable(pages, root, guestAddr);
      while level > pteLevel
        invariant pteLevel <= level <= 4
        invariant Valid() && SameMeaning(old(pages), pages, root)
        invariant Approach(guestAddr, level).Table? && Approach(guestAddr, level).page == pt
        invariant PathAdded(old(pages), pages, root, guestAddr, level)
        invariant Framed(old(pages), old(tables), old(free), ptPage, pages, tables, free)
        invariant page == 0 || page == ptPage
        invariant page != 0 ==> FreshPage(tables, free, page)
        invariant |free| - PagesNeeded(pages, root, guestAddr, pteLevel, page) ==
                  |old(free)| - PagesNeeded(old(pages), root, guestAddr, pteLevel, ptPage)
      {
        ghost var before, beforeTables, beforeFree := pages, tables, free;
        var down, next, left := StepDown(pt, level, guestAddr, page);
        SameMeaningTransitive(old(pages), before, pages, root);
        FramedTransitive(old(pages), old(tables), old(free), ptPage, before, beforeTables, beforeFree, page,
                         pages, tables, free);
        if !down {
          StepNeeds(before, root, guestAddr, level, pteLevel, page);
          return false, pt;
        }
        PathGrows(old(pages), before, pages, root, guestAddr, level);
        StepDownNeed(before, pages, root, guestAddr, level, pteLevel, page, left);
        pt, page, level := next, left, level - 1;
      }
      assert Approach(guestAddr, pteLevel).Table?;
      ok := true;
    }

    method InstallEptEntry(pteLevel: nat, guestAddr: nat, pte: nat, ptPage: nat) returns (ok: bool)
      requires Valid()
      requires 1 <= pteLevel <= 4 && guestAddr < GPA_LIMIT && Installable(pte, pteLevel)
      requires ptPage != 0 ==> FreshPage(tables, free, ptPage)
      modifies this`pages, this`free, this`tables
      ensures Valid()
      ensures ok <==> |old(free)| >= PagesNeeded(old(pages), root, guestAddr, pteLevel, ptPage)
      ensures ok ==> |free| == |old(free)| - PagesNeeded(old(pages), root, guestAddr, pteLevel, ptPage)
      ensures !ok ==> free == [] && SameMeaning(old(pages), pages, root)
      ensures ok ==> HasEntry(guestAddr, pteLevel, pte)
      ensures ok ==> PointUpdate(old(pages), pages, root, guestAddr, pteLevel, pte)
      ensures ok ==> TableUpdate(old(pages), pages, root, guestAddr, pteLevel)
      ensures ok ==> RwxUpdate(old(pages), pages, root, guestAddr, pteLevel)
      ensures Framed(old(pages), old(tables), old(free), ptPage, pages, tables, free)
    {
      hide And, Or, Walk, Missing, Span, Index, SameMeaning, PointUpdate, PathAdded, StepTaken, TableUpdate;
      hide Framed, Tree, PoolOk, RwxUpdate;
      var down, pt := WalkDown(pteLevel, guestAddr, ptPage);
      if !down {
        return false;
      }
      ghost var before := pages;
      AtRoot(tables, root, guestAddr);
      WalkArrives(pages, tables, root, 4, guestAddr, pteLevel);
      Descend(pages, tables, pt, pteLevel, guestAddr);
      pages := Store(pages, pt, Index(guestAddr, pteLevel), pte);
      PteWritten(old(pages), before, pages, tables, root, pt, guestAddr, pteLevel, pte);
      TablesWritten(old(pages), before, pages, tables, root, pt, guestAddr, pteLevel, pte);
      RwxWritten(old(pages), before, pages, tables, root, pt, guestAddr, pteLevel, pte);
      FramedWrite(old(pages), old(tables), old(free), ptPage, before, tables, free, pages, pt,
                  Index(guestAddr, pteLevel), pte);
      return true;
    }

    /** install_ept, install_2m_ept and install_1g_ept: map phys at guestAddr with a leaf of level
        1, 2 or 3. The low 12 bits of phys are dropped. */
    method InstallLeaf(level: nat, phys: nat, guestAddr: nat, perm: nat) returns (ok: bool)
      requires Valid() && 1 <= level <= 3
      requires guestAddr < GPA_LIMIT && phys < PHYS_LIMIT && Frame(phys) % Span(level) == 0 && IsPerm(perm)
      modifies this`pages, this`free, this`tables
      ensures Valid()
      ensures ok <==> |old(free)| >= Missing(old(pages), root, guestAddr, level)
      ensures ok ==> |free| == |old(free)| - Missing(old(pages), root, guestAddr, level)
      ensures !ok ==> free == [] && SameMeaning(old(pages), pages, root)
      ensures ok ==> PointUpdate(old(pages), pages, root, guestAddr, level, LeafEntry(phys, perm, level > 1))
      ensures ok ==> TableUpdate(old(pages), pages, root, guestAddr, level)
      ensures ok ==> RwxUpdate(old(pages), pages, root, guestAddr, level)
      ensures Framed(old(pages), old(tables), old(free), 0, pages, tables, free)
    {
      LeafDecides(phys, perm, level, 7, guestAddr);
      ok := InstallEptEntry(level, guestAddr, LeafEntry(phys, perm, level > 1), 0);
    }

    /** Map every page of size Span(level) that still fits below max, from phys on. */
    method IdentityPhase(level: nat, start: nat, phys: nat, max: nat, perm: nat,
                         ghost was: Pages, ghost ph: Phases) returns (ok: bool, next: nat)
      requires Valid() && 1 <= level <= 3
      requires start <= phys <= max <= GPA_LIMIT && phys % Span(level) == 0 && IsPerm(perm)
      requires forall g :: phys <= g < PhaseEnd(phys, max, level) ==> ph.Level(g) == level
      requires IdentityUpTo(was, pages, root, start, phys, perm, ph)
      requires TablesAhead(was, pages, root, start, phys) && RwxAhead(was, pages, root, phys)
      requires PhasesOk(start, ph) && Sized(pages, root, start, phys, ph)
      modifies this`pages, this`free, this`tables
      ensures Valid()
      ensures phys <= next <= max && next % Span(level) == 0
      ensures IdentityUpTo(was, pages, root, start, next, perm, ph)
      ensures ok <==> |old(free)| >= PhaseTables(was, root, start, phys, max, level)
      ensures ok ==> |free| == |old(free)| - PhaseTables(was, root, start, phys, max, level)
      ensures ok ==> next == PhaseEnd(phys, max, level)
      ensures ok ==> TablesAhead(was, pages, root, start, next) && RwxAhead(was, pages, root, next)
      ensures ok ==> Sized(pages, root, start, next, ph)
      ensures !ok ==> free == []
      ensures Framed(old(pages), old(tables), old(free), 0, pages, tables, free)
    {
      hide Walk, Tree, PoolOk, Span, Framed, PointUpdate, TableUpdate, IdentityUpTo, TablesAhead, SameMeaning;
      hide RwxAhead, RwxUpdate, Sized, PhasesOk, IsPerm, LeafEntry, Frame, NewTables;
      FramedReflexive(pages, tables, free, 0);
      next := phys;
      ok := true;
      while next + Span(level) <= max
        invariant Valid()
        invariant phys <= next <= max && next % Span(level) == 0
        invariant IdentityUpTo(was, pages, root, start, next, perm, ph)
        invariant TablesAhead(was, pages, root, start, next) && RwxAhead(was, pages, root, next)
        invariant Sized(pages, root, start, next, ph)
        invariant |free| - PhaseTables(was, root, start, next, max, level) ==
                  |old(free)| - PhaseTables(was, root, start, phys, max, level)
        invariant PhaseEnd(next, max, level) == PhaseEnd(phys, max, level)
        invariant Framed(old(pages), old(tables), old(free), 0, pages, tables, free)
        decreases max - next
      {
        ghost var before, beforeTables, beforeFree := pages, tables, free;
        CountIsMissing(was, before, root, start, next, level);
        PageFits(next, level);
        ok := InstallLeaf(level, next, next, perm);
        FramedTransitive(old(pages), old(tables), old(free), 0, before, beforeTables, beforeFree, 0,
                         pages, tables, free);
        if !ok {
          SameIdentity(was, before, pages, root, start, next, perm, ph);
          return;
        }
        assert next + Span(level) <= PhaseEnd(next + Span(level), max, level);
        IdentityGrows(was, before, pages, root, start, next, perm, ph, level);
        RwxGrows(was, before, pages, root, next, level);
        SizedGrows(before, pages, root, start, next, ph, level);
        AheadGrows(was, before, pages, root, start, next, level);
        NextMultiple(next, Span(level));
        next := next + Span(level);
      }
    }

    method SetupEptRange(start: nat, len: nat, map1g: bool, map2m: bool, perm: nat) returns (ok: bool)
      requires Valid() && start + len <= GPA_LIMIT && IsPerm(perm)
      requires start % (if map1g then Span(3) else if map2m then Span(2) else Span(1)) == 0
      modifies this`pages, this`free, this`tables
      ensures Valid()
      ensures ok <==> |old(free)| >= RangeTables(old(pages), root, start, len, map1g, map2m)
      ensures ok ==> |free| == |old(free)| - RangeTables(old(pages), root, start, len, map1g, map2m)
      ensures ok ==> IdentityUpTo(old(pages), pages, root, start, start + len - len % PAGE_SIZE, perm,
                                  PhasesOf(start, len, map1g, map2m))
      ensures ok ==> RightSizes(pages, root, start, len, map1g, map2m)
      ensures !ok ==> free == [] && exists hi: nat ::
        start <= hi <= start + len &&
        IdentityUpTo(old(pages), pages, root, start, hi, perm, PhasesOf(start, len, map1g, map2m))
      ensures Framed(old(pages), old(tables), old(free), 0, pages, tables, free)
    {
      hide Walk, Tree, PoolOk, Framed, IdentityUpTo, TablesAhead, RwxAhead, PhaseTables, PhaseEnd, IsPerm;
      hide Sized, PhasesOk, RightSizes;
      var phys, max := start, len + start;
      ghost var was, wasTables, wasFree := pages, tables, free;
      AlignedDown(start, map1g, map2m);
      AheadStart(pages, root, start);
      ghost var ph := PhasesOf(start, len, map1g, map2m);
      IdentityStart(pages, root, start, perm, ph);
      PhasesAre(start, len, map1g, map2m);
      FramedReflexive(pages, tables, free, 0);
      if map1g {
        ok, phys := IdentityPhase(3, start, phys, max, perm, was, ph);
        if !ok { return; }
        AlignedDown(phys, true, map2m);
      }
      if map2m {
        ghost var p1, t1, f1 := pages, tables, free;
        ok, phys := IdentityPhase(2, start, phys, max, perm, was, ph);
        FramedTransitive(was, wasTables, wasFree, 0, p1, t1, f1, 0, pages, tables, free);
        if !ok { return; }
        AlignedDown(phys, false, true);
      }
      ghost var p2, t2, f2 := pages, tables, free;
      ok, phys := IdentityPhase(1, start, phys, max, perm, was, ph);
      FramedTransitive(was, wasTables, wasFree, 0, p2, t2, f2, 0, pages, tables, free);
      if ok {
        LastPage(start, len, phys);
        SizedByArithmetic(pages, root, start, len, map1g, map2m);
      }
    }

    /** The entry of a given level, if the walk of guestAddr meets no leaf or hole above it. Address
        bits from 48 on are ignored. */
    method GetEptPte(guestAddr: nat, level: nat) returns (found: bool, pte: nat)
      requires Valid() && 1 <= level <= 4
      ensures found <==> Approach(guestAddr % GPA_LIMIT, level).Table?
      ensures found ==> HasEntry(guestAddr % GPA_LIMIT, level, pte)
    {
      hide And, Span;
      ghost var gpa := guestAddr % GPA_LIMIT;
      var pt, l := root, 4;
      pte := 0;
      AtRoot(tables, root, gpa);
      while true
        invariant level <= l <= 4 && At(tables, pt, l, gpa)
        invariant Approach(gpa, l).Table? && Approach(gpa, l).page == pt
        decreases l
      {
        Descend(pages, tables, pt, l, gpa);
        IndexWraps(guestAddr, l);
        var entry := pages[pt][Index(guestAddr, l)];
        if l == level {
          return true, entry;
        }
        WalkThrough(pages, root, 4, gpa, l, level);
        if l < 4 && IsLarge(entry) {
          return false, pte;
        }
        if !Present(entry) {
          return false, pte;
        }
        WalkExtends(pages, root, gpa, l);
        pt, l := Addr(entry), l - 1;
      }
    }

    /** Overwrite the entry of a given level with a word that suits its place: absent, a leaf, or a
        pointer to the table that belongs there. The run stops (ok is false) exactly if an entry above
        is absent; a leaf above it, which the code would mistake for a table, is the caller's to
        avoid. Address bits from 48 on are ignored. */
    method SetEptPte(guestAddr: nat, level: nat, pteVal: nat) returns (ok: bool)
      requires Valid() && 1 <= level <= 4
      requires EntryOk(pteVal, tables, level, guestAddr % GPA_LIMIT / Span(level))
      requires !Approach(guestAddr % GPA_LIMIT, level).Mapped?
      modifies this`pages
      ensures Valid()
      ensures ok <==> old(Approach(guestAddr % GPA_LIMIT, level)).Table?
      ensures !ok ==> pages == old(pages)
      ensures ok ==> HasEntry(guestAddr % GPA_LIMIT, level, pteVal)
      ensures ok ==> EntryUpdate(old(pages), pages, root, guestAddr % GPA_LIMIT, level, pteVal)
      ensures Framed(old(pages), tables, free, 0, pages, tables, free)
    {
      hide And, Span, EntryOk, EntryUpdate, PoolOk, Tree;
      ghost var gpa := guestAddr % GPA_LIMIT;
      var pt, l := root, 4;
      AtRoot(tables, root, gpa);
      while l != level
        invariant pages == old(pages)
        invariant level <= l <= 4 && At(tables, pt, l, gpa)
        invariant Approach(gpa, l).Table? && Approach(gpa, l).page == pt
        decreases l
      {
        Descend(pages, tables, pt, l, gpa);
        IndexWraps(guestAddr, l);
        WalkThrough(pages, root, 4, gpa, l, level);
        if !Present(pages[pt][Index(guestAddr, l)]) {
          return false;
        }
        WalkExtends(pages, root, gpa, l);
        pt, l := Addr(pages[pt][Index(guestAddr, l)]), l - 1;
      }
      Descend(pages, tables, pt, l, gpa);
      IndexWraps(guestAddr, l);
      pages := Store(pages, pt, Index(guestAddr, l), pteVal);
      EntryWritten(old(pages), pages, tables, root, pt, gpa, l, pteVal);
      return true;
    }
  }
}
