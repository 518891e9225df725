/** The four-level EPT tree as a value: translation by table walk, well-formedness of an unshared
    tree, and how a write to one entry shows in the walks of all addresses. */
module EptWalk {
  import opened Bits
  import opened EptEntry

  type Pages = map<nat, seq<nat>>

  /** Bytes of guest memory behind one entry of a level-l table; Span(5) is the whole space. */
  function Span(l: nat): (s: nat)
    ensures s > 0
  {
    if l <= 1 then PAGE_SIZE
    else if l == 2 then PAGE_SIZE_2M
    else if l == 3 then PAGE_SIZE_1G
    else if l == 4 then 512 * PAGE_SIZE_1G
    else GPA_LIMIT
  }

  function Index(g: nat, l: nat): (i: nat)
    ensures i < 512
  {
    g / Span(l) % 512
  }

  lemma IndexStep(g: nat, l: nat)
    requires 1 <= l <= 4
    ensures g / Span(l) == g / Span(l + 1) * 512 + Index(g, l)
    ensures g % Span(l + 1) == Index(g, l) * Span(l) + g % Span(l)
  {
    NestedDivision(g, Span(l), 512, Span(l + 1));
  }

  /** The index ignores address bits from 48 on. */
  lemma IndexWraps(g: nat, l: nat)
    requires 1 <= l <= 4
    ensures Index(g, l) == Index(g % GPA_LIMIT, l)
  {
    var q, m := g / Span(l), GPA_LIMIT / Span(l);
    NestedDivision(g, Span(l), m, GPA_LIMIT);
    DivModUnique(g % GPA_LIMIT, Span(l), q % m, g % Span(l));
    NestedDivision(q, 512, m / 512, m);
    DivModUnique(q % m, 512, q / 512 % (m / 512), q % 512);
  }

  predicate IsTable(pages: Pages, p: nat) { p in pages && |pages[p]| == 512 }

  /** The memory write p[i] = w. */
  function Store(pages: Pages, p: nat, i: nat, w: nat): Pages
    requires IsTable(pages, p) && i < 512
  {
    var table: seq<nat> := pages[p];
    var written: seq<nat> := table[i := w];
    pages[p := written]
  }

  predicate IsLeaf(e: nat, l: nat) { l == 1 || (l < 4 && IsLarge(e)) }

  /** What a walk ends in; rwx is the intersection of the permissions met on the way. */
  datatype Outcome =
    | Absent(rwx: nat)
    | Mapped(rwx: nat, hpa: nat)
    | Table(rwx: nat, page: nat)

  function Restrict(o: Outcome, r: nat): Outcome {
    o.(rwx := And(r, o.rwx))
  }

  /** The walk of address g from the level-l table p, stopping at the table of level `stop` if the
      walk gets that far. With stop == 0 this is the translation of Intel SDM Vol. 3C, 28.2.2. */
  function Walk(pages: Pages, p: nat, l: nat, g: nat, stop: nat): Outcome
    decreases l
  {
    if l <= stop then Table(7, p)
    else if !IsTable(pages, p) then Absent(7)
    else
      var e := pages[p][Index(g, l)];
      if !Present(e) then Absent(7)
      else if IsLeaf(e, l) then Mapped(Rwx(e), Addr(e) + g % Span(l))
      else Restrict(Walk(pages, Addr(e), l - 1, g, stop), Rwx(e))
  }

  // ---- the translation as the manual has it

  /** Entry i of the table at p; a page that holds no table has no entries. */
  function Fetch(pages: Pages, p: nat, i: nat): nat
    requires i < 512
  {
    if IsTable(pages, p) then pages[p][i] else 0
  }

  /** Bits 51..12 of an entry. */
  function FrameOf(e: nat): nat { e / 0x1000 % 0x100_0000_0000 * 0x1000 }

  /** The translation of g through the four levels, entry by entry: bits 47..39, 38..30, 29..21 and
      20..12 of the address select the entries, an entry without permissions ends the walk, bit 7
      makes a 1G page at the second level and a 2M page at the third, and the permissions of all
      entries met are intersected (Intel SDM Vol. 3C, 28.2.2). */
  function Manual(pages: Pages, pml4: nat, g: nat): Outcome {
    var e4 := Fetch(pages, pml4, g / 0x80_0000_0000 % 512);
    if e4 % 8 == 0 then Absent(7)
    else
      var e3 := Fetch(pages, FrameOf(e4), g / 0x4000_0000 % 512);
      if e3 % 8 == 0 then Absent(And(e4 % 8, 7))
      else if e3 / 0x80 % 2 == 1 then Mapped(And(e4 % 8, e3 % 8), FrameOf(e3) + g % 0x4000_0000)
      else
        var e2 := Fetch(pages, FrameOf(e3), g / 0x20_0000 % 512);
        if e2 % 8 == 0 then Absent(And(e4 % 8, And(e3 % 8, 7)))
        else if e2 / 0x80 % 2 == 1 then
          Mapped(And(e4 % 8, And(e3 % 8, e2 % 8)), FrameOf(e2) + g % 0x20_0000)
        else
          var e1 := Fetch(pages, FrameOf(e2), g / 0x1000 % 512);
          if e1 % 8 == 0 then Absent(And(e4 % 8, And(e3 % 8, And(e2 % 8, 7))))
          else Mapped(And(e4 % 8, And(e3 % 8, And(e2 % 8, e1 % 8))), FrameOf(e1) + g % 0x1000)
  }

  /** What a table of level l does to a walk, by the digits of its entry. */
  lemma WalkStep(pages: Pages, p: nat, l: nat, g: nat, e: nat)
    requires 1 <= l <= 4 && e == Fetch(pages, p, Index(g, l))
    ensures Walk(pages, p, l, g, 0) ==
            if e % 8 == 0 then Absent(7)
            else if l == 1 || (l < 4 && e / 0x80 % 2 == 1) then Mapped(e % 8, FrameOf(e) + g % Span(l))
            else Restrict(Walk(pages, FrameOf(e), l - 1, g, 0), e % 8)
  {
    hide And;
    EntryDigits(e);
  }

  lemma Spans()
    ensures Span(1) == 0x1000 && Span(2) == 0x20_0000 && Span(3) == 0x4000_0000 && Span(4) == 0x80_0000_0000
  {
  }

  /** The walk is the translation of the manual. */
  lemma WalkIsManual(pages: Pages, pml4: nat, g: nat)
    ensures Walk(pages, pml4, 4, g, 0) == Manual(pages, pml4, g)
  {
    hide And, Walk;
    Spans();
    var e4 := Fetch(pages, pml4, Index(g, 4));
    var e3 := Fetch(pages, FrameOf(e4), Index(g, 3));
    var e2 := Fetch(pages, FrameOf(e3), Index(g, 2));
    var e1 := Fetch(pages, FrameOf(e2), Index(g, 1));
    WalkStep(pages, pml4, 4, g, e4);
    WalkStep(pages, FrameOf(e4), 3, g, e3);
    WalkStep(pages, FrameOf(e3), 2, g, e2);
    WalkStep(pages, FrameOf(e2), 1, g, e1);
  }

  /** The place of a table in the tree: its level and the guest address bits above its span. */
  datatype Node = Node(level: nat, prefix: nat)

  predicate EntryOk(e: nat, tables: map<nat, Node>, l: nat, prefix: nat) {
    e < U64 &&
    (Present(e) ==>
       if IsLeaf(e, l) then Addr(e) % Span(l) == 0
       else l > 1 && !IsLarge(e) && Addr(e) in tables && tables[Addr(e)] == Node(l - 1, prefix))
  }

  predicate TableOk(pages: Pages, tables: map<nat, Node>, p: nat)
    requires p in tables
  {
    IsTable(pages, p) && 1 <= tables[p].level <= 4 &&
    forall i :: 0 <= i < 512 ==>
                  EntryOk(pages[p][i], tables, tables[p].level, tables[p].prefix * 512 + i)
  }

  /** Each table has one place in the tree, and entries point only at the table of that place. */
  ghost predicate Tree(pages: Pages, tables: map<nat, Node>) {
    forall p :: p in tables ==> TableOk(pages, tables, p)
  }

  /** The two memories agree on every entry of every table, except at most entry `off` of `pt`. */
  ghost predicate SameExcept(pages: Pages, pages': Pages, tables: map<nat, Node>, pt: nat, off: nat) {
    forall q :: q in tables && IsTable(pages, q) ==>
      IsTable(pages', q) &&
      forall i :: 0 <= i < 512 && !(q == pt && i == off) ==> pages'[q][i] == pages[q][i]
  }

  predicate At(tables: map<nat, Node>, p: nat, l: nat, g: nat) {
    1 <= l <= 4 && p in tables && tables[p] == Node(l, g / Span(l + 1))
  }

  lemma Descend(pages: Pages, tables: map<nat, Node>, p: nat, l: nat, g: nat)
    requires Tree(pages, tables) && At(tables, p, l, g)
    ensures IsTable(pages, p)
    ensures var e := pages[p][Index(g, l)];
            EntryOk(e, tables, l, g / Span(l)) &&
            (Present(e) && !IsLeaf(e, l) ==> At(tables, Addr(e), l - 1, g))
  {
    IndexStep(g, l);
    assert TableOk(pages, tables, p);
  }

  /** A write to one entry changes the walk of g only if g lies in the span of that entry, and then
      only as far as the walk from the written table on changes. */
  lemma {:induction false} WalkAgree(pages: Pages, pages': Pages, tables: map<nat, Node>, pt: nat, off: nat,
                                     p: nat, l: nat, g: nat, stop: nat)
    requires Tree(pages, tables) && pt in tables && off < 512
    requires SameExcept(pages, pages', tables, pt, off)
    requires At(tables, p, l, g)
    ensures var k := tables[pt].level;
            var hit := stop < k && g / Span(k) == tables[pt].prefix * 512 + off;
            var w, w' := Walk(pages, p, l, g, stop), Walk(pages', p, l, g, stop);
            var v, v' := Walk(pages, pt, k, g, stop), Walk(pages', pt, k, g, stop);
            && ((hit ==> v' == v) ==> w' == w)
            && ((hit ==> v'.rwx == v.rwx) ==> w'.rwx == w.rwx)
    decreases l
  {
    hide And, Span;
    if l > stop {
      Descend(pages, tables, p, l, g);
      IndexStep(g, l);
      var e := pages[p][Index(g, l)];
      if p == pt && Index(g, l) == off {
      } else if Present(e) && !IsLeaf(e, l) {
        WalkAgree(pages, pages', tables, pt, off, Addr(e), l - 1, g, stop);
      }
    }
  }

  /** A walk passes through the table it would stop at. */
  lemma {:induction false} WalkThrough(pages: Pages, p: nat, l: nat, g: nat, mid: nat, stop: nat)
    requires stop <= mid
    ensures var m := Walk(pages, p, l, g, mid);
            Walk(pages, p, l, g, stop) ==
            if m.Table? && mid <= l then Restrict(Walk(pages, m.page, mid, g, stop), m.rwx)
            else if mid <= l then m
            else Walk(pages, p, l, g, stop)
    ensures Walk(pages, p, l, g, stop).rwx <= 7
    decreases l
  {
    WalkRwx(pages, p, l, g, stop);
    if mid == l {
      WalkRwx(pages, p, mid, g, stop);
      AndSeven(Walk(pages, p, mid, g, stop).rwx);
    } else if mid < l && IsTable(pages, p) {
      var e := pages[p][Index(g, l)];
      if Present(e) && !IsLeaf(e, l) {
        WalkThrough(pages, Addr(e), l - 1, g, mid, stop);
        var m := Walk(pages, Addr(e), l - 1, g, mid);
        if m.Table? {
          AndAssoc(Rwx(e), m.rwx, Walk(pages, m.page, mid, g, stop).rwx);
        }
      }
    }
  }

  lemma {:induction false} WalkRwx(pages: Pages, p: nat, l: nat, g: nat, stop: nat)
    ensures Walk(pages, p, l, g, stop).rwx <= 7
    decreases l
  {
    if l > stop && IsTable(pages, p) {
      var e := pages[p][Index(g, l)];
      AndBound(e, EPT_PRESENT);
      if Present(e) && !IsLeaf(e, l) {
        WalkRwx(pages, Addr(e), l - 1, g, stop);
        AndBound(Rwx(e), Walk(pages, Addr(e), l - 1, g, stop).rwx);
      }
    }
  }

  lemma AndSeven(r: nat)
    requires r <= 7
    ensures And(7, r) == r && And(r, 7) == r
  {
    hide And;
    Pow2Values();
    AndLowMask(r, 3);
    AndCommutes(r, 7);
  }

  /** The walk arrives at its stop level in the table that belongs there. */
  lemma {:induction false} WalkArrives(pages: Pages, tables: map<nat, Node>, p: nat, l: nat, g: nat, stop: nat)
    requires Tree(pages, tables) && At(tables, p, l, g) && 1 <= stop <= l
    ensures var w := Walk(pages, p, l, g, stop); w.Table? ==> At(tables, w.page, stop, g)
    decreases l
  {
    if stop < l {
      Descend(pages, tables, p, l, g);
      var e := pages[p][Index(g, l)];
      if Present(e) && !IsLeaf(e, l) {
        WalkArrives(pages, tables, Addr(e), l - 1, g, stop);
      }
    }
  }

  /** One more level below a table the walk stops at. */
  lemma WalkExtends(pages: Pages, p: nat, g: nat, l: nat)
    requires 1 <= l <= 4 && Walk(pages, p, 4, g, l).Table?
    requires var q := Walk(pages, p, 4, g, l).page;
             IsTable(pages, q) && Present(pages[q][Index(g, l)]) && !IsLeaf(pages[q][Index(g, l)], l)
    ensures var w := Walk(pages, p, 4, g, l);
            var e := pages[w.page][Index(g, l)];
            Walk(pages, p, 4, g, l - 1) == Table(And(w.rwx, Rwx(e)), Addr(e))
  {
    WalkThrough(pages, p, 4, g, l, l - 1);
    var e := pages[Walk(pages, p, 4, g, l).page][Index(g, l)];
    AndBound(e, EPT_PRESENT);
    AndSeven(Rwx(e));
  }

  /** How many tables are missing on the way of g down to the table of level l. */
  function Missing(pages: Pages, root: nat, g: nat, l: nat): (n: nat)
    ensures l <= 4 ==> n <= 4 - l
    ensures n == 0 <==> l >= 4 || Walk(pages, root, 4, g, l).Table?
    decreases 4 - l
  {
    if l >= 4 || Walk(pages, root, 4, g, l).Table? then 0 else 1 + Missing(pages, root, g, l + 1)
  }

  /** Pages to allocate for the tables missing, given a page `own` of the caller's, or 0 if there is
      none: it can serve as the first table under an absent entry, but not for splitting a leaf. */
  function PagesNeeded(pages: Pages, root: nat, g: nat, l: nat, own: nat): (n: nat)
    ensures l <= 4 ==> n <= 4 - l
    ensures Walk(pages, root, 4, g, l).Table? ==> n == 0
  {
    if own != 0 && Walk(pages, root, 4, g, l).Absent? then Missing(pages, root, g, l) - 1
    else Missing(pages, root, g, l)
  }

  /** A walk that does not reach one level ends the same whatever lower level it is to stop at. */
  lemma ShortWalk(pages: Pages, root: nat, g: nat, l: nat, k: nat)
    requires k <= l <= 4 && !Walk(pages, root, 4, g, l).Table?
    ensures Walk(pages, root, 4, g, k) == Walk(pages, root, 4, g, l)
  {
    WalkThrough(pages, root, 4, g, l, k);
  }

  /** If the lowest table on the way is that of level k, all those below are missing. */
  lemma {:induction false} MissingBelow(pages: Pages, root: nat, g: nat, k: nat, l: nat)
    requires 1 <= k <= 4 && l <= k
    requires Walk(pages, root, 4, g, k).Table? && !Walk(pages, root, 4, g, k - 1).Table?
    ensures Missing(pages, root, g, l) == k - l
    decreases k - l
  {
    if l < k {
      ShortWalk(pages, root, g, k - 1, l);
      MissingBelow(pages, root, g, k, l + 1);
    }
  }

  /** The walk stops short in a table whose entry does not lead on. */
  lemma DeadEnd(pages: Pages, root: nat, g: nat, l: nat)
    requires 1 <= l <= 4 && Walk(pages, root, 4, g, l).Table?
    requires var q := Walk(pages, root, 4, g, l).page;
             IsTable(pages, q) && (!Present(pages[q][Index(g, l)]) || IsLeaf(pages[q][Index(g, l)], l))
    ensures var w := Walk(pages, root, 4, g, l - 1);
            var q := Walk(pages, root, 4, g, l).page;
            if Present(pages[q][Index(g, l)]) then w.Mapped? else w.Absent?
  {
    WalkThrough(pages, root, 4, g, l, l - 1);
  }

  /** Where nothing is mapped and no permission is lost, every table on the way is unrestricted. */
  lemma UnmappedIsOpen(pages: Pages, p: nat, g: nat, l: nat)
    requires l <= 4 && Walk(pages, p, 4, g, 0) == Absent(7)
    ensures Walk(pages, p, 4, g, l).rwx == 7
  {
    WalkThrough(pages, p, 4, g, l, 0);
    WalkRwx(pages, p, 4, g, l);
    var m := Walk(pages, p, 4, g, l);
    if m.Table? {
      AndBound(m.rwx, Walk(pages, m.page, l, g, 0).rwx);
    }
  }
}
