/** User address spaces: create, map, translate, destroy. */
module AddressSpace {
  import opened Bytes
  import opened PmmSpec
  import opened PageTables
  import opened Forests
  import opened Walks

  const USER_BASE: nat := 0x80_0000_0000
  const USER_LIMIT: nat := 0x8000_0000_0000
  const USER_PML4_INDEX: nat := 1

  /** Page number 0 means that no page was left. */
  function Create(m: Machine, cr3: nat): (Machine, nat) {
    var (pmm, page) := Alloc(m.pmm);
    if page.None? || page.value == 0 then (m.(pmm := pmm), 0)
    else
      var zeroed := Machine(pmm, m.mem[page.value := ZeroTable()]);
      (SetEnt(zeroed, page.value, 0, Ent(zeroed, cr3, 0)), page.value)
  }

  predicate UserAddress(va: nat) {
    Pml4Index(va / PAGE_SIZE) == USER_PML4_INDEX && va < USER_LIMIT
  }

  predicate GoodArguments(va: nat, pa: nat) {
    va % PAGE_SIZE == 0 && pa % PAGE_SIZE == 0 && UserAddress(va)
  }

  function LeafFor(pa: nat, flags: Flags): Entry {
    Entry(true, flags.writable, true, false, flags.nx, pa / PAGE_SIZE % FRAME_LIMIT)
  }

  function MapUser(m: Machine, root: nat, va: nat, pa: nat, flags: Flags): (Machine, int) {
    if !GoodArguments(va, pa) then (m, -1)
    else
      var v := va / PAGE_SIZE;
      var (n, pt) := ReachTable(m, root, v, flags.(user := true));
      if pt == 0 then (n, -1)
      else if Ent(n, pt, PtIndex(v)).present then (n, -2)
      else (SetEnt(n, pt, PtIndex(v), LeafFor(pa, flags)), 0)
  }

  function TranslateUser(m: Machine, root: nat, va: nat): Option<nat> {
    var v := va / PAGE_SIZE;
    if !UserAddress(va) then None
    else
      var e4 := Ent(m, root, Pml4Index(v));
      if !(e4.present && e4.user) then None
      else
        var e3 := Ent(m, e4.frame, PdptIndex(v));
        if !(e3.present && e3.user) then None
        else
          var e2 := Ent(m, e3.frame, PdIndex(v));
          if !(e2.present && e2.user) then None
          else
            var e1 := Ent(m, e2.frame, PtIndex(v));
            if !(e1.present && e1.user) then None
            else Some(e1.frame * PAGE_SIZE + va % PAGE_SIZE)
  }

  function Destroy(m: Machine, root: nat): Machine {
    if root == 0 then m else m.(pmm := Free(m.pmm, root * PAGE_SIZE))
  }

  // ---- What a space maps -------------------------------------------------------------

  /** The virtual page numbers below entry 1 of a root. */
  predicate UserPage(v: nat) { 0x800_0000 <= v < 0x1000_0000 }

  lemma UserPages(f: Forest, root: nat, v: nat)
    requires root in f.users && root != f.kernel
    ensures UserPage(v) <==> InTree(f, Level1(root, v))
  {}

  lemma UserAddresses(va: nat)
    ensures UserAddress(va) <==> UserPage(va / PAGE_SIZE)
  {}

  /** The rights along the four-level walk as the processor combines them
      (sections 4.5 and 4.6 of the Intel SDM, volume 3A): writable and user are
      conjunctions, no-execute is a disjunction. */
  function Effective(m: Machine, root: nat, v: nat): Flags {
    var e4 := Ent(m, root, Pml4Index(v));
    var e3 := Ent(m, e4.frame, PdptIndex(v));
    var e2 := Ent(m, e3.frame, PdIndex(v));
    var e1 := Ent(m, e2.frame, PtIndex(v));
    Flags(e4.writable && e3.writable && e2.writable && e1.writable,
          e4.user && e3.user && e2.user && e1.user,
          e4.nx || e3.nx || e2.nx || e1.nx)
  }

  lemma UserWalk(f: Forest, m: Machine, root: nat, v: nat)
    requires Wf(f, m) && root in f.users && UserPage(v)
    ensures var e4 := Ent(m, root, Pml4Index(v));
      UserLink(e4) && Node(m, Level3(root, v)) == if e4.present then Some(e4.frame) else None
    ensures Node(m, Level3(root, v)).Some? ==>
      var e3 := Ent(m, Node(m, Level3(root, v)).value, PdptIndex(v));
      UserLink(e3) && Node(m, Level2(root, v)) == if e3.present then Some(e3.frame) else None
    ensures Node(m, Level2(root, v)).Some? ==>
      var e2 := Ent(m, Node(m, Level2(root, v)).value, PdIndex(v));
      UserLink(e2) && Node(m, Level1(root, v)) == if e2.present then Some(e2.frame) else None
    ensures Node(m, Level1(root, v)).Some? ==> Node(m, Level2(root, v)).Some? && Node(m, Level3(root, v)).Some?
    ensures Node(m, Level2(root, v)).Some? ==> Node(m, Level3(root, v)).Some?
  {
    UserPages(f, root, v);
    Positions(f, root, v);
    NodeTop(m, Top(root));
    ChildParent(Top(root), Pml4Index(v));
    ChildParent(Level3(root, v), PdptIndex(v));
    ChildParent(Level2(root, v), PdIndex(v));
    assert UserTable(m, Level3(root, v)) && UserTable(m, Level2(root, v)) && UserTable(m, Level1(root, v));
    NodeStep(m, Level3(root, v));
    NodeStep(m, Level2(root, v));
    NodeStep(m, Level1(root, v));
  }

  /** Translation is the mapping of the page with the offset kept, and the
      effective rights of a mapped page are those of its own entry. */
  lemma TranslateIsLookup(f: Forest, m: Machine, root: nat, va: nat)
    requires Wf(f, m) && root in f.users
    ensures var v := va / PAGE_SIZE;
      && TranslateUser(m, root, va) == (
           if UserPage(v) && Lookup(m, root, v).Some?
           then Some(Lookup(m, root, v).value.frame * PAGE_SIZE + va % PAGE_SIZE) else None)
      && (UserPage(v) && Lookup(m, root, v).Some? ==>
           var x := Lookup(m, root, v).value; Effective(m, root, v) == Flags(x.writable, true, x.nx))
  {
    hide Separated, PmmSpec.Valid;
    var v := va / PAGE_SIZE;
    UserAddresses(va);
    if UserPage(v) {
      UserWalk(f, m, root, v);
      if Lookup(m, root, v).Some? {
        UserPages(f, root, v);
        var leaf := Level1(root, v);
        assert UserTable(m, leaf);
        assert UserLeaf(m, leaf, Ent(m, Node(m, leaf).value, PtIndex(v)));
        if PathWritable(m, leaf) { WritableWalk(f, m, root, v); }
      }
    }
  }

  lemma WritableWalk(f: Forest, m: Machine, root: nat, v: nat)
    requires Wf(f, m) && root in f.users && UserPage(v) && PathWritable(m, Level1(root, v))
    ensures LinkEntry(m, Level1(root, v)).writable && LinkEntry(m, Level2(root, v)).writable
         && LinkEntry(m, Level3(root, v)).writable
  {
    UserPages(f, root, v);
    Positions(f, root, v);
    ChildParent(Level3(root, v), PdptIndex(v));
    ChildParent(Level2(root, v), PdIndex(v));
    ChildParent(Top(root), Pml4Index(v));
    assert PathWritable(m, Level2(root, v));
    assert PathWritable(m, Level3(root, v));
  }

  // ---- Mapping a page ----------------------------------------------------------------

  /** Exactly when and how mapping succeeds: 0 adds that one page with the
      requested frame and rights, -2 means it was mapped already, -1 a bad
      argument or too few free pages for the missing tables; failures change no
      mapping, and no other space's mappings change in any case. */
  lemma MapUserEffect(f: Forest, m: Machine, root: nat, va: nat, pa: nat, flags: Flags)
    requires Wf(f, m) && root in f.users
    ensures var v := va / PAGE_SIZE; var (n, code) := MapUser(m, root, va, pa, flags);
      && Wf(f, n)
      && (code == 0 <==> GoodArguments(va, pa) && Lookup(m, root, v).None?
                         && Missing(m, root, v) <= |FreePages(m.pmm)|)
      && (code == -2 <==> GoodArguments(va, pa) && Lookup(m, root, v).Some?)
      && (code == 0 || code == -1 || code == -2)
      && (code == -1 && GoodArguments(va, pa) ==> FreePages(n.pmm) == {})
      && (forall r, w | r in f.users && UserPage(w) ::
            Lookup(n, r, w) == if code == 0 && r == root && w == v
                               then Some(Mapping(pa / PAGE_SIZE % FRAME_LIMIT, flags.writable, true, flags.nx))
                               else Lookup(m, r, w))
  {
    var v := va / PAGE_SIZE;
    UserAddresses(va);
    if GoodArguments(va, pa) {
      MapGood(f, m, root, va, pa, flags);
    }
  }

  lemma MapGood(f: Forest, m: Machine, root: nat, va: nat, pa: nat, flags: Flags)
    requires Wf(f, m) && root in f.users && GoodArguments(va, pa) && UserPage(va / PAGE_SIZE)
    ensures var v := va / PAGE_SIZE; var (n, code) := MapUser(m, root, va, pa, flags);
      && Wf(f, n)
      && (code == 0 <==> Lookup(m, root, v).None? && Missing(m, root, v) <= |FreePages(m.pmm)|)
      && (code == -2 <==> Lookup(m, root, v).Some?)
      && (code == 0 || code == -1 || code == -2)
      && (code == -1 ==> FreePages(n.pmm) == {})
      && (forall r, w | r in f.users && UserPage(w) ::
            Lookup(n, r, w) == if code == 0 && r == root && w == v
                               then Some(Mapping(pa / PAGE_SIZE % FRAME_LIMIT, flags.writable, true, flags.nx))
                               else Lookup(m, r, w))
  {
    hide Node, Ent, InTree, Separated, UserRights, Grows, ReachTable, Missing, FreePages, SetEnt, PathWritable, Added;
    var v := va / PAGE_SIZE;
    var uf := flags.(user := true);
    var (mid, pt) := ReachTable(m, root, v, uf);
    UserPages(f, root, v);
    ReachGrows(f, m, root, v, uf);
    UserNotLarge(f, m, root, v);
    ReachFails(f, m, root, v, uf);
    forall r, w | r in f.users && UserPage(w) ensures Lookup(mid, r, w) == Lookup(m, r, w) {
      UserPages(f, r, w);
      GrowsLookup(f, root, m, mid, Added(m, root, v, uf), r, w);
    }
    MappedIsReached(m, root, v);
    if pt != 0 && !Ent(mid, pt, PtIndex(v)).present {
      LeafWf(f, mid, Level1(root, v), PtIndex(v), LeafFor(pa, flags));
      forall r, w | r in f.users && UserPage(w)
        ensures Lookup(MapUser(m, root, va, pa, flags).0, r, w)
             == if r == root && w == v
                then Some(Mapping(pa / PAGE_SIZE % FRAME_LIMIT, flags.writable, true, flags.nx))
                else Lookup(m, r, w)
      {
        UserPages(f, r, w);
        LeafLookup(f, mid, root, v, LeafFor(pa, flags), r, w);
      }
    }
  }

  lemma UserNotLarge(f: Forest, m: Machine, root: nat, v: nat)
    requires Wf(f, m) && root in f.users && UserPage(v)
    ensures NotLarge(m, Level3(root, v)) && NotLarge(m, Level2(root, v)) && NotLarge(m, Level1(root, v))
  {
    UserPages(f, root, v);
    Positions(f, root, v);
    assert UserTable(m, Level3(root, v)) && UserTable(m, Level2(root, v)) && UserTable(m, Level1(root, v));
  }
}
