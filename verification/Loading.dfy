/** Filling an address space page by page: what has been taken from the allocator,
    what it now maps, and that nothing else moved. */
module Loading {
  import opened Bytes
  import opened PmmSpec
  import opened PageTables
  import opened Forests
  import opened Walks
  import opened AddressSpace
  import opened Spaces
  import Vmm

  /** A page placed into a space: its frame, its contents and its rights. */
  datatype Placed = Placed(frame: nat, bytes: seq<byte>, writable: bool, nx: bool)

  type Placement = map<nat, Placed>

  ghost function Frames(pages: Placement): set<nat> { set v | v in pages :: pages[v].frame }

  /** From `m0` to `m` the allocator lost exactly `tables`, each now a table of
      the space `root`, and the frames of `pages`, each mapped at exactly one
      page; no other mapping of any space and no other page changed. */
  ghost predicate Progressed(f: Forest, root: nat, m0: Machine, m: Machine, pages: Placement, tables: set<nat>) {
    && Wf(f, m0) && Wf(f, m)
    && Accounts(m0.pmm, m.pmm, Frames(pages), tables)
    && (forall v, w | v in pages && w in pages && v != w :: pages[v].frame != pages[w].frame)
    && (forall s | InTree(f, s) :: ExtendsAt(root, m0, m, tables, s))
    && (forall p: nat | p in tables :: exists s :: InTree(f, s) && s.root == root && Node(m, s) == Some(p))
    && (forall v | v in pages :: UserPage(v) && Lookup(m0, root, v) == None && Holds(m, root, v, pages[v]))
    && (forall r, v | r in f.users && UserPage(v) && !(r == root && v in pages) :: Lookup(m, r, v) == Lookup(m0, r, v))
    && (forall q: nat | q in m0.pmm.unavailable && q in m0.mem && !TableAt(f, m0, q) ::
          q in m.mem && m.mem[q] == m0.mem[q])
    && (Vmm.KernelOk(f, m0) ==> Vmm.KernelOk(f, m))
    && (Vmm.KernelOk(f, m0) ==> forall c | Vmm.KernelPage(c) :: Lookup(m, f.kernel, c) == Lookup(m0, f.kernel, c))
  }

  predicate Accounts(before: State, after: State, frames: set<nat>, tables: set<nat>) {
    && after.pages == before.pages && after.reserved == before.reserved
    && after.unavailable == before.unavailable + tables + frames
    && after.held == before.held + tables + frames
    && tables !! before.unavailable && frames !! before.unavailable && tables !! frames
  }

  predicate Holds(m: Machine, root: nat, v: nat, x: Placed) {
    && Lookup(m, root, v) == Some(Mapping(x.frame, x.writable, true, x.nx))
    && x.frame in m.mem && m.mem[x.frame] == Data(x.bytes)
  }

  lemma ProgressedRefl(f: Forest, root: nat, m: Machine)
    requires Wf(f, m)
    ensures Progressed(f, root, m, m, map[], {})
  {
    hide Wf, Node, Lookup, Vmm.KernelOk, TableAt;
    forall s | InTree(f, s) ensures ExtendsAt(root, m, m, {}, s) {}
  }

  // ---- A frame that is not yet mapped --------------------------------------------------

  function WithFrame(m: Machine, p: nat, page: Page): Machine { Machine(Take(m.pmm, p), m.mem[p := page]) }

  lemma FrameReads(m: Machine, p: nat, page: Page)
    ensures forall q: nat, i: nat | q != p :: Ent(WithFrame(m, p, page), q, i) == Ent(m, q, i)
  {}

  /** Taking a free page as a data frame disturbs no tree. */
  lemma FrameKeeps(f: Forest, m: Machine, p: nat, page: Page)
    requires Wf(f, m) && p in FreePages(m.pmm)
    ensures var n := WithFrame(m, p, page);
      && Wf(f, n)
      && (forall s | InTree(f, s) :: Node(n, s) == Node(m, s))
      && (forall r, v | InTree(f, Level1(r, v)) :: Lookup(n, r, v) == Lookup(m, r, v))
      && (Vmm.KernelOk(f, m) ==> Vmm.KernelOk(f, n))
      && !TableAt(f, n, p)
  {
    hide Node, Ent, Lookup, LinkEntry, PathWritable, IsTable;
    var n := WithFrame(m, p, page);
    FrameReads(m, p, page);
    FrameValid(m.pmm, p);
    forall s | InTree(f, s)
      ensures Node(n, s) == Node(m, s) && LinkEntry(n, s) == LinkEntry(m, s) && PathWritable(n, s) == PathWritable(m, s)
    {
      SameTables(f, m, n, p, s);
    }
    FrameTables(m, p, page);
    forall s | InTree(f, s) && s.root != f.kernel ensures UserTable(n, s) {
      assert UserTable(m, s);
      if s.level == 1 && Node(m, s).Some? {
        var q := Node(m, s).value;
        assert q != p;
        forall i: nat | i < ENTRIES ensures UserLeaf(n, s, Ent(n, q, i)) { assert UserLeaf(m, s, Ent(m, q, i)); }
      }
    }
    forall r, v | InTree(f, Level1(r, v)) ensures Lookup(n, r, v) == Lookup(m, r, v) {
      FrameLookup(f, m, n, p, r, v);
    }
    if Vmm.KernelOk(f, m) { FrameKernelOk(f, m, n, p); }
  }

  lemma FrameTables(m: Machine, p: nat, page: Page)
    ensures forall q: nat | q != p :: IsTable(WithFrame(m, p, page), q) == IsTable(m, q)
  {}

  lemma FrameLookup(f: Forest, m: Machine, n: Machine, p: nat, r: nat, v: nat)
    requires Separated(f, m) && p !in m.pmm.unavailable && InTree(f, Level1(r, v))
    requires forall q: nat, i: nat | q != p :: Ent(n, q, i) == Ent(m, q, i)
    ensures Lookup(n, r, v) == Lookup(m, r, v)
  {
    SameTables(f, m, n, p, Level1(r, v));
  }

  lemma FrameKernelOk(f: Forest, m: Machine, n: Machine, p: nat)
    requires Separated(f, m) && Vmm.KernelOk(f, m) && p !in m.pmm.unavailable
    requires forall q: nat, i: nat | q != p :: Ent(n, q, i) == Ent(m, q, i)
    ensures Vmm.KernelOk(f, n)
  {
    hide Node, Ent, LinkEntry;
    var k := f.kernel;
    forall s | InTree(f, s) ensures LinkEntry(n, s) == LinkEntry(m, s) && Node(n, s) == Node(m, s) {
      SameTables(f, m, n, p, s);
    }
    assert InTree(f, Slot(k, 2, 0)) && InTree(f, Slot(k, 3, 1)) && InTree(f, Slot(k, 2, 0x100));
  }

  lemma FrameValid(s: State, p: nat)
    requires PmmSpec.Valid(s) && p in FreePages(s)
    ensures PmmSpec.Valid(Take(s, p)) && p !in s.unavailable && p !in s.held && p !in s.reserved
  {
    assert FreePages(Take(s, p)) == FreePages(s) - {p};
  }

  /** Giving an unmapped frame back undoes taking it. */
  lemma FrameReturned(f: Forest, n: Machine, p: nat)
    requires Wf(f, n) && p in n.pmm.held && p !in n.pmm.reserved && !TableAt(f, n, p)
    ensures var o := n.(pmm := Free(n.pmm, p * PAGE_SIZE));
      && Wf(f, o)
      && o.pmm.unavailable == n.pmm.unavailable - {p} && o.pmm.held == n.pmm.held - {p}
      && o.pmm.reserved == n.pmm.reserved && o.pmm.pages == n.pmm.pages
      && (forall s :: Node(o, s) == Node(n, s))
      && (forall r, v :: Lookup(o, r, v) == Lookup(n, r, v))
      && (Vmm.KernelOk(f, n) ==> Vmm.KernelOk(f, o))
  {
    hide Node, Ent, Lookup, LinkEntry, UserTable, IsTable;
    var o := n.(pmm := Free(n.pmm, p * PAGE_SIZE));
    FreeValid(n.pmm, p * PAGE_SIZE);
    FreeReturns(n.pmm, p);
    SameMemory(n, o);
  }

  // ---- Placing one page ------------------------------------------------------------------

  lemma TableUnavailable(f: Forest, m: Machine, s: Slot)
    requires Wf(f, m) && InTree(f, s)
    ensures Node(m, s).Some? ==> Node(m, s).value in m.pmm.unavailable
  {}

  /** The state between taking a frame and mapping it. */
  ghost predicate Pending(f: Forest, root: nat, m0: Machine, n: Machine, pages: Placement, tables: set<nat>,
                          p: nat, bytes: seq<byte>) {
    && Wf(f, m0) && Wf(f, n)
    && Accounts(m0.pmm, n.pmm, Frames(pages) + {p}, tables)
    && p !in Frames(pages) && !TableAt(f, n, p)
    && p in n.mem && n.mem[p] == Data(bytes)
    && (forall v, w | v in pages && w in pages && v != w :: pages[v].frame != pages[w].frame)
    && (forall s | InTree(f, s) :: ExtendsAt(root, m0, n, tables, s))
    && (forall q: nat | q in tables :: exists s :: InTree(f, s) && s.root == root && Node(n, s) == Some(q))
    && (forall v | v in pages :: pages[v].frame in n.mem && n.mem[pages[v].frame] == Data(pages[v].bytes))
    && (forall q: nat | q in m0.pmm.unavailable && q in m0.mem && !TableAt(f, m0, q) ::
          q in n.mem && n.mem[q] == m0.mem[q])
    && (Vmm.KernelOk(f, m0) ==> Vmm.KernelOk(f, n))
    && (Vmm.KernelOk(f, m0) ==> forall c | Vmm.KernelPage(c) :: Lookup(n, f.kernel, c) == Lookup(m0, f.kernel, c))
  }

  lemma FrameExtendsAt(f: Forest, root: nat, m0: Machine, m: Machine, tables: set<nat>, p: nat, page: Page, s: Slot)
    requires Wf(f, m) && p in FreePages(m.pmm) && InTree(f, s) && ExtendsAt(root, m0, m, tables, s)
    requires Node(WithFrame(m, p, page), s) == Node(m, s)
    ensures ExtendsAt(root, m0, WithFrame(m, p, page), tables, s)
  {
    hide Node, Ent, WithFrame;
    FrameReads(m, p, page);
    if Node(m, s).Some? { TableUnavailable(f, m, s); }
  }

  lemma FramePending(f: Forest, root: nat, m0: Machine, m: Machine, pages: Placement, tables: set<nat>,
                     p: nat, bytes: seq<byte>)
    requires Progressed(f, root, m0, m, pages, tables) && p in FreePages(m.pmm)
    ensures Pending(f, root, m0, WithFrame(m, p, Data(bytes)), pages, tables, p, bytes)
  {
    hide Node, Lookup, Wf, Vmm.KernelOk, TableAt, Accounts, FreePages;
    var n := WithFrame(m, p, Data(bytes));
    FrameKeeps(f, m, p, Data(bytes));
    PmmOfWf(f, m);
    FrameValid(m.pmm, p);
    AccountsFrame(m0.pmm, m.pmm, Frames(pages), tables, p);
    AccountsBounds(m0.pmm, m.pmm, Frames(pages), tables);
    forall s | InTree(f, s) ensures ExtendsAt(root, m0, n, tables, s) {
      FrameExtendsAt(f, root, m0, m, tables, p, Data(bytes), s);
    }
    forall q: nat | q in tables ensures exists s :: InTree(f, s) && s.root == root && Node(n, s) == Some(q) {
      var s :| InTree(f, s) && s.root == root && Node(m, s) == Some(q);
      assert Node(n, s) == Some(q);
    }
    forall v | v in pages ensures pages[v].frame in n.mem && n.mem[pages[v].frame] == Data(pages[v].bytes) {
      assert Holds(m, root, v, pages[v]);
      assert pages[v].frame in Frames(pages);
    }
    forall c | Vmm.KernelPage(c) ensures Lookup(n, f.kernel, c) == Lookup(m, f.kernel, c) { Vmm.KernelTree(f, c); }
  }

  lemma PmmOfWf(f: Forest, m: Machine)
    requires Wf(f, m)
    ensures PmmSpec.Valid(m.pmm)
  {}

  /** Hanging more tables into the space keeps the pending state. */
  lemma PendingExtends(f: Forest, root: nat, m0: Machine, m: Machine, n: Machine, pages: Placement, tables: set<nat>,
                       added: set<nat>, p: nat, bytes: seq<byte>)
    requires Pending(f, root, m0, m, pages, tables, p, bytes)
    requires Wf(f, n) && Extends(f, root, m, n, added)
    requires Vmm.KernelOk(f, m) ==>
      Vmm.KernelOk(f, n) && forall c | Vmm.KernelPage(c) :: Lookup(n, f.kernel, c) == Lookup(m, f.kernel, c)
    ensures Pending(f, root, m0, n, pages, tables + added, p, bytes)
  {
    hide Node, Lookup, Wf, Vmm.KernelOk, InTree, Accounts;
    forall s | InTree(f, s) ensures ExtendsAt(root, m0, n, tables + added, s) {
      assert ExtendsAt(root, m0, m, tables, s);
      assert ExtendsAt(root, m, n, added, s);
    }
    forall q: nat | q in tables + added ensures exists s :: InTree(f, s) && s.root == root && Node(n, s) == Some(q) {
      if q in tables {
        var s :| InTree(f, s) && s.root == root && Node(m, s) == Some(q);
        assert ExtendsAt(root, m, n, added, s);
      }
    }
    forall q: nat | q in Frames(pages) + {p} || (q in m0.pmm.unavailable && !TableAt(f, m0, q))
      ensures !TableAt(f, m, q) && q in m.pmm.unavailable
    {
      PendingNotATable(f, root, m0, m, pages, tables, p, bytes, q);
    }
    forall v | v in pages ensures pages[v].frame in n.mem && n.mem[pages[v].frame] == Data(pages[v].bytes) {
      assert pages[v].frame in Frames(pages);
    }
    StillNotATable(f, root, m, n, added, p);
    AccountsTables(m0.pmm, m.pmm, n.pmm, Frames(pages) + {p}, tables, added);
  }

  lemma StillNotATable(f: Forest, root: nat, m: Machine, n: Machine, added: set<nat>, p: nat)
    requires Extends(f, root, m, n, added) && p in m.pmm.unavailable && !TableAt(f, m, p)
    ensures !TableAt(f, n, p)
  {
    hide Node;
  }

  lemma AccountsBounds(before: State, s: State, frames: set<nat>, tables: set<nat>)
    requires Accounts(before, s, frames, tables)
    ensures frames <= s.unavailable && before.unavailable <= s.unavailable && tables <= s.unavailable
  {}

  lemma AccountsFrame(before: State, s: State, frames: set<nat>, tables: set<nat>, p: nat)
    requires Accounts(before, s, frames, tables) && p !in s.unavailable
    ensures Accounts(before, Take(s, p), frames + {p}, tables) && p !in frames
  {}

  lemma AccountsTables(before: State, s: State, t: State, frames: set<nat>, tables: set<nat>, added: set<nat>)
    requires Accounts(before, s, frames, tables)
    requires t.pages == s.pages && t.reserved == s.reserved && added !! s.unavailable
    requires t.unavailable == s.unavailable + added && t.held == s.held + added
    ensures Accounts(before, t, frames, tables + added)
  {}

  lemma PendingNotATable(f: Forest, root: nat, m0: Machine, n: Machine, pages: Placement, tables: set<nat>,
                         p: nat, bytes: seq<byte>, q: nat)
    requires Pending(f, root, m0, n, pages, tables, p, bytes)
    requires q in Frames(pages) + {p} || (q in m0.pmm.unavailable && !TableAt(f, m0, q))
    ensures !TableAt(f, n, q) && q in n.pmm.unavailable
  {
    hide Node, Lookup, Wf, Vmm.KernelOk;
    if s :| InTree(f, s) && Node(n, s) == Some(q) {
      assert ExtendsAt(root, m0, n, tables, s);
      TableUnavailable(f, m0, s);
    }
  }

  /** The mappings of a pending state: those of `pages` and, elsewhere, the old. */
  ghost predicate PendingMaps(f: Forest, root: nat, m0: Machine, n: Machine, pages: Placement) {
    && (forall v | v in pages :: UserPage(v) && Lookup(m0, root, v) == None
          && Lookup(n, root, v) == Some(Mapping(pages[v].frame, pages[v].writable, true, pages[v].nx)))
    && (forall r, v | r in f.users && UserPage(v) && !(r == root && v in pages) :: Lookup(n, r, v) == Lookup(m0, r, v))
  }

  lemma PendingMapped(f: Forest, root: nat, m0: Machine, n: Machine, pages: Placement, tables: set<nat>,
                      p: nat, bytes: seq<byte>, v: nat, writable: bool, nx: bool)
    requires Pending(f, root, m0, n, pages, tables, p, bytes)
    requires v !in pages && PendingMaps(f, root, m0, n, pages[v := Placed(p, bytes, writable, nx)])
    ensures Progressed(f, root, m0, n, pages[v := Placed(p, bytes, writable, nx)], tables)
  {
    hide Node, Lookup, Wf, Vmm.KernelOk, InTree, TableAt;
    var more := pages[v := Placed(p, bytes, writable, nx)];
    AddFrame(pages, v, Placed(p, bytes, writable, nx));
    forall w | w in more ensures UserPage(w) && Lookup(m0, root, w) == None && Holds(n, root, w, more[w]) {}
    forall w, u | w in more && u in more && w != u ensures more[w].frame != more[u].frame {
      if w == v { assert pages[u].frame in Frames(pages); }
      if u == v { assert pages[w].frame in Frames(pages); }
    }
  }

  lemma AddFrame(pages: Placement, v: nat, x: Placed)
    requires v !in pages
    ensures Frames(pages[v := x]) == Frames(pages) + {x.frame}
  {
    var more := pages[v := x];
    forall q | q in Frames(pages) + {x.frame} ensures q in Frames(more) {
      if q in Frames(pages) {
        var w :| w in pages && pages[w].frame == q;
        assert more[w].frame == q;
      } else {
        assert more[v].frame == q;
      }
    }
  }

  lemma PendingDropped(f: Forest, root: nat, m0: Machine, n: Machine, pages: Placement, tables: set<nat>,
                       p: nat, bytes: seq<byte>)
    requires Pending(f, root, m0, n, pages, tables, p, bytes) && PendingMaps(f, root, m0, n, pages)
    ensures Progressed(f, root, m0, n.(pmm := Free(n.pmm, p * PAGE_SIZE)), pages, tables)
  {
    hide Node, Lookup, Wf, Vmm.KernelOk, InTree, TableAt, Accounts, Free;
    var o := n.(pmm := Free(n.pmm, p * PAGE_SIZE));
    PendingHeld(f, root, m0, n, pages, tables, p, bytes);
    FrameReturned(f, n, p);
    AccountsReturn(m0.pmm, n.pmm, o.pmm, Frames(pages), tables, p);
    forall s | InTree(f, s) ensures ExtendsAt(root, m0, o, tables, s) {
      assert ExtendsAt(root, m0, n, tables, s);
    }
    forall q: nat | q in tables ensures exists s :: InTree(f, s) && s.root == root && Node(o, s) == Some(q) {
      var s :| InTree(f, s) && s.root == root && Node(n, s) == Some(q);
      assert Node(o, s) == Some(q);
    }
  }

  lemma PendingHeld(f: Forest, root: nat, m0: Machine, n: Machine, pages: Placement, tables: set<nat>,
                    p: nat, bytes: seq<byte>)
    requires Pending(f, root, m0, n, pages, tables, p, bytes)
    ensures p in n.pmm.held && p !in n.pmm.reserved && m0.pmm.held <= m0.pmm.unavailable
  {
    PmmOfWf(f, m0);
  }

  lemma AccountsReturn(before: State, s: State, t: State, frames: set<nat>, tables: set<nat>, p: nat)
    requires Accounts(before, s, frames + {p}, tables) && p !in frames && before.held <= before.unavailable
    requires t.pages == s.pages && t.reserved == s.reserved
    requires t.unavailable == s.unavailable - {p} && t.held == s.held - {p}
    ensures Accounts(before, t, frames, tables)
  {}

  lemma PendingReturned(f: Forest, root: nat, m0: Machine, n: Machine, pages: Placement, tables: set<nat>,
                        p: nat, bytes: seq<byte>)
    requires Pending(f, root, m0, n, pages, tables, p, bytes) && FreePages(n.pmm) == {}
    ensures Starved(n.(pmm := Free(n.pmm, p * PAGE_SIZE)))
  {
    PendingHeld(f, root, m0, n, pages, tables, p, bytes);
    FrameReturned(f, n, p);
    OneReturned(n.pmm, Free(n.pmm, p * PAGE_SIZE), p);
  }

  /** At most the frame that could not be mapped is left. */
  ghost predicate Starved(m: Machine) { |FreePages(m.pmm)| <= 1 }

  /** Page `v` can take a frame: it is a user page that neither the space at the
      start nor the placement so far uses. */
  ghost predicate Room(m0: Machine, root: nat, pages: Placement, v: nat) {
    UserPage(v) && Lookup(m0, root, v) == None && v !in pages
  }

  lemma OneReturned(s: State, t: State, p: nat)
    requires FreePages(s) == {} && t.pages == s.pages && t.unavailable == s.unavailable - {p}
    ensures |FreePages(t)| <= 1
  {
    forall q | q in FreePages(t) ensures q == p { assert q == p || q in FreePages(s); }
    assert FreePages(t) <= {p};
    if FreePages(t) != {} { assert FreePages(t) == {p}; }
  }

  /** Taking a frame, filling it and mapping it at page `v`: on success that page
      and nothing else was placed; on failure, once the frame is given back,
      nothing was, and if the page had room the allocator is starved. */
  lemma PlaceStep(f: Forest, root: nat, m0: Machine, m: Machine, pages: Placement, tables: set<nat>,
                  p: nat, bytes: seq<byte>, va: nat, flags: Flags)
    returns (more: set<nat>)
    requires Progressed(f, root, m0, m, pages, tables) && root in f.users
    requires p in FreePages(m.pmm) && m.pmm.pages <= FRAME_LIMIT
    ensures var (n, code) := MapUser(WithFrame(m, p, Data(bytes)), root, va, p * PAGE_SIZE, flags);
      var v := va / PAGE_SIZE;
      && (code == 0 ==>
            && v !in pages && UserPage(v) && va % PAGE_SIZE == 0
            && Progressed(f, root, m0, n, pages[v := Placed(p, bytes, flags.writable, flags.nx)], more))
      && (code != 0 ==>
            var o := n.(pmm := Free(n.pmm, p * PAGE_SIZE));
            && Progressed(f, root, m0, o, pages, more)
            && (va % PAGE_SIZE == 0 && Room(m0, root, pages, v) ==> Starved(o)))
  {
    hide Node, Lookup, Wf, Vmm.KernelOk, InTree, TableAt, Accounts, Free, Extends, MapUser, Missing, Pending,
         WithFrame, FreePages;
    var m1 := WithFrame(m, p, Data(bytes));
    var (n, code) := MapUser(m1, root, va, p * PAGE_SIZE, flags);
    var v := va / PAGE_SIZE;
    FramePending(f, root, m0, m, pages, tables, p, bytes);
    FrameKeeps(f, m, p, Data(bytes));
    MapUserEffect(f, m1, root, va, p * PAGE_SIZE, flags);
    var added := MapUserFrame(f, m1, root, va, p * PAGE_SIZE, flags);
    more := tables + added;
    PendingExtends(f, root, m0, m1, n, pages, tables, added, p, bytes);
    FrameNumber(m.pmm, p);
    forall r, w | r in f.users && UserPage(w) ensures Lookup(m1, r, w) == Lookup(m, r, w) { LevelOneUser(f, m, r, w); }
    if code == 0 {
      UserAddresses(va);
      PlacedIsMapped(f, root, m0, m, pages, tables, v);
      PlacedMaps(f, root, m0, m, n, pages, tables, v, Placed(p, bytes, flags.writable, flags.nx));
      PendingMapped(f, root, m0, n, pages, more, p, bytes, v, flags.writable, flags.nx);
    } else {
      UnplacedMaps(f, root, m0, m, n, pages, tables);
      PendingDropped(f, root, m0, n, pages, more, p, bytes);
      if va % PAGE_SIZE == 0 && Room(m0, root, pages, v) {
        UserAddresses(va);
        PendingReturned(f, root, m0, n, pages, more, p, bytes);
      }
    }
  }

  lemma PlacedIsMapped(f: Forest, root: nat, m0: Machine, m: Machine, pages: Placement, tables: set<nat>, v: nat)
    requires Progressed(f, root, m0, m, pages, tables)
    ensures v in pages ==> Lookup(m, root, v).Some?
  {}

  lemma FrameNumber(s: State, p: nat)
    requires p in FreePages(s) && s.pages <= FRAME_LIMIT
    ensures p * PAGE_SIZE / PAGE_SIZE % FRAME_LIMIT == p
  {}

  lemma LevelOneUser(f: Forest, m: Machine, r: nat, v: nat)
    requires Wf(f, m) && r in f.users && UserPage(v)
    ensures InTree(f, Level1(r, v))
  {
    UserPages(f, r, v);
  }

  lemma PlacedMaps(f: Forest, root: nat, m0: Machine, m: Machine, n: Machine, pages: Placement, tables: set<nat>,
                   v: nat, x: Placed)
    requires Progressed(f, root, m0, m, pages, tables) && root in f.users && v !in pages && UserPage(v)
    requires Lookup(m, root, v) == None
    requires forall r, w | r in f.users && UserPage(w) ::
      Lookup(n, r, w) == if r == root && w == v then Some(Mapping(x.frame, x.writable, true, x.nx)) else Lookup(m, r, w)
    ensures PendingMaps(f, root, m0, n, pages[v := x])
  {
    hide Node, Lookup, Wf, Vmm.KernelOk, InTree, TableAt, Accounts;
    forall w | w in pages ensures Holds(m, root, w, pages[w]) {}
  }

  lemma UnplacedMaps(f: Forest, root: nat, m0: Machine, m: Machine, n: Machine, pages: Placement, tables: set<nat>)
    requires Progressed(f, root, m0, m, pages, tables) && root in f.users
    requires forall r, w | r in f.users && UserPage(w) :: Lookup(n, r, w) == Lookup(m, r, w)
    ensures PendingMaps(f, root, m0, n, pages)
  {
    hide Node, Lookup, Wf, Vmm.KernelOk, InTree, TableAt, Accounts;
    forall w | w in pages ensures Holds(m, root, w, pages[w]) {}
  }
}
