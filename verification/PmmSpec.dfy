/** What the physical page allocator means: sets of page numbers and a free
    count, with no words and no masks.  The bitmap allocator in `Pmm` is proved
    to refine these functions; the properties of whole runs are proved here. */
module PmmSpec {
  import opened Bytes

  const PAGE_SIZE: nat := 4096

  /** `unavailable` is what the main bitmap records; a page is unavailable
      because it was never usable, is reserved, or is held (allocated). */
  datatype State = State(
    pages: nat,
    unavailable: set<nat>,
    reserved: set<nat>,
    held: set<nat>,
    free: nat)

  predicate IsPage(p: nat, n: nat) { p < n }

  function AllPages(n: nat): set<nat> { set p: nat | p < n && IsPage(p, n) }

  function FreePages(s: State): set<nat> { AllPages(s.pages) - s.unavailable }

  ghost predicate Valid(s: State) {
    && s.unavailable <= AllPages(s.pages)
    && s.reserved <= s.unavailable
    && s.held <= s.unavailable
    && s.free == |FreePages(s)|
  }

  predicate Within(p: nat, start: nat, end: nat) {
    start <= p * PAGE_SIZE && (p + 1) * PAGE_SIZE <= end
  }

  /** The pages lying wholly inside the byte range [start, end). */
  function PagesWithin(start: nat, end: nat, pages: nat): set<nat> {
    set p: nat | p < pages && Within(p, start, end)
  }

  function Counted(s: State): State { s.(free := |FreePages(s)|) }

  function Reset(s: State): State {
    State(s.pages, AllPages(s.pages), {}, {}, 0)
  }

  function AddUsable(s: State, start: nat, end: nat): State {
    var range := PagesWithin(start, end, s.pages);
    Counted(s.(unavailable := (s.unavailable - range) + (range * (s.reserved + s.held))))
  }

  function Reserve(s: State, start: nat, end: nat): State {
    var range := PagesWithin(start, end, s.pages);
    Counted(s.(unavailable := s.unavailable + range, reserved := s.reserved + range))
  }

  function Init(s: State, start: nat, end: nat): State {
    AddUsable(Reset(s), start, end)
  }

  /** The lowest free page at or above `from`. */
  function LowestFree(s: State, from: nat): (r: Option<nat>)
    ensures r.None? ==> forall p: nat | from <= p < s.pages :: p in s.unavailable
    ensures r.Some? ==> from <= r.value < s.pages && r.value !in s.unavailable
    ensures r.Some? ==> forall p: nat | from <= p < r.value :: p in s.unavailable
    decreases s.pages - from
  {
    if from >= s.pages then None
    else if from !in s.unavailable then Some(from)
    else LowestFree(s, from + 1)
  }

  function Take(s: State, p: nat): State {
    s.(unavailable := s.unavailable + {p},
       held := s.held + {p},
       free := if s.free == 0 then 0 else s.free - 1)
  }

  function Alloc(s: State): (State, Option<nat>) {
    match LowestFree(s, 0)
    case None => (s, None)
    case Some(p) => (Take(s, p), Some(p))
  }

  /** The pointer the allocator returns: null both when memory is exhausted and
      when page 0 itself was handed out. */
  function Address(page: Option<nat>): nat {
    if page.None? then 0 else page.value * PAGE_SIZE
  }

  function Free(s: State, address: nat): State {
    var p := address / PAGE_SIZE;
    if address % PAGE_SIZE != 0 || p >= s.pages || p !in s.held then s
    else if p in s.reserved then s.(held := s.held - {p})
    else s.(held := s.held - {p},
            unavailable := s.unavailable - {p},
            free := s.free + 1)
  }

  // ---- Single steps --------------------------------------------------------

  lemma ResetValid(s: State)
    ensures Valid(Reset(s))
  {}

  lemma CountedValid(s: State)
    requires s.unavailable <= AllPages(s.pages)
    requires s.reserved <= s.unavailable && s.held <= s.unavailable
    ensures Valid(Counted(s))
  {}

  lemma AddUsableValid(s: State, start: nat, end: nat)
    requires Valid(s)
    ensures Valid(AddUsable(s, start, end))
  {
    var range := PagesWithin(start, end, s.pages);
    CountedValid(s.(unavailable := (s.unavailable - range) + (range * (s.reserved + s.held))));
  }

  lemma ReserveValid(s: State, start: nat, end: nat)
    requires Valid(s)
    ensures Valid(Reserve(s, start, end))
  {}

  lemma AllocValid(s: State)
    requires Valid(s)
    ensures Valid(Alloc(s).0)
    ensures Alloc(s).1.None? <==> FreePages(s) == {}
    ensures var p := Alloc(s).1; p.Some? ==>
      && p.value in FreePages(s)
      && (forall q | q in FreePages(s) :: p.value <= q)
      && FreePages(Alloc(s).0) == FreePages(s) - {p.value}
      && Alloc(s).0.free == s.free - 1
  {
    match LowestFree(s, 0)
    case None => assert FreePages(s) == {};
    case Some(p) =>
      assert p in FreePages(s);
      assert FreePages(Take(s, p)) == FreePages(s) - {p};
  }

  lemma FreeValid(s: State, address: nat)
    requires Valid(s)
    ensures Valid(Free(s, address))
  {
    var p := address / PAGE_SIZE;
    var t := Free(s, address);
    if t.unavailable != s.unavailable {
      assert FreePages(t) == FreePages(s) + {p};
    } else {
      assert FreePages(t) == FreePages(s);
    }
  }

  // ---- Runs ------------------------------------------------------------------

  datatype Op =
    | OpReset
    | OpInit(start: nat, end: nat)
    | OpAddUsable(start: nat, end: nat)
    | OpReserve(start: nat, end: nat)
    | OpAlloc
    | OpFree(address: nat)

  function Step(s: State, op: Op): State {
    match op
    case OpReset => Reset(s)
    case OpInit(a, b) => Init(s, a, b)
    case OpAddUsable(a, b) => AddUsable(s, a, b)
    case OpReserve(a, b) => Reserve(s, a, b)
    case OpAlloc => Alloc(s).0
    case OpFree(a) => Free(s, a)
  }

  function Run(s: State, ops: seq<Op>): State
    decreases |ops|
  {
    if ops == [] then s else Run(Step(s, ops[0]), ops[1..])
  }

  /** The page handed out by operation `i` of a run, if it is an allocation
      and one succeeded. */
  function Handed(s: State, ops: seq<Op>, i: nat): Option<nat>
    requires i < |ops|
    decreases i
  {
    if i > 0 then Handed(Step(s, ops[0]), ops[1..], i - 1)
    else if ops[0].OpAlloc? then Alloc(s).1
    else None
  }

  predicate Reinitializes(op: Op) { op.OpReset? || op.OpInit? }

  lemma StepValid(s: State, op: Op)
    requires Valid(s)
    ensures Valid(Step(s, op))
  {
    match op
    case OpReset => ResetValid(s);
    case OpInit(a, b) =>
      ResetValid(s);
      AddUsableValid(Reset(s), a, b);
    case OpAddUsable(a, b) => AddUsableValid(s, a, b);
    case OpReserve(a, b) => ReserveValid(s, a, b);
    case OpAlloc => AllocValid(s);
    case OpFree(a) => FreeValid(s, a);
  }

  lemma StepPages(s: State, op: Op)
    ensures Step(s, op).pages == s.pages
  {}

  /** In every reachable state reserved and allocated pages are unavailable and
      the cached counter is the number of available pages. */
  lemma {:induction false} RunValid(s: State, ops: seq<Op>)
    requires Valid(s)
    ensures Valid(Run(s, ops))
    ensures Run(s, ops).pages == s.pages
    decreases |ops|
  {
    if ops != [] {
      StepValid(s, ops[0]);
      StepPages(s, ops[0]);
      RunValid(Step(s, ops[0]), ops[1..]);
    }
  }

  /** The operations that take page `p` away from its holder. */
  predicate Releases(op: Op, p: nat) { Reinitializes(op) || op == OpFree(p * PAGE_SIZE) }

  lemma StepKeepsHeld(s: State, op: Op, p: nat)
    requires p in s.held && !Releases(op, p)
    ensures p in Step(s, op).held
  {}

  lemma StepKeepsReserved(s: State, op: Op, p: nat)
    requires p in s.reserved && !Reinitializes(op)
    ensures p in Step(s, op).reserved
  {}

  /** A page stays with its holder until it is freed or the allocator is
      reinitialised, whatever usable ranges are added meanwhile. */
  lemma {:induction false} HeldUntilFreed(s: State, ops: seq<Op>, j: nat, p: nat)
    requires Valid(s) && p in s.held && j < |ops|
    requires Handed(s, ops, j) == Some(p)
    ensures exists k: nat :: k < j && Releases(ops[k], p)
    decreases |ops|
  {
    if j == 0 {
      AllocValid(s);
      assert false;
    } else if !Releases(ops[0], p) {
      StepValid(s, ops[0]);
      StepKeepsHeld(s, ops[0], p);
      var rest := ops[1..];
      HeldUntilFreed(Step(s, ops[0]), rest, j - 1, p);
      var k: nat :| k < j - 1 && Releases(rest[k], p);
      assert ops[k + 1] == rest[k];
    }
  }

  lemma HandedIsHeld(s: State, ops: seq<Op>, p: nat)
    requires ops != [] && Handed(s, ops, 0) == Some(p)
    ensures p in Step(s, ops[0]).held
  {}

  /** No page is handed out twice in any run without a free of exactly that
      page, or a reinitialisation, in between. */
  lemma {:induction false} NoDoubleHandout(s: State, ops: seq<Op>, i: nat, j: nat, p: nat)
    requires Valid(s) && i < j < |ops|
    requires Handed(s, ops, i) == Some(p) == Handed(s, ops, j)
    ensures exists k: nat :: i < k < j && Releases(ops[k], p)
    decreases i
  {
    hide Step, Alloc, Valid;
    StepValid(s, ops[0]);
    var next, rest := Step(s, ops[0]), ops[1..];
    assert Handed(next, rest, j - 1) == Some(p);
    if i == 0 {
      HandedIsHeld(s, ops, p);
      HeldUntilFreed(next, rest, j - 1, p);
      var k: nat :| k < j - 1 && Releases(rest[k], p);
      assert ops[k + 1] == rest[k];
    } else {
      NoDoubleHandout(next, rest, i - 1, j - 1, p);
      var k: nat :| i - 1 < k < j - 1 && Releases(rest[k], p);
      assert ops[k + 1] == rest[k];
    }
  }

  /** A reserved page is never handed out before the next reinitialisation. */
  lemma {:induction false} ReservedNeverHanded(s: State, ops: seq<Op>, j: nat, p: nat)
    requires Valid(s) && p in s.reserved && j < |ops|
    requires forall k: nat | k < j :: !Reinitializes(ops[k])
    ensures Handed(s, ops, j) != Some(p)
    decreases j
  {
    if j == 0 {
      AllocValid(s);
    } else {
      StepValid(s, ops[0]);
      StepKeepsReserved(s, ops[0], p);
      var rest := ops[1..];
      forall k: nat | k < j - 1 ensures !Reinitializes(rest[k]) { assert rest[k] == ops[k + 1]; }
      ReservedNeverHanded(Step(s, ops[0]), rest, j - 1, p);
    }
  }

  /** Once page 0 is reserved, a null result of any later allocation means that
      no page is free, and nothing else. */
  lemma {:induction false} NullMeansExhausted(s: State, ops: seq<Op>)
    requires Valid(s) && 0 in s.reserved
    requires forall k: nat | k < |ops| :: !Reinitializes(ops[k])
    ensures var t := Run(s, ops);
      && 0 in t.reserved
      && (Address(Alloc(t).1) == 0 <==> FreePages(t) == {})
      && (Address(Alloc(t).1) == 0 <==> t.free == 0)
    decreases |ops|
  {
    if ops == [] {
      AllocValid(s);
    } else {
      StepValid(s, ops[0]);
      StepKeepsReserved(s, ops[0], 0);
      var rest := ops[1..];
      forall k: nat | k < |rest| ensures !Reinitializes(rest[k]) { assert rest[k] == ops[k + 1]; }
      NullMeansExhausted(Step(s, ops[0]), rest);
    }
  }

  /** A free is a no-op exactly when the address is unaligned, outside the
      managed range, or not the address of a page currently held: so a second
      free of the same page, and any foreign free, changes nothing. */
  lemma FreeIsNoOp(s: State, address: nat)
    requires Valid(s)
    ensures Free(s, address) == s <==> address % PAGE_SIZE != 0 || address / PAGE_SIZE !in s.held
    ensures Free(Free(s, address), address) == Free(s, address)
  {
    var p := address / PAGE_SIZE;
    if p in s.held {
      assert p in AllPages(s.pages);
    }
  }

  /** Allocate then free restores the state exactly. */
  lemma AllocFreeRoundTrip(s: State)
    requires Valid(s)
    ensures var (t, p) := Alloc(s); p.Some? ==> Free(t, Address(p)) == s
  {
    AllocValid(s);
    var (t, p) := Alloc(s);
    if p.Some? {
      assert p.value in FreePages(s);
      assert p.value !in s.reserved && p.value !in s.held;
      assert p.value * PAGE_SIZE / PAGE_SIZE == p.value;
      assert t.unavailable - {p.value} == s.unavailable;
      assert t.held - {p.value} == s.held;
    }
  }

  // ---- Reinitialisation -------------------------------------------------------

  /** The design asks that reinitialisation keep the ownership of active pages.
      It never does: the record of held pages survives only if it was empty. */
  lemma InitKeepsHeldIff(s: State, start: nat, end: nat)
    ensures Init(s, start, end).held == s.held <==> s.held == {}
  {}

  predicate Adds(op: Op, p: nat) { op.OpAddUsable? && Within(p, op.start, op.end) }

  /** An unavailable page that nobody is recorded to hold stays so until a usable
      range that wholly contains it is added. */
  lemma StepKeepsUnheld(s: State, op: Op, p: nat)
    requires Valid(s) && p in s.unavailable && p !in s.held && !Reinitializes(op) && !Adds(op, p)
    ensures p in Step(s, op).unavailable && p !in Step(s, op).held
  {
    if op.OpAlloc? { AllocValid(s); }
  }

  lemma {:induction false} HandedNeedsAdd(s: State, ops: seq<Op>, j: nat, p: nat)
    requires Valid(s) && p in s.unavailable && p !in s.held && j < |ops|
    requires forall k: nat | k < j :: !Reinitializes(ops[k])
    requires Handed(s, ops, j) == Some(p)
    ensures exists k: nat :: k < j && Adds(ops[k], p)
    decreases j
  {
    if j == 0 {
      AllocValid(s);
      assert false;
    } else if !Adds(ops[0], p) {
      StepValid(s, ops[0]);
      StepKeepsUnheld(s, ops[0], p);
      var rest := ops[1..];
      forall k: nat | k < j - 1 ensures !Reinitializes(rest[k]) { assert rest[k] == ops[k + 1]; }
      HandedNeedsAdd(Step(s, ops[0]), rest, j - 1, p);
      var k: nat :| k < j - 1 && Adds(rest[k], p);
      assert ops[k + 1] == rest[k];
    }
  }

  lemma InitAvailable(s: State, start: nat, end: nat)
    ensures FreePages(Init(s, start, end)) == PagesWithin(start, end, s.pages)
  {}

  /** After a reinitialisation a page that was held before is handed out again only
      if the new range, or one added since, wholly contains it. */
  lemma HandedAfterInit(s: State, start: nat, end: nat, ops: seq<Op>, j: nat, p: nat)
    requires Valid(s) && p in s.held && j < |ops|
    requires forall k: nat | k < j :: !Reinitializes(ops[k])
    requires Handed(Init(s, start, end), ops, j) == Some(p)
    ensures Within(p, start, end) || exists k: nat :: k < j && Adds(ops[k], p)
  {
    StepValid(s, OpInit(start, end));
    InitAvailable(s, start, end);
    if !Within(p, start, end) { HandedNeedsAdd(Init(s, start, end), ops, j, p); }
  }

  /** Such an addition does make an unreserved page available again. */
  lemma AddMakesFree(s: State, start: nat, end: nat, p: nat)
    requires p < s.pages && Within(p, start, end)
    ensures p in FreePages(AddUsable(s, start, end)) <==> p !in s.reserved && p !in s.held
  {}

  function Allocations(n: nat): seq<Op> { seq(n, (_: nat) => OpAlloc) }

  /** The page that the last of n + 1 allocations in a row hands out. */
  function NthAllocated(s: State, n: nat): Option<nat> { Handed(s, Allocations(n + 1), n) }

  lemma NthAfterOne(s: State, n: nat)
    ensures NthAllocated(s, 0) == Alloc(s).1
    ensures NthAllocated(s, n + 1) == NthAllocated(Alloc(s).0, n)
  {
    hide Alloc;
    assert Allocations(n + 2)[1..] == Allocations(n + 1);
  }

  ghost function FreeBelow(s: State, p: nat): set<nat> { set q | q in FreePages(s) && q < p }

  /** Allocations alone reach every free page. */
  lemma {:induction false} FreePageIsReached(s: State, p: nat)
    requires Valid(s) && p in FreePages(s)
    ensures exists n: nat :: NthAllocated(s, n) == Some(p)
    decreases |FreeBelow(s, p)|
  {
    AllocValid(s);
    var (t, first) := Alloc(s);
    if first.value == p {
      NthAfterOne(s, 0);
    } else {
      hide Alloc, NthAllocated;
      assert first.value in FreeBelow(s, p);
      assert FreeBelow(t, p) == FreeBelow(s, p) - {first.value};
      FreePageIsReached(t, p);
      var n: nat :| NthAllocated(t, n) == Some(p);
      NthAfterOne(s, n);
    }
  }

  /** Exactly which pages in use a reinitialisation exposes: later allocations hand
      out a page that was held if and only if the new range wholly contains it. */
  lemma InitExposesIff(s: State, start: nat, end: nat, p: nat)
    requires Valid(s) && p in s.held
    ensures (exists n: nat :: NthAllocated(Init(s, start, end), n) == Some(p)) <==> Within(p, start, end)
  {
    hide Handed, Init, FreePages;
    var t := Init(s, start, end);
    StepValid(s, OpInit(start, end));
    InitAvailable(s, start, end);
    if Within(p, start, end) {
      assert p in PagesWithin(start, end, s.pages) by { assert p in AllPages(s.pages); }
      FreePageIsReached(t, p);
    } else {
      forall n: nat ensures NthAllocated(t, n) != Some(p) {
        if NthAllocated(t, n) == Some(p) { HandedAfterInit(s, start, end, Allocations(n + 1), n, p); }
      }
    }
  }

  lemma InitCanHandOutAHeldPage()
    ensures exists s: State, p: nat ::
      Valid(s) && p in s.held && Alloc(Init(s, 0, PAGE_SIZE)).1 == Some(p)
  {
    var s := Alloc(State(1, {}, {}, {}, 1)).0;
    assert AllPages(1) == {0};
    assert FreePages(State(1, {}, {}, {}, 1)) == {0};
    AllocValid(State(1, {}, {}, {}, 1));
    assert 0 in s.held;
    var t := Init(s, 0, PAGE_SIZE);
    assert PagesWithin(0, PAGE_SIZE, 1) == {0};
    assert t.unavailable == {};
    assert Alloc(t).1 == Some(0);
  }
}
