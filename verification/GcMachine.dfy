/** Whole runs: any mix of allocations, writes to objects and collections. */
module GcMachine {
  import opened Cells
  import opened SizeClasses
  import opened HeapModel
  import opened Marking
  import opened Sweeping
  import opened Allocator
  import opened Scanning

  /** The heap and what the objects in it point to; or a heap that has been used wrongly, by a list outside
      the table, a wrong cell size, a cell smaller than asked for or a missing page record, about which
      nothing is known. */
  datatype Machine = Machine(heap: Heap, contents: Contents) | Broken

  datatype Op =
    | AllocOp(size: bv64, os: Os)
    | WriteOp(at: Ref, pointers: seq<Ref>)
    | CollectOp(words: seq<nat>)

  ghost predicate MachineOk(m: Machine) {
    m.Machine? ==> HeapOk(m.heap) && Consistent(m.heap, m.contents)
  }

  /** What may happen next: the system maps only unused memory, and a program writes only pointers to objects
      it can name. It may ask for any number of bytes, and a collection may find any words. */
  ghost predicate Enabled(m: Machine, op: Op) {
    m.Machine? ==>
      match op
      case AllocOp(size, os) => OsOk(m.heap, os, Bytes(size))
      case WriteOp(at, ps) => at in m.contents && forall i :: 0 <= i < |ps| ==> ps[i] in m.contents
      case CollectOp(_) => true
  }

  /** A cell for the program, nothing if there is no memory, or a use of the heap that breaks it. */
  ghost function AfterAlloc(m: Machine, r: AllocResult, size: nat): Machine
    requires m.Machine?
  {
    if r.Failed? then m
    else if Served(r, size) then Machine(r.heap, m.contents[r.ref := []])
    else Broken
  }

  ghost function Next(m: Machine, op: Op): Machine
    requires MachineOk(m) && Enabled(m, op)
  {
    if m.Broken? then Broken else
      match op
      case AllocOp(size, os) => AfterAlloc(m, Alloc(m.heap, size, os), Bytes(size))
      case WriteOp(at, ps) => m.(contents := m.contents[at := ps])
      case CollectOp(words) =>
        if ScanWords(m.heap, Mark(m.heap.bits, []), words).Faulted? then Broken else
          var h := Collect(m.heap, m.contents, Hits(m.heap, words));
          Machine(h, map r | r in m.contents && r in Allocated(h) :: m.contents[r])
  }

  /** The steps that break the heap: a request of 2^31 bytes or more that finds memory, and a word in the page
      an arena would carve next. */
  ghost predicate Breaks(m: Machine, op: Op) {
    m.Machine? &&
    match op
    case AllocOp(size, os) => size >= 0x8000_0000 && !NoMemory(m.heap, Classify(size), os)
    case WriteOp(_, _) => false
    case CollectOp(words) => AnyInNextPage(m.heap, words)
  }

  lemma LiveIsAllocated(h: Heap)
    requires AllSettled(h)
    ensures forall r :: r in Allocated(h) <==> Live(h, r)
  {
    MacroFacts(h.white, h.black);
  }

  lemma AllocKeepsOk(m: Machine, size: bv64, os: Os)
    requires MachineOk(m) && m.Machine? && Enabled(m, AllocOp(size, os))
    ensures MachineOk(Next(m, AllocOp(size, os)))
    ensures Next(m, AllocOp(size, os)).Broken? <==> Breaks(m, AllocOp(size, os))
    ensures var m' := Next(m, AllocOp(size, os));
            m'.Machine? ==>
              forall r :: r in m'.contents ==> m'.contents[r] == if r in m.contents then m.contents[r] else []
  {
    hide HeapOk, OsOk, Alloc, NoMemory, Classify, Consistent, GoesNowhere, WrongSize, Grants, Apart, CellAddress,
      Collect, ScanWords, Hits, Allocated, Bytes;
    ServedExactly(m.heap, size, os);
    AllocIsSafe(m.heap, size, os);
    var r := Alloc(m.heap, size, os);
    if Served(r, Bytes(size)) {
      GrantKeepsConsistent(m.heap, m.contents, r.heap, r.ref);
      NewObject(m.heap, m.contents, r.heap, r.ref);
    }
  }

  lemma NewObject(h: Heap, contents: Contents, h': Heap, r: Ref)
    requires HeapOk(h) && Consistent(h, contents) && Grants(h, h', r)
    ensures r !in contents
  {
    hide Structure;
    LiveIsAllocated(h);
  }

  lemma GrantKeepsConsistent(h: Heap, contents: Contents, h': Heap, r: Ref)
    requires HeapOk(h) && Consistent(h, contents) && HeapOk(h') && Grants(h, h', r)
    ensures Consistent(h', contents[r := []])
  {
    hide Structure;
    LiveIsAllocated(h);
    LiveIsAllocated(h');
    assert contents[r := []].Keys == contents.Keys + {r};
  }

  /** A collection goes through exactly if no word lies in the page carved next. The objects after it are
      those reachable from the objects the words are addresses of. */
  lemma CollectKeepsOk(m: Machine, words: seq<nat>)
    requires MachineOk(m) && m.Machine?
    ensures MachineOk(Next(m, CollectOp(words)))
    ensures Next(m, CollectOp(words)).Broken? <==> Breaks(m, CollectOp(words))
    ensures Next(m, CollectOp(words)).Machine? ==>
              forall r :: r in Next(m, CollectOp(words)).contents
                          <==> Reachable(m.contents, Named(m.heap, m.contents, words), r)
  {
    hide Structure, AllSettled, Collect, Hits, AnyInNextPage, ScanWords;
    ScanIsMarking(m.heap, Mark(m.heap.bits, []), words);
    ConservativeCollectIsExact(m.heap, m.contents, words);
    var start := Named(m.heap, m.contents, words);
    var m' := Next(m, CollectOp(words));
    forall r | Reachable(m.contents, start, r) ensures r in m.contents {
      ReachableIsAllocated(m.contents, start, r);
    }
    if m'.Machine? {
      assert m'.contents.Keys == Allocated(m'.heap);
      forall r, i | r in m'.contents && 0 <= i < |m'.contents[r]| ensures m'.contents[r][i] in m'.contents {
        ReachableStep(m.contents, start, r, m'.contents[r][i]);
      }
    }
  }

  lemma NextKeepsOk(m: Machine, op: Op)
    requires MachineOk(m) && Enabled(m, op)
    ensures MachineOk(Next(m, op))
    ensures Next(m, op).Broken? <==> m.Broken? || Breaks(m, op)
  {
    if m.Machine? {
      match op
      case AllocOp(size, os) => AllocKeepsOk(m, size, os);
      case CollectOp(words) => CollectKeepsOk(m, words);
      case WriteOp(at, ps) =>
        hide Structure, AllSettled;
        assert Next(m, op).contents.Keys == m.contents.Keys;
    }
  }

  // ----- runs -----

  ghost predicate CanRun(m: Machine, ops: seq<Op>)
    requires MachineOk(m)
    decreases |ops|
  {
    ops == [] || (Enabled(m, ops[0]) && (NextKeepsOk(m, ops[0]); CanRun(Next(m, ops[0]), ops[1..])))
  }

  ghost function RunOps(m: Machine, ops: seq<Op>): Machine
    requires MachineOk(m) && CanRun(m, ops)
    decreases |ops|
  {
    if ops == [] then m else
      NextKeepsOk(m, ops[0]);
      RunOps(Next(m, ops[0]), ops[1..])
  }

  /** Some step of the run breaks the heap. */
  ghost predicate BreaksSomewhere(m: Machine, ops: seq<Op>)
    requires MachineOk(m) && CanRun(m, ops)
    decreases |ops|
  {
    ops != [] && (Breaks(m, ops[0]) || (NextKeepsOk(m, ops[0]); BreaksSomewhere(Next(m, ops[0]), ops[1..])))
  }

  const BOOT := Machine(EmptyHeap(), map[])

  lemma BootOk()
    ensures MachineOk(BOOT)
  {
    EmptyHeapOk();
    assert Allocated(EmptyHeap()) == {};
  }

  /** A run ends with a broken heap exactly if one of its steps breaks it. At the end of every other run each
      allocated cell carries the current white colour and each free cell is exactly free, although the masks
      swap at every collection; every page is on exactly one list with a right count; and no object points to
      a free cell. */
  lemma {:induction false} EveryRunKeepsTheHeap(m: Machine, ops: seq<Op>)
    requires MachineOk(m) && CanRun(m, ops)
    ensures MachineOk(RunOps(m, ops))
    ensures RunOps(m, ops).Broken? <==> m.Broken? || BreaksSomewhere(m, ops)
    decreases |ops|
  {
    hide MachineOk, Enabled, Breaks, Next;
    if ops != [] {
      NextKeepsOk(m, ops[0]);
      EveryRunKeepsTheHeap(Next(m, ops[0]), ops[1..]);
    }
  }

  /** Whenever the run collects, `r` is reachable from an object whose address is among the words. */
  ghost predicate HeldThroughout(m: Machine, ops: seq<Op>, r: Ref)
    requires MachineOk(m) && CanRun(m, ops)
    decreases |ops|
  {
    ops == [] ||
    (&& (ops[0].CollectOp? && m.Machine? ==> Reachable(m.contents, Named(m.heap, m.contents, ops[0].words), r))
     && (NextKeepsOk(m, ops[0]); HeldThroughout(Next(m, ops[0]), ops[1..], r)))
  }

  /** What the run leaves in `r`, which held `ps`: the last thing written to it. */
  function LastWrite(ops: seq<Op>, r: Ref, ps: seq<Ref>): seq<Ref> {
    if ops == [] then ps
    else LastWrite(ops[1..], r, if ops[0].WriteOp? && ops[0].at == r then ops[0].pointers else ps)
  }

  /** No object is lost by a run that does not break the heap: one that is reachable at every collection is
      still there at the end, in the same place, and points where the program last made it point. */
  lemma {:induction false} HeldObjectsSurvive(m: Machine, ops: seq<Op>, r: Ref)
    requires MachineOk(m) && CanRun(m, ops) && m.Machine? && r in m.contents && HeldThroughout(m, ops, r)
    requires !BreaksSomewhere(m, ops)
    ensures var m' := RunOps(m, ops);
            && m'.Machine? && r in m'.contents && r.page < |m.heap.pages| && r.page < |m'.heap.pages|
            && CellAddress(m'.heap, r) == CellAddress(m.heap, r)
            && m'.contents[r] == LastWrite(ops, r, m.contents[r])
    decreases |ops|
  {
    hide Structure, AllSettled, Reachable, Breaks, Next, Enabled;
    KnownPage(m, r);
    if ops != [] {
      NextKeepsOk(m, ops[0]);
      NextKeepsHeld(m, ops[0], r);
      HeldObjectsSurvive(Next(m, ops[0]), ops[1..], r);
    }
  }

  lemma KnownPage(m: Machine, r: Ref)
    requires MachineOk(m) && m.Machine? && r in m.contents
    ensures Has(m.heap.bits, r) && r.page < |m.heap.pages|
  {
    assert PagesOk(m.heap);
  }

  /** `r` is in `m'` where it was in `m`. */
  ghost predicate StillThere(m: Machine, m': Machine, r: Ref) {
    && m.Machine? && m'.Machine? && r in m.contents && r in m'.contents
    && r.page < |m.heap.pages| && r.page < |m'.heap.pages| && CellAddress(m'.heap, r) == CellAddress(m.heap, r)
  }

  lemma NextKeepsHeld(m: Machine, op: Op, r: Ref)
    requires MachineOk(m) && m.Machine? && Enabled(m, op) && r in m.contents && Next(m, op).Machine?
    requires op.CollectOp? ==> Reachable(m.contents, Named(m.heap, m.contents, op.words), r)
    ensures StillThere(m, Next(m, op), r)
    ensures Next(m, op).contents[r] == if op.WriteOp? && op.at == r then op.pointers else m.contents[r]
  {
    match op {
      case AllocOp(size, os) =>
        hide Next, StillThere, MachineOk;
        AllocKeepsHeld(m, size, os, r);
      case CollectOp(words) =>
        hide Next, StillThere, MachineOk;
        CollectKeepsHeld(m, words, r);
      case WriteOp(_, _) =>
        KnownPage(m, r);
    }
  }

  lemma AllocKeepsHeld(m: Machine, size: bv64, os: Os, r: Ref)
    requires MachineOk(m) && m.Machine? && Enabled(m, AllocOp(size, os)) && r in m.contents
    requires Next(m, AllocOp(size, os)).Machine?
    ensures StillThere(m, Next(m, AllocOp(size, os)), r)
    ensures Next(m, AllocOp(size, os)).contents[r] == m.contents[r]
  {
    hide HeapOk, OsOk, Alloc, GoesNowhere, WrongSize, NoMemory, Apart, Classify, Served, Grants, CellAddress,
      Consistent, Bytes, Collect, ScanWords, Hits, Allocated;
    KnownPage(m, r);
    AllocIsSafe(m.heap, size, os);
    var t := Alloc(m.heap, size, os);
    if t.Got? {
      GrantKeepsOthers(m, t.heap, t.ref, r);
    }
    assert Next(m, AllocOp(size, os)) == AfterAlloc(m, t, Bytes(size));
    AfterAllocIs(m, t, Bytes(size));
  }

  lemma AfterAllocIs(m: Machine, t: AllocResult, size: nat)
    requires m.Machine? && AfterAlloc(m, t, size).Machine?
    ensures AfterAlloc(m, t, size) == m
         || (t.Got? && AfterAlloc(m, t, size) == Machine(t.heap, m.contents[t.ref := []]))
  {
  }

  lemma GrantKeepsOthers(m: Machine, h: Heap, granted: Ref, r: Ref)
    requires MachineOk(m) && m.Machine? && HeapOk(h) && Grants(m.heap, h, granted) && r in m.contents
    ensures r != granted && r.page < |m.heap.pages| && r.page < |h.pages|
    ensures CellAddress(h, r) == CellAddress(m.heap, r)
  {
    hide Structure;
    KnownPage(m, r);
    LiveIsAllocated(m.heap);
    assert Live(m.heap, r) && Live(h, r);
  }

  lemma CollectKeepsHeld(m: Machine, words: seq<nat>, r: Ref)
    requires MachineOk(m) && m.Machine? && r in m.contents && Next(m, CollectOp(words)).Machine?
    requires Reachable(m.contents, Named(m.heap, m.contents, words), r)
    ensures StillThere(m, Next(m, CollectOp(words)), r)
    ensures Next(m, CollectOp(words)).contents[r] == m.contents[r]
  {
    hide Structure, AllSettled, Collect, Hits, Reachable, Consistent, ScanWords;
    KnownPage(m, r);
    ConservativeCollectIsExact(m.heap, m.contents, words);
  }
}
