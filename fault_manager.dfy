/** The fault manager: the generated-code range registry (a singly linked list of nodes
    updated in place), the two ordered handler buckets, the `initialized_` lifecycle flag,
    and `HandleFault`, the entry point of the installed signal handler. Every operation
    is atomic in this model. */
module FaultManagement {
  import opened Words
  import opened Seqs
  import opened Failures
  import opened CodeRanges
  import opened Classifier
  import opened HandlerChain
  import opened Recognisers

  /** A registry node: an immutable `(start, size)` payload and a mutable forward link. */
  class RangeNode {
    const start: Word
    const size: Word
    var next: RangeNode?

    constructor (start: Word, size: Word)
      ensures this.start == start && this.size == size && next == null
    {
      this.start := start;
      this.size := size;
      next := null;
    }

    function Payload(): Range
    {
      Range(start, size)
    }
  }

  /** The payloads of a chain of nodes, in order. */
  function RangesOf(ns: seq<RangeNode>): seq<Range>
  {
    seq(|ns|, i requires 0 <= i < |ns| => ns[i].Payload())
  }

  /** `ns` is a null-terminated chain: each node is linked to the next. */
  ghost predicate Linked(ns: seq<RangeNode>)
    reads ns
  {
    forall i {:trigger ns[i].next} :: 0 <= i < |ns| ==> ns[i].next == if i + 1 < |ns| then ns[i + 1] else null
  }

  /** No node occurs twice in `ns`. */
  ghost predicate Distinct(ns: seq<RangeNode>)
  {
    forall i, j :: 0 <= i < j < |ns| ==> ns[i] != ns[j]
  }

  lemma RemoveAtKeepsDistinct(ns: seq<RangeNode>, k: nat)
    requires k < |ns| && Distinct(ns)
    ensures Distinct(RemoveAt(ns, k))
  {
    var rs := RemoveAt(ns, k);
    forall a, b | 0 <= a < b < |rs| ensures rs[a] != rs[b] {
      var a', b' := if a < k then a else a + 1, if b < k then b else b + 1;
      assert rs[a] == ns[a'] && rs[b] == ns[b'];
    }
  }

  lemma LinkedNext(ns: seq<RangeNode>, i: nat)
    requires Linked(ns) && i < |ns|
    ensures ns[i].next == if i + 1 < |ns| then ns[i + 1] else null
  {
  }

  /** After the predecessor of node `i` is redirected past it, the remaining nodes are
      linked in order. */
  lemma UnlinkKeepsLinked(was: seq<RangeNode>, i: nat)
    requires i < |was|
    requires i > 0 ==> was[i - 1].next == if i + 1 < |was| then was[i + 1] else null
    requires forall j {:trigger was[j].next} :: 0 <= j < |was| && j != i - 1 ==>
               was[j].next == if j + 1 < |was| then was[j + 1] else null
    ensures Linked(RemoveAt(was, i))
  {
    var ns := RemoveAt(was, i);
    forall j | 0 <= j < |ns| ensures ns[j].next == if j + 1 < |ns| then ns[j + 1] else null {
      if j < i - 1 {
        assert ns[j] == was[j] && ns[j + 1] == was[j + 1];
        assert was[j].next == was[j + 1];
      } else if j == i - 1 {
        assert ns[j] == was[j];
      } else {
        assert ns[j] == was[j + 1];
        assert was[j + 1].next == if j + 2 < |was| then was[j + 2] else null;
      }
    }
  }

  lemma RangesOfRemoveAt(ns: seq<RangeNode>, k: nat)
    requires k < |ns|
    ensures RangesOf(RemoveAt(ns, k)) == RemoveAt(RangesOf(ns), k)
  {
    var a, b := RangesOf(RemoveAt(ns, k)), RemoveAt(RangesOf(ns), k);
    assert |a| == |b|;
    forall i | 0 <= i < |a| ensures a[i] == b[i] {
      if i < k {
        assert a[i] == ns[i].Payload();
      } else {
        assert a[i] == ns[i + 1].Payload();
      }
    }
  }

  /** The concrete fault handlers; all but the stack-trace handler register themselves in
      the generated-code bucket. */
  datatype HandlerKind = NullPointer | Suspension | StackOverflow | JavaStackTrace
  {
    predicate ForGeneratedCode()
    {
      this != JavaStackTrace
    }
  }

  /** What handler `h`'s `Action` decides for `fault`. The stack-trace handler's action is
      modelled in full; the other handlers' actions are defined in architecture-specific
      code and are given by the oracle `claims`. */
  function Act(h: FaultHandler, fault: Fault, inGeneratedCode: bool, claims: (FaultHandler, Fault) -> bool): (v: Verdict)
    ensures v == Claimed ==> h.kind != JavaStackTrace && claims(h, fault)
    ensures v.Failed? <==> h.kind == JavaStackTrace && inGeneratedCode && fault.sp == 0
  {
    if h.kind == JavaStackTrace then JavaStackTraceAction(inGeneratedCode, fault.sp).verdict
    else if claims(h, fault) then Claimed
    else Declined
  }

  function ActionOf(fault: Fault, inGeneratedCode: bool, claims: (FaultHandler, Fault) -> bool): FaultHandler -> Verdict
  {
    (h: FaultHandler) => Act(h, fault, inGeneratedCode, claims)
  }

  /** A fault reported handled was claimed by the last handler invoked, which is never the
      stack-trace handler and which the oracle says claims the fault. */
  lemma HandledOnlyByClaimant(generated: seq<FaultHandler>, other: seq<FaultHandler>, inGeneratedCode: bool,
                              fault: Fault, claims: (FaultHandler, Fault) -> bool)
    ensures var r := Dispatch(generated, other, inGeneratedCode, ActionOf(fault, inGeneratedCode, claims));
            r.0 == Handled ==>
              && |r.1| > 0
              && r.1[|r.1| - 1].kind != JavaStackTrace
              && claims(r.1[|r.1| - 1], fault)
  {
    var act := ActionOf(fault, inGeneratedCode, claims);
    var c := Candidates(generated, other, inGeneratedCode);
    DispatchIsOneScan(generated, other, inGeneratedCode, act);
    var r := Scan(c, act);
    if r.0 == Handled {
      var h := r.1[|r.1| - 1];
      assert act(h) == Claimed;
      assert Act(h, fault, inGeneratedCode, claims) == Claimed;
    }
  }

  /** A fault handler; it keeps a fixed reference to the manager it registered with. */
  class FaultHandler {
    const manager: FaultManager
    const kind: HandlerKind

    /** The constructors of the concrete handlers: each registers itself with its manager,
        in the bucket its kind selects. */
    constructor (manager: FaultManager, kind: HandlerKind)
      requires manager.Valid() && manager.initialized
      modifies manager
      ensures this.manager == manager && this.kind == kind
      ensures manager.Valid() && manager.initialized
      ensures manager.generatedHandlers == old(manager.generatedHandlers) + (if kind.ForGeneratedCode() then [this] else [])
      ensures manager.otherHandlers == old(manager.otherHandlers) + (if kind.ForGeneratedCode() then [] else [this])
      ensures manager.head == old(manager.head) && manager.nodes == old(manager.nodes)
    {
      this.manager := manager;
      this.kind := kind;
      new;
      manager.AddHandler(this, kind.ForGeneratedCode());
    }

    /** `Action`: whether this handler handled the fault. The stack-trace handler asks its
        manager's classifier, dumps the stack when in generated code, and declines. */
    method Action(current: Option<Thread>, fault: Fault, claims: (FaultHandler, Fault) -> bool) returns (v: Verdict)
      requires manager.Valid()
      ensures v == Act(this, fault, Classify(current, fault.pc, manager.Ranges()), claims)
      ensures kind == JavaStackTrace ==> v != Claimed
    {
      if kind == JavaStackTrace {
        var inGeneratedCode, _, _ := manager.IsInGeneratedCode(current, fault);
        var action := JavaStackTraceAction(inGeneratedCode, fault.sp);
        v := action.verdict;
      } else {
        v := if claims(this, fault) then Claimed else Declined;
      }
    }
  }

  class FaultManager {
    /** Head of the generated-code range list (`generated_code_ranges_`). */
    var head: RangeNode?
    /** The nodes reachable from `head`, in list order. */
    ghost var nodes: seq<RangeNode>
    var generatedHandlers: seq<FaultHandler>
    var otherHandlers: seq<FaultHandler>
    var initialized: bool

    ghost predicate Valid()
      reads this, nodes
    {
      && head == (if |nodes| == 0 then null else nodes[0])
      && Linked(nodes) && Distinct(nodes)
      && (forall h :: h in generatedHandlers ==> h.manager == this)
      && (forall h :: h in otherHandlers ==> h.manager == this)
    }

    /** The registered ranges, newest first. */
    ghost function Ranges(): seq<Range>
      reads this
    {
      RangesOf(nodes)
    }

    constructor ()
      ensures Valid() && !initialized
      ensures Ranges() == [] && generatedHandlers == [] && otherHandlers == []
    {
      head := null;
      nodes := [];
      generatedHandlers := [];
      otherHandlers := [];
      initialized := false;
    }

    /** `Init`: claim the fault signal. Initializing twice is a fatal check failure. */
    method Init() returns (s: Status)
      requires Valid()
      modifies this
      ensures Valid() && initialized
      ensures s == if old(initialized) then Fatal(AlreadyInitialized) else Ok
      ensures head == old(head) && nodes == old(nodes)
      ensures generatedHandlers == old(generatedHandlers) && otherHandlers == old(otherHandlers)
    {
      if initialized {
        return Fatal(AlreadyInitialized);
      }
      initialized := true;
      s := Ok;
    }

    /** `Release`: unclaim the signal; handlers and ranges stay registered. */
    method Release()
      requires Valid()
      modifies this
      ensures Valid() && !initialized
      ensures head == old(head) && nodes == old(nodes)
      ensures generatedHandlers == old(generatedHandlers) && otherHandlers == old(otherHandlers)
    {
      if initialized {
        initialized := false;
      }
    }

    /** `Shutdown`: when initialized, release, free every handler, detach the range list
        and free its nodes one by one; otherwise do nothing. Returns the freed objects. */
    method Shutdown() returns (ghost freedHandlers: seq<FaultHandler>, ghost freedRanges: seq<RangeNode>)
      requires Valid()
      modifies this
      ensures Valid() && !initialized
      ensures old(initialized) ==>
                && generatedHandlers == [] && otherHandlers == [] && Ranges() == []
                && freedHandlers == old(generatedHandlers) + old(otherHandlers)
                && freedRanges == old(nodes)
      ensures !old(initialized) ==>
                && head == old(head) && nodes == old(nodes)
                && generatedHandlers == old(generatedHandlers) && otherHandlers == old(otherHandlers)
                && freedHandlers == [] && freedRanges == []
    {
      freedHandlers, freedRanges := [], [];
      if initialized {
        Release();
        freedHandlers := generatedHandlers + otherHandlers;
        generatedHandlers, otherHandlers := [], [];
        var range := head;
        ghost var chain := nodes;
        head := null;
        nodes := [];
        while range != null
          invariant |freedRanges| <= |chain|
          invariant freedRanges == chain[..|freedRanges|]
          invariant range == if |freedRanges| < |chain| then chain[|freedRanges|] else null
          invariant Linked(chain)
          decreases |chain| - |freedRanges|
          modifies {}
        {
          LinkedNext(chain, |freedRanges|);
          var nextRange := range.next;
          freedRanges := freedRanges + [range];
          range := nextRange;
        }
      }
    }

    /** `AddHandler`: append to the generated-code bucket when `generatedCode`, otherwise
        to the other bucket. */
    method AddHandler(handler: FaultHandler, generatedCode: bool)
      requires Valid() && initialized && handler.manager == this
      modifies this
      ensures Valid() && initialized
      ensures generatedHandlers == old(generatedHandlers) + (if generatedCode then [handler] else [])
      ensures otherHandlers == old(otherHandlers) + (if generatedCode then [] else [handler])
      ensures head == old(head) && nodes == old(nodes)
    {
      if generatedCode {
        generatedHandlers := generatedHandlers + [handler];
      } else {
        otherHandlers := otherHandlers + [handler];
      }
    }

    /** `RemoveHandler`: erase the first occurrence from the generated-code bucket if it is
        there, else from the other bucket; a handler in neither is a fatal error. */
    method RemoveHandler(handler: FaultHandler) returns (s: Status)
      requires Valid()
      modifies this
      ensures Valid()
      ensures handler in old(generatedHandlers) ==>
                && s == Ok
                && generatedHandlers == EraseFirst(old(generatedHandlers), handler)
                && otherHandlers == old(otherHandlers)
      ensures handler !in old(generatedHandlers) && handler in old(otherHandlers) ==>
                && s == Ok
                && generatedHandlers == old(generatedHandlers)
                && otherHandlers == EraseFirst(old(otherHandlers), handler)
      ensures handler !in old(generatedHandlers) && handler !in old(otherHandlers) ==>
                && s == Fatal(HandlerNotFound)
                && generatedHandlers == old(generatedHandlers) && otherHandlers == old(otherHandlers)
      ensures head == old(head) && nodes == old(nodes) && initialized == old(initialized)
    {
      var i := IndexOf(generatedHandlers, handler);
      if i < |generatedHandlers| {
        generatedHandlers := RemoveAt(generatedHandlers, i);
        return Ok;
      }
      var j := IndexOf(otherHandlers, handler);
      if j < |otherHandlers| {
        otherHandlers := RemoveAt(otherHandlers, j);
        return Ok;
      }
      s := Fatal(HandlerNotFound);
    }

    /** `AddGeneratedCodeRange`: link a new node at the head of the list. */
    method AddGeneratedCodeRange(start: Word, size: Word)
      requires Valid()
      modifies this
      ensures Valid()
      ensures Ranges() == [Range(start, size)] + old(Ranges())
      ensures |nodes| == |old(nodes)| + 1 && fresh(nodes[0]) && nodes[1..] == old(nodes)
      ensures generatedHandlers == old(generatedHandlers) && otherHandlers == old(otherHandlers)
      ensures initialized == old(initialized)
    {
      var newRange := new RangeNode(start, size);
      newRange.next := head;
      head := newRange;
      nodes := [newRange] + nodes;
      assert nodes[1..] == old(nodes);
      assert Linked(nodes) by {
        forall j | 0 <= j < |nodes|
          ensures nodes[j].next == if j + 1 < |nodes| then nodes[j + 1] else null
        {
          if j > 0 {
            assert nodes[j] == old(nodes)[j - 1];
            LinkedNext(old(nodes), j - 1);
          }
        }
      }
      assert Ranges() == [Range(start, size)] + old(Ranges()) by {
        forall i | 0 <= i < |nodes| ensures Ranges()[i] == ([Range(start, size)] + old(Ranges()))[i] {
          if i > 0 {
            assert nodes[i] == old(nodes)[i - 1];
          }
        }
      }
    }

    /** `RemoveGeneratedCodeRange`: walk from the head to the first node whose start
        matches and unlink it, leaving its own `next` link in place. A start that is not
        registered, or a registered size that differs from `size`, is a fatal error; the
        size is checked after the node is unlinked. */
    method RemoveGeneratedCodeRange(start: Word, size: Word) returns (s: Status, ghost removed: RangeNode?)
      requires Valid()
      modifies this, nodes
      ensures Valid()
      ensures Ranges() == AfterRemove(old(Ranges()), start)
      ensures var k := FindStart(old(Ranges()), start);
              && (k == |old(nodes)| ==> s == Fatal(RangeNotFound) && removed == null && nodes == old(nodes))
              && (k < |old(nodes)| ==>
                    && removed == old(nodes)[k]
                    && nodes == RemoveAt(old(nodes), k)
                    && removed.next == (if k + 1 < |old(nodes)| then old(nodes)[k + 1] else null)
                    && s == if old(nodes)[k].size == size then Ok else Fatal(RangeSizeMismatch))
      ensures generatedHandlers == old(generatedHandlers) && otherHandlers == old(otherHandlers)
      ensures initialized == old(initialized)
    {
      // `prev == null` stands for `before` pointing at the list head itself.
      var prev: RangeNode? := null;
      var range := head;
      ghost var i := 0;
      while range != null && range.start != start
        invariant 0 <= i <= |nodes|
        invariant range == if i < |nodes| then nodes[i] else null
        invariant prev == if i == 0 then null else nodes[i - 1]
        invariant forall j :: 0 <= j < i ==> nodes[j].start != start
        decreases |nodes| - i
        modifies {}
      {
        LinkedNext(nodes, i);
        prev := range;
        range := range.next;
        i := i + 1;
      }
      FindStartAt(Ranges(), start, i);
      removed := range;
      if range != null {
        ghost var was := nodes;
        LinkedNext(was, i);
        var next := range.next;
        if prev == null {
          head := next;
        } else {
          prev.next := next;
        }
        nodes := RemoveAt(nodes, i);
        RangesOfRemoveAt(was, i);
        assert head == (if |nodes| == 0 then null else nodes[0]) by {
          if i == 0 {
            assert next == if 1 < |was| then was[1] else null;
          } else {
            assert head == was[0] && nodes[0] == was[0];
          }
        }
        RemoveAtKeepsDistinct(was, i);
        forall j | 0 <= j < |was| && j != i - 1
          ensures was[j].next == if j + 1 < |was| then was[j + 1] else null
        {
          assert old(was[j].next) == if j + 1 < |was| then was[j + 1] else null;
          if i > 0 {
            assert was[j] != was[i - 1];
          }
        }
        UnlinkKeepsLinked(was, i);
      }
      if range == null {
        return Fatal(RangeNotFound), removed;
      }
      if range.size != size {
        return Fatal(RangeSizeMismatch), removed;
      }
      // The checkpoint that waits for in-flight walks and the deletion are outside the model.
      s := Ok;
    }

    /** `IsInGeneratedCode`: the fast-reject checks in order, then the walk over the range
        list with the single wraparound bounds test. `rejected` is the check that returned
        early, if any, and `visited` the number of nodes the walk tested: none after a
        rejection, up to and including the first containing node, or all of them. */
    method IsInGeneratedCode(current: Option<Thread>, fault: Fault)
      returns (b: bool, ghost rejected: Option<Reject>, ghost visited: nat)
      requires Valid()
      ensures b == Classify(current, fault.pc, Ranges())
      ensures rejected == FastReject(current, fault.pc)
      ensures rejected.Some? ==> !b && visited == 0
      ensures rejected.None? ==> b == Covers(Ranges(), fault.pc)
      ensures rejected.None? ==> visited <= |Ranges()|
      ensures rejected.None? ==> forall j :: 0 <= j < visited - 1 ==> !Contains(Ranges()[j], fault.pc)
      ensures rejected.None? && b ==> 0 < visited && Contains(Ranges()[visited - 1], fault.pc)
      ensures rejected.None? && !b ==> visited == |Ranges()|
    {
      CoversIff(Ranges(), fault.pc);
      visited := 0;
      if current.None? {
        return false, Some(NoCurrentThread), visited;
      }
      if current.value.state != Runnable {
        return false, Some(NotRunnable), visited;
      }
      if !current.value.holdsMutatorShared {
        return false, Some(NoMutatorLock), visited;
      }
      var faultPc := fault.pc;
      if faultPc == 0 {
        return false, Some(NoFaultPc), visited;
      }
      AllPass(current.value, faultPc);
      rejected := None;
      var range := head;
      while range != null
        invariant 0 <= visited <= |nodes|
        invariant range == if visited < |nodes| then nodes[visited] else null
        invariant forall j :: 0 <= j < visited ==> !Contains(Ranges()[j], faultPc)
        decreases |nodes| - visited
      {
        if WrapSub(faultPc, range.start) < range.size {
          assert Contains(Ranges()[visited], faultPc);
          return true, rejected, visited + 1;
        }
        LinkedNext(nodes, visited);
        range := range.next;
        visited := visited + 1;
      }
      b := false;
    }

    /** `HandleFaultByOtherHandlers`: the first-match loop over the other bucket. */
    method HandleFaultByOtherHandlers(current: Option<Thread>, fault: Fault, claims: (FaultHandler, Fault) -> bool)
      returns (r: FaultResult, ghost invoked: seq<FaultHandler>)
      requires Valid()
      ensures r == Scan(otherHandlers, ActionOf(fault, Classify(current, fault.pc, Ranges()), claims)).0
      ensures invoked == Scan(otherHandlers, ActionOf(fault, Classify(current, fault.pc, Ranges()), claims)).1
    {
      ghost var act := ActionOf(fault, Classify(current, fault.pc, Ranges()), claims);
      invoked := [];
      if |otherHandlers| == 0 {
        ScanStopsAt(otherHandlers, act, 0);
        return Unhandled, invoked;
      }
      var i := 0;
      while i < |otherHandlers|
        invariant 0 <= i <= |otherHandlers|
        invariant invoked == otherHandlers[..i]
        invariant forall j :: 0 <= j < i ==> act(otherHandlers[j]) == Declined
      {
        var h := otherHandlers[i];
        var v := h.Action(current, fault, claims);
        assert otherHandlers[..i] + [h] == otherHandlers[..i + 1];
        invoked := invoked + [h];
        assert h in otherHandlers && act(h) == v;
        if v != Declined {
          ScanStopsAt(otherHandlers, act, i);
          return Conclude(v), invoked;
        }
        i := i + 1;
      }
      ScanStopsAt(otherHandlers, act, i);
      assert otherHandlers[..i] == otherHandlers;
      r := Unhandled;
    }

    /** `HandleFault`: the generated-code handlers in order, only when the fault is in
        generated code, then the other handlers; the first handler that does not decline
        decides. */
    method HandleFault(current: Option<Thread>, fault: Fault, claims: (FaultHandler, Fault) -> bool)
      returns (r: FaultResult, ghost invoked: seq<FaultHandler>)
      requires Valid()
      ensures var inGeneratedCode := Classify(current, fault.pc, Ranges());
              r == Dispatch(generatedHandlers, otherHandlers, inGeneratedCode,
                            ActionOf(fault, inGeneratedCode, claims)).0
      ensures var inGeneratedCode := Classify(current, fault.pc, Ranges());
              invoked == Dispatch(generatedHandlers, otherHandlers, inGeneratedCode,
                                  ActionOf(fault, inGeneratedCode, claims)).1
    {
      var inGeneratedCode, _, _ := IsInGeneratedCode(current, fault);
      ghost var act := ActionOf(fault, inGeneratedCode, claims);
      invoked := [];
      if inGeneratedCode {
        var i := 0;
        while i < |generatedHandlers|
          invariant 0 <= i <= |generatedHandlers|
          invariant invoked == generatedHandlers[..i]
          invariant forall j :: 0 <= j < i ==> act(generatedHandlers[j]) == Declined
        {
          var h := generatedHandlers[i];
          var v := h.Action(current, fault, claims);
          assert generatedHandlers[..i] + [h] == generatedHandlers[..i + 1];
          invoked := invoked + [h];
          assert h in generatedHandlers && act(h) == v;
          if v != Declined {
            ScanStopsAt(generatedHandlers, act, i);
            return Conclude(v), invoked;
          }
          i := i + 1;
        }
        ScanStopsAt(generatedHandlers, act, i);
        assert generatedHandlers[..i] == generatedHandlers;
      }
      ghost var tried;
      r, tried := HandleFaultByOtherHandlers(current, fault, claims);
      invoked := invoked + tried;
    }
  }
}
