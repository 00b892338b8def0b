/** The first-match-wins dispatch of `HandleFault` over the two ordered handler buckets,
    stated over any handler type `H` and the verdict each handler's `Action` gives. */
module HandlerChain {
  import opened Seqs
  import opened Failures

  /** What one handler's `Action` does with a fault: claims it, declines it, or fails a
      fatal check (which ends the process). */
  datatype Verdict = Claimed | Declined | Failed(reason: AbortReason)

  /** What `HandleFault` reports: handled (true), unhandled (false), or the process
      aborted inside a handler. */
  datatype FaultResult = Handled | Unhandled | Crashed(reason: AbortReason)

  /** A verdict that stops the scan of a bucket. */
  function Decisive<H>(act: H -> Verdict): H -> bool
  {
    h => act(h) != Declined
  }

  function Conclude(v: Verdict): FaultResult
  {
    match v
    case Claimed => Handled
    case Declined => Unhandled
    case Failed(why) => Crashed(why)
  }

  /** One first-match loop over a bucket: invoke each handler's `Action` in order and stop
      at the first that does not decline. Returns the result and the handlers invoked. */
  function Scan<H>(hs: seq<H>, act: H -> Verdict): (r: (FaultResult, seq<H>))
    ensures |r.1| <= |hs| && r.1 == hs[..|r.1|]
    ensures r.0 == Unhandled <==> forall j :: 0 <= j < |hs| ==> act(hs[j]) == Declined
    ensures r.0 == Unhandled ==> r.1 == hs
    ensures r.0 != Unhandled ==>
              && |r.1| > 0 && r.0 == Conclude(act(r.1[|r.1| - 1]))
              && forall j :: 0 <= j < |r.1| - 1 ==> act(r.1[j]) == Declined
  {
    var k := FirstWhere(hs, Decisive(act));
    if k == |hs| then (Unhandled, hs)
    else
      assert hs[..k + 1][k] == hs[k];
      (Conclude(act(hs[k])), hs[..k + 1])
  }

  /** A scan stops at the first handler that does not decline. */
  lemma ScanStopsAt<H>(hs: seq<H>, act: H -> Verdict, k: nat)
    requires k <= |hs|
    requires forall j :: 0 <= j < k ==> act(hs[j]) == Declined
    requires k < |hs| ==> act(hs[k]) != Declined
    ensures Scan(hs, act) == if k == |hs| then (Unhandled, hs) else (Conclude(act(hs[k])), hs[..k + 1])
  {
    FirstWhereUnique(hs, Decisive(act), k);
  }

  /** `HandleFault`: the generated-code bucket only when the fault is in generated code,
      then, unless a generated-code handler decided, the other bucket. */
  function Dispatch<H>(generated: seq<H>, other: seq<H>, inGeneratedCode: bool, act: H -> Verdict): (r: (FaultResult, seq<H>))
    ensures !inGeneratedCode ==> r == Scan(other, act)
    ensures inGeneratedCode && Scan(generated, act).0 != Unhandled ==> r == Scan(generated, act)
    ensures inGeneratedCode && Scan(generated, act).0 == Unhandled ==>
              r.0 == Scan(other, act).0 && r.1 == generated + Scan(other, act).1
  {
    var first := if inGeneratedCode then Scan(generated, act) else (Unhandled, []);
    if first.0 != Unhandled then first
    else
      assert inGeneratedCode ==> first.1 == generated;
      var second := Scan(other, act);
      assert !inGeneratedCode ==> first.1 + second.1 == second.1;
      (second.0, first.1 + second.1)
  }

  /** The handlers `HandleFault` may consult, in priority order. */
  function Candidates<H>(generated: seq<H>, other: seq<H>, inGeneratedCode: bool): seq<H>
  {
    (if inGeneratedCode then generated else []) + other
  }

  /** The two loops of `HandleFault` behave as one first-match scan over the generated
      bucket (only in generated code) followed by the other bucket. */
  lemma DispatchIsOneScan<H>(generated: seq<H>, other: seq<H>, inGeneratedCode: bool, act: H -> Verdict)
    ensures Dispatch(generated, other, inGeneratedCode, act) == Scan(Candidates(generated, other, inGeneratedCode), act)
  {
    var c := Candidates(generated, other, inGeneratedCode);
    if !inGeneratedCode {
      assert c == other;
      var second := Scan(other, act);
      assert [] + second.1 == second.1;
    } else {
      var p := Decisive(act);
      FirstWhereAppend(generated, other, p);
      var fg := FirstWhere(generated, p);
      if fg < |generated| {
        assert c[fg] == generated[fg];
        assert c[..fg + 1] == generated[..fg + 1];
      } else {
        var fo := FirstWhere(other, p);
        if fo == |other| {
          assert FirstWhere(c, p) == |c|;
        } else {
          assert c[|generated| + fo] == other[fo];
          assert c[..|generated| + fo + 1] == generated + other[..fo + 1];
        }
      }
    }
  }

  /** Handled exactly when some candidate claims the fault and every candidate before it
      declined. */
  lemma ScanHandledIff<H>(hs: seq<H>, act: H -> Verdict)
    ensures Scan(hs, act).0 == Handled <==>
              exists k :: 0 <= k < |hs| && act(hs[k]) == Claimed && forall j :: 0 <= j < k ==> act(hs[j]) == Declined
  {
    var r := Scan(hs, act);
    if r.0 == Handled {
      var k := |r.1| - 1;
      assert hs[k] == r.1[k];
      forall j | 0 <= j < k ensures act(hs[j]) == Declined {
        assert hs[j] == r.1[j];
      }
    }
    if exists k :: 0 <= k < |hs| && act(hs[k]) == Claimed && forall j :: 0 <= j < k ==> act(hs[j]) == Declined {
      var k :| 0 <= k < |hs| && act(hs[k]) == Claimed && forall j :: 0 <= j < k ==> act(hs[j]) == Declined;
      FirstWhereUnique(hs, Decisive(act), k);
    }
  }

  /** First match wins: once the handler at position `i` claims the fault, no handler after
      it is invoked. */
  lemma FirstRegisteredWins<H>(hs: seq<H>, act: H -> Verdict, i: nat)
    requires i < |hs| && act(hs[i]) == Claimed
    ensures Scan(hs, act).0 != Unhandled
    ensures |Scan(hs, act).1| <= i + 1
  {
    var k := FirstWhere(hs, Decisive(act));
    assert Decisive(act)(hs[i]);
    assert k <= i;
  }

  /** `HandleFault` reports the fault handled exactly when, among the candidates in
      priority order, the first handler that does not decline claims it; it reports it
      unhandled exactly when every candidate declines. Outside generated code no
      generated-code handler is invoked: the handlers invoked are a prefix of the candidates. */
  lemma DispatchOutcome<H>(generated: seq<H>, other: seq<H>, inGeneratedCode: bool, act: H -> Verdict)
    ensures var c := Candidates(generated, other, inGeneratedCode);
            var r := Dispatch(generated, other, inGeneratedCode, act);
            && (r.0 == Handled <==>
                  exists k :: 0 <= k < |c| && act(c[k]) == Claimed && forall j :: 0 <= j < k ==> act(c[j]) == Declined)
            && (r.0 == Unhandled <==> forall j :: 0 <= j < |c| ==> act(c[j]) == Declined)
            && r.1 == c[..|r.1|]
  {
    DispatchIsOneScan(generated, other, inGeneratedCode, act);
    ScanHandledIff(Candidates(generated, other, inGeneratedCode), act);
  }

  /** With both buckets empty (after `Shutdown`) every fault is reported unhandled and no
      handler runs. */
  lemma DispatchEmpty<H>(inGeneratedCode: bool, act: H -> Verdict)
    ensures Dispatch([], [], inGeneratedCode, act) == (Unhandled, [])
  {
    var none: seq<H> := [];
    assert FirstWhere(none, Decisive(act)) == 0;
    assert Scan(none, act) == (Unhandled, none);
    assert none + none == none;
  }
}
