/** The abstract content of the generated-code range registry: the ordered list of
    `(start, size)` payloads reachable from the registry head, newest first. */
module CodeRanges {
  import opened Words
  import opened Seqs

  /** The payload of one registry node: `size` bytes of generated code at `start`. */
  datatype Range = Range(start: Word, size: Word)

  /** The registry's bounds test `pc - start < size` on unsigned words. */
  predicate Contains(r: Range, pc: Word)
  {
    WrapSub(pc, r.start) < r.size
  }

  /** `Contains` means `pc` is one of the `size` addresses from `start` on. */
  lemma ContainsIsOffset(r: Range, pc: Word)
    ensures Contains(r, pc) <==> exists k: Word :: k < r.size && pc == Advance(r.start, k)
  {
    WrapTestIsOffset(pc, r.start, r.size);
  }

  /** For a range that does not wrap, `Contains` is the interval `[start, start + size)`. */
  lemma ContainsIsInterval(r: Range, pc: Word)
    requires r.start + r.size <= WordModulus
    ensures Contains(r, pc) <==> r.start <= pc < r.start + r.size
  {
    WrapTestIsInterval(pc, r.start, r.size);
  }

  /** The read-only walk of `IsInGeneratedCode`: test each node from the head on. */
  function Covers(rs: seq<Range>, pc: Word): (r: bool)
    ensures |rs| == 0 ==> !r
    ensures r ==> exists i :: 0 <= i < |rs| && Contains(rs[i], pc)
  {
    if |rs| == 0 then false
    else if Contains(rs[0], pc) then true
    else
      var rest := Covers(rs[1..], pc);
      assert rest ==> exists i :: 0 <= i < |rs| && Contains(rs[i], pc) by {
        if rest {
          var i :| 0 <= i < |rs[1..]| && Contains(rs[1..][i], pc);
          assert rs[i + 1] == rs[1..][i];
        }
      }
      rest
  }

  /** The walk answers true exactly when some listed range contains `pc`; on the empty
      list it answers false. */
  lemma {:induction false} CoversIff(rs: seq<Range>, pc: Word)
    ensures Covers(rs, pc) <==> exists i :: 0 <= i < |rs| && Contains(rs[i], pc)
  {
    if |rs| > 0 {
      CoversIff(rs[1..], pc);
      if exists i :: 0 <= i < |rs| && Contains(rs[i], pc) {
        var i :| 0 <= i < |rs| && Contains(rs[i], pc);
        if i > 0 {
          assert rs[1..][i - 1] == rs[i];
        }
      }
      if exists i :: 0 <= i < |rs[1..]| && Contains(rs[1..][i], pc) {
        var i :| 0 <= i < |rs[1..]| && Contains(rs[1..][i], pc);
        assert rs[i + 1] == rs[1..][i];
      }
    }
  }

  /** Position of the node that `RemoveGeneratedCodeRange` unlinks: the first from the
      head whose start matches, or `|rs|` when none does. */
  function FindStart(rs: seq<Range>, start: Word): (k: nat)
    ensures k <= |rs|
    ensures forall j :: 0 <= j < k ==> rs[j].start != start
    ensures k < |rs| ==> rs[k].start == start
  {
    FirstWhere(rs, (r: Range) => r.start == start)
  }

  /** A position before which no start matches, and at which one does (or the end), is
      the one `FindStart` reports. */
  lemma FindStartAt(rs: seq<Range>, start: Word, i: nat)
    requires i <= |rs|
    requires forall j :: 0 <= j < i ==> rs[j].start != start
    requires i < |rs| ==> rs[i].start == start
    ensures FindStart(rs, start) == i
  {
  }

  /** The list after unlinking the first node that starts at `start`, if any. */
  function AfterRemove(rs: seq<Range>, start: Word): (r: seq<Range>)
    ensures FindStart(rs, start) == |rs| ==> r == rs
    ensures FindStart(rs, start) < |rs| ==> |r| == |rs| - 1
  {
    var k := FindStart(rs, start);
    if k < |rs| then RemoveAt(rs, k) else rs
  }

  /** No two registered ranges share a start address (the discipline of the registry's
      callers: each region is registered once and removed by its own start). */
  predicate UniqueStarts(rs: seq<Range>)
  {
    forall i, j :: 0 <= i < j < |rs| ==> rs[i].start != rs[j].start
  }

  /** Removing by the start of a range that was just added restores the earlier list. */
  lemma AddThenRemove(rs: seq<Range>, start: Word, size: Word)
    ensures FindStart([Range(start, size)] + rs, start) == 0
    ensures AfterRemove([Range(start, size)] + rs, start) == rs
  {
    var l := [Range(start, size)] + rs;
    assert l[0].start == start;
    assert RemoveAt(l, 0) == rs;
  }

  /** Removal with unique starts drops exactly the range with that start and keeps the
      others (in their order, as `RemoveAt` states). */
  lemma RemoveDropsExactlyStart(rs: seq<Range>, start: Word)
    requires UniqueStarts(rs)
    ensures UniqueStarts(AfterRemove(rs, start))
    ensures forall r :: r in AfterRemove(rs, start) <==> r in rs && r.start != start
  {
    var k := FindStart(rs, start);
    if k < |rs| {
      var after := RemoveAt(rs, k);
      forall r | r in rs && r.start != start ensures r in after {
        var i :| 0 <= i < |rs| && rs[i] == r;
        assert i != k;
        if i < k {
          assert after[i] == r;
        } else {
          assert after[i - 1] == r;
        }
      }
      forall r | r in after ensures r in rs && r.start != start {
        var i :| 0 <= i < |after| && after[i] == r;
        if i < k {
          assert r == rs[i];
        } else {
          assert r == rs[i + 1];
        }
      }
    }
  }

  /** Registry semantics after a removal: the walk finds `pc` exactly when a range that
      remains registered (any but the one starting at `start`) contains it. */
  lemma CoversAfterRemove(rs: seq<Range>, start: Word, pc: Word)
    requires UniqueStarts(rs)
    ensures Covers(AfterRemove(rs, start), pc) <==>
              exists i :: 0 <= i < |rs| && rs[i].start != start && Contains(rs[i], pc)
  {
    var after := AfterRemove(rs, start);
    CoversIff(after, pc);
    RemoveDropsExactlyStart(rs, start);
    if exists i :: 0 <= i < |after| && Contains(after[i], pc) {
      var i :| 0 <= i < |after| && Contains(after[i], pc);
      assert after[i] in after;
      var j :| 0 <= j < |rs| && rs[j] == after[i];
      assert rs[j].start != start && Contains(rs[j], pc);
    }
    if exists i :: 0 <= i < |rs| && rs[i].start != start && Contains(rs[i], pc) {
      var i :| 0 <= i < |rs| && rs[i].start != start && Contains(rs[i], pc);
      assert rs[i] in after;
      var j :| 0 <= j < |after| && after[j] == rs[i];
      assert Contains(after[j], pc);
    }
  }

  /** Registry semantics after an addition: the new range is consulted first, the
      earlier ones unchanged behind it. */
  lemma CoversAfterAdd(rs: seq<Range>, r: Range, pc: Word)
    ensures Covers([r] + rs, pc) <==> Contains(r, pc) || exists i :: 0 <= i < |rs| && Contains(rs[i], pc)
  {
    assert ([r] + rs)[1..] == rs;
    CoversIff(rs, pc);
  }
}
