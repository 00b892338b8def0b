/** Searching and erasing in ordered sequences (the linear scans over the range list
    and `std::find` + `erase` on the handler vectors). */
module Seqs {

  datatype Option<T> = None | Some(value: T)

  /** Index of the first element satisfying `p`, or `|s|` when none does. */
  function FirstWhere<T>(s: seq<T>, p: T -> bool): (k: nat)
    ensures k <= |s|
    ensures forall j :: 0 <= j < k ==> !p(s[j])
    ensures k < |s| ==> p(s[k])
    decreases |s|
  {
    if |s| == 0 then 0
    else if p(s[0]) then 0
    else 1 + FirstWhere(s[1..], p)
  }

  /** The three facts in the contract of `FirstWhere` pin its result down. */
  lemma FirstWhereUnique<T>(s: seq<T>, p: T -> bool, k: nat)
    requires k <= |s|
    requires forall j :: 0 <= j < k ==> !p(s[j])
    requires k < |s| ==> p(s[k])
    ensures FirstWhere(s, p) == k
  {
  }

  /** Searching a concatenation searches the first part, then the second. */
  lemma FirstWhereAppend<T>(a: seq<T>, b: seq<T>, p: T -> bool)
    ensures FirstWhere(a + b, p) ==
              if FirstWhere(a, p) < |a| then FirstWhere(a, p) else |a| + FirstWhere(b, p)
  {
    var fa := FirstWhere(a, p);
    if fa < |a| {
      assert (a + b)[fa] == a[fa];
      forall j | 0 <= j < fa ensures !p((a + b)[j]) {
        assert (a + b)[j] == a[j];
      }
      FirstWhereUnique(a + b, p, fa);
    } else {
      var fb := FirstWhere(b, p);
      forall j | 0 <= j < |a| + fb ensures !p((a + b)[j]) {
        if j < |a| {
          assert (a + b)[j] == a[j];
        } else {
          assert (a + b)[j] == b[j - |a|];
        }
      }
      if fb < |b| {
        assert (a + b)[|a| + fb] == b[fb];
      }
      FirstWhereUnique(a + b, p, |a| + fb);
    }
  }

  /** The sequence without its element at index `k`, the others keeping their order. */
  function RemoveAt<T>(s: seq<T>, k: nat): (r: seq<T>)
    requires k < |s|
    ensures |r| == |s| - 1
    ensures forall j :: 0 <= j < k ==> r[j] == s[j]
    ensures forall j :: k <= j < |r| ==> r[j] == s[j + 1]
  {
    s[..k] + s[k + 1..]
  }

  /** Removing one element removes exactly one occurrence of it. */
  lemma RemoveAtMultiset<T>(s: seq<T>, k: nat)
    requires k < |s|
    ensures multiset(RemoveAt(s, k)) + multiset{s[k]} == multiset(s)
  {
    assert s == s[..k] + [s[k]] + s[k + 1..];
  }

  /** `std::find`: position of the first occurrence of `x`, or `|s|` when absent. */
  function IndexOf<T(==)>(s: seq<T>, x: T): (k: nat)
    ensures k <= |s|
    ensures k < |s| <==> x in s
    ensures k < |s| ==> s[k] == x && x !in s[..k]
  {
    var k := FirstWhere(s, y => y == x);
    assert k < |s| ==> s[k] == x;
    assert x in s ==> k < |s| by {
      if x in s {
        var j :| 0 <= j < |s| && s[j] == x;
        assert !(j < k);
      }
    }
    k
  }

  /** `std::find` followed by `erase` when found: drop the first occurrence of `x`. */
  function EraseFirst<T(==)>(s: seq<T>, x: T): (r: seq<T>)
    ensures x !in s ==> r == s
    ensures x in s ==> multiset(r) + multiset{x} == multiset(s)
    ensures x in s ==> exists k :: 0 <= k < |s| && s[k] == x && x !in s[..k] && r == s[..k] + s[k + 1..]
  {
    var k := IndexOf(s, x);
    if k < |s| then
      RemoveAtMultiset(s, k);
      RemoveAt(s, k)
    else s
  }
}
