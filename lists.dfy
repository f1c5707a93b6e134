/** Small list helpers shared by the frame timeline and the partition split. */
module Lists {

  /** `[i for i, x in enumerate(a) if x == p]`: the indices holding `p`, in increasing order. */
  function Positions<T(==)>(a: seq<T>, p: T): (r: seq<nat>)
    ensures forall k :: 0 <= k < |r| ==> r[k] < |a| && a[r[k]] == p
    ensures forall k, l :: 0 <= k < l < |r| ==> r[k] < r[l]
    ensures forall i :: 0 <= i < |a| && a[i] == p ==> i in r
    ensures |r| == 0 <==> p !in a
  {
    if a == [] then []
    else
      var init := Positions(a[..|a| - 1], p);
      if a[|a| - 1] == p then init + [|a| - 1] else init
  }

  function Sum(s: seq<int>): int {
    if s == [] then 0 else Sum(s[..|s| - 1]) + s[|s| - 1]
  }

  /** `[v2 - v1 for v1, v2 in zip(e, e[1:])]`: the gaps between consecutive entries. */
  function Gaps(e: seq<int>): (r: seq<int>)
    ensures |e| == 0 ==> r == []
    ensures |e| > 0 ==> |r| == |e| - 1
    ensures forall k {:trigger r[k]} :: 0 <= k < |r| ==> e[k] + r[k] == e[k + 1]
  {
    if |e| < 2 then [] else [e[1] - e[0]] + Gaps(e[1..])
  }

  /** The gaps of a list sum to the distance from its first to its last entry. */
  lemma {:induction false} SumGaps(e: seq<int>)
    requires |e| > 0
    ensures Sum(Gaps(e)) == e[|e| - 1] - e[0]
  {
    if |e| >= 2 {
      var g := Gaps(e);
      var init := e[..|e| - 1];
      SumGaps(init);
      var gi := Gaps(init);
      assert |gi| == |g| - 1;
      assert g[..|g| - 1] == gi by {
        forall k | 0 <= k < |gi| ensures g[k] == gi[k] {
          assert init[k] + gi[k] == init[k + 1];
        }
      }
    }
  }
}
