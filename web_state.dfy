/** `checkWebState`: whether a page reads as a bright theme, by a majority
    vote over channel sums. */
module WebState {

  /** A sum of channels counts as bright when it is above 250. */
  predicate IsBright(sum: int) {
    sum > 250
  }

  /** How many sums are bright. */
  function BrightCount(sums: seq<int>): (n: nat)
    ensures n <= |sums|
  {
    if sums == [] then 0
    else BrightCount(sums[..|sums| - 1]) + (if IsBright(sums[|sums| - 1]) then 1 else 0)
  }

  /** How many sums are dark, that is, at most 250. */
  function DarkCount(sums: seq<int>): (n: nat)
    ensures n <= |sums|
  {
    if sums == [] then 0
    else DarkCount(sums[..|sums| - 1]) + (if IsBright(sums[|sums| - 1]) then 0 else 1)
  }

  /** `checkWebState(sumRGB)`: the `forEach` loop counts bright and dark sums
      in `colorTable`, and the page is bright iff the bright ones are strictly
      more. */
  method CheckWebState(sumRGB: seq<int>) returns (isBright: bool)
    ensures isBright <==> BrightCount(sumRGB) > DarkCount(sumRGB)
  {
    var bright, dark := 0, 0;
    for i := 0 to |sumRGB|
      invariant bright == BrightCount(sumRGB[..i])
      invariant dark == DarkCount(sumRGB[..i])
    {
      assert sumRGB[..i + 1][..i] == sumRGB[..i];
      if sumRGB[i] > 250 {
        bright := bright + 1;
      } else {
        dark := dark + 1;
      }
    }
    assert sumRGB[..|sumRGB|] == sumRGB;
    isBright := bright > dark;
  }

  /** Every sum is either bright or dark. */
  lemma {:induction false} CountsPartition(sums: seq<int>)
    ensures BrightCount(sums) + DarkCount(sums) == |sums|
  {
    if sums != [] {
      CountsPartition(sums[..|sums| - 1]);
    }
  }

  /** The page is bright iff more than half of the sums are bright; a tie,
      the empty input included, is not bright. */
  lemma BrightIffMajority(sums: seq<int>)
    ensures BrightCount(sums) > DarkCount(sums) <==> 2 * BrightCount(sums) > |sums|
    ensures 2 * BrightCount(sums) == |sums| ==> !(BrightCount(sums) > DarkCount(sums))
  {
    CountsPartition(sums);
  }

  /** The positions of the bright sums. */
  function BrightPositions(sums: seq<int>): set<int> {
    set i | 0 <= i < |sums| && IsBright(sums[i])
  }

  /** The bright tally of the loop is the number of positions holding a bright sum. */
  lemma {:induction false} BrightCountIsPositions(sums: seq<int>)
    ensures BrightCount(sums) == |BrightPositions(sums)|
  {
    if sums != [] {
      var n := |sums| - 1;
      var p := sums[..n];
      BrightCountIsPositions(p);
      assert n !in BrightPositions(p);
      if IsBright(sums[n]) {
        assert BrightPositions(sums) == BrightPositions(p) + {n};
      } else {
        assert BrightPositions(sums) == BrightPositions(p);
      }
    }
  }
}
