/**
 * renderStars (Testimonials in client/src/pages/home.tsx): how much of each
 * of the five stars is filled for a rating.
 */
module Testimonials {
  const StarCount: nat := 5

  /** The fill fraction of star i: whole stars below the rating's floor, the fractional part for the next, then none. */
  function Fill(rating: real, i: int): real {
    if i < rating.Floor then 1.0
    else if (i as real) < rating then rating - rating.Floor as real
    else 0.0
  }

  /** The five fill fractions, first star first. */
  function StarFills(rating: real): (fills: seq<real>)
    ensures |fills| == StarCount
  {
    seq(StarCount, i => Fill(rating, i))
  }

  function Sum(s: seq<real>): real {
    if s == [] then 0.0 else s[0] + Sum(s[1..])
  }

  /** The rating, limited to the stars there are. */
  function Clamp(rating: real): real {
    if rating < 0.0 then 0.0 else if rating > StarCount as real then StarCount as real else rating
  }

  /** Every star is filled by a fraction between none and all of it, and later stars no more than earlier ones. */
  lemma StarFillsBounded(rating: real)
    ensures forall i :: 0 <= i < StarCount ==> 0.0 <= StarFills(rating)[i] <= 1.0
    ensures forall i, j :: 0 <= i < j < StarCount ==> StarFills(rating)[i] >= StarFills(rating)[j]
  {
  }

  lemma SumOfFive(s: seq<real>)
    requires |s| == 5
    ensures Sum(s) == s[0] + s[1] + s[2] + s[3] + s[4]
  {
    var t1 := s[1..];
    var t2 := t1[1..];
    var t3 := t2[1..];
    var t4 := t3[1..];
    assert Sum(t4) == s[4] + Sum(t4[1..]) && t4[1..] == [];
    assert Sum(t3) == s[3] + Sum(t4);
    assert Sum(t2) == s[2] + Sum(t3);
    assert Sum(t1) == s[1] + Sum(t2);
  }

  /** The filled area adds up to the rating, for every rating from 0 to 5. */
  lemma StarFillsSum(rating: real)
    ensures Sum(StarFills(rating)) == Clamp(rating)
  {
    var f := StarFills(rating);
    SumOfFive(f);
  }

  lemma StarFillsExample()
    ensures StarFills(4.5) == [1.0, 1.0, 1.0, 1.0, 0.5]
  {
    assert (4.5).Floor == 4;
  }
}
