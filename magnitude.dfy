// The size description of src/main.rs:48-62: one of five labels chosen by the absolute
// value of the rounded number, colour left out.
module Magnitude {
  import opened Digits

  datatype Size = Zero | Small | Medium | PrettyBig | ExtremelyBig

  /** The size of a value of h hundredths: zero when it is exactly zero, otherwise its
      absolute value truncated to a whole number picks the bucket. The buckets are stated
      in the contract on the hundredths themselves, without the truncation. */
  function Classify(h: int): (size: Size)
    ensures size == Zero <==> h == 0
    ensures size == Small <==> 0 < Abs(h) < 100_000
    ensures size == Medium <==> 100_000 <= Abs(h) < 100_000_000
    ensures size == PrettyBig <==> 100_000_000 <= Abs(h) < 100_000_000_000
    ensures size == ExtremelyBig <==> 100_000_000_000 <= Abs(h)
  {
    if Abs(h) == 0 then Zero
    else
      var whole := Abs(h) / 100;
      if whole <= 999 then Small
      else if whole <= 999_999 then Medium
      else if whole <= 999_999_999 then PrettyBig
      else ExtremelyBig
  }

  /** The label printed for a size: a parenthesised name, with no other parenthesis. */
  function Label(size: Size): (r: string)
    ensures |r| >= 3 && r[0] == '(' && r[|r| - 1] == ')'
    ensures forall i :: 0 < i < |r| - 1 ==> r[i] != '(' && r[i] != ')'
  {
    match size
    case Zero => "(zero)"
    case Small => "(small)"
    case Medium => "(medium)"
    case PrettyBig => "(pretty big)"
    case ExtremelyBig => "(extremely big)"
  }

  /** The order small < medium < pretty big < extremely big, with zero below all. */
  function Rank(size: Size): nat {
    match size
    case Zero => 0
    case Small => 1
    case Medium => 2
    case PrettyBig => 3
    case ExtremelyBig => 4
  }

  /** Different sizes get different labels, so the label names the size. */
  lemma LabelInjective(a: Size, b: Size)
    ensures Label(a) == Label(b) <==> a == b
  {
    if a != b {
      assert Label(a)[1..3] != Label(b)[1..3] || |Label(a)| != |Label(b)|;
    }
  }

  /** A larger absolute value never gets a smaller size. */
  lemma ClassifyMonotone(a: int, b: int)
    requires Abs(a) <= Abs(b)
    ensures Rank(Classify(a)) <= Rank(Classify(b))
  {
  }

  /** The sign never changes the size. */
  lemma ClassifyIgnoresSign(h: int)
    ensures Classify(-h) == Classify(h)
  {
  }
}
