/**
 * The label under a `ComparisonBar`: the left label below 30, the right label
 * above 70, and "BALANCED" in between, both thresholds included in the middle.
 * The catalog passes each variant's `cleanVsBusy` metric as the value.
 */
module ComparisonBar {

  const LeftBelow: int := 30
  const RightAbove: int := 70
  const Balanced: string := "BALANCED"

  /** Which of the three labels a value gets. */
  datatype Zone = LeftZone | BalancedZone | RightZone

  /** Position of a zone from left to right. */
  function Position(z: Zone): nat {
    match z
    case LeftZone => 0
    case BalancedZone => 1
    case RightZone => 2
  }

  /** The classifier: every value falls in exactly one zone. */
  function ZoneOf(value: int): (z: Zone)
    ensures z == LeftZone <==> value < 30
    ensures z == RightZone <==> value > 70
    ensures z == BalancedZone <==> 30 <= value <= 70
  {
    if value < LeftBelow then LeftZone
    else if value > RightAbove then RightZone
    else BalancedZone
  }

  /** The text shown: the label of the value's zone, read off the left-to-right list of labels. */
  function Label(value: int, leftLabel: string, rightLabel: string): (r: string)
    ensures r == [leftLabel, Balanced, rightLabel][Position(ZoneOf(value))]
  {
    if value < LeftBelow then leftLabel
    else if value > RightAbove then rightLabel
    else Balanced
  }

  /** Both thresholds belong to the balanced middle. */
  lemma BoundariesAreBalanced(leftLabel: string, rightLabel: string)
    ensures Label(30, leftLabel, rightLabel) == Balanced && Label(70, leftLabel, rightLabel) == Balanced
    ensures Label(29, leftLabel, rightLabel) == leftLabel && Label(71, leftLabel, rightLabel) == rightLabel
  {
  }

  /** A larger value never moves the label back towards the left. */
  lemma ZoneMonotone(a: int, b: int)
    requires a <= b
    ensures Position(ZoneOf(a)) <= Position(ZoneOf(b))
  {
  }

}
