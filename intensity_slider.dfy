/** The intensity slider (components/IntensitySlider.tsx): the label, colour,
    description, high-intensity effect, scale markers and track width it shows for
    the current value. The range input only produces the integers 1 to 10. */
module IntensitySlider {
  import Route

  const SliderMin := 1
  const SliderMax := 10

  // ---------------------------------------------------------------------------
  // Label: five levels, ending (inclusively) at 2, 4, 6 and 8

  const LabelTexts := ["Gentle Sailor", "Seasoned Crew", "First Mate", "Captain", "Blackbeard!"]

  /** The label shown for `v`: the text of its label level. */
  function Label(v: int): (l: string)
    ensures l == LabelTexts[LabelLevel(v)]
  {
    if v <= 2 then "Gentle Sailor"
    else if v <= 4 then "Seasoned Crew"
    else if v <= 6 then "First Mate"
    else if v <= 8 then "Captain"
    else "Blackbeard!"
  }

  /** The label level of a value: 0 up to 2, then one more for each further two. */
  function LabelLevel(v: int): (k: nat)
    ensures k <= 4
    ensures k == 0 <==> v <= 2
    ensures k == 1 <==> 2 < v <= 4
    ensures k == 2 <==> 4 < v <= 6
    ensures k == 3 <==> 6 < v <= 8
    ensures k == 4 <==> 8 < v
  {
    if v <= 2 then 0 else if v <= 4 then 1 else if v <= 6 then 2 else if v <= 8 then 3 else 4
  }

  /** Two values share a label exactly when they lie in the same level. */
  lemma LabelFollowsLevels(i: int, j: int)
    ensures Label(i) == Label(j) <==> LabelLevel(i) == LabelLevel(j)
  {
  }

  /** Within the slider's range every level is reached by exactly two values. */
  lemma LabelLevelsArePairs(v: int)
    requires SliderMin <= v <= SliderMax
    ensures LabelLevel(v) == (v - 1) / 2
  {
  }

  // ---------------------------------------------------------------------------
  // Colour: three gradients, ending at 3 and 6

  const ColorTexts := ["from-blue-400 to-blue-600", "from-yellow-400 to-orange-500",
                       "from-red-500 to-red-700"]

  /** The gradient for `v`: blue, yellow and red for the first, second and last two
      voice buckets. */
  function Color(v: int): (c: string)
    ensures c == ColorTexts[[0, 1, 2, 2][Route.Bucket(v)]]
  {
    if v <= 3 then "from-blue-400 to-blue-600"
    else if v <= 6 then "from-yellow-400 to-orange-500"
    else "from-red-500 to-red-700"
  }

  /** The colour changes only where the route's voice buckets change (at 3 and 6),
      and the two highest voice buckets share the red gradient. */
  lemma ColorFollowsVoiceBuckets(i: int, j: int)
    ensures Color(i) == Color(j) <==>
            (Route.Bucket(i) == Route.Bucket(j) || (Route.Bucket(i) >= 2 && Route.Bucket(j) >= 2))
  {
  }

  // ---------------------------------------------------------------------------
  // Description: four exclusive conditions, each showing its text when it holds

  const DescriptionTexts := ["A calm and gentle pirate voice", "Moderate pirate intensity",
                             "Strong and commanding voice", "Maximum pirate aggression!"]

  /** The descriptions rendered for `v`: each condition that holds contributes its text. */
  function Descriptions(v: int): (ds: seq<string>)
    ensures |ds| == 1 && ds[0] in DescriptionTexts
  {
    (if v <= 3 then [DescriptionTexts[0]] else []) +
    (if v > 3 && v <= 6 then [DescriptionTexts[1]] else []) +
    (if v > 6 && v <= 8 then [DescriptionTexts[2]] else []) +
    (if v > 8 then [DescriptionTexts[3]] else [])
  }

  /** For every value exactly one description shows, the one of its voice bucket. */
  lemma ExactlyOneDescription(v: int)
    ensures Descriptions(v) == [DescriptionTexts[Route.Bucket(v)]]
  {
  }

  // ---------------------------------------------------------------------------
  // High-intensity effect

  /** Whether the high-intensity effect shows: in the top voice bucket, and at 8. */
  function HighIntensityEffects(v: int): (shown: bool)
    ensures shown <==> Route.Bucket(v) == 3 || v == 8
  {
    v >= 8
  }

  /** The effect accompanies "Maximum pirate aggression!" and also appears at 8, the
      top of the "Strong and commanding voice" bucket; nowhere else. */
  lemma EffectsVersusDescriptions(v: int)
    ensures Descriptions(v) == [DescriptionTexts[3]] ==> HighIntensityEffects(v)
    ensures HighIntensityEffects(v) && Descriptions(v) != [DescriptionTexts[3]] <==> v == 8
  {
    ExactlyOneDescription(v);
  }

  // ---------------------------------------------------------------------------
  // Scale markers

  /** `Array.from({ length: 10 }, (_, i) => i + 1)`: the numbers 1 to 10 in order. */
  function Markers(): (m: seq<int>)
    ensures |m| == SliderMax
    ensures forall i :: 0 <= i < |m| ==> m[i] == i + 1
  {
    seq(SliderMax, i => i + 1)
  }

  /** `value === num`: the marker `num` is highlighted for the value `v`. */
  predicate Highlighted(v: int, num: int) {
    v == num
  }

  /** Whether each of the ten markers, in order, is highlighted: only the one at
      position `v - 1`, which exists exactly for the values in the slider's range. */
  function HighlightedMarkers(v: int): (hs: seq<bool>)
    ensures |hs| == |Markers()|
    ensures forall i :: 0 <= i < |hs| ==> (hs[i] <==> i == v - 1)
  {
    seq(|Markers()|, i requires 0 <= i < |Markers()| => Highlighted(v, Markers()[i]))
  }

  /** A value in the slider's range highlights exactly one marker, its own; any other
      value highlights none. */
  lemma ExactlyOneHighlighted(v: int)
    ensures (exists i :: 0 <= i < |Markers()| && Highlighted(v, Markers()[i])) <==>
            SliderMin <= v <= SliderMax
    ensures forall i, j ::
              (0 <= i < |Markers()| && 0 <= j < |Markers()| &&
               Highlighted(v, Markers()[i]) && Highlighted(v, Markers()[j])) ==> i == j
    ensures SliderMin <= v <= SliderMax ==> Highlighted(v, Markers()[v - 1])
  {
    if SliderMin <= v <= SliderMax {
      assert Highlighted(v, Markers()[v - 1]);
    }
  }

  // ---------------------------------------------------------------------------
  // Track width and thumb position

  /** `(value / 10) * 100`, in percent: ten times the value, so 10 to 100 across the
      slider's range. */
  function WidthPercent(v: int): (p: real)
    ensures p == (v * 10) as real
    ensures SliderMin <= v <= SliderMax ==> 10.0 <= p <= 100.0
  {
    (v as real / 10.0) * 100.0
  }

  /** The track fills in proportion: a larger value never gives a narrower track. */
  lemma WidthMonotone(i: int, j: int)
    requires i <= j
    ensures WidthPercent(i) <= WidthPercent(j)
  {
  }
}
