/**
 * The weighted distance `predict` assigns to a catalog drink: for each
 * feature, the absolute difference between the user's code and the drink's
 * code times the feature's weight, summed (an L1 distance, no squares).
 */
module Distance {
  import opened Catalog

  /** The features, in the order the weight table lists them. */
  datatype Feature = Sweetness | MilkAmount | CoffeeStrength | Specialty | Temperature

  const FeatureOrder: seq<Feature> := [Sweetness, MilkAmount, CoffeeStrength, Specialty, Temperature]

  /** Milk amount weighs 3; every other feature weighs 2. */
  function Weight(f: Feature): nat {
    match f
    case Sweetness => 2
    case MilkAmount => 3
    case CoffeeStrength => 2
    case Specialty => 2
    case Temperature => 2
  }

  function Value(v: Features, f: Feature): int {
    match f
    case Sweetness => v.sweetness
    case MilkAmount => v.milkAmount
    case CoffeeStrength => v.coffeeStrength
    case Specialty => v.specialty
    case Temperature => v.temperature
  }

  function Abs(x: int): nat {
    if x < 0 then -x else x
  }

  /** One feature's contribution `|u - d| * weight`. */
  function Term(u: Features, d: Features, f: Feature): nat {
    Abs(Value(u, f) - Value(d, f)) * Weight(f)
  }

  /** The sum of the terms of the features `fs`, accumulated left to right. */
  function WeightedSum(u: Features, d: Features, fs: seq<Feature>): (r: int)
    ensures r >= 0
    ensures r == 0 <==> forall i :: 0 <= i < |fs| ==> Value(u, fs[i]) == Value(d, fs[i])
  {
    if fs == [] then 0
    else WeightedSum(u, d, fs[..|fs| - 1]) + Term(u, d, fs[|fs| - 1])
  }

  /** The weighted distance between the user's vector `u` and a drink's features `d`. */
  function Distance(u: Features, d: Features): (r: int)
    ensures r >= 0
  {
    WeightedSum(u, d, FeatureOrder)
  }

  /** Written out, the distance is 2|ds| + 3|dm| + 2|dc| + 2|dsp| + 2|dt|. */
  lemma DistanceClosedForm(u: Features, d: Features)
    ensures Distance(u, d) ==
      2 * Abs(u.sweetness - d.sweetness) + 3 * Abs(u.milkAmount - d.milkAmount)
      + 2 * Abs(u.coffeeStrength - d.coffeeStrength) + 2 * Abs(u.specialty - d.specialty)
      + 2 * Abs(u.temperature - d.temperature)
  {
    var s0: seq<Feature> := [];
    var s1 := s0 + [Sweetness];
    var s2 := s1 + [MilkAmount];
    var s3 := s2 + [CoffeeStrength];
    var s4 := s3 + [Specialty];
    assert s4 + [Temperature] == FeatureOrder;
    WeightedSumSnoc(u, d, s0, Sweetness);
    WeightedSumSnoc(u, d, s1, MilkAmount);
    WeightedSumSnoc(u, d, s2, CoffeeStrength);
    WeightedSumSnoc(u, d, s3, Specialty);
    WeightedSumSnoc(u, d, s4, Temperature);
    assert WeightedSum(u, d, s0) == 0;
    assert Term(u, d, Sweetness) == 2 * Abs(u.sweetness - d.sweetness);
    assert Term(u, d, MilkAmount) == 3 * Abs(u.milkAmount - d.milkAmount);
    assert Term(u, d, CoffeeStrength) == 2 * Abs(u.coffeeStrength - d.coffeeStrength);
    assert Term(u, d, Specialty) == 2 * Abs(u.specialty - d.specialty);
    assert Term(u, d, Temperature) == 2 * Abs(u.temperature - d.temperature);
  }

  lemma WeightedSumSnoc(u: Features, d: Features, fs: seq<Feature>, f: Feature)
    ensures WeightedSum(u, d, fs + [f]) == WeightedSum(u, d, fs) + Term(u, d, f)
  {
    assert (fs + [f])[..|fs|] == fs;
  }

  /** The distance is zero exactly when the two vectors agree on all five features. */
  lemma DistanceZeroIff(u: Features, d: Features)
    ensures Distance(u, d) >= 0
    ensures Distance(u, d) == 0 <==> u == d
  {
    if Distance(u, d) == 0 {
      assert Value(u, FeatureOrder[0]) == Value(d, FeatureOrder[0]);
      assert Value(u, FeatureOrder[1]) == Value(d, FeatureOrder[1]);
      assert Value(u, FeatureOrder[2]) == Value(d, FeatureOrder[2]);
      assert Value(u, FeatureOrder[3]) == Value(d, FeatureOrder[3]);
      assert Value(u, FeatureOrder[4]) == Value(d, FeatureOrder[4]);
    }
  }

  /** Between two valid vectors the distance never exceeds 2 + 3 + 2 + 2*3 + 2 = 15. */
  lemma DistanceAtMost15(u: Features, d: Features)
    requires ValidFeatures(u) && ValidFeatures(d)
    ensures 0 <= Distance(u, d) <= 15
  {
    DistanceClosedForm(u, d);
  }

  /**
   * The per-drink loop of `predict`: start from 0 and, for each feature in
   * weight-table order, add the weighted absolute difference.
   */
  method ComputeWeightedDistance(u: Features, d: Features) returns (weightedDistance: int)
    ensures weightedDistance == Distance(u, d)
    ensures weightedDistance == 0 <==> u == d
  {
    weightedDistance := 0;
    for i := 0 to |FeatureOrder|
      invariant weightedDistance == WeightedSum(u, d, FeatureOrder[..i])
    {
      var feature := FeatureOrder[i];
      var diff := Abs(Value(u, feature) - Value(d, feature));
      weightedDistance := weightedDistance + diff * Weight(feature);
      assert FeatureOrder[..i + 1][..i] == FeatureOrder[..i];
    }
    assert FeatureOrder[..|FeatureOrder|] == FeatureOrder;
    DistanceZeroIff(u, d);
  }
}
