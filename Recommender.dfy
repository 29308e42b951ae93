/**
 * `CoffeeRecommendationModel.predict`: encode the answers, score every
 * catalog drink, sort by distance, prefer the first drink whose milk amount
 * matches the user's, and report its name, a confidence and the top five.
 */
module Recommender {
  import opened Wrappers
  import opened Catalog
  import opened Encoding
  import opened Distance
  import opened Ranking

  /** The object `predict` returns. */
  datatype Prediction = Prediction(prediction: string, confidence: real, allDistances: seq<ScoredEntry>)

  const ShortlistLength: nat := 5

  function Min(a: int, b: int): int {
    if a <= b then a else b
  }

  /**
   * The milk-preference override on the sorted list: for a milk preference
   * of 1 or 0, the first entry with that milk amount if there is one;
   * otherwise the first entry.
   */
  function SelectBest(sorted: seq<ScoredEntry>, milkPref: int): (best: ScoredEntry)
    requires |sorted| > 0
    ensures best in sorted
    ensures best == sorted[0] || Milk(best) == milkPref
    ensures milkPref in {0, 1} && (exists e :: e in sorted && Milk(e) == milkPref) ==> Milk(best) == milkPref
    ensures !(milkPref in {0, 1}) ==> best == sorted[0]
  {
    var bestMatchEntry := sorted[0];
    if milkPref == 1 then
      match FirstWithMilk(sorted, 1)
      case Some(withMilk) => withMilk
      case None => bestMatchEntry
    else if milkPref == 0 then
      match FirstWithMilk(sorted, 0)
      case Some(withoutMilk) => withoutMilk
      case None => bestMatchEntry
    else
      bestMatchEntry
  }

  /**
   * The override takes the first sorted entry with the preferred milk
   * amount: `SelectBest` is entry `i`, and for a preference of 0 or 1 no
   * entry before `i` has that amount.
   */
  lemma SelectBestIsFirst(sorted: seq<ScoredEntry>, milkPref: int) returns (i: int)
    requires |sorted| > 0
    ensures 0 <= i < |sorted| && sorted[i] == SelectBest(sorted, milkPref)
    ensures milkPref in {0, 1} ==> forall j :: 0 <= j < i ==> Milk(sorted[j]) != milkPref
  {
    if milkPref in {0, 1} && FirstWithMilk(sorted, milkPref).Some? {
      i := FirstWithMilkIndex(sorted, milkPref);
    } else {
      i := 0;
    }
  }

  /** `Math.max(0, 1 - d / 10)`: a linear decay from 1 at distance 0 to 0 at distance 10. */
  function Confidence(d: int): (c: real)
    ensures 0.0 <= c
    ensures d >= 0 ==> c <= 1.0
    ensures c == 1.0 <==> d == 0
    ensures c == 0.0 <==> d >= 10
  {
    var v := 1.0 - (d as real) / 10.0;
    if v > 0.0 then v else 0.0
  }

  /** A farther match never gets a higher confidence. */
  lemma ConfidenceNonIncreasing(d1: int, d2: int)
    requires d1 <= d2
    ensures Confidence(d1) >= Confidence(d2)
  {
  }

  /** `distances.slice(0, 5)`. */
  function Shortlist(sorted: seq<ScoredEntry>): (r: seq<ScoredEntry>)
    ensures |r| == Min(ShortlistLength, |sorted|)
    ensures forall i :: 0 <= i < |r| ==> r[i] == sorted[i]
    ensures SortedByDistance(sorted) ==> SortedByDistance(r)
  {
    sorted[..Min(ShortlistLength, |sorted|)]
  }

  /** The catalog scored against the encoded answers and stably sorted by distance. */
  function Ranked(answers: map<string, string>): (r: seq<ScoredEntry>)
    ensures |r| == |Drinks|
    ensures SortedByDistance(r)
  {
    StableSortSorted(ScoreAll(ConvertAnswersToNumbers(answers), Drinks));
    StableSort(ScoreAll(ConvertAnswersToNumbers(answers), Drinks))
  }

  /** The entry `bestMatchEntry` holds when `predict` returns. */
  function Chosen(answers: map<string, string>): (r: ScoredEntry)
    ensures r in Ranked(answers)
  {
    SelectBest(Ranked(answers), ConvertAnswersToNumbers(answers).milkAmount)
  }

  /** What `predict` returns for `answers`. */
  function Recommend(answers: map<string, string>): (r: Prediction)
    ensures |r.allDistances| == ShortlistLength && SortedByDistance(r.allDistances)
  {
    var best := Chosen(answers);
    Prediction(best.drink.name, Confidence(best.distance), Shortlist(Ranked(answers)))
  }

  /** `drinksData.map(...)`: a fresh array holding each catalog drink with its distance, in catalog order. */
  method ScoreCatalog(userPreferences: Features) returns (distances: array<ScoredEntry>)
    ensures fresh(distances)
    ensures distances[..] == ScoreAll(userPreferences, Drinks)
  {
    ghost var scored := ScoreAll(userPreferences, Drinks);
    distances := new ScoredEntry[|Drinks|];
    for i := 0 to distances.Length
      invariant forall k :: 0 <= k < i ==> distances[k] == scored[k]
    {
      var weightedDistance := ComputeWeightedDistance(userPreferences, Drinks[i].features);
      distances[i] := ScoredEntry(Drinks[i], weightedDistance);
    }
    assert distances[..] == scored;
  }

  /** The body of `predict`, over an array that it sorts in place. */
  method Predict(answers: map<string, string>) returns (r: Prediction)
    ensures r == Recommend(answers)
    ensures exists i :: 0 <= i < |Drinks| && Drinks[i].name == r.prediction
    ensures 0.0 <= r.confidence <= 1.0
    ensures |r.allDistances| == ShortlistLength && SortedByDistance(r.allDistances)
  {
    var userPreferences := ConvertAnswersToNumbers(answers);
    var distances := ScoreCatalog(userPreferences);
    SortByDistance(distances);

    var bestMatchEntry := distances[0];
    if userPreferences.milkAmount == 1 {
      var withMilk := FindWithMilk(distances, 1);
      if withMilk.Some? {
        bestMatchEntry := withMilk.value;
      }
    } else if userPreferences.milkAmount == 0 {
      var withoutMilk := FindWithMilk(distances, 0);
      if withoutMilk.Some? {
        bestMatchEntry := withoutMilk.value;
      }
    }

    r := Prediction(bestMatchEntry.drink.name, Confidence(bestMatchEntry.distance),
                    distances[..Min(ShortlistLength, distances.Length)]);

    ghost var chosenIndex := ChosenIsEarliestNearest(answers);
    ShortlistIsTopFive(answers);
  }

  // ----- what the recommendation is -----

  /**
   * The chosen drink is catalog drink `i`: it has the user's milk amount, no
   * drink with that milk amount is nearer, and every earlier one is farther.
   */
  lemma ChosenIsEarliestNearest(answers: map<string, string>) returns (i: int)
    ensures 0 <= i < |Drinks|
    ensures IsPreferredAt(ScoreAll(ConvertAnswersToNumbers(answers), Drinks), i, ConvertAnswersToNumbers(answers).milkAmount)
    ensures Chosen(answers) == ScoredEntry(Drinks[i], Distance.Distance(ConvertAnswersToNumbers(answers), Drinks[i].features))
  {
    var u := ConvertAnswersToNumbers(answers);
    var s := ScoreAll(u, Drinks);
    FirstInSortedIsPreferred(s, u.milkAmount);
    BothMilkKindsOffered(u.milkAmount);
    PreferredNoneIff(s, u.milkAmount);
    i := PreferredIsEarliestNearest(s, u.milkAmount);
  }

  /** Because the catalog offers both milk amounts, the override always yields the user's milk amount. */
  lemma MilkOverrideAlwaysFires(answers: map<string, string>)
    ensures Chosen(answers).drink.features.milkAmount == ConvertAnswersToNumbers(answers).milkAmount
  {
    var i := ChosenIsEarliestNearest(answers);
  }

  /** The drink whose cold or hot variant sits closest to drink `i` with the same milk amount. */
  function Twin(i: int): int {
    if 0 <= i < 5 then [8, 9, 10, 11, 13][i]
    else if 5 <= i < 8 then [15, 17, 19][i - 5]
    else if 8 <= i < 12 then i - 8
    else if 12 <= i < 15 then 4
    else if i == 15 then 5
    else if i == 16 then 4
    else if i == 17 then 6
    else if i == 18 then 4
    else 7
  }

  /** Apart from the Mikato, every drink's twin differs from it in temperature only. */
  lemma TwinShape(i: int)
    requires 0 <= i < |Drinks| && i != 12
    ensures 0 <= Twin(i) < |Drinks|
    ensures Drinks[Twin(i)].features ==
      Drinks[i].features.(temperature := 1 - Drinks[i].features.temperature)
  {
    assert i in {0, 1, 2, 3, 4, 5, 6, 7, 8, 9, 10, 11, 13, 14, 15, 16, 17, 18, 19};
  }

  /** Of two drinks that differ in temperature only, the one at the user's temperature is nearer. */
  lemma RightTemperatureIsNearer(u: Features, d: Features, e: Features)
    requires ValidFeatures(u) && ValidFeatures(d)
    requires d.temperature != u.temperature && e == d.(temperature := u.temperature)
    ensures Distance.Distance(u, e) < Distance.Distance(u, d)
  {
    DistanceClosedForm(u, d);
    DistanceClosedForm(u, e);
  }

  /** For a user who wants it cold, the cold latte is never farther than the hot Mikato. */
  lemma ColdLatteBeatsMikato(u: Features)
    requires ValidFeatures(u) && u.temperature == 0
    ensures Distance.Distance(u, Drinks[4].features) <= Distance.Distance(u, Drinks[12].features)
  {
    DistanceClosedForm(u, Drinks[4].features);
    DistanceClosedForm(u, Drinks[12].features);
  }

  /**
   * Every drink served at the other temperature than the user asked for has
   * a twin with the same milk amount, at the requested temperature, that is
   * nearer, or as near and earlier in the catalog.
   */
  lemma TwinBeatsIt(u: Features, i: int)
    requires ValidFeatures(u) && 0 <= i < |Drinks|
    requires Drinks[i].features.temperature != u.temperature
    ensures 0 <= Twin(i) < |Drinks|
    ensures Drinks[Twin(i)].features.milkAmount == Drinks[i].features.milkAmount
    ensures Drinks[Twin(i)].features.temperature == u.temperature
    ensures Distance.Distance(u, Drinks[Twin(i)].features) < Distance.Distance(u, Drinks[i].features) ||
            (Distance.Distance(u, Drinks[Twin(i)].features) == Distance.Distance(u, Drinks[i].features) && Twin(i) < i)
  {
    CatalogShape();
    if i == 12 {
      ColdLatteBeatsMikato(u);
    } else {
      TwinShape(i);
      RightTemperatureIsNearer(u, Drinks[i].features, Drinks[Twin(i)].features);
    }
  }

  /** A drink at the other temperature than the user asked for is never the earliest of the nearest. */
  lemma WrongTemperatureNotPreferred(u: Features, i: int)
    requires ValidFeatures(u) && 0 <= i < |Drinks|
    requires Drinks[i].features.temperature != u.temperature
    ensures !IsPreferredAt(ScoreAll(u, Drinks), i, u.milkAmount)
  {
    var s := ScoreAll(u, Drinks);
    TwinBeatsIt(u, i);
    var j := Twin(i);
    assert Milk(s[j]) == Milk(s[i]);
  }

  /** The recommended drink is always served at the temperature the user asked for. */
  lemma ServedAtRequestedTemperature(answers: map<string, string>)
    ensures Chosen(answers).drink.features.temperature == ConvertAnswersToNumbers(answers).temperature
    ensures Chosen(answers).drink.features.temperature == 0 <==> Says(answers, TemperatureKey, Yes)
  {
    var u := ConvertAnswersToNumbers(answers);
    var i := ChosenIsEarliestNearest(answers);
    if Drinks[i].features.temperature != u.temperature {
      WrongTemperatureNotPreferred(u, i);
    }
  }

  /** Confidence is 1 exactly when some catalog drink matches the encoded answers on every feature. */
  lemma FullConfidenceIffExactMatch(answers: map<string, string>)
    ensures Recommend(answers).confidence == 1.0 <==>
      exists k :: 0 <= k < |Drinks| && Drinks[k].features == ConvertAnswersToNumbers(answers)
  {
    var u := ConvertAnswersToNumbers(answers);
    var s := ScoreAll(u, Drinks);
    var i := ChosenIsEarliestNearest(answers);
    DistanceZeroIff(u, Drinks[i].features);
    if k :| 0 <= k < |Drinks| && Drinks[k].features == u {
      DistanceZeroIff(u, Drinks[k].features);
      assert Milk(s[k]) == u.milkAmount;
    }
  }

  /** The shortlist is the five nearest entries in sorted order; nothing left out is nearer. */
  lemma ShortlistIsTopFive(answers: map<string, string>)
    ensures Recommend(answers).allDistances == Ranked(answers)[..ShortlistLength]
    ensures SortedByDistance(Recommend(answers).allDistances)
    ensures forall i, j :: 0 <= i < ShortlistLength <= j < |Drinks| ==>
      Ranked(answers)[i].distance <= Ranked(answers)[j].distance
    ensures multiset(Ranked(answers)) == multiset(ScoreAll(ConvertAnswersToNumbers(answers), Drinks))
  {
    var s := ScoreAll(ConvertAnswersToNumbers(answers), Drinks);
    StableSortSorted(s);
    StableSortPermutes(s);
  }

  /** Not sweet, with milk, light, regular and hot. */
  const HotLatteAnswers: map<string, string> :=
    map[SweetnessKey := No, MilkKey := Yes, StrengthKey := No, SpecialtyKey := Regular, TemperatureKey := No]

  /**
   * For those answers the hot latte matches exactly and comes first among
   * the exact matches, so it is recommended with full confidence.
   */
  lemma HotLatteExample()
    ensures Recommend(HotLatteAnswers).prediction == "latte"
    ensures Recommend(HotLatteAnswers).confidence == 1.0
  {
    var answers := HotLatteAnswers;
    EncodingRoundTrip(Features(0, 1, 0, 0, 1));
    assert AnswersFor(Features(0, 1, 0, 0, 1)) == answers;
    var u := ConvertAnswersToNumbers(answers);
    var s := ScoreAll(u, Drinks);
    var i := ChosenIsEarliestNearest(answers);
    DistanceZeroIff(u, Drinks[13].features);
    assert Milk(s[13]) == 1;
    DistanceZeroIff(u, Drinks[i].features);
    assert i <= 13;
    assert i in {0, 1, 2, 3, 4, 5, 6, 7, 8, 9, 10, 11, 12, 13};
  }
}
