/**
 * Encoding of the raw quiz answers into the catalog's feature space
 * (`convertAnswersToNumbers`). The answers are a map from question key to
 * the token the user picked; an absent key behaves like any token that is
 * not recognised.
 */
module Encoding {
  import opened Catalog

  const Yes := "نعم"
  const No := "لا"
  const Regular := "عادي"
  const Yemeni := "يمني"
  const Colombian := "كولومبي"
  const Ethiopian := "إثيوبي"

  const SweetnessKey := "sweetness-level"
  const MilkKey := "milk-amount"
  const StrengthKey := "coffee-strength"
  const SpecialtyKey := "specialty"
  const TemperatureKey := "temperature"

  /** The raw answer `answers[key] === token`, false when the key is absent. */
  predicate Says(answers: map<string, string>, key: string, token: string) {
    key in answers && answers[key] == token
  }

  function SpecialtyCode(answers: map<string, string>): (c: int)
    ensures 0 <= c <= 3
    ensures c == 0 <==> !Says(answers, SpecialtyKey, Yemeni) && !Says(answers, SpecialtyKey, Colombian)
                        && !Says(answers, SpecialtyKey, Ethiopian)
  {
    if Says(answers, SpecialtyKey, Yemeni) then 1
    else if Says(answers, SpecialtyKey, Colombian) then 2
    else if Says(answers, SpecialtyKey, Ethiopian) then 3
    else 0
  }

  /**
   * Yes/no questions encode "yes" as 1 and everything else as 0, except the
   * temperature question, where "yes" means cold and encodes to 0.
   */
  function ConvertAnswersToNumbers(answers: map<string, string>): (f: Features)
    ensures ValidFeatures(f)
    ensures f.sweetness == 1 <==> Says(answers, SweetnessKey, Yes)
    ensures f.milkAmount == 1 <==> Says(answers, MilkKey, Yes)
    ensures f.coffeeStrength == 1 <==> Says(answers, StrengthKey, Yes)
    ensures f.specialty == 1 <==> Says(answers, SpecialtyKey, Yemeni)
    ensures f.specialty == 2 <==> Says(answers, SpecialtyKey, Colombian)
    ensures f.specialty == 3 <==> Says(answers, SpecialtyKey, Ethiopian)
    ensures f.temperature == 0 <==> Says(answers, TemperatureKey, Yes)
  {
    Features(
      if Says(answers, SweetnessKey, Yes) then 1 else 0,
      if Says(answers, MilkKey, Yes) then 1 else 0,
      if Says(answers, StrengthKey, Yes) then 1 else 0,
      SpecialtyCode(answers),
      if Says(answers, TemperatureKey, Yes) then 0 else 1)
  }

  /** An empty answer set encodes to "not sweet, no milk, light, regular, hot". */
  lemma EmptyAnswersEncodeToDefaults()
    ensures ConvertAnswersToNumbers(map[]) == Features(0, 0, 0, 0, 1)
  {
  }

  /** Only the five question keys are read; any other entry is ignored. */
  lemma OnlyQuestionKeysMatter(answers: map<string, string>, key: string, token: string)
    requires key !in {SweetnessKey, MilkKey, StrengthKey, SpecialtyKey, TemperatureKey}
    ensures ConvertAnswersToNumbers(answers[key := token]) == ConvertAnswersToNumbers(answers)
  {
    var a := answers[key := token];
    assert forall k :: k != key ==> (Says(a, k, Yes) <==> Says(answers, k, Yes));
    assert SpecialtyCode(a) == SpecialtyCode(answers);
  }

  function YesNo(b: int): string {
    if b == 1 then Yes else No
  }

  function SpecialtyToken(s: int): string {
    if s == 1 then Yemeni else if s == 2 then Colombian else if s == 3 then Ethiopian else Regular
  }

  /** The answers a user gives to be encoded as `f`: the inverse of the encoding on valid vectors. */
  function AnswersFor(f: Features): map<string, string> {
    map[SweetnessKey := YesNo(f.sweetness),
        MilkKey := YesNo(f.milkAmount),
        StrengthKey := YesNo(f.coffeeStrength),
        SpecialtyKey := SpecialtyToken(f.specialty),
        TemperatureKey := YesNo(1 - f.temperature)]
  }

  /** Every valid feature vector is the encoding of some answer set, namely `AnswersFor(f)`. */
  lemma EncodingRoundTrip(f: Features)
    requires ValidFeatures(f)
    ensures ConvertAnswersToNumbers(AnswersFor(f)) == f
  {
    var a := AnswersFor(f);
    assert No != Yes;
    assert Regular != Yemeni && Regular != Colombian && Regular != Ethiopian;
    assert Yemeni != Colombian && Yemeni != Ethiopian && Colombian != Ethiopian;
    assert a[SweetnessKey] == YesNo(f.sweetness);
    assert a[MilkKey] == YesNo(f.milkAmount);
    assert a[StrengthKey] == YesNo(f.coffeeStrength);
    assert a[SpecialtyKey] == SpecialtyToken(f.specialty);
    assert a[TemperatureKey] == YesNo(1 - f.temperature);
  }
}
