/**
 * The fixed drink catalog of the recommendation model (`drinksData`).
 * Every drink carries five small integer feature codes; the same drink name
 * may appear twice, once cold (temperature 0) and once hot (temperature 1).
 */
module Catalog {

  /** The five feature codes shared by catalog drinks and encoded answers. */
  datatype Features = Features(
    sweetness: int,       // 0 = not sweet, 1 = sweet
    milkAmount: int,      // 0 = no milk, 1 = milk
    coffeeStrength: int,  // 0 = light, 1 = strong
    specialty: int,       // 0 = regular, 1 = Yemeni, 2 = Colombian, 3 = Ethiopian
    temperature: int)     // 0 = cold, 1 = hot

  datatype Drink = Drink(name: string, features: Features)

  /** The ranges the feature codes are drawn from. */
  predicate ValidFeatures(f: Features) {
    f.sweetness in {0, 1} && f.milkAmount in {0, 1} && f.coffeeStrength in {0, 1} &&
    0 <= f.specialty <= 3 && f.temperature in {0, 1}
  }

  function D(name: string, sweetness: int, milkAmount: int, coffeeStrength: int, specialty: int, temperature: int): Drink {
    Drink(name, Features(sweetness, milkAmount, coffeeStrength, specialty, temperature))
  }

  /** The catalog, in the order the model scores it: eight cold drinks, then twelve hot ones. */
  const Drinks: seq<Drink> := [
    D("v60 Yemeni coffee",    0, 0, 1, 1, 0),
    D("v60 Ethiopian coffee", 0, 0, 1, 3, 0),
    D("v60 Colombian coffee", 0, 0, 1, 2, 0),
    D("Spanish latte",        1, 1, 1, 0, 0),
    D("latte",                0, 1, 0, 0, 0),
    D("Cold Brew",            0, 0, 1, 0, 0),
    D("coffee day",           0, 0, 0, 0, 0),
    D("Americano",            0, 0, 0, 0, 0),

    D("v60 Yemeni coffee",    0, 0, 1, 1, 1),
    D("v60 Ethiopian coffee", 0, 0, 1, 3, 1),
    D("v60 Colombian coffee", 0, 0, 1, 2, 1),
    D("Spanish latte",        1, 1, 1, 0, 1),
    D("Mikato",               0, 1, 1, 0, 1),
    D("latte",                0, 1, 0, 0, 1),
    D("Flat white",           0, 1, 0, 0, 1),
    D("espresso",             0, 0, 1, 0, 1),
    D("Cortado",              0, 1, 0, 0, 1),
    D("coffee day",           0, 0, 0, 0, 1),
    D("cappuccino",           0, 1, 0, 0, 1),
    D("Americano",            0, 0, 0, 0, 1)
  ]

  /** The catalog has 20 well-formed drinks: indices 0..7 are cold, 8..19 hot. */
  lemma CatalogShape()
    ensures |Drinks| == 20
    ensures forall i :: 0 <= i < |Drinks| ==> ValidFeatures(Drinks[i].features)
    ensures forall i :: 0 <= i < 8 ==> Drinks[i].features.temperature == 0
    ensures forall i :: 8 <= i < |Drinks| ==> Drinks[i].features.temperature == 1
  {
  }

  /** Both milk preferences are served by some catalog drink. */
  lemma BothMilkKindsOffered(milk: int)
    requires milk in {0, 1}
    ensures exists i :: 0 <= i < |Drinks| && Drinks[i].features.milkAmount == milk
  {
    if milk == 0 {
      assert Drinks[0].features.milkAmount == 0;
    } else {
      assert Drinks[3].features.milkAmount == 1;
    }
  }
}
