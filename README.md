# Coffee recommendation engine — a verified Dafny model

This project models the recommendation engine of a browser coffee quiz
(`script.js`): the class `CoffeeRecommendationModel` and the presentation
lookups that turn its prediction into a result card.

- **Catalog** (`Catalog.dfy`): the fixed list `drinksData` of 20 drinks, eight
  cold (temperature 0) and then twelve hot (temperature 1). Each drink has a
  name and five small integer feature codes.
- **Encoding** (`Encoding.dfy`): `convertAnswersToNumbers` maps the raw quiz
  answers to a feature vector. The answers are a `map<string, string>` from
  question key to token. A yes/no question encodes "نعم" as 1 and anything
  else, including an absent key, as 0. Specialty maps "يمني", "كولومبي" and
  "إثيوبي" to 1, 2 and 3 and anything else to 0. Temperature is inverted:
  "نعم" (cold) encodes to 0, and anything else to 1.
- **Distance** (`Distance.dfy`): the weighted L1 distance that `predict` sums
  feature by feature. The weights are sweetness 2, milk 3, strength 2,
  specialty 2 and temperature 2. A method mirrors the accumulation loop.
- **Ranking** (`Ranking.dfy`): the stable ascending sort of the scored
  catalog, done in place on an array. The array is proved equal to a
  functional insertion sort. That sort is proved sorted, a permutation and
  stable, and it is the only order with those three properties. This file
  also holds the `find` of the first entry with a given milk amount. That
  entry is characterised in catalog terms: it is the earliest, in catalog
  order, of the nearest drinks with that milk amount.
- **Recommender** (`Recommender.dfy`): `predict` as a method over an array.
  It fills the scores, sorts, applies the milk-preference override and
  returns the name, the confidence `max(0, 1 - d/10)` and the first five
  entries. Theorems about the whole pipeline sit beside it:
  - the override always fires;
  - the recommended drink is always served at the temperature the user asked for;
  - confidence is 1 exactly when some catalog drink matches the answers on every feature;
  - the answers not sweet, milk, light, regular, hot give "latte" with confidence 1.
- **Presentation** (`Presentation.dfy`): `getArabicDrinkName`,
  `getDrinkDescription` and `getDrinkImage` with their fallbacks, the
  whitespace clean-up of the image name, and `getRecommendations`.

The doc comment of `calculateDistance` speaks of a Euclidean distance.
`predict` never calls that function: it sums weighted absolute differences.
The model follows the code. The script hard-codes the five weights and the
milk override and has no `flavors` feature. The Arabic
label table is written as a stem per drink plus " " plus the temperature
word, with Cold Brew's label fixed. These are the same strings as the
source's template literals.

## Model

| member | source | states |
|---|---|---|
| Catalog.CatalogShape | script.js:8-32 | the catalog has 20 drinks with valid feature codes; indices 0-7 are cold and 8-19 hot |
| Catalog.BothMilkKindsOffered | script.js:8-32 | for each milk amount 0 and 1 some catalog drink has it |
| Encoding.SpecialtyCode | script.js:62-65 | the specialty code is between 0 and 3, and 0 exactly when the answer is none of the three origin tokens |
| Encoding.ConvertAnswersToNumbers | script.js:59-74 | every code is in range; each yes/no code is 1 iff that answer is "نعم"; specialty is 1/2/3 iff the answer is the Yemeni/Colombian/Ethiopian token; temperature is 0 iff the answer is "نعم" |
| Encoding.EmptyAnswersEncodeToDefaults | script.js:59-74 | an empty answer map encodes to not sweet, no milk, light, regular, hot |
| Encoding.OnlyQuestionKeysMatter | script.js:59-74 | adding an entry under any other key does not change the encoding |
| Encoding.EncodingRoundTrip | script.js:59-74 | every valid feature vector is the encoding of the canonical answers built from it |
| Distance.WeightedSum | script.js:103-106 | the accumulated sum is non-negative, and zero iff the two vectors agree on every feature summed |
| Distance.Distance | script.js:93-106 | the weighted distance between the user's vector and a drink's, which is never negative; DistanceClosedForm gives its closed form and DistanceZeroIff its zero case |
| Distance.DistanceClosedForm | script.js:93-106 | the distance equals 2abs(ds) + 3abs(dm) + 2abs(dc) + 2abs(dsp) + 2abs(dt) |
| Distance.DistanceZeroIff | script.js:103-106 | the distance is non-negative and is 0 exactly when the vectors are equal |
| Distance.DistanceAtMost15 | script.js:93-106 | between valid vectors the distance is at most 15 |
| Distance.ComputeWeightedDistance | script.js:89-106 | the per-drink accumulation loop returns the weighted distance, which is 0 iff the vectors are equal |
| Ranking.ScoreAll | script.js:88-112 | one entry per drink, in catalog order, holding that drink and its distance to the user; every distance is non-negative |
| Ranking.StableSort | script.js:116 | the ascending sort by distance keeps the length; StableSortSorted, StableSortPermutes and StableSortKeepsTies characterise it |
| Ranking.InsertAt | script.js:116 | inserting an entry puts it after every no-farther trailing entry and before the farther ones |
| Ranking.InsertKeepsSorted | script.js:116 | inserting into a sorted list keeps it sorted |
| Ranking.StableSortSorted | script.js:116 | the sorted list is non-decreasing in distance |
| Ranking.StableSortPermutes | script.js:116 | the sorted list is a permutation of the scored catalog |
| Ranking.AtDistanceInsert | script.js:116 | insertion appends the entry to its own distance class and leaves the other classes unchanged |
| Ranking.StableSortKeepsTies | script.js:116 | entries with equal distance keep their catalog order |
| Ranking.SortedWithSameTiesAreEqual | script.js:116 | two sorted orders with the same distance classes in the same order are equal |
| Ranking.StableSortIsTheStableSort | script.js:116 | any sorted order that keeps ties in input order equals the model's sort, so any stable sort gives the same array |
| Ranking.SortByDistance | script.js:116 | the in-place sort leaves the array equal to the stable sort of its old contents |
| Ranking.InsertNext | script.js:116 | one insertion step moves the next entry into place in the sorted prefix and leaves the rest alone |
| Ranking.FirstWithMilk | script.js:122-126 | `find` returns an entry of the list with the milk amount, and returns nothing iff no entry has it |
| Ranking.FirstWithMilkIndex | script.js:122-126 | `find` answers with the entry at some index, and no entry before that index has the milk amount |
| Ranking.FirstWithMilkAppend | script.js:122-126 | on a concatenation, `find` answers from the first part if it can, else from the second |
| Ranking.FindWithMilk | script.js:122-126 | the linear scan returns exactly what `find` returns |
| Ranking.PreferredNoneIff | script.js:120-127 | the earliest-nearest choice is empty iff no entry has the milk amount |
| Ranking.PreferredIsEarliestNearest | script.js:120-127 | the choice has the milk amount, no entry with that amount is nearer, and every earlier one is farther |
| Ranking.PreferredAtIsUnique | script.js:120-127 | at most one index is the earliest of the nearest |
| Ranking.FirstWithMilkInsert | script.js:116-127 | in a sorted list, an inserted entry becomes the first match iff it matches and is strictly nearer than the old first match |
| Ranking.FirstInSortedIsPreferred | script.js:116-127 | the first match in the stably sorted list is the earliest, in catalog order, of the nearest matching entries |
| Recommender.SelectBest | script.js:120-127 | the chosen entry is in the list; it is the first entry or has the preferred milk amount; it has that amount whenever the preference is 0 or 1 and some entry has it; for any other preference it is the first entry |
| Recommender.SelectBestIsFirst | script.js:120-127 | the override picks the first sorted entry with the preferred milk amount: no entry before it has that amount when the preference is 0 or 1 |
| Recommender.Confidence | script.js:131 | confidence is at least 0, at most 1 for a non-negative distance, 1 iff the distance is 0, and 0 iff the distance is at least 10 |
| Recommender.ConfidenceNonIncreasing | script.js:131 | a larger distance never gives a higher confidence |
| Recommender.Shortlist | script.js:132 | `slice(0, 5)`: the first min(5, n) entries in order, sorted when the input is sorted |
| Recommender.Ranked | script.js:84-116 | the scored catalog after the stable sort: 20 entries, sorted by distance; ShortlistIsTopFive adds that it is a permutation of the scores |
| Recommender.Chosen | script.js:120-127 | the entry `predict` settles on is one of the ranked entries; ChosenIsEarliestNearest says which |
| Recommender.Recommend | script.js:129-133 | the returned object carries five entries sorted by distance; the lemmas below characterise its name and confidence |
| Recommender.ScoreCatalog | script.js:88-112 | the scoring loop fills a fresh array with exactly the scored catalog |
| Recommender.Predict | script.js:83-134 | the method returns the specified prediction: a catalog drink name, a confidence in [0, 1] and five entries sorted by distance |
| Recommender.ChosenIsEarliestNearest | script.js:84-127 | the chosen entry is a catalog drink with its distance; it has the user's milk amount, no drink with that amount is nearer, and every earlier one in the catalog is farther |
| Recommender.MilkOverrideAlwaysFires | script.js:120-127 | the chosen drink always has the user's encoded milk amount |
| Recommender.TwinShape | script.js:8-32 | every drink but the Mikato has a twin in the catalog that differs from it in temperature only |
| Recommender.RightTemperatureIsNearer | script.js:93-106 | of two drinks differing only in temperature, the one at the user's temperature is strictly nearer |
| Recommender.ColdLatteBeatsMikato | script.js:8-32 | for a user who wants it cold, the cold latte is never farther than the hot Mikato |
| Recommender.TwinBeatsIt | script.js:8-32 | a drink at the wrong temperature has a twin with the same milk amount at the right temperature that is nearer, or as near and earlier |
| Recommender.WrongTemperatureNotPreferred | script.js:116-127 | a drink at the wrong temperature is never the earliest of the nearest |
| Recommender.ServedAtRequestedTemperature | script.js:72 | the recommended drink is served at the encoded temperature, so it is cold iff the temperature answer is "نعم" |
| Recommender.FullConfidenceIffExactMatch | script.js:131 | confidence is 1 iff some catalog drink has exactly the encoded features |
| Recommender.ShortlistIsTopFive | script.js:132 | the shortlist is the first five sorted entries, sorted; no entry left out is nearer; the sorted list is a permutation of the scored catalog |
| Recommender.HotLatteExample | script.js:83-134 | not sweet, milk, light, regular, hot gives "latte" with confidence 1 |
| Presentation.Lookup | script.js:161 | the raw answer is "نعم" iff the key is present with that token |
| Presentation.ArabicNames | script.js:180-194 | the label table knows exactly the thirteen drink names, and Cold Brew's label is fixed to the cold one |
| Presentation.GetArabicDrinkName | script.js:176-197 | Cold Brew is always labelled cold; every other label ends in a space and the chosen temperature word; the label is "مشروب " plus that word exactly when the name is unknown |
| Presentation.StemsAreNotGeneric | script.js:181-193 | no Arabic stem in the label table is the generic word "مشروب" |
| Presentation.LabelIsNotGeneric | script.js:181-196 | a known drink's label differs from the fallback label for every temperature word |
| Presentation.GetDrinkDescription | script.js:206-227 | the description is the generic text iff the name is unknown |
| Presentation.DescriptionIgnoresTemperature | script.js:206-227 | the temperature answer does not change the description |
| Presentation.TrimStart | script.js:245 | the result is a suffix of the input that does not start with white space, and every character removed is white space |
| Presentation.TrimEnd | script.js:245 | the result is a prefix of the input that does not end with white space, and every character removed is white space |
| Presentation.CollapseSpaces | script.js:245 | `replace(/\s+/g, ' ')` never lengthens the name and leaves it empty only when it was empty; CollapseSpacesSingleSpaced shows the result is single-spaced, CollapseSpacesKeepsText that it keeps every other character in order, and CollapseSpacesKeepsSingleSpaced that it is the identity on single-spaced input |
| Presentation.CleanName | script.js:245 | the clean-up never lengthens the name; CleanNameIsClean shows the result is clean, CleanNameKeepsText that it keeps every character but white space in order, CleanNameKeepsCleanNames that it is the identity on clean input, and CleanNameIdempotent that it is idempotent |
| Presentation.CollapseSpacesSingleSpaced | script.js:245 | after collapsing, the only white space is single spaces; a non-space first character is kept |
| Presentation.CleanNameIsClean | script.js:245 | the cleaned image name is single-spaced with no white space at either end |
| Presentation.CollapseSpacesKeepsSingleSpaced | script.js:245 | collapsing leaves a single-spaced string unchanged |
| Presentation.CleanNameKeepsCleanNames | script.js:245 | cleaning leaves an already clean name unchanged |
| Presentation.CleanNameIdempotent | script.js:245 | cleaning twice equals cleaning once |
| Presentation.NonSpace | script.js:245 | the characters of a string that are not white space, in order: never longer than the string, and none of them white space |
| Presentation.TrimStartKeepsText | script.js:245 | trimming the front removes white space only: the characters that are not white space are unchanged |
| Presentation.TrimEndKeepsText | script.js:245 | trimming the end removes white space only: the characters that are not white space are unchanged |
| Presentation.CollapseSpacesKeepsText | script.js:245 | collapsing the runs of white space keeps every other character, in order |
| Presentation.CleanNameKeepsText | script.js:245 | the whole clean-up keeps every character that is not white space, in order |
| Presentation.GetDrinkImage | script.js:236-250 | the path starts with images/cold/ when the raw temperature answer is "نعم" and images/hot/ otherwise, and ends with .png |
| Presentation.GetDrinkImageNamesTheDrink | script.js:241-249 | for a clean drink name the path is exactly images/, the folder, /, the name and .png |
| Presentation.V60NameIsClean | script.js:245 | a "v60 <origin> coffee" name is clean when its origin word is |
| Presentation.KnownNamesAreClean | script.js:180-194 | every known drink name is already clean, so the clean-up leaves it unchanged |
| Presentation.CatalogNamesKnown | script.js:8-32 | every catalog drink name is one of the thirteen names both lookup tables know |
| Presentation.GetRecommendations | script.js:147-167 | one card holding the label and description for the prediction; neither the label nor the description is the generic one; the image path is the folder of the drink's own serving temperature plus its catalog name |

## Left out

- `calculateDistance` (script.js:42-51) is not modelled. It uses `Math.sqrt`, which is floating point, and `predict` never calls it.
- The `k` parameter of `predict` is not modelled. No neighbour aggregation uses it.
- Recommender.Confidence: the model computes `1 - d/10` exactly with reals. JavaScript computes it in IEEE doubles, where some values round differently (for example 1 - 0.7). The distances themselves are small integers and are exact in both.
- Ranking.SortByDistance: `Array.prototype.sort` is replaced by an in-place insertion sort. The engine's own algorithm is not modelled. Because that sort must be stable, StableSortIsTheStableSort shows that it yields the same array.
- Presentation.GetArabicDrinkName and Presentation.GetDrinkDescription: the tables are plain maps. A JavaScript object lookup also finds inherited properties such as "constructor", which would be returned instead of the fallback. No catalog name is such a key.
- DOM rendering, navigation, animation, `localStorage` and the `JSON.parse` snapshot of the answers are not modelled. The same goes for the global mutable `userAnswers` map. The answers are an explicit `map<string, string>` parameter. Values of other JSON types are not modelled; like an absent key, they never equal a token.
- The global `aiModel` instance is not modelled. `drinksData` is never mutated after construction, so it is a constant sequence and `predict` is a module-level method.
- Presentation.CollapseSpaces: the contracts do not pin down where the single spaces of the result stand. They state that the result is single-spaced, keeps every other character in order, and is the identity on single-spaced input. They do not state that a space appears exactly where the input had a run of white space. That would need a second, index-based definition of the collapse, and the catalog names, being clean already, never reach that case.
- Presentation.CleanName: for the same reason, its contracts do not fix where the single spaces of the result stand between the kept characters.
