/**
 * The presentation lookups that turn a predicted drink name into what the
 * result page shows (`getArabicDrinkName`, `getDrinkDescription`,
 * `getDrinkImage`), and `getRecommendations`, which runs the model and
 * applies them. All three lookups take the raw temperature answer, which
 * may be absent.
 */
module Presentation {
  import opened Wrappers
  import opened Catalog
  import opened Encoding
  import opened Ranking
  import opened Recommender

  const ColdWord := "بارد"
  const HotWord := "ساخن"
  const GenericDrink := "مشروب "
  const ColdBrewName := "كولد برو بارد"
  const GenericDescription := "مشروب رائع يناسب ذوقك"

  /** The names the two tables know. */
  const KnownDrinkNames: set<string> := {
    "espresso", "Americano", "latte", "cappuccino", "Flat white", "Cortado", "Spanish latte",
    "Mikato", "Cold Brew", "v60 Yemeni coffee", "v60 Ethiopian coffee", "v60 Colombian coffee",
    "coffee day"}

  /** `answers[key]`, `None` when the key is absent. */
  function Lookup(answers: map<string, string>, key: string): (r: Option<string>)
    ensures r == Some(Yes) <==> Says(answers, key, Yes)
  {
    if key in answers then Some(answers[key]) else None
  }

  /** The raw answer "yes" to the temperature question means cold. */
  predicate IsCold(temperature: Option<string>) {
    temperature == Some(Yes)
  }

  function TempText(temperature: Option<string>): string {
    if IsCold(temperature) then ColdWord else HotWord
  }

  predicate EndsWith(s: string, suffix: string) {
    |suffix| <= |s| && s[|s| - |suffix|..] == suffix
  }

  /** The Arabic stem of each known name but Cold Brew; the label is the stem, a space and the temperature word. */
  const ArabicStems: map<string, string> := map[
    "espresso" := "إسبريسو",
    "Americano" := "أمريكانو",
    "latte" := "لاتيه",
    "cappuccino" := "كابتشينو",
    "Flat white" := "فلات وايت",
    "Cortado" := "كورتادو",
    "Spanish latte" := "سبانش لاتيه",
    "Mikato" := "ميكاتو",
    "v60 Yemeni coffee" := "قهوة v60 يمني",
    "v60 Ethiopian coffee" := "قهوة v60 إثيوبي",
    "v60 Colombian coffee" := "قهوة v60 كولومبي",
    "coffee day" := "قهوة اليوم"
  ]

  /** The label table for the given temperature word; Cold Brew's label is fixed. */
  function ArabicNames(tempText: string): (r: map<string, string>)
    ensures r.Keys == KnownDrinkNames
    ensures r["Cold Brew"] == ColdBrewName
  {
    assert ArabicStems.Keys + {"Cold Brew"} == KnownDrinkNames;
    (map n | n in ArabicStems :: ArabicStems[n] + " " + tempText)["Cold Brew" := ColdBrewName]
  }

  /**
   * The Arabic label: every known drink but Cold Brew ends in the
   * temperature word the user chose; Cold Brew is always labelled cold; an
   * unknown name gets a generic "drink <temperature>" label.
   */
  function GetArabicDrinkName(drinkName: string, temperature: Option<string>): (r: string)
    ensures drinkName == "Cold Brew" ==> r == ColdBrewName
    ensures drinkName != "Cold Brew" ==> EndsWith(r, " " + TempText(temperature))
    ensures r == GenericDrink + TempText(temperature) <==> drinkName !in KnownDrinkNames
  {
    var tempText := TempText(temperature);
    var arabicNames := ArabicNames(tempText);
    if drinkName in arabicNames then
      if drinkName == "Cold Brew" then
        assert |ColdBrewName| != |GenericDrink + tempText|;
        arabicNames[drinkName]
      else
        assert arabicNames[drinkName] == ArabicStems[drinkName] + (" " + tempText);
        LabelIsNotGeneric(drinkName, tempText);
        arabicNames[drinkName]
    else
      assert GenericDrink == "مشروب" + " ";
      GenericDrink + tempText
  }

  /** No stem is the generic word "مشروب": no stem of five letters starts with its letter. */
  lemma StemsAreNotGeneric()
    ensures forall n :: n in ArabicStems ==> ArabicStems[n] != "مشروب"
  {
    forall n | n in ArabicStems
      ensures ArabicStems[n] != "مشروب"
    {
      assert |ArabicStems[n]| != 5 || ArabicStems[n][0] != 'م';
    }
  }

  lemma SuffixCancels(a: string, c: string, b: string)
    requires a + b == c + b
    ensures a == c
  {
    assert a == (a + b)[..|a|];
    assert c == (c + b)[..|c|];
  }

  /** A known drink's label is never the generic one. */
  lemma LabelIsNotGeneric(n: string, tempText: string)
    requires n in ArabicStems
    ensures ArabicStems[n] + (" " + tempText) != GenericDrink + tempText
  {
    if ArabicStems[n] + (" " + tempText) == GenericDrink + tempText {
      assert GenericDrink + tempText == "مشروب" + (" " + tempText);
      SuffixCancels(ArabicStems[n], "مشروب", " " + tempText);
      StemsAreNotGeneric();
    }
  }

  const Descriptions: map<string, string> := map[
    "espresso" := "قهوة مركزة وقوية بدون حليب",
    "Americano" := "قهوة خفيفة مع ماء ساخن بدون حليب",
    "latte" := "قهوة خفيفة مع حليب فومي ناعم",
    "cappuccino" := "قهوة خفيفة مع حليب ورغوة متوازنة",
    "Flat white" := "قهوة خفيفة مع حليب حريري ناعم",
    "Cortado" := "إسبرسو ممزوج بكمية مساوية تقريباً من الحليب الساخن المبخر لتقليل حموضة القهوة أو مرارتها",
    "Spanish latte" := "مشروب مكون من الإسبريسو والحليب والثلج مضاف إليه محلى",
    "Mikato" := "اسبريسو مع رغوة الحليب فقط لتقليل حموضة القهوة أو مرارتها",
    "Cold Brew" := "قهوة باردة منقوعة طوال الليل بدون حليب",
    "v60 Yemeni coffee" := "قهوة فاخرة ذات مذاق معتدل ومتوازن تحوي إيحاءات طبيعية من الياسمين والزبيب والفراولة",
    "v60 Ethiopian coffee" := "قهوة فاخرة ذات مذاق معتدل ومتوازن تحوي إيحاءات طبيعية من الفراولة والتوت البري والشوكولاتة",
    "v60 Colombian coffee" := "قهوة ذات مذاق معتدل وحدة متوسطة تحوي إيحاءات طبيعية من التوت الأزرق والفراولة",
    "coffee day" := "قهوة سوداء فاخرة ذات سعر مميز مرشحة تجهز مسبقاً ويتم تقديمها بأنواع قهوة مختلفة يومياً حتى نفاذ الكمية"
  ]

  /**
   * The description: a known drink has its own, an unknown one the generic
   * text. The temperature answer is accepted but does not change the text.
   */
  function GetDrinkDescription(drinkName: string, temperature: Option<string>): (r: string)
    ensures r == GenericDescription <==> drinkName !in KnownDrinkNames
  {
    DescriptionsCoverKnownNames();
    DescriptionsAreLonger();
    if drinkName in Descriptions then Descriptions[drinkName] else GenericDescription
  }

  /** The description table covers exactly the known names. */
  lemma DescriptionsCoverKnownNames()
    ensures Descriptions.Keys == KnownDrinkNames
  {
  }

  /** Every description is longer than the generic text. */
  lemma DescriptionsAreLonger()
    ensures forall n :: n in Descriptions ==> |Descriptions[n]| > |GenericDescription|
  {
  }

  lemma DescriptionIgnoresTemperature(drinkName: string, t1: Option<string>, t2: Option<string>)
    ensures GetDrinkDescription(drinkName, t1) == GetDrinkDescription(drinkName, t2)
  {
  }

  // ----- cleaning the image name: `replace(/\s+/g, ' ').trim()` -----

  /** The characters JavaScript's `\s` and `trim` treat as white space. */
  predicate IsSpace(c: char) {
    var n := c as int;
    (0x09 <= n <= 0x0D) || n == 0x20 || n == 0xA0 || n == 0x1680 || (0x2000 <= n <= 0x200A) ||
    n == 0x2028 || n == 0x2029 || n == 0x202F || n == 0x205F || n == 0x3000 || n == 0xFEFF
  }

  /** `s` without its leading white space. */
  function TrimStart(s: string): (r: string)
    ensures |r| <= |s| && r == s[|s| - |r|..]
    ensures r == [] || !IsSpace(r[0])
    ensures forall i :: 0 <= i < |s| - |r| ==> IsSpace(s[i])
  {
    if s != [] && IsSpace(s[0]) then TrimStart(s[1..]) else s
  }

  /** `s` without its trailing white space. */
  function TrimEnd(s: string): (r: string)
    ensures |r| <= |s| && r == s[..|r|]
    ensures r == [] || !IsSpace(r[|r| - 1])
    ensures forall i :: |r| <= i < |s| ==> IsSpace(s[i])
  {
    if s != [] && IsSpace(s[|s| - 1]) then TrimEnd(s[..|s| - 1]) else s
  }

  /** Every run of white space replaced by one space. */
  function CollapseSpaces(s: string): (r: string)
    ensures |r| <= |s|
    ensures r == [] <==> s == []
    decreases |s|
  {
    if s == [] then []
    else if IsSpace(s[0]) then " " + CollapseSpaces(TrimStart(s[1..]))
    else [s[0]] + CollapseSpaces(s[1..])
  }

  /** `replace(/\s+/g, ' ').trim()`. */
  function CleanName(s: string): (r: string)
    ensures |r| <= |s|
  {
    TrimEnd(TrimStart(CollapseSpaces(s)))
  }

  /** The only white space is single spaces. */
  predicate SingleSpaced(s: string) {
    forall i :: 0 <= i < |s| && IsSpace(s[i]) ==> s[i] == ' ' && (i + 1 < |s| ==> !IsSpace(s[i + 1]))
  }

  /** Single-spaced, with no white space at either end. */
  predicate Clean(s: string) {
    SingleSpaced(s) && (s != [] ==> !IsSpace(s[0]) && !IsSpace(s[|s| - 1]))
  }

  lemma {:induction false} CollapseSpacesSingleSpaced(s: string)
    ensures SingleSpaced(CollapseSpaces(s))
    ensures s != [] && !IsSpace(s[0]) ==> CollapseSpaces(s) != [] && CollapseSpaces(s)[0] == s[0]
    decreases |s|
  {
    if s != [] {
      if IsSpace(s[0]) {
        var rest := TrimStart(s[1..]);
        CollapseSpacesSingleSpaced(rest);
        SpaceThenSingleSpaced(CollapseSpaces(rest));
      } else {
        CollapseSpacesSingleSpaced(s[1..]);
        CharThenSingleSpaced(s[0], CollapseSpaces(s[1..]));
      }
    }
  }

  lemma SpaceThenSingleSpaced(c: string)
    requires SingleSpaced(c) && (c == [] || !IsSpace(c[0]))
    ensures SingleSpaced(" " + c)
  {
    assert forall i :: 1 <= i < |c| + 1 ==> (" " + c)[i] == c[i - 1];
  }

  lemma CharThenSingleSpaced(ch: char, c: string)
    requires !IsSpace(ch) && SingleSpaced(c)
    ensures SingleSpaced([ch] + c)
  {
    assert forall i :: 1 <= i < |c| + 1 ==> ([ch] + c)[i] == c[i - 1];
  }

  /** The cleaned image name has no white space at either end and no runs of it. */
  lemma CleanNameIsClean(s: string)
    ensures Clean(CleanName(s))
  {
    var c := CollapseSpaces(s);
    CollapseSpacesSingleSpaced(s);
    TrimStartSingleSpaced(c);
    TrimEndClean(TrimStart(c));
  }

  lemma TrimStartSingleSpaced(c: string)
    requires SingleSpaced(c)
    ensures SingleSpaced(TrimStart(c))
  {
    var t := TrimStart(c);
    SingleSpacedSuffix(c, |c| - |t|);
  }

  lemma TrimEndClean(t: string)
    requires SingleSpaced(t) && (t == [] || !IsSpace(t[0]))
    ensures Clean(TrimEnd(t))
  {
    var r := TrimEnd(t);
    SingleSpacedPrefix(t, |r|);
    assert r != [] ==> r[0] == t[0];
  }

  lemma SingleSpacedSuffix(s: string, k: nat)
    requires k <= |s| && SingleSpaced(s)
    ensures SingleSpaced(s[k..])
  {
    assert forall i :: 0 <= i < |s| - k ==> s[k..][i] == s[k + i];
  }

  lemma SingleSpacedPrefix(s: string, k: nat)
    requires k <= |s| && SingleSpaced(s)
    ensures SingleSpaced(s[..k])
  {
    assert forall i :: 0 <= i < k ==> s[..k][i] == s[i];
  }

  /** The characters of `s` that are not white space, in order. */
  function NonSpace(s: string): (r: string)
    ensures |r| <= |s|
    ensures forall i :: 0 <= i < |r| ==> !IsSpace(r[i])
  {
    if s == [] then [] else (if IsSpace(s[0]) then [] else [s[0]]) + NonSpace(s[1..])
  }

  lemma {:induction false} NonSpaceAppend(a: string, b: string)
    ensures NonSpace(a + b) == NonSpace(a) + NonSpace(b)
  {
    if a == [] {
      assert a + b == b;
    } else {
      assert (a + b)[0] == a[0];
      assert (a + b)[1..] == a[1..] + b;
      NonSpaceAppend(a[1..], b);
    }
  }

  lemma {:induction false} NonSpaceOfSpaces(s: string)
    requires forall i :: 0 <= i < |s| ==> IsSpace(s[i])
    ensures NonSpace(s) == []
  {
    if s != [] {
      NonSpaceOfSpaces(s[1..]);
    }
  }

  /** Trimming the front removes white space only. */
  lemma TrimStartKeepsText(s: string)
    ensures NonSpace(TrimStart(s)) == NonSpace(s)
  {
    var r := TrimStart(s);
    var k := |s| - |r|;
    assert s == s[..k] + r;
    NonSpaceAppend(s[..k], r);
    NonSpaceOfSpaces(s[..k]);
  }

  /** Trimming the end removes white space only. */
  lemma TrimEndKeepsText(s: string)
    ensures NonSpace(TrimEnd(s)) == NonSpace(s)
  {
    var r := TrimEnd(s);
    assert s == r + s[|r|..];
    NonSpaceAppend(r, s[|r|..]);
    NonSpaceOfSpaces(s[|r|..]);
  }

  /** Collapsing replaces white space by spaces and keeps every other character, in order. */
  lemma {:induction false} CollapseSpacesKeepsText(s: string)
    ensures NonSpace(CollapseSpaces(s)) == NonSpace(s)
    decreases |s|
  {
    if s != [] {
      if IsSpace(s[0]) {
        var rest := TrimStart(s[1..]);
        CollapseSpacesKeepsText(rest);
        TrimStartKeepsText(s[1..]);
        NonSpaceAppend(" ", CollapseSpaces(rest));
      } else {
        CollapseSpacesKeepsText(s[1..]);
        NonSpaceAppend([s[0]], CollapseSpaces(s[1..]));
      }
    }
  }

  /** The clean-up of the image name keeps every character that is not white space, in order. */
  lemma CleanNameKeepsText(s: string)
    ensures NonSpace(CleanName(s)) == NonSpace(s)
  {
    CollapseSpacesKeepsText(s);
    TrimStartKeepsText(CollapseSpaces(s));
    TrimEndKeepsText(TrimStart(CollapseSpaces(s)));
  }

  lemma {:induction false} CollapseSpacesKeepsSingleSpaced(s: string)
    requires SingleSpaced(s)
    ensures CollapseSpaces(s) == s
    decreases |s|
  {
    if s != [] {
      assert SingleSpaced(s[1..]) by {
        assert forall i :: 0 <= i < |s| - 1 ==> s[1..][i] == s[i + 1];
      }
      if IsSpace(s[0]) {
        assert TrimStart(s[1..]) == s[1..];
      }
      CollapseSpacesKeepsSingleSpaced(s[1..]);
      assert s == [s[0]] + s[1..];
    }
  }

  /** Cleaning leaves a clean name unchanged, so cleaning twice is cleaning once. */
  lemma CleanNameKeepsCleanNames(s: string)
    requires Clean(s)
    ensures CleanName(s) == s
  {
    CollapseSpacesKeepsSingleSpaced(s);
  }

  lemma CleanNameIdempotent(s: string)
    ensures CleanName(CleanName(s)) == CleanName(s)
  {
    CleanNameIsClean(s);
    CleanNameKeepsCleanNames(CleanName(s));
  }

  predicate StartsWith(s: string, prefix: string) {
    |prefix| <= |s| && s[..|prefix|] == prefix
  }

  lemma ConcatEnds(p: string, q: string)
    ensures StartsWith(p + q, p) && EndsWith(p + q, q)
  {
    assert (p + q)[..|p|] == p;
    assert (p + q)[|p + q| - |q|..] == q;
  }

  function Folder(userTemperaturePreference: Option<string>): string {
    if IsCold(userTemperaturePreference) then "cold" else "hot"
  }

  /** `images/<cold|hot>/<cleaned name>.png`, the folder chosen by the raw temperature answer. */
  function GetDrinkImage(drinkName: string, userTemperaturePreference: Option<string>): (r: string)
    ensures StartsWith(r, "images/" + Folder(userTemperaturePreference) + "/")
    ensures EndsWith(r, ".png")
  {
    var folder := Folder(userTemperaturePreference);
    var imageName := CleanName(drinkName);
    var r := "images/" + folder + "/" + imageName + ".png";
    ConcatEnds("images/" + folder + "/", imageName + ".png");
    ConcatEnds(imageName, ".png");
    assert r == ("images/" + folder + "/") + (imageName + ".png");
    r
  }

  /** A clean name is used as it is: the path is the folder, the name and `.png`. */
  lemma GetDrinkImageNamesTheDrink(drinkName: string, userTemperaturePreference: Option<string>)
    requires Clean(drinkName)
    ensures GetDrinkImage(drinkName, userTemperaturePreference) ==
      "images/" + Folder(userTemperaturePreference) + "/" + drinkName + ".png"
  {
    CleanNameKeepsCleanNames(drinkName);
  }

  // ----- the catalog against the tables -----

  /**
   * From index `i` on, no white space but single spaces. This says what
   * `SingleSpaced` says, but as a recursion the verifier unfolds one
   * character at a time on a literal; it serves only to prove literal names
   * clean, through `WellSpacedWordIsClean`.
   */
  predicate WellSpacedFrom(s: string, i: nat)
    decreases |s| - i
  {
    i >= |s| ||
    ((IsSpace(s[i]) ==> s[i] == ' ' && (i + 1 < |s| ==> !IsSpace(s[i + 1]))) && WellSpacedFrom(s, i + 1))
  }

  lemma {:induction false} WellSpacedFromHolds(s: string, i: nat, j: nat)
    requires WellSpacedFrom(s, i) && i <= j < |s| && IsSpace(s[j])
    ensures s[j] == ' ' && (j + 1 < |s| ==> !IsSpace(s[j + 1]))
    decreases j - i
  {
    if i < j {
      WellSpacedFromHolds(s, i + 1, j);
    }
  }

  /** A string with no white space at its ends whose character-by-character check passes is clean. */
  lemma WellSpacedWordIsClean(s: string)
    requires WellSpacedFrom(s, 0)
    requires s != [] ==> !IsSpace(s[0]) && !IsSpace(s[|s| - 1])
    ensures Clean(s)
  {
    forall j | 0 <= j < |s| && IsSpace(s[j])
      ensures s[j] == ' ' && (j + 1 < |s| ==> !IsSpace(s[j + 1]))
    {
      WellSpacedFromHolds(s, 0, j);
    }
  }

  /** Two clean words joined by one space make a clean name. */
  lemma JoinIsClean(a: string, b: string)
    requires Clean(a) && Clean(b) && a != [] && b != []
    ensures Clean(a + " " + b)
  {
    var r := a + " " + b;
    assert forall i :: 0 <= i < |a| ==> r[i] == a[i];
    assert r[|a|] == ' ';
    assert forall i :: |a| < i < |r| ==> r[i] == b[i - |a| - 1];
  }

  /** The known names, and hence all catalog names, are already clean. */
  lemma KnownNamesAreClean(n: string)
    requires n in KnownDrinkNames
    ensures Clean(n)
  {
    if n in {"v60 Yemeni coffee", "v60 Ethiopian coffee", "v60 Colombian coffee"} {
      V60NamesAreClean(n);
    } else {
      ShortNamesAreClean(n);
    }
  }

  lemma V60NamesAreClean(n: string)
    requires n in {"v60 Yemeni coffee", "v60 Ethiopian coffee", "v60 Colombian coffee"}
    ensures Clean(n)
  {
    var origin: string;
    if n == "v60 Yemeni coffee" {
      origin := "Yemeni";
      WellSpacedWordIsClean("Yemeni");
    } else if n == "v60 Ethiopian coffee" {
      origin := "Ethiopian";
      WellSpacedWordIsClean("Ethiopian");
    } else {
      origin := "Colombian";
      WellSpacedWordIsClean("Colombian");
    }
    V60NameIsClean(origin);
    assert "v60 " + origin + " coffee" == n;
  }

  /** "v60 <origin> coffee" is clean when the origin word is. */
  lemma V60NameIsClean(origin: string)
    requires Clean(origin) && origin != []
    ensures Clean("v60 " + origin + " coffee")
  {
    WellSpacedWordIsClean("v60");
    WellSpacedWordIsClean("coffee");
    JoinIsClean("v60", origin);
    JoinIsClean("v60" + " " + origin, "coffee");
    assert "v60" + " " + origin + " " + "coffee" == "v60 " + origin + " coffee";
  }

  lemma ShortNamesAreClean(n: string)
    requires n in {"espresso", "Americano", "latte", "cappuccino", "Flat white", "Cortado",
                   "Spanish latte", "Mikato", "Cold Brew", "coffee day"}
    ensures Clean(n)
  {
    if n in {"espresso", "Americano", "latte", "cappuccino", "Flat white"} {
      FirstShortNamesAreClean(n);
    } else {
      LastShortNamesAreClean(n);
    }
  }

  lemma FirstShortNamesAreClean(n: string)
    requires n in {"espresso", "Americano", "latte", "cappuccino", "Flat white"}
    ensures Clean(n)
  {
    if n == "espresso" {
      WellSpacedWordIsClean("espresso");
    } else if n == "Americano" {
      WellSpacedWordIsClean("Americano");
    } else if n == "latte" {
      WellSpacedWordIsClean("latte");
    } else if n == "cappuccino" {
      WellSpacedWordIsClean("cappuccino");
    } else {
      WellSpacedWordIsClean("Flat white");
    }
  }

  lemma LastShortNamesAreClean(n: string)
    requires n in {"Cortado", "Spanish latte", "Mikato", "Cold Brew", "coffee day"}
    ensures Clean(n)
  {
    if n == "Cortado" {
      WellSpacedWordIsClean("Cortado");
    } else if n == "Spanish latte" {
      WellSpacedWordIsClean("Spanish latte");
    } else if n == "Mikato" {
      WellSpacedWordIsClean("Mikato");
    } else if n == "Cold Brew" {
      WellSpacedWordIsClean("Cold Brew");
    } else {
      WellSpacedWordIsClean("coffee day");
    }
  }

  /** Every catalog name is one of the names both tables know. */
  lemma CatalogNamesKnown(i: int)
    requires 0 <= i < |Drinks|
    ensures Drinks[i].name in KnownDrinkNames
  {
    if i < 8 {
      ColdNamesKnown(i);
    } else {
      HotNamesKnown(i);
    }
  }

  lemma ColdNamesKnown(i: int)
    requires 0 <= i < 8
    ensures Drinks[i].name in KnownDrinkNames
  {
    assert i in {0, 1, 2, 3, 4, 5, 6, 7};
  }

  lemma HotNamesKnown(i: int)
    requires 8 <= i < |Drinks|
    ensures Drinks[i].name in KnownDrinkNames
  {
    assert i in {8, 9, 10, 11, 12, 13, 14, 15, 16, 17, 18, 19};
  }

  /** The recommendation card `getRecommendations` builds. */
  datatype Recommendation = Recommendation(name: string, description: string, image: string)

  /**
   * Runs the model and resolves the predicted name with the raw temperature
   * answer. The card always has the drink's own description, and its image
   * folder is the temperature at which the recommended drink is served.
   */
  method GetRecommendations(answers: map<string, string>) returns (recs: seq<Recommendation>)
    ensures |recs| == 1
    ensures recs[0].name == GetArabicDrinkName(Recommend(answers).prediction, Lookup(answers, TemperatureKey))
    ensures recs[0].description == GetDrinkDescription(Recommend(answers).prediction, Lookup(answers, TemperatureKey))
    ensures recs[0].name != GenericDrink + TempText(Lookup(answers, TemperatureKey))
    ensures recs[0].description != GenericDescription
    ensures recs[0].image == "images/" + (if Chosen(answers).drink.features.temperature == 0 then "cold" else "hot")
                             + "/" + Chosen(answers).drink.name + ".png"
  {
    var aiResult := Predict(answers);
    var predictedDrink := aiResult.prediction;
    var temperature := Lookup(answers, TemperatureKey);
    var recommendation := Recommendation(
      GetArabicDrinkName(predictedDrink, temperature),
      GetDrinkDescription(predictedDrink, temperature),
      GetDrinkImage(predictedDrink, temperature));
    recs := [recommendation];

    var i := ChosenIsEarliestNearest(answers);
    CatalogNamesKnown(i);
    KnownNamesAreClean(predictedDrink);
    GetDrinkImageNamesTheDrink(predictedDrink, temperature);
    ServedAtRequestedTemperature(answers);
  }
}
