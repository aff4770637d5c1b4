/**
 * Word selection and pairing (server/words.ts). The content tables are
 * abstract: a `Tables` value stands for the source's constant word lists,
 * metadata records and country regions, and every random draw is a `pick`
 * choice (see `Sequences.Pick`).
 */
module Words {
  import opened Wrappers
  import opened Sequences
  import opened Schema

  /** A word with its metadata; a metadata field the table leaves out is None. */
  datatype WordInfo = WordInfo(
    name: string,
    kind: Option<string>,
    color: Option<string>,
    size: Option<string>,
    habitat: Option<string>,
    category: Option<string>)

  /** One entry of the region table: a region name and its member countries. */
  datatype Region = Region(name: string, countries: seq<string>)

  /** The content of the word module, in table order. */
  datatype Tables = Tables(
    countries: seq<string>,
    fruitsVegetables: seq<WordInfo>,
    animals: seq<WordInfo>,
    cars: seq<string>,
    regions: seq<Region>)

  function Names(ws: seq<WordInfo>): seq<string>
  {
    seq(|ws|, i requires 0 <= i < |ws| => ws[i].name)
  }

  lemma NameInNames(ws: seq<WordInfo>, w: WordInfo)
    requires w in ws
    ensures w.name in Names(ws)
  {
    var i :| 0 <= i < |ws| && ws[i] == w;
    assert Names(ws)[i] == w.name;
  }

  /** The word list of a category; an unknown category falls back to the countries list. */
  function WordsFor(t: Tables, category: string): (r: seq<string>)
    ensures category !in CategoryIds ==> r == t.countries
  {
    if category == "countries" then t.countries
    else if category == "fruits_vegetables" then Names(t.fruitsVegetables)
    else if category == "animals" then Names(t.animals)
    else if category == "cars" then t.cars
    else t.countries
  }

  /** A random word of the category; an unknown category draws from the countries. */
  function GetRandomWord(t: Tables, category: string, pick: nat): (r: Option<string>)
    ensures r.Some? <==> |WordsFor(t, category)| > 0
    ensures r.Some? ==> r.value in WordsFor(t, category)
    ensures category !in CategoryIds ==> (r.Some? ==> r.value in t.countries)
  {
    Pick(WordsFor(t, category), pick)
  }

  /** Every word of the category's list can be drawn. */
  lemma GetRandomWordReachesAll(t: Tables, category: string, i: nat)
    requires i < |WordsFor(t, category)|
    ensures GetRandomWord(t, category, i) == Some(WordsFor(t, category)[i])
  {
  }

  /** A random word of the category other than `excludeWord`. */
  function GetDifferentWord(t: Tables, category: string, excludeWord: string, pick: nat): (r: Option<string>)
    ensures r.Some? ==> r.value in WordsFor(t, category) && r.value != excludeWord
    ensures r.Some? <==> exists w :: w in WordsFor(t, category) && w != excludeWord
  {
    Pick(Filter(WordsFor(t, category), w => w != excludeWord), pick)
  }

  /** The first region, in table order, whose list contains `country`. */
  function CountryRegion(regions: seq<Region>, country: string): (r: Option<string>)
    ensures r.None? <==> forall i :: 0 <= i < |regions| ==> country !in regions[i].countries
    ensures r.Some? ==>
      exists i :: 0 <= i < |regions| && regions[i].name == r.value && country in regions[i].countries
        && forall j :: 0 <= j < i ==> country !in regions[j].countries
  {
    if regions == [] then None
    else if country in regions[0].countries then Some(regions[0].name)
    else
      var r := CountryRegion(regions[1..], country);
      if r.Some? then
        ghost var i :| 0 <= i < |regions[1..]| && regions[1..][i].name == r.value && country in regions[1..][i].countries
          && forall j :: 0 <= j < i ==> country !in regions[1..][j].countries;
        assert regions[i + 1] == regions[1..][i];
        assert forall j :: 1 <= j <= i ==> regions[j] == regions[1..][j - 1];
        r
      else
        assert forall i :: 1 <= i < |regions| ==> regions[i] == regions[1..][i - 1];
        r
  }

  /** The countries of the region called `name`, if there is one. */
  function RegionCountries(regions: seq<Region>, name: string): seq<string>
  {
    if regions == [] then []
    else if regions[0].name == name then regions[0].countries
    else RegionCountries(regions[1..], name)
  }

  /** Region names are the keys of a record, so no two regions share one. */
  predicate DistinctRegionNames(regions: seq<Region>)
  {
    forall i, j :: 0 <= i < j < |regions| ==> regions[i].name != regions[j].name
  }

  lemma {:induction false} RegionLookup(regions: seq<Region>, i: nat)
    requires DistinctRegionNames(regions) && i < |regions|
    ensures RegionCountries(regions, regions[i].name) == regions[i].countries
  {
    if i > 0 {
      assert regions[0].name != regions[i].name;
      assert regions[1..][i - 1] == regions[i];
      RegionLookup(regions[1..], i - 1);
    }
  }

  /** The first metadata entry with this name, if any. */
  function FindByName(ws: seq<WordInfo>, name: string): (r: Option<WordInfo>)
    ensures r.Some? ==> r.value in ws && r.value.name == name
    ensures r.Some? ==> exists i :: 0 <= i < |ws| && ws[i] == r.value && forall j :: 0 <= j < i ==> ws[j].name != name
    ensures r.None? <==> forall w :: w in ws ==> w.name != name
  {
    if ws == [] then None
    else if ws[0].name == name then Some(ws[0])
    else FindByName(ws[1..], name)
  }

  /** The two similarity scores: fruits by colour and size, animals by habitat and size. */
  datatype ScoreRule = ColorAndSize | HabitatAndSize

  /** The similarity score of `w` against `ref`: 2 for the first trait, 1 for the size; at most 3, reached by `ref` itself. */
  function Similarity(rule: ScoreRule, w: WordInfo, ref: WordInfo): (r: nat)
    ensures r <= 3
    ensures w == ref ==> r == 3
  {
    match rule
    case ColorAndSize => (if w.color == ref.color then 2 else 0) + (if w.size == ref.size then 1 else 0)
    case HabitatAndSize => (if w.habitat == ref.habitat then 2 else 0) + (if w.size == ref.size then 1 else 0)
  }

  /** The highest similarity among the candidates (the head of the score-sorted list). */
  function BestScore(rule: ScoreRule, cands: seq<WordInfo>, ref: WordInfo): (m: nat)
    ensures forall w :: w in cands ==> Similarity(rule, w, ref) <= m
    ensures cands != [] ==> exists w :: w in cands && Similarity(rule, w, ref) == m
  {
    if cands == [] then 0
    else
      var rest := BestScore(rule, cands[1..], ref);
      var s := Similarity(rule, cands[0], ref);
      if s >= rest then s else rest
  }

  /** The candidates that score at least the best score minus one. */
  function TopCandidates(rule: ScoreRule, cands: seq<WordInfo>, ref: WordInfo): (r: seq<WordInfo>)
    ensures cands != [] ==> r != []
    ensures forall w :: w in r <==> w in cands && Similarity(rule, w, ref) + 1 >= BestScore(rule, cands, ref)
  {
    var m := BestScore(rule, cands, ref);
    Filter(cands, w => Similarity(rule, w, ref) + 1 >= m)
  }

  /** The name of a random entry of `ws`. */
  function PickName(ws: seq<WordInfo>, pick: nat): (r: Option<string>)
    ensures r.Some? <==> ws != []
    ensures r.Some? ==> exists w :: w in ws && w.name == r.value
  {
    match Pick(ws, pick)
    case None => None
    case Some(w) => Some(w.name)
  }

  function SameTypeProduce(t: Tables, ref: WordInfo, excludeWord: string): seq<WordInfo>
  {
    Filter(t.fruitsVegetables, (w: WordInfo) => w.name != excludeWord && w.kind == ref.kind)
  }

  /**
   * The fruits_vegetables branch: a different entry of the same type, among
   * those within one point of the best colour/size score; otherwise any other
   * entry of the category.
   */
  function SimilarProduce(t: Tables, excludeWord: string, pick: nat): (r: Option<string>)
    ensures r.Some? ==> r.value != excludeWord && r.value in WordsFor(t, "fruits_vegetables")
    ensures r.Some? <==> exists w :: w in WordsFor(t, "fruits_vegetables") && w != excludeWord
    ensures var ref := FindByName(t.fruitsVegetables, excludeWord);
      ref.Some? && SameTypeProduce(t, ref.value, excludeWord) != [] ==>
        r.Some? && exists w :: (w in t.fruitsVegetables && w.name == r.value
          && w.kind == ref.value.kind
          && Similarity(ColorAndSize, w, ref.value) + 1 >= BestScore(ColorAndSize, SameTypeProduce(t, ref.value, excludeWord), ref.value))
  {
    match FindByName(t.fruitsVegetables, excludeWord)
    case Some(ref) =>
      var same := SameTypeProduce(t, ref, excludeWord);
      if same != [] then
        var r := PickName(TopCandidates(ColorAndSize, same, ref), pick);
        ghost var w :| w in TopCandidates(ColorAndSize, same, ref) && w.name == r.value;
        NameInNames(t.fruitsVegetables, w);
        r
      else GetDifferentWord(t, "fruits_vegetables", excludeWord, pick)
    case None => GetDifferentWord(t, "fruits_vegetables", excludeWord, pick)
  }

  function SameClassAnimals(t: Tables, ref: WordInfo, excludeWord: string): seq<WordInfo>
  {
    Filter(t.animals, (w: WordInfo) => w.name != excludeWord && w.category == ref.category)
  }

  function SameHabitatAnimals(t: Tables, ref: WordInfo, excludeWord: string): seq<WordInfo>
  {
    Filter(t.animals, (w: WordInfo) => w.name != excludeWord && w.habitat == ref.habitat)
  }

  /**
   * The animals branch: a different animal of the same class, among those
   * within one point of the best habitat/size score; failing that one of the
   * same habitat; failing that any other animal.
   */
  function SimilarAnimal(t: Tables, excludeWord: string, pick: nat): (r: Option<string>)
    ensures r.Some? ==> r.value != excludeWord && r.value in WordsFor(t, "animals")
    ensures r.Some? <==> exists w :: w in WordsFor(t, "animals") && w != excludeWord
    ensures var ref := FindByName(t.animals, excludeWord);
      ref.Some? && SameClassAnimals(t, ref.value, excludeWord) != [] ==>
        r.Some? && exists w :: (w in t.animals && w.name == r.value
          && w.category == ref.value.category
          && Similarity(HabitatAndSize, w, ref.value) + 1 >= BestScore(HabitatAndSize, SameClassAnimals(t, ref.value, excludeWord), ref.value))
    ensures var ref := FindByName(t.animals, excludeWord);
      ref.Some? && SameClassAnimals(t, ref.value, excludeWord) == [] && SameHabitatAnimals(t, ref.value, excludeWord) != [] ==>
        r.Some? && exists w :: w in t.animals && w.name == r.value && w.habitat == ref.value.habitat
  {
    match FindByName(t.animals, excludeWord)
    case Some(ref) =>
      var same := SameClassAnimals(t, ref, excludeWord);
      if same != [] then
        var r := PickName(TopCandidates(HabitatAndSize, same, ref), pick);
        ghost var w :| w in TopCandidates(HabitatAndSize, same, ref) && w.name == r.value;
        NameInNames(t.animals, w);
        r
      else
        var habitat := SameHabitatAnimals(t, ref, excludeWord);
        if habitat != [] then
          var r := PickName(habitat, pick);
          ghost var w :| w in habitat && w.name == r.value;
          NameInNames(t.animals, w);
          r
        else GetDifferentWord(t, "animals", excludeWord, pick)
    case None => GetDifferentWord(t, "animals", excludeWord, pick)
  }

  /**
   * The countries branch: another country of the first region that lists the
   * word (the region's own list, which need not be part of the countries
   * list); otherwise any other country.
   */
  function SimilarCountry(t: Tables, excludeWord: string, pick: nat): (r: Option<string>)
    ensures r.Some? ==> r.value != excludeWord
    ensures (exists w :: w in t.countries && w != excludeWord) ==> r.Some?
    ensures r.Some? ==>
      || r.value in t.countries
      || (CountryRegion(t.regions, excludeWord).Some?
          && r.value in RegionCountries(t.regions, CountryRegion(t.regions, excludeWord).value))
    ensures CountryRegion(t.regions, excludeWord).None? ==> (r.Some? ==> r.value in t.countries)
  {
    var region := CountryRegion(t.regions, excludeWord);
    if region.Some? && region.value != "" then
      var others := Filter(RegionCountries(t.regions, region.value), c => c != excludeWord);
      if others != [] then Pick(others, pick)
      else GetDifferentWord(t, "countries", excludeWord, pick)
    else GetDifferentWord(t, "countries", excludeWord, pick)
  }

  /** A country listed in a region with another member is paired inside the first such region. */
  lemma SimilarCountrySameRegion(t: Tables, excludeWord: string, pick: nat, i: nat)
    requires DistinctRegionNames(t.regions)
    requires i < |t.regions| && t.regions[i].name != ""
    requires excludeWord in t.regions[i].countries
    requires forall j :: 0 <= j < i ==> excludeWord !in t.regions[j].countries
    requires exists c :: c in t.regions[i].countries && c != excludeWord
    ensures SimilarCountry(t, excludeWord, pick).Some?
    ensures SimilarCountry(t, excludeWord, pick).value in t.regions[i].countries
  {
    var region := CountryRegion(t.regions, excludeWord);
    var k :| 0 <= k < |t.regions| && t.regions[k].name == region.value && excludeWord in t.regions[k].countries
      && forall j :: 0 <= j < k ==> excludeWord !in t.regions[j].countries;
    assert k == i;
    RegionLookup(t.regions, i);
    var c :| c in t.regions[i].countries && c != excludeWord;
    assert c in Filter(RegionCountries(t.regions, region.value), c' => c' != excludeWord);
  }

  /** The first space-separated token of a car name: its brand. */
  function Brand(s: string): (b: string)
    ensures ' ' !in b
    ensures b <= s
    ensures b == s || (|b| < |s| && s[|b|] == ' ')
  {
    if s == [] || s[0] == ' ' then [] else [s[0]] + Brand(s[1..])
  }

  /** Whether the name carries a model after the brand (it has a space). */
  predicate HasModel(s: string)
  {
    ' ' in s
  }

  /** Whether `s` begins with `prefix`. */
  predicate StartsWith(s: string, prefix: string)
  {
    prefix <= s
  }

  /** Starting with a brand and a space is being a car of that brand that has a model. */
  lemma {:induction false} BrandSpacePrefix(w: string, b: string)
    requires ' ' !in b
    ensures StartsWith(w, b + " ") <==> Brand(w) == b && HasModel(w)
  {
    if b == [] {
      assert b + " " == " ";
      if w != [] && w[0] == ' ' {
        assert w[0] in w;
      }
    } else {
      if w != [] && w[0] == b[0] {
        BrandSpacePrefix(w[1..], b[1..]);
        assert b + " " == [b[0]] + (b[1..] + " ");
        assert w == [w[0]] + w[1..];
        assert ' ' in w <==> ' ' in w[1..];
      } else if w != [] && w[0] != ' ' {
        assert Brand(w)[0] == w[0];
      }
    }
  }

  function SameBrandCars(t: Tables, excludeWord: string): seq<string>
  {
    Filter(t.cars, w => w != excludeWord && Brand(w) == Brand(excludeWord) && HasModel(w) == HasModel(excludeWord))
  }

  function BrandModelCars(t: Tables, excludeWord: string): seq<string>
  {
    Filter(t.cars, w => w != excludeWord && StartsWith(w, Brand(excludeWord) + " "))
  }

  /**
   * The cars branch: another car of the same brand with the same model status;
   * failing that a car whose name starts with the brand and a space; failing
   * that any other car.
   */
  function SimilarCar(t: Tables, excludeWord: string, pick: nat): (r: Option<string>)
    ensures r.Some? ==> r.value != excludeWord && r.value in t.cars
    ensures r.Some? <==> exists w :: w in t.cars && w != excludeWord
    ensures SameBrandCars(t, excludeWord) != [] ==>
      r.Some? && Brand(r.value) == Brand(excludeWord) && HasModel(r.value) == HasModel(excludeWord)
    ensures SameBrandCars(t, excludeWord) == [] && BrandModelCars(t, excludeWord) != [] ==>
      r.Some? && StartsWith(r.value, Brand(excludeWord) + " ")
  {
    var same := SameBrandCars(t, excludeWord);
    if same != [] then Pick(same, pick)
    else
      var withModel := BrandModelCars(t, excludeWord);
      if withModel != [] then Pick(withModel, pick)
      else GetDifferentWord(t, "cars", excludeWord, pick)
  }

  /**
   * The second car fallback can only fire for a brand-only word: for a word
   * with a model, every car that starts with its brand and a space is already
   * a same-brand, same-status candidate.
   */
  lemma CarFallbackOnlyForBareBrand(t: Tables, excludeWord: string)
    requires HasModel(excludeWord) && SameBrandCars(t, excludeWord) == []
    ensures BrandModelCars(t, excludeWord) == []
  {
    var b := Brand(excludeWord);
    forall i | 0 <= i < |t.cars|
      ensures !(t.cars[i] != excludeWord && StartsWith(t.cars[i], b + " "))
    {
      BrandSpacePrefix(t.cars[i], b);
      assert t.cars[i] !in SameBrandCars(t, excludeWord);
    }
    FilterNone(t.cars, w => w != excludeWord && StartsWith(w, b + " "));
  }

  /** A word paired with `excludeWord` for the spy in a blind-mode round. */
  function GetSimilarWord(t: Tables, category: string, excludeWord: string, pick: nat): (r: Option<string>)
    ensures r.Some? ==> r.value != excludeWord
    ensures category != "countries" ==> (r.Some? ==> r.value in WordsFor(t, category))
    ensures category != "countries" ==> (r.Some? <==> exists w :: w in WordsFor(t, category) && w != excludeWord)
    ensures category == "countries" && (exists w :: w in t.countries && w != excludeWord) ==> r.Some?
  {
    if category == "fruits_vegetables" then SimilarProduce(t, excludeWord, pick)
    else if category == "animals" then SimilarAnimal(t, excludeWord, pick)
    else if category == "countries" then SimilarCountry(t, excludeWord, pick)
    else if category == "cars" then SimilarCar(t, excludeWord, pick)
    else GetDifferentWord(t, category, excludeWord, pick)
  }

  /** A region entry absent from the countries list (here "كوسوفو") can be the pairing. */
  lemma SimilarCountryMayLeaveList()
    ensures var t := Tables(["ألبانيا"], [], [], [], [Region("البلقان", ["ألبانيا", "كوسوفو"])]);
      GetSimilarWord(t, "countries", "ألبانيا", 0) == Some("كوسوفو") && "كوسوفو" !in t.countries
  {
    var t := Tables(["ألبانيا"], [], [], [], [Region("البلقان", ["ألبانيا", "كوسوفو"])]);
    assert CountryRegion(t.regions, "ألبانيا") == Some("البلقان");
    var members := ["ألبانيا", "كوسوفو"];
    assert RegionCountries(t.regions, "البلقان") == members;
    var keep := (c: string) => c != "ألبانيا";
    assert members[1..] == ["كوسوفو"];
    assert Filter(members[1..][1..], keep) == [];
    assert Filter(members, keep) == ["كوسوفو"];
  }
}
