/** The client-side search and ranking library (`src/utils/searchUtils.js`):
    text normalisation, relevance scoring, ranking, quality filtering,
    grouping, suggestions, fuzzy matching, highlighting and query validation.
    The LRU cache of the same file is in module SearchCache. */
module SearchUtils {
  import opened Wrappers
  import opened Text
  import opened Seqs
  import opened Catalog
  import StableSort

  // ---------------------------------------------------------------------
  // normalizeText
  // ---------------------------------------------------------------------

  /** A character that can appear in normalised text. */
  predicate IsNormChar(c: char) {
    ('a' <= c <= 'z') || ('0' <= c <= '9') || c == '_' || IsSpace(c)
  }

  /** Output shape of `normalizeText`: lower-case ASCII letters, digits, `_`
      and whitespace, with no whitespace at either end. Inner whitespace is
      not collapsed. */
  ghost predicate IsNormalized(s: string) {
    && (forall i :: 0 <= i < |s| ==> IsNormChar(s[i]))
    && (|s| > 0 ==> !IsSpace(s[0]) && !IsSpace(s[|s| - 1]))
  }

  /** `normalizeText(text)`: lower-case, NFD, drop combining marks, drop
      everything but `\w` and `\s`, trim. */
  function NormalizeText(text: string): (r: string)
    ensures |text| == 0 ==> r == ""
    ensures IsNormalized(r)
  {
    if |text| == 0 then ""
    else
      var lowered := LowerStr(text);
      var stripped := StripDiacritics(lowered);
      var kept := RemoveSpecial(stripped);
      LowerHasNoUpper(text);
      StripKeepsNoUpper(lowered);
      RemoveSpecialNormChars(stripped);
      TrimKeepsChars(kept);
      Trim(kept)
  }

  ghost predicate NoUpper(s: string) {
    forall i :: 0 <= i < |s| ==> !IsAsciiUpper(s[i]) && !IsLatin1Upper(s[i])
  }

  lemma LowerHasNoUpper(s: string)
    ensures NoUpper(LowerStr(s))
  {
  }

  lemma BaseLetterOfLower(c: char)
    requires !IsAsciiUpper(c) && !IsLatin1Upper(c)
    ensures !IsAsciiUpper(BaseLetter(c))
  {
  }

  lemma {:induction false} StripKeepsNoUpper(s: string)
    requires NoUpper(s)
    ensures forall i :: 0 <= i < |StripDiacritics(s)| ==> !IsAsciiUpper(StripDiacritics(s)[i])
  {
    if |s| > 0 {
      StripKeepsNoUpper(s[1..]);
      BaseLetterOfLower(s[0]);
    }
  }

  lemma {:induction false} RemoveSpecialNormChars(s: string)
    requires forall i :: 0 <= i < |s| ==> !IsAsciiUpper(s[i])
    ensures forall i :: 0 <= i < |RemoveSpecial(s)| ==> IsNormChar(RemoveSpecial(s)[i])
  {
    if |s| > 0 {
      RemoveSpecialNormChars(s[1..]);
    }
  }

  lemma TrimKeepsChars(s: string)
    requires forall i :: 0 <= i < |s| ==> IsNormChar(s[i])
    ensures IsNormalized(Trim(s))
  {
    var r := Trim(s);
    var off := TrimBounds(s);
    forall i | 0 <= i < |r|
      ensures IsNormChar(r[i])
    {
      assert r[i] == s[off + i];
    }
    TrimEndsClean(s);
  }

  /** The characters `normalizeText` keeps before trimming. */
  function Kept(text: string): string {
    RemoveSpecial(StripDiacritics(LowerStr(text)))
  }

  /** The three character steps distribute over concatenation and leave a
      whitespace run in place. */
  lemma {:induction false} KeptAroundSpaces(x: string, w: string, y: string)
    requires AllSpace(w)
    ensures Kept(x + w + y) == Kept(x) + w + Kept(y)
  {
    var lx, ly := LowerStr(x), LowerStr(y);
    var sx, sy := StripDiacritics(lx), StripDiacritics(ly);
    SpaceRunUnchanged(w);
    LowerStrAppend(x + w, y);
    LowerStrAppend(x, w);
    StripDiacriticsAppend(lx + w, ly);
    StripDiacriticsAppend(lx, w);
    RemoveSpecialAppend(sx + w, sy);
    RemoveSpecialAppend(sx, w);
  }

  /** A word without whitespace normalises to what it keeps, untrimmed. */
  lemma {:induction false} NormalizeWord(x: string)
    requires NoSpace(x) && NormalizeText(x) != ""
    ensures NormalizeText(x) == Kept(x) && NoSpace(Kept(x))
  {
    LowerNoSpace(x);
    StripDiacriticsNoSpace(LowerStr(x));
    RemoveSpecialNoSpace(StripDiacritics(LowerStr(x)));
    var k := Kept(x);
    assert NormalizeText(x) == Trim(k);
    if |k| > 0 {
      TrimClean(k);
    }
  }

  /** Inner whitespace survives normalisation exactly: for two words
      without whitespace that do not normalise to "", the whitespace run
      between them is kept as it is, and each word normalises on its own
      ("Açaí  Bowl" becomes "acai  bowl"). */
  lemma {:induction false} NormalizeTextTwoWords(x: string, w: string, y: string)
    requires NoSpace(x) && NoSpace(y) && NormalizeText(x) != "" && NormalizeText(y) != ""
    requires |w| > 0 && AllSpace(w)
    ensures NormalizeText(x + w + y) == NormalizeText(x) + w + NormalizeText(y)
  {
    NormalizeWord(x);
    NormalizeWord(y);
    NormalizeKeptTwoWords(x, w, y);
  }

  lemma {:induction false} NormalizeKeptTwoWords(x: string, w: string, y: string)
    requires NoSpace(Kept(x)) && NoSpace(Kept(y)) && Kept(x) != "" && Kept(y) != ""
    requires |w| > 0 && AllSpace(w)
    ensures NormalizeText(x + w + y) == Kept(x) + w + Kept(y)
  {
    calc {
      NormalizeText(x + w + y);
      { NormalizeIsTrimKept(x + w + y); }
      Trim(Kept(x + w + y));
      { KeptAroundSpaces(x, w, y); }
      Trim(Kept(x) + w + Kept(y));
      { TrimBetweenWords(Kept(x), w, Kept(y)); }
      Kept(x) + w + Kept(y);
    }
  }

  lemma NormalizeIsTrimKept(text: string)
    requires |text| > 0
    ensures NormalizeText(text) == Trim(Kept(text))
  {
  }

  lemma TrimBetweenWords(a: string, w: string, b: string)
    requires |a| > 0 && |b| > 0 && NoSpace(a) && NoSpace(b)
    ensures Trim(a + w + b) == a + w + b
  {
    var k := a + w + b;
    assert k[0] == a[0];
    assert k[|k| - 1] == b[|b| - 1];
    TrimClean(k);
  }

  /** Normalised text is a fixed point of `normalizeText`. */
  lemma NormalizedIsFixedPoint(s: string)
    requires IsNormalized(s)
    ensures NormalizeText(s) == s
  {
    if |s| > 0 {
      assert LowerStr(s) == s;
      StripIdentity(s);
      RemoveSpecialIdentity(s);
      assert TrimStart(s) == s;
      assert TrimEnd(s) == s;
    }
  }

  lemma {:induction false} StripIdentity(s: string)
    requires forall i :: 0 <= i < |s| ==> IsNormChar(s[i])
    ensures StripDiacritics(s) == s
  {
    if |s| > 0 {
      StripIdentity(s[1..]);
      assert s == [s[0]] + s[1..];
    }
  }

  lemma {:induction false} RemoveSpecialIdentity(s: string)
    requires forall i :: 0 <= i < |s| ==> IsNormChar(s[i])
    ensures RemoveSpecial(s) == s
  {
    if |s| > 0 {
      RemoveSpecialIdentity(s[1..]);
      assert s == [s[0]] + s[1..];
    }
  }

  /** Normalising twice is normalising once. */
  lemma NormalizeTextIdempotent(text: string)
    ensures NormalizeText(NormalizeText(text)) == NormalizeText(text)
  {
    NormalizedIsFixedPoint(NormalizeText(text));
  }

  /** `normalizeText` is made from its input: the non-whitespace characters
      of the result are exactly the word characters of the lower-cased,
      accent-stripped text, in order. */
  lemma {:induction false} NormalizeTextKeepsWords(text: string)
    ensures Filter(NotSpace, NormalizeText(text)) == Filter(IsWordChar, StripDiacritics(LowerStr(text)))
  {
    if |text| > 0 {
      var stripped := StripDiacritics(LowerStr(text));
      TrimKeepsNonSpace(RemoveSpecial(stripped));
      RemoveSpecialKeepsWords(stripped);
    }
  }

  /** On text already made of ASCII letters, digits, `_` and whitespace,
      `normalizeText` is lower-casing and trimming: nothing is dropped. */
  lemma {:induction false} NormalizeTextOfPlainText(s: string)
    requires forall i :: 0 <= i < |s| ==> IsNormChar(s[i]) || IsAsciiUpper(s[i])
    ensures NormalizeText(s) == Trim(LowerStr(s))
  {
    if |s| > 0 {
      var lowered := LowerStr(s);
      assert forall i :: 0 <= i < |lowered| ==> IsNormChar(lowered[i]);
      StripIdentity(lowered);
      RemoveSpecialIdentity(lowered);
    }
  }

  // ---------------------------------------------------------------------
  // calculateRelevanceScore
  // ---------------------------------------------------------------------

  /** The name signal: exactly one of the three tiers fires, the highest
      that applies. */
  function NameTier(name: string, q: string): (t: int)
    ensures t == 100 <==> name == q
    ensures t == 80 <==> name != q && StartsWith(name, q)
    ensures t == 60 <==> !StartsWith(name, q) && Includes(name, q)
    ensures t == 0 <==> !Includes(name, q)
  {
    if name == q then
      StartsWithIncludes(name, q);
      100
    else if StartsWith(name, q) then
      StartsWithIncludes(name, q);
      80
    else if Includes(name, q) then 60
    else 0
  }

  /** The restaurant category is `item.category || item.cuisine_type`. */
  function RestaurantCategory(item: Item): string {
    if item.category != "" then item.category else item.cuisineType
  }

  /** Every signal other than the name, for a restaurant. */
  function RestaurantExtras(item: Item, q: string): int {
    (if Includes(NormalizeText(RestaurantCategory(item)), q) then 40 else 0)
    + (if Includes(NormalizeText(item.description), q) then 20 else 0)
    + (if Truthy(item.rating) && item.rating.value >= 4.5 then 10 else 0)
  }

  /** Every signal other than the name, for a product. */
  function ProductExtras(item: Item, q: string): int {
    (if Includes(NormalizeText(item.description), q) then 30 else 0)
    + (if Includes(NormalizeText(item.category), q) then 25 else 0)
    + (if Includes(NormalizeText(item.restaurantName), q) then 15 else 0)
    + (if Truthy(item.discount) && item.discount.value > 0.0 then 5 else 0)
    + (if item.available != Some(false) then 5 else 0)
  }

  /** `calculateRelevanceScore(item, searchTerm, isRestaurant)`: the name
      contributes exactly its tier, and the other signals together add at
      most 70 for a restaurant and 80 for a product. */
  function RelevanceScore(item: Item, searchTerm: string, isRestaurant: bool): (score: int)
    ensures 0 <= score <= (if isRestaurant then 170 else 180)
    ensures var t := NameTier(NormalizeText(item.name), NormalizeText(searchTerm));
            t <= score <= t + (if isRestaurant then 70 else 80)
  {
    var q := NormalizeText(searchTerm);
    var name := NormalizeText(item.name);
    if isRestaurant then NameTier(name, q) + RestaurantExtras(item, q)
    else NameTier(name, q) + ProductExtras(item, q)
  }

  /** An item whose normalised name equals the normalised query scores at
      least 100. */
  lemma ExactNameScoresAtLeast100(item: Item, searchTerm: string, isRestaurant: bool)
    requires NormalizeText(item.name) == NormalizeText(searchTerm)
    ensures RelevanceScore(item, searchTerm, isRestaurant) >= 100
  {
  }

  /** The empty string is a prefix and a substring of everything, so a query
      that normalises to "" gives every restaurant at least 140 and every
      product at least 150 rather than 0. */
  lemma EmptyQueryScoresHigh(item: Item, searchTerm: string, isRestaurant: bool)
    requires NormalizeText(searchTerm) == ""
    ensures RelevanceScore(item, searchTerm, isRestaurant) >= (if isRestaurant then 140 else 150)
  {
    forall s: string ensures StartsWith(s, "") && Includes(s, "") {
      assert OccursAt(s, "", 0);
    }
  }

  /** The name signal is independent of the others: renaming an item
      changes its score by exactly the change in its name tier. */
  lemma NameSignalIsAdditive(item: Item, newName: string, searchTerm: string, isRestaurant: bool)
    ensures var q := NormalizeText(searchTerm);
            RelevanceScore(item.(name := newName), searchTerm, isRestaurant)
            - RelevanceScore(item, searchTerm, isRestaurant)
            == NameTier(NormalizeText(newName), q) - NameTier(NormalizeText(item.name), q)
  {
    var q := NormalizeText(searchTerm);
    var renamed := item.(name := newName);
    assert RestaurantExtras(renamed, q) == RestaurantExtras(item, q) by {
      assert RestaurantCategory(renamed) == RestaurantCategory(item);
    }
    assert ProductExtras(renamed, q) == ProductExtras(item, q);
    var extras := if isRestaurant then RestaurantExtras(item, q) else ProductExtras(item, q);
    assert RelevanceScore(renamed, searchTerm, isRestaurant) == NameTier(NormalizeText(newName), q) + extras;
    assert RelevanceScore(item, searchTerm, isRestaurant) == NameTier(NormalizeText(item.name), q) + extras;
  }

  /** Two items with the same name differ in score exactly as their other
      fields' bonuses differ. */
  lemma ScoreDifference(item: Item, changed: Item, searchTerm: string, isRestaurant: bool)
    requires changed.name == item.name
    ensures var q := NormalizeText(searchTerm);
            RelevanceScore(changed, searchTerm, isRestaurant) - RelevanceScore(item, searchTerm, isRestaurant)
            == if isRestaurant then RestaurantExtras(changed, q) - RestaurantExtras(item, q)
               else ProductExtras(changed, q) - ProductExtras(item, q)
  {
  }

  /** A restaurant's bonus reads only its category, cuisine type,
      description and rating. */
  lemma RestaurantExtrasFrame(item: Item, changed: Item, q: string)
    requires changed.category == item.category && changed.cuisineType == item.cuisineType
    requires changed.description == item.description && changed.rating == item.rating
    ensures RestaurantExtras(changed, q) == RestaurantExtras(item, q)
  {
    assert RestaurantCategory(changed) == RestaurantCategory(item);
  }

  /** A product's bonus reads only its description, category, restaurant
      name, discount and availability. */
  lemma ProductExtrasFrame(item: Item, changed: Item, q: string)
    requires changed.description == item.description && changed.category == item.category
    requires changed.restaurantName == item.restaurantName
    requires changed.discount == item.discount && changed.available == item.available
    ensures ProductExtras(changed, q) == ProductExtras(item, q)
  {
  }

  /** Description signal: 20 points for a restaurant, 30 for a product,
      exactly when the normalised description contains the normalised term. */
  lemma DescriptionSignal(item: Item, d: string, searchTerm: string, isRestaurant: bool)
    ensures var q := NormalizeText(searchTerm);
            RelevanceScore(item.(description := d), searchTerm, isRestaurant)
            - RelevanceScore(item, searchTerm, isRestaurant)
            == if isRestaurant
               then 20 * (Indicator(Includes(NormalizeText(d), q))
                          - Indicator(Includes(NormalizeText(item.description), q)))
               else 30 * (Indicator(Includes(NormalizeText(d), q))
                          - Indicator(Includes(NormalizeText(item.description), q)))
  {
    var q := NormalizeText(searchTerm);
    ScoreDifference(item, item.(description := d), searchTerm, isRestaurant);
    if isRestaurant {
      RestaurantExtrasDescription(item, d, q);
    } else {
      ProductExtrasDescription(item, d, q);
    }
  }

  lemma RestaurantExtrasDescription(item: Item, d: string, q: string)
    ensures RestaurantExtras(item.(description := d), q) - RestaurantExtras(item, q)
            == 20 * (Indicator(Includes(NormalizeText(d), q))
                     - Indicator(Includes(NormalizeText(item.description), q)))
  {
  }

  lemma ProductExtrasDescription(item: Item, d: string, q: string)
    ensures ProductExtras(item.(description := d), q) - ProductExtras(item, q)
            == 30 * (Indicator(Includes(NormalizeText(d), q))
                     - Indicator(Includes(NormalizeText(item.description), q)))
  {
  }

  /** Category signal: 25 points for a product whose normalised category
      contains the term; for a restaurant, 40 points decided on
      `category || cuisine_type`. */
  lemma CategorySignal(item: Item, c: string, searchTerm: string, isRestaurant: bool)
    ensures var q := NormalizeText(searchTerm);
            RelevanceScore(item.(category := c), searchTerm, isRestaurant)
            - RelevanceScore(item, searchTerm, isRestaurant)
            == if isRestaurant
               then 40 * (Indicator(Includes(NormalizeText(RestaurantCategory(item.(category := c))), q))
                          - Indicator(Includes(NormalizeText(RestaurantCategory(item)), q)))
               else 25 * (Indicator(Includes(NormalizeText(c), q))
                          - Indicator(Includes(NormalizeText(item.category), q)))
  {
    var q := NormalizeText(searchTerm);
    ScoreDifference(item, item.(category := c), searchTerm, isRestaurant);
    if isRestaurant {
      RestaurantExtrasCategory(item, c, q);
    } else {
      ProductExtrasCategory(item, c, q);
    }
  }

  lemma RestaurantExtrasCategory(item: Item, c: string, q: string)
    ensures RestaurantExtras(item.(category := c), q) - RestaurantExtras(item, q)
            == 40 * (Indicator(Includes(NormalizeText(RestaurantCategory(item.(category := c))), q))
                     - Indicator(Includes(NormalizeText(RestaurantCategory(item)), q)))
  {
  }

  lemma ProductExtrasCategory(item: Item, c: string, q: string)
    ensures ProductExtras(item.(category := c), q) - ProductExtras(item, q)
            == 25 * (Indicator(Includes(NormalizeText(c), q))
                     - Indicator(Includes(NormalizeText(item.category), q)))
  {
  }

  /** Cuisine signal: a restaurant's cuisine type counts, for 40 points, only
      when its category is empty; a product's never counts. */
  lemma CuisineSignal(item: Item, t: string, searchTerm: string, isRestaurant: bool)
    ensures var q := NormalizeText(searchTerm);
            RelevanceScore(item.(cuisineType := t), searchTerm, isRestaurant)
            - RelevanceScore(item, searchTerm, isRestaurant)
            == if isRestaurant && item.category == ""
               then 40 * (Indicator(Includes(NormalizeText(t), q))
                          - Indicator(Includes(NormalizeText(item.cuisineType), q)))
               else 0
  {
    var q := NormalizeText(searchTerm);
    ScoreDifference(item, item.(cuisineType := t), searchTerm, isRestaurant);
    if isRestaurant {
      RestaurantExtrasCuisine(item, t, q);
    } else {
      ProductExtrasFrame(item, item.(cuisineType := t), q);
    }
  }

  lemma RestaurantExtrasCuisine(item: Item, t: string, q: string)
    ensures RestaurantExtras(item.(cuisineType := t), q) - RestaurantExtras(item, q)
            == if item.category == ""
               then 40 * (Indicator(Includes(NormalizeText(t), q))
                          - Indicator(Includes(NormalizeText(item.cuisineType), q)))
               else 0
  {
  }

  /** Restaurant-name signal: 15 points for a product whose normalised
      restaurant name contains the term; none for a restaurant. */
  lemma RestaurantNameSignal(item: Item, n: string, searchTerm: string, isRestaurant: bool)
    ensures var q := NormalizeText(searchTerm);
            RelevanceScore(item.(restaurantName := n), searchTerm, isRestaurant)
            - RelevanceScore(item, searchTerm, isRestaurant)
            == if isRestaurant
               then 0
               else 15 * (Indicator(Includes(NormalizeText(n), q))
                          - Indicator(Includes(NormalizeText(item.restaurantName), q)))
  {
    var q := NormalizeText(searchTerm);
    ScoreDifference(item, item.(restaurantName := n), searchTerm, isRestaurant);
    if isRestaurant {
      RestaurantExtrasFrame(item, item.(restaurantName := n), q);
    } else {
      ProductExtrasRestaurantName(item, n, q);
    }
  }

  lemma ProductExtrasRestaurantName(item: Item, n: string, q: string)
    ensures ProductExtras(item.(restaurantName := n), q) - ProductExtras(item, q)
            == 15 * (Indicator(Includes(NormalizeText(n), q))
                     - Indicator(Includes(NormalizeText(item.restaurantName), q)))
  {
  }

  /** Rating signal: 10 points for a restaurant rated 4.5 or more; none for
      a product. */
  lemma RatingSignal(item: Item, rating: Option<real>, searchTerm: string, isRestaurant: bool)
    ensures RelevanceScore(item.(rating := rating), searchTerm, isRestaurant)
            - RelevanceScore(item, searchTerm, isRestaurant)
            == if isRestaurant
               then 10 * (Indicator(Truthy(rating) && rating.value >= 4.5)
                          - Indicator(Truthy(item.rating) && item.rating.value >= 4.5))
               else 0
  {
    var q := NormalizeText(searchTerm);
    ScoreDifference(item, item.(rating := rating), searchTerm, isRestaurant);
    if isRestaurant {
      RestaurantExtrasRating(item, rating, q);
    } else {
      ProductExtrasFrame(item, item.(rating := rating), q);
    }
  }

  lemma RestaurantExtrasRating(item: Item, rating: Option<real>, q: string)
    ensures RestaurantExtras(item.(rating := rating), q) - RestaurantExtras(item, q)
            == 10 * (Indicator(Truthy(rating) && rating.value >= 4.5)
                     - Indicator(Truthy(item.rating) && item.rating.value >= 4.5))
  {
  }

  /** Discount signal: 5 points for a product with a positive discount; none
      for a restaurant. */
  lemma DiscountSignal(item: Item, discount: Option<real>, searchTerm: string, isRestaurant: bool)
    ensures RelevanceScore(item.(discount := discount), searchTerm, isRestaurant)
            - RelevanceScore(item, searchTerm, isRestaurant)
            == if isRestaurant
               then 0
               else 5 * (Indicator(Truthy(discount) && discount.value > 0.0)
                         - Indicator(Truthy(item.discount) && item.discount.value > 0.0))
  {
    var q := NormalizeText(searchTerm);
    ScoreDifference(item, item.(discount := discount), searchTerm, isRestaurant);
    if isRestaurant {
      RestaurantExtrasFrame(item, item.(discount := discount), q);
    } else {
      ProductExtrasDiscount(item, discount, q);
    }
  }

  lemma ProductExtrasDiscount(item: Item, discount: Option<real>, q: string)
    ensures ProductExtras(item.(discount := discount), q) - ProductExtras(item, q)
            == 5 * (Indicator(Truthy(discount) && discount.value > 0.0)
                    - Indicator(Truthy(item.discount) && item.discount.value > 0.0))
  {
  }

  /** Availability signal: 5 points for a product not marked unavailable
      (`available !== false`); none for a restaurant. */
  lemma AvailableSignal(item: Item, available: Option<bool>, searchTerm: string, isRestaurant: bool)
    ensures RelevanceScore(item.(available := available), searchTerm, isRestaurant)
            - RelevanceScore(item, searchTerm, isRestaurant)
            == if isRestaurant
               then 0
               else 5 * (Indicator(available != Some(false))
                         - Indicator(item.available != Some(false)))
  {
    var q := NormalizeText(searchTerm);
    ScoreDifference(item, item.(available := available), searchTerm, isRestaurant);
    if isRestaurant {
      RestaurantExtrasFrame(item, item.(available := available), q);
    } else {
      ProductExtrasAvailable(item, available, q);
    }
  }

  lemma ProductExtrasAvailable(item: Item, available: Option<bool>, q: string)
    ensures ProductExtras(item.(available := available), q) - ProductExtras(item, q)
            == 5 * (Indicator(available != Some(false))
                    - Indicator(item.available != Some(false)))
  {
  }

  // ---------------------------------------------------------------------
  // sortByRelevance
  // ---------------------------------------------------------------------

  /** `{ ...item, relevanceScore }`. */
  datatype Scored = Scored(item: Item, relevanceScore: int)

  /** Products sort before restaurants among equal scores. */
  function KindRank(k: Kind): int {
    if k == Product then 0 else 1
  }

  /** What the comparator of `sortByRelevance` compares. */
  function RankKey(s: Scored): StableSort.SortKey {
    StableSort.SortKey(s.relevanceScore, KindRank(s.item.kind), s.item.name)
  }

  function ScoreItem(item: Item, searchTerm: string): Scored {
    Scored(item, RelevanceScore(item, searchTerm, item.kind == Restaurant))
  }

  /** The `.map` step: every item paired with its score. */
  function ScoreAll(results: seq<Item>, searchTerm: string): seq<Scored> {
    seq(|results|, i requires 0 <= i < |results| => ScoreItem(results[i], searchTerm))
  }

  function ItemOf(s: Scored): Item {
    s.item
  }

  /** `sortByRelevance(results, searchTerm)` of searchUtils.js. */
  function SortByRelevance(results: seq<Item>, searchTerm: string): (r: seq<Scored>)
    ensures multiset(r) == multiset(ScoreAll(results, searchTerm))
    ensures forall i, j :: 0 <= i < j < |r| ==> r[i].relevanceScore >= r[j].relevanceScore
    ensures forall i, j ::
              (0 <= i < j < |r| && r[i].relevanceScore == r[j].relevanceScore && r[i].item.kind == Restaurant)
              ==> r[j].item.kind == Restaurant
    ensures forall i, j ::
              (0 <= i < j < |r| && r[i].relevanceScore == r[j].relevanceScore && r[i].item.kind == r[j].item.kind)
              ==> !StrLess(r[j].item.name, r[i].item.name)
  {
    StableSort.Sort(RankKey, ScoreAll(results, searchTerm))
  }

  /** Every ranked element carries the score its own item gets. */
  lemma SortedCarriesScores(results: seq<Item>, searchTerm: string)
    ensures var r := SortByRelevance(results, searchTerm);
            forall i :: 0 <= i < |r| ==>
              r[i].relevanceScore == RelevanceScore(r[i].item, searchTerm, r[i].item.kind == Restaurant)
  {
    var r := SortByRelevance(results, searchTerm);
    var scored := ScoreAll(results, searchTerm);
    forall i | 0 <= i < |r|
      ensures r[i].relevanceScore == RelevanceScore(r[i].item, searchTerm, r[i].item.kind == Restaurant)
    {
      assert r[i] in multiset(scored);
      var k :| 0 <= k < |scored| && scored[k] == r[i];
    }
  }

  /** The ranked items are a permutation of the input items. */
  lemma SortByRelevancePermutes(results: seq<Item>, searchTerm: string)
    ensures multiset(Map(ItemOf, SortByRelevance(results, searchTerm))) == multiset(results)
  {
    var scored := ScoreAll(results, searchTerm);
    MapPermutation(ItemOf, SortByRelevance(results, searchTerm), scored);
    ScoreAllKeepsItems(results, searchTerm);
  }

  lemma ScoreAllKeepsItems(results: seq<Item>, searchTerm: string)
    ensures Map(ItemOf, ScoreAll(results, searchTerm)) == results
  {
    var m := Map(ItemOf, ScoreAll(results, searchTerm));
    assert forall i :: 0 <= i < |results| ==> m[i] == results[i];
  }

  /** `WithKey` over `RankKey` is the filter of the entries with that key. */
  lemma {:induction false} WithRankIsFilter(s: seq<Scored>, k: StableSort.SortKey)
    ensures StableSort.WithKey(RankKey, s, k) == Filter((x: Scored) => RankKey(x) == k, s)
  {
    if |s| > 0 {
      WithRankIsFilter(s[1..], k);
    }
  }

  /** Ties keep their input order: the scored items that the comparator
      cannot tell apart (same score, same type, same name) appear in the
      output in the order they had in the input. */
  lemma SortByRelevanceIsStable(results: seq<Item>, searchTerm: string, k: StableSort.SortKey)
    ensures var p := (x: Scored) => RankKey(x) == k;
            Filter(p, SortByRelevance(results, searchTerm)) == Filter(p, ScoreAll(results, searchTerm))
  {
    WithRankIsFilter(ScoreAll(results, searchTerm), k);
    WithRankIsFilter(SortByRelevance(results, searchTerm), k);
  }

  // ---------------------------------------------------------------------
  // filterQualityResults
  // ---------------------------------------------------------------------

  /** `name.trim() === ''`. */
  predicate IsBlank(s: string) {
    Trim(s) == ""
  }

  /** The predicate of `filterQualityResults`. */
  predicate PassesQuality(item: Item) {
    if item.kind == Restaurant then item.status != "closed" && !IsBlank(item.name)
    else
      && item.available != Some(false)
      && !IsBlank(item.name)
      && Truthy(item.price) && item.price.value > 0.0
  }

  /** `filterQualityResults(results)`. */
  function FilterQualityResults(results: seq<Item>): (r: seq<Item>)
    ensures forall i :: 0 <= i < |r| && r[i].kind == Restaurant ==>
              r[i].status != "closed" && !AllSpace(r[i].name)
    ensures forall i :: 0 <= i < |r| && r[i].kind == Product ==>
              && r[i].available != Some(false) && !AllSpace(r[i].name)
              && r[i].price.Some? && r[i].price.value > 0.0
  {
    var r := Filter(PassesQuality, results);
    QualityNamesNotBlank(r);
    r
  }

  lemma QualityNamesNotBlank(r: seq<Item>)
    requires forall i :: 0 <= i < |r| ==> PassesQuality(r[i])
    ensures forall i :: 0 <= i < |r| ==> !AllSpace(r[i].name)
  {
    forall i | 0 <= i < |r| ensures !AllSpace(r[i].name) {
      TrimEmptyIffAllSpace(r[i].name);
    }
  }

  /** The filter keeps exactly the items that pass, in their input order,
      and applying it again removes nothing. */
  lemma FilterQualityIsOrderedSubsetAndIdempotent(results: seq<Item>)
    ensures IsSubseq(FilterQualityResults(results), results)
    ensures forall x :: x in FilterQualityResults(results) <==> x in results && PassesQuality(x)
    ensures forall x :: multiset(FilterQualityResults(results))[x] ==
              if PassesQuality(x) then multiset(results)[x] else 0
    ensures FilterQualityResults(FilterQualityResults(results)) == FilterQualityResults(results)
  {
    FilterIsSubseq(PassesQuality, results);
    forall x ensures multiset(FilterQualityResults(results))[x] ==
                       if PassesQuality(x) then multiset(results)[x] else 0 {
      FilterCount(PassesQuality, results, x);
    }
    forall x ensures x in FilterQualityResults(results) <==> x in results && PassesQuality(x) {
      FilterMembership(PassesQuality, results, x);
    }
    FilterIdempotent(PassesQuality, results);
  }

  // ---------------------------------------------------------------------
  // groupResultsByType
  // ---------------------------------------------------------------------

  datatype Grouped = Grouped(products: seq<Scored>, restaurants: seq<Scored>, featured: seq<Scored>)

  predicate IsRestaurantResult(s: Scored) {
    s.item.kind == Restaurant
  }

  predicate IsProductResult(s: Scored) {
    s.item.kind != Restaurant
  }

  /** `item.relevanceScore && item.relevanceScore >= 80`; a score of at
      least 80 is never the falsy 0, so the first test adds nothing. */
  predicate IsFeatured(s: Scored) {
    s.relevanceScore >= 80
  }

  /** `groupResultsByType(results)`: one `forEach` pass pushing each item to
      its kind's list, and also to `featured` when its score is at least 80. */
  function GroupResultsByType(results: seq<Scored>): (g: Grouped)
    ensures |g.products| + |g.restaurants| == |results|
    ensures forall i :: 0 <= i < |g.products| ==> g.products[i].item.kind == Product
    ensures forall i :: 0 <= i < |g.restaurants| ==> g.restaurants[i].item.kind == Restaurant
    ensures forall i :: 0 <= i < |g.featured| ==> g.featured[i].relevanceScore >= 80
  {
    if |results| == 0 then Grouped([], [], [])
    else
      var x := results[|results| - 1];
      var g := GroupResultsByType(results[..|results| - 1]);
      Grouped(
        if x.item.kind == Restaurant then g.products else g.products + [x],
        if x.item.kind == Restaurant then g.restaurants + [x] else g.restaurants,
        if IsFeatured(x) then g.featured + [x] else g.featured)
  }

  /** Each group is the order-preserving filter of the input by its
      condition; in particular no item leaves the main sequence for
      `featured`, and every item scoring 80 or more is featured. */
  lemma GroupsAreFilters(results: seq<Scored>)
    ensures GroupResultsByType(results).products == Filter(IsProductResult, results)
    ensures GroupResultsByType(results).restaurants == Filter(IsRestaurantResult, results)
    ensures GroupResultsByType(results).featured == Filter(IsFeatured, results)
  {
    ProductsAreFiltered(results);
    RestaurantsAreFiltered(results);
    FeaturedAreFiltered(results);
  }

  /** Products and restaurants split the results between them. */
  lemma {:induction false} GroupPartitions(results: seq<Scored>)
    ensures var g := GroupResultsByType(results);
            multiset(g.products) + multiset(g.restaurants) == multiset(results)
  {
    if |results| > 0 {
      var init := results[..|results| - 1];
      var x := results[|results| - 1];
      GroupPartitions(init);
      assert results == init + [x];
      assert multiset(results) == multiset(init) + multiset{x};
      var g := GroupResultsByType(init);
      var h := GroupResultsByType(results);
      if x.item.kind == Restaurant {
        assert h.products == g.products && h.restaurants == g.restaurants + [x];
      } else {
        assert h.products == g.products + [x] && h.restaurants == g.restaurants;
      }
    }
  }

  lemma {:induction false} ProductsAreFiltered(results: seq<Scored>)
    ensures GroupResultsByType(results).products == Filter(IsProductResult, results)
  {
    if |results| > 0 {
      var init := results[..|results| - 1];
      var x := results[|results| - 1];
      ProductsAreFiltered(init);
      assert results == init + [x];
      FilterSingleton(IsProductResult, x);
      FilterAppend(IsProductResult, init, [x]);
    }
  }

  lemma {:induction false} RestaurantsAreFiltered(results: seq<Scored>)
    ensures GroupResultsByType(results).restaurants == Filter(IsRestaurantResult, results)
  {
    if |results| > 0 {
      var init := results[..|results| - 1];
      var x := results[|results| - 1];
      RestaurantsAreFiltered(init);
      assert results == init + [x];
      FilterSingleton(IsRestaurantResult, x);
      FilterAppend(IsRestaurantResult, init, [x]);
    }
  }

  lemma {:induction false} FeaturedAreFiltered(results: seq<Scored>)
    ensures GroupResultsByType(results).featured == Filter(IsFeatured, results)
  {
    if |results| > 0 {
      var init := results[..|results| - 1];
      var x := results[|results| - 1];
      FeaturedAreFiltered(init);
      assert results == init + [x];
      FilterSingleton(IsFeatured, x);
      FilterAppend(IsFeatured, init, [x]);
    }
  }

  // ---------------------------------------------------------------------
  // generateSearchSuggestions
  // ---------------------------------------------------------------------

  const MaxSuggestions: nat := 5

  /** The suggestion condition: the normalised name contains the normalised
      query but is not equal to it. */
  predicate SuggestsFor(name: string, nq: string) {
    var n := NormalizeText(name);
    Includes(n, nq) && n != nq
  }

  function NameOf(item: Item): string {
    item.name
  }

  /** The names added to the `Set` by one `forEach`, in order. */
  function MatchingNames(items: seq<Item>, nq: string): (r: seq<string>)
    ensures forall i :: 0 <= i < |r| ==> SuggestsFor(r[i], nq)
  {
    Map(NameOf, Filter((x: Item) => SuggestsFor(x.name, nq), items))
  }

  /** Every matching name is collected. */
  lemma MatchingNamesComplete(items: seq<Item>, nq: string, k: nat)
    requires k < |items| && SuggestsFor(items[k].name, nq)
    ensures items[k].name in MatchingNames(items, nq)
  {
    var p := (x: Item) => SuggestsFor(x.name, nq);
    assert p(items[k]);
    MapFilterComplete(NameOf, p, items, k);
  }

  /** Every name the `Set` receives, products first. */
  function SuggestionCandidates(nq: string, products: seq<Item>, restaurants: seq<Item>): seq<string> {
    MatchingNames(products, nq) + MatchingNames(restaurants, nq)
  }

  /** `generateSearchSuggestions(query, allProducts, restaurants)`. */
  function GenerateSearchSuggestions(query: string, products: seq<Item>, restaurants: seq<Item>): (r: seq<string>)
    ensures |NormalizeText(query)| < 2 ==> r == []
    ensures |r| <= MaxSuggestions
    ensures NoDup(r)
  {
    var nq := NormalizeText(query);
    if |nq| < 2 then []
    else Take(Dedup(SuggestionCandidates(nq, products, restaurants)), MaxSuggestions)
  }

  /** Suggestions are the first distinct candidate names, in the order they
      were first seen (none is skipped in favour of a later one), and no
      restaurant name comes before a product name. */
  lemma SuggestionsOrder(query: string, products: seq<Item>, restaurants: seq<Item>)
    ensures var nq := NormalizeText(query);
            var pm := MatchingNames(products, nq);
            var c := SuggestionCandidates(nq, products, restaurants);
            var r := GenerateSearchSuggestions(query, products, restaurants);
            && (forall i :: 0 <= i < |r| ==> r[i] in c)
            && (forall i, j :: 0 <= i < j < |r| ==> FirstIndex(c, r[i]) < FirstIndex(c, r[j]))
            && (forall i, j :: 0 <= i < j < |r| && r[j] in pm ==> r[i] in pm)
            && (forall x, j :: x in c && 0 <= j < |r| && FirstIndex(c, x) < FirstIndex(c, r[j]) ==> x in r)
  {
    var nq := NormalizeText(query);
    var pm := MatchingNames(products, nq);
    var rm := MatchingNames(restaurants, nq);
    var r := GenerateSearchSuggestions(query, products, restaurants);
    if |nq| >= 2 {
      assert r == Take(Dedup(pm + rm), MaxSuggestions);
      DedupTakeOrder(pm, rm, MaxSuggestions);
      DedupTakeNoSkip(pm + rm, MaxSuggestions);
    } else {
      assert r == [];
    }
  }

  /** Every suggestion is a name whose normalised form contains the
      normalised query and differs from it. */
  lemma SuggestionsMatch(query: string, products: seq<Item>, restaurants: seq<Item>)
    ensures var r := GenerateSearchSuggestions(query, products, restaurants);
            forall i :: 0 <= i < |r| ==> SuggestsFor(r[i], NormalizeText(query))
  {
    var nq := NormalizeText(query);
    var pm := MatchingNames(products, nq);
    var rm := MatchingNames(restaurants, nq);
    var r := GenerateSearchSuggestions(query, products, restaurants);
    if |nq| >= 2 {
      assert r == Take(Dedup(pm + rm), MaxSuggestions);
      var p := x => SuggestsFor(x, nq);
      assert forall i :: 0 <= i < |pm| ==> p(pm[i]);
      assert forall i :: 0 <= i < |rm| ==> p(rm[i]);
      DedupTakeAll(p, pm, rm, MaxSuggestions);
    }
  }

  /** When fewer than five suggestions come back, every product and
      restaurant name that matches is among them. */
  lemma SuggestionsComplete(query: string, products: seq<Item>, restaurants: seq<Item>)
    ensures var nq := NormalizeText(query);
            var r := GenerateSearchSuggestions(query, products, restaurants);
            |nq| >= 2 && |r| < MaxSuggestions ==>
              && (forall k :: 0 <= k < |products| && SuggestsFor(products[k].name, nq) ==> products[k].name in r)
              && (forall k :: 0 <= k < |restaurants| && SuggestsFor(restaurants[k].name, nq) ==> restaurants[k].name in r)
  {
    var nq := NormalizeText(query);
    var r := GenerateSearchSuggestions(query, products, restaurants);
    if |nq| >= 2 && |r| < MaxSuggestions {
      var pm := MatchingNames(products, nq);
      var rm := MatchingNames(restaurants, nq);
      assert r == Dedup(pm + rm);
      forall k | 0 <= k < |products| && SuggestsFor(products[k].name, nq)
        ensures products[k].name in r
      {
        MatchingNamesComplete(products, nq, k);
        DedupContains(pm + rm, products[k].name);
      }
      forall k | 0 <= k < |restaurants| && SuggestsFor(restaurants[k].name, nq)
        ensures restaurants[k].name in r
      {
        MatchingNamesComplete(restaurants, nq, k);
        DedupContains(pm + rm, restaurants[k].name);
      }
    }
  }

  // ---------------------------------------------------------------------
  // fuzzySearch
  // ---------------------------------------------------------------------

  /** The greedy scan of `fuzzySearch`: how many leading characters of `q`
      are matched in order while walking `text` once. It is the length of
      the longest prefix of `q` that is a subsequence of `text`. */
  function GreedyMatchCount(text: string, q: string): (m: nat)
    ensures m <= |q|
    ensures IsSubseq(q[..m], text)
    ensures m < |q| ==> !IsSubseq(q[..m + 1], text)
  {
    if |q| == 0 || |text| == 0 then 0
    else if text[0] == q[0] then
      var m := GreedyMatchCount(text[1..], q[1..]);
      assert q[..m + 1][1..] == q[1..][..m];
      assert m < |q[1..]| ==> q[..m + 2][1..] == q[1..][..m + 1];
      1 + m
    else
      GreedyMatchCount(text[1..], q)
  }

  /** The `for` loop of `fuzzySearch`, as written. */
  method CountGreedyMatches(text: string, q: string) returns (queryIndex: nat)
    ensures queryIndex <= |q|
    ensures IsSubseq(q[..queryIndex], text)
    ensures queryIndex < |q| ==> !IsSubseq(q[..queryIndex + 1], text)
  {
    queryIndex := 0;
    var i := 0;
    while i < |text| && queryIndex < |q|
      invariant 0 <= i <= |text| && queryIndex <= |q|
      invariant queryIndex + GreedyMatchCount(text[i..], q[queryIndex..]) == GreedyMatchCount(text, q)
    {
      assert text[i..][1..] == text[i + 1..];
      assert q[queryIndex..][1..] == q[queryIndex + 1..];
      if text[i] == q[queryIndex] {
        queryIndex := queryIndex + 1;
      }
      i := i + 1;
    }
  }

  /** `queryIndex / normalizedQuery.length >= 0.7`, in exact arithmetic. */
  predicate FuzzyMatches(text: string, nq: string) {
    10 * GreedyMatchCount(text, nq) >= 7 * |nq|
  }

  /** The property `item[field]` that `fuzzySearch` reads. */
  datatype Field = NameField | DescriptionField | CategoryField | CuisineTypeField | StatusField

  function FieldText(item: Item, field: Field): string {
    match field
    case NameField => item.name
    case DescriptionField => item.description
    case CategoryField => item.category
    case CuisineTypeField => item.cuisineType
    case StatusField => item.status
  }

  predicate FuzzyKeeps(item: Item, field: Field, nq: string) {
    FuzzyMatches(NormalizeText(FieldText(item, field)), nq)
  }

  /** `fuzzySearch(query, items, field)`; `field` defaults to `name`. */
  function FuzzySearch(query: string, items: seq<Item>, field: Field := NameField): (r: seq<Item>)
    ensures |NormalizeText(query)| < 3 ==> r == []
    ensures |r| <= |items|
    ensures forall i :: 0 <= i < |r| ==> FuzzyKeeps(r[i], field, NormalizeText(query))
  {
    var nq := NormalizeText(query);
    if |nq| < 3 then [] else Filter(x => FuzzyKeeps(x, field, nq), items)
  }

  /** The fuzzy result is an order-preserving subset of the items holding
      exactly those whose greedy match count reaches 70% of the query. */
  lemma FuzzySearchKeepsExactly(query: string, items: seq<Item>, field: Field)
    ensures IsSubseq(FuzzySearch(query, items, field), items)
    ensures var nq := NormalizeText(query);
            forall x :: x in FuzzySearch(query, items, field) <==>
              |nq| >= 3 && x in items
              && 10 * GreedyMatchCount(NormalizeText(FieldText(x, field)), nq) >= 7 * |nq|
    ensures var nq := NormalizeText(query);
            forall x :: multiset(FuzzySearch(query, items, field))[x] ==
              if |nq| >= 3 && 10 * GreedyMatchCount(NormalizeText(FieldText(x, field)), nq) >= 7 * |nq|
              then multiset(items)[x] else 0
  {
    var nq := NormalizeText(query);
    var p := x => FuzzyKeeps(x, field, nq);
    if |nq| >= 3 {
      FilterIsSubseq(p, items);
      forall x ensures x in FuzzySearch(query, items, field) <==> x in items && p(x) {
        FilterMembership(p, items, x);
      }
      forall x ensures multiset(FuzzySearch(query, items, field))[x] == if p(x) then multiset(items)[x] else 0 {
        FilterCount(p, items, x);
      }
    }
  }

  /** A substring of the text is matched in full by the greedy scan. */
  lemma SubstringMatchedInFull(text: string, q: string)
    requires Includes(text, q)
    ensures GreedyMatchCount(text, q) == |q|
  {
    var i :| 0 <= i <= |text| && OccursAt(text, q, i);
    assert text == text[..i] + q + text[i + |q|..];
    SubseqReflexive(q);
    SubseqAppendRight(q, q, text[i + |q|..]);
    SubseqAppendLeft(q, text[..i], q + text[i + |q|..]);
    assert text[..i] + (q + text[i + |q|..]) == text;
    var m := GreedyMatchCount(text, q);
    if m < |q| {
      SubseqPrefix(q, text, m + 1);
    }
  }

  /** Every item whose normalised field contains the normalised query is
      kept by `fuzzySearch`, once the query has three characters. */
  lemma {:induction false} FuzzySearchKeepsSubstringMatches(query: string, items: seq<Item>, field: Field, x: Item)
    requires |NormalizeText(query)| >= 3 && x in items
    requires Includes(NormalizeText(FieldText(x, field)), NormalizeText(query))
    ensures x in FuzzySearch(query, items, field)
  {
    var nq := NormalizeText(query);
    var text := NormalizeText(FieldText(x, field));
    SubstringMatchedInFull(text, nq);
    var p := y => FuzzyKeeps(y, field, nq);
    assert p(x);
    FilterMembership(p, items, x);
    assert FuzzySearch(query, items, field) == Filter(p, items);
  }

  lemma {:induction false} SubseqReflexive(a: string)
    ensures IsSubseq(a, a)
  {
    if |a| > 0 {
      SubseqReflexive(a[1..]);
    }
  }

  lemma {:induction false} SubseqAppendRight(a: string, b: string, c: string)
    requires IsSubseq(a, b)
    ensures IsSubseq(a, b + c)
  {
    if |a| > 0 {
      assert (b + c)[1..] == b[1..] + c;
      if a[0] == b[0] {
        SubseqAppendRight(a[1..], b[1..], c);
      } else {
        SubseqAppendRight(a, b[1..], c);
      }
    }
  }

  lemma {:induction false} SubseqAppendLeft(a: string, c: string, b: string)
    requires IsSubseq(a, b)
    ensures IsSubseq(a, c + b)
  {
    if |c| > 0 {
      SubseqAppendLeft(a, c[1..], b);
      assert (c + b)[1..] == c[1..] + b;
      SubseqOfLonger(a, c + b);
    } else {
      assert c + b == b;
    }
  }

  lemma {:induction false} SubseqPrefix(a: string, b: string, k: nat)
    requires IsSubseq(a, b) && k <= |a|
    ensures IsSubseq(a[..k], b)
  {
    if k > 0 && |b| > 0 {
      if a[0] == b[0] {
        SubseqPrefix(a[1..], b[1..], k - 1);
        assert a[..k][1..] == a[1..][..k - 1];
      } else {
        SubseqPrefix(a, b[1..], k);
      }
    }
  }

  // ---------------------------------------------------------------------
  // highlightSearchTerm
  // ---------------------------------------------------------------------

  /** `text` itself, or the `{ before, highlight, after }` object. */
  datatype Highlight = Plain(text: string) | Marked(before: string, highlight: string, after: string)

  /** `highlightSearchTerm(text, searchTerm)`. */
  function HighlightSearchTerm(text: string, term: string): (r: Highlight)
    ensures r == Plain(text) <==>
              |text| == 0 || |term| == 0 || !Includes(LowerStr(text), LowerStr(term))
    ensures r.Marked? ==>
              && r.before + r.highlight + r.after == text
              && |r.highlight| == |term|
              && LowerStr(r.highlight) == LowerStr(term)
              && forall j :: 0 <= j < |r.before| ==> !OccursAt(LowerStr(text), LowerStr(term), j)
  {
    if |text| == 0 || |term| == 0 then Plain(text)
    else
      var lt := LowerStr(text);
      var index := IndexOf(lt, LowerStr(term));
      if index == -1 then Plain(text)
      else
        var h := text[index..index + |term|];
        LowerSlice(text, index, index + |term|);
        assert text == text[..index] + h + text[index + |term|..];
        Marked(text[..index], h, text[index + |term|..])
  }

  // ---------------------------------------------------------------------
  // validateSearchTerm
  // ---------------------------------------------------------------------

  /** The character class `[a-zA-ZÀ-ÿ]`. The range À–ÿ also holds × and ÷. */
  predicate IsLetterLike(c: char) {
    ('a' <= c <= 'z') || ('A' <= c <= 'Z') || ('\U{00C0}' <= c <= '\U{00FF}')
  }

  predicate HasLetter(s: string) {
    exists i :: 0 <= i < |s| && IsLetterLike(s[i])
  }

  const MaxTermLength: nat := 100

  /** `validateSearchTerm(term)`; None stands for null, undefined or a
      value that is not a string. The answer is true exactly when the term
      contains a letter somewhere and is at most 100 characters once
      trimmed (a letter is not whitespace, so the trimmed term is then
      non-empty). */
  function ValidateSearchTerm(term: Option<string>): (ok: bool)
    ensures ok <==> term.Some? && |Trim(term.value)| <= MaxTermLength && HasLetter(term.value)
  {
    match term
    case None => false
    case Some(s) =>
      if |s| == 0 then false
      else
        var cleaned := Trim(s);
        LettersSurviveTrim(s);
        if |cleaned| < 1 then false
        else if |cleaned| > MaxTermLength then false
        else HasLetter(cleaned)
  }

  lemma LettersSurviveTrim(s: string)
    ensures HasLetter(Trim(s)) <==> HasLetter(s)
  {
    var r := Trim(s);
    var off := TrimBounds(s);
    assert forall i :: 0 <= i < |r| ==> r[i] == s[off + i];
    if HasLetter(s) {
      var i :| 0 <= i < |s| && IsLetterLike(s[i]);
      assert !IsSpace(s[i]);
      assert r[i - off] == s[i];
    }
  }

  /** Validation ignores whitespace added around the term. */
  lemma ValidationIgnoresPadding(pad: string, s: string)
    requires AllSpace(pad)
    ensures ValidateSearchTerm(Some(pad + s + pad)) == ValidateSearchTerm(Some(s))
  {
    TrimPadded(pad, s);
    LettersSurviveTrim(s);
    LettersSurviveTrim(pad + s + pad);
  }

  /** A term containing an ASCII letter or digit never normalises to "". */
  lemma WordCharSurvivesNormalization(s: string, i: nat)
    requires i < |s| && IsWordChar(s[i])
    ensures NormalizeText(s) != ""
  {
    var lowered := LowerStr(s);
    assert IsWordChar(lowered[i]);
    StripKeepsWordChar(lowered, i);
    var stripped := StripDiacritics(lowered);
    var j :| 0 <= j < |stripped| && IsWordChar(stripped[j]);
    RemoveSpecialKeepsWordChar(stripped, j);
    var kept := RemoveSpecial(stripped);
    var k :| 0 <= k < |kept| && IsWordChar(kept[k]);
    assert !AllSpace(kept) by { assert !IsSpace(kept[k]); }
    TrimEmptyIffAllSpace(kept);
  }

  lemma {:induction false} StripKeepsWordChar(s: string, i: nat)
    requires i < |s| && IsWordChar(s[i])
    ensures exists j :: 0 <= j < |StripDiacritics(s)| && IsWordChar(StripDiacritics(s)[j])
  {
    if i == 0 {
      assert StripDiacritics(s)[0] == s[0];
    } else {
      StripKeepsWordChar(s[1..], i - 1);
      var rest := StripDiacritics(s[1..]);
      var j :| 0 <= j < |rest| && IsWordChar(rest[j]);
      var head := if IsCombiningMark(s[0]) then "" else [BaseLetter(s[0])];
      assert StripDiacritics(s)[|head| + j] == rest[j];
    }
  }

  lemma {:induction false} RemoveSpecialKeepsWordChar(s: string, i: nat)
    requires i < |s| && IsWordChar(s[i])
    ensures exists j :: 0 <= j < |RemoveSpecial(s)| && IsWordChar(RemoveSpecial(s)[j])
  {
    if i == 0 {
      assert RemoveSpecial(s)[0] == s[0];
    } else {
      RemoveSpecialKeepsWordChar(s[1..], i - 1);
      var rest := RemoveSpecial(s[1..]);
      var j :| 0 <= j < |rest| && IsWordChar(rest[j]);
      var head := if IsWordChar(s[0]) || IsSpace(s[0]) then [s[0]] else "";
      assert RemoveSpecial(s)[|head| + j] == rest[j];
    }
  }

  /** As written, the accepted range À–ÿ includes the multiplication sign,
      which normalisation then deletes: "×" is a valid term whose
      normalised query is empty. */
  lemma ValidTermCanNormalizeToEmpty()
    ensures ValidateSearchTerm(Some("\U{00D7}"))
    ensures NormalizeText("\U{00D7}") == ""
  {
    assert IsLetterLike("\U{00D7}"[0]);
    assert LowerStr("\U{00D7}") == "\U{00D7}";
    assert StripDiacritics("\U{00D7}") == "\U{00D7}";
    assert RemoveSpecial("\U{00D7}") == "";
  }
}
