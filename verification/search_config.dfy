/** The older search helpers of searchConfig.js: a relevance score with the
    weights 100/50/25/10, a sort by that score, the query clean-up
    `normalizeSearchQuery` and a suggestion generator capped at eight
    names. Absent text fields are "" as in the catalog model. */
module SearchConfig {
  import opened Text
  import opened Seqs
  import opened Catalog
  import StableSort

  /** `SEARCH_CONFIG.RELEVANCE_WEIGHTS` and `MIN_SEARCH_LENGTH`. */
  const ExactMatchWeight: int := 100
  const StartsWithWeight: int := 50
  const ContainsWeight: int := 25
  const DescriptionMatchWeight: int := 10
  const MinSearchLength: nat := 2
  const MaxSuggestions: nat := 8

  // ---------------------------------------------------------------------
  // calculateSearchRelevance
  // ---------------------------------------------------------------------

  /** The name's share of the score: exactly one of 100, 50, 25 and 0. */
  function NameWeight(name: string, ql: string): (w: int)
    ensures w == ExactMatchWeight <==> name != "" && LowerStr(name) == ql
    ensures w == StartsWithWeight <==> name != "" && LowerStr(name) != ql && StartsWith(LowerStr(name), ql)
    ensures w == ContainsWeight <==> name != "" && !StartsWith(LowerStr(name), ql) && Includes(LowerStr(name), ql)
    ensures w == 0 <==> name == "" || !Includes(LowerStr(name), ql)
  {
    var nameLower := LowerStr(name);
    TiersNest(nameLower, ql);
    if name == "" then 0
    else if nameLower == ql then ExactMatchWeight
    else if StartsWith(nameLower, ql) then StartsWithWeight
    else if Includes(nameLower, ql) then ContainsWeight
    else 0
  }

  /** An exact match starts with the query, and a string that starts with
      the query contains it. */
  lemma TiersNest(s: string, q: string)
    ensures s == q ==> StartsWith(s, q)
    ensures StartsWith(s, q) ==> Includes(s, q)
  {
    assert s[..|s|] == s;
    if StartsWith(s, q) {
      StartsWithIncludes(s, q);
    }
  }

  /** `if (field) { if (field.toLowerCase().includes(queryLower)) ... }`. */
  predicate FieldMatches(field: string, ql: string) {
    field != "" && Includes(LowerStr(field), ql)
  }

  /** `calculateSearchRelevance(item, query)`. */
  function SearchRelevance(item: Item, query: string): (score: int)
    ensures 0 <= score <= ExactMatchWeight + DescriptionMatchWeight + ContainsWeight
    ensures score >= ExactMatchWeight <==> item.name != "" && LowerStr(item.name) == LowerStr(query)
  {
    var ql := LowerStr(query);
    NameWeight(item.name, ql)
    + (if FieldMatches(item.description, ql) then DescriptionMatchWeight else 0)
    + (if FieldMatches(item.category, ql) then ContainsWeight else 0)
  }

  /** An item scores above zero exactly when its name, description or
      category contains the lower-cased query. */
  lemma RelevancePositiveIffSomeFieldMatches(item: Item, query: string)
    ensures var ql := LowerStr(query);
            SearchRelevance(item, query) > 0 <==>
              FieldMatches(item.name, ql) || FieldMatches(item.description, ql) || FieldMatches(item.category, ql)
  {
  }

  /** The name contributes exactly one tier and each other field a fixed
      bonus, so the score lands on one of twelve values. */
  lemma RelevanceValues(item: Item, query: string)
    ensures SearchRelevance(item, query) in {0, 10, 25, 35, 50, 60, 75, 85, 100, 110, 125, 135}
  {
  }

  /** Name signal: renaming an item changes its score by exactly the change
      in its name tier (100, 50, 25 or 0). */
  lemma NameSignal(item: Item, n: string, query: string)
    ensures var ql := LowerStr(query);
            SearchRelevance(item.(name := n), query) - SearchRelevance(item, query)
            == NameWeight(n, ql) - NameWeight(item.name, ql)
  {
  }

  /** Description signal: `DescriptionMatchWeight` (10) points exactly when
      the description is non-empty and contains the query, ignoring case. */
  lemma DescriptionSignal(item: Item, d: string, query: string)
    ensures var ql := LowerStr(query);
            SearchRelevance(item.(description := d), query) - SearchRelevance(item, query)
            == DescriptionMatchWeight * (Indicator(FieldMatches(d, ql)) - Indicator(FieldMatches(item.description, ql)))
  {
  }

  /** Category signal: `ContainsWeight` (25) points exactly when the
      category is non-empty and contains the query, ignoring case. */
  lemma CategorySignal(item: Item, c: string, query: string)
    ensures var ql := LowerStr(query);
            SearchRelevance(item.(category := c), query) - SearchRelevance(item, query)
            == ContainsWeight * (Indicator(FieldMatches(c, ql)) - Indicator(FieldMatches(item.category, ql)))
  {
  }

  // ---------------------------------------------------------------------
  // sortByRelevance
  // ---------------------------------------------------------------------

  /** The comparator `b.relevanceScore - a.relevanceScore`: higher scores
      first, equal scores compare equal. */
  function RelevanceKey(query: string): Item -> StableSort.SortKey {
    (x: Item) => StableSort.SortKey(SearchRelevance(x, query), 0, "")
  }

  /** The items of `s` that score `n`, in order. */
  function WithScore(s: seq<Item>, query: string, n: int): seq<Item> {
    StableSort.WithKey(RelevanceKey(query), s, StableSort.SortKey(n, 0, ""))
  }

  /** `sortByRelevance(results, query)` of searchConfig.js. The score is
      attached, used as the sort key and stripped again, so the result
      holds the input items themselves. */
  function SortByRelevance(results: seq<Item>, query: string): (r: seq<Item>)
    ensures multiset(r) == multiset(results)
    ensures forall i, j :: 0 <= i < j < |r| ==> SearchRelevance(r[i], query) >= SearchRelevance(r[j], query)
    ensures forall n :: WithScore(r, query, n) == WithScore(results, query, n)
  {
    var r := StableSort.Sort(RelevanceKey(query), results);
    assert forall i, j :: 0 <= i < j < |r| ==>
      !StableSort.Precedes(RelevanceKey(query)(r[j]), RelevanceKey(query)(r[i]));
    r
  }

  /** `WithScore` is the filter of the items with score `n`. */
  lemma {:induction false} WithScoreIsFilter(s: seq<Item>, query: string, n: int)
    ensures WithScore(s, query, n) == Filter((x: Item) => SearchRelevance(x, query) == n, s)
  {
    if |s| > 0 {
      WithScoreIsFilter(s[1..], query, n);
    }
  }

  /** Ties keep their input order: for every score, the items with that
      score appear in the output in the order they had in the input. */
  lemma SortByRelevanceIsStable(results: seq<Item>, query: string, n: int)
    ensures var p := (x: Item) => SearchRelevance(x, query) == n;
            Filter(p, SortByRelevance(results, query)) == Filter(p, results)
  {
    WithScoreIsFilter(results, query, n);
    WithScoreIsFilter(SortByRelevance(results, query), query, n);
  }

  // ---------------------------------------------------------------------
  // normalizeSearchQuery
  // ---------------------------------------------------------------------

  /** `s.replace(/\s+/g, ' ')`: every run of whitespace becomes one space
      (CollapseWordBreak), so the result never holds two spaces in a row. */
  function CollapseSpaces(s: string): (r: string)
    ensures |r| <= |s|
    ensures |s| > 0 ==> |r| > 0 && (r[0] == ' ' <==> IsSpace(s[0]))
    ensures forall i :: 0 <= i < |r| - 1 ==> !(r[i] == ' ' && r[i + 1] == ' ')
    decreases |s|
  {
    if |s| == 0 then ""
    else if IsSpace(s[0]) then
      var rest := TrimStart(s);
      var c := CollapseSpaces(rest);
      assert forall i :: 0 < i < |c| + 1 ==> (" " + c)[i] == c[i - 1];
      " " + c
    else
      var c := CollapseSpaces(s[1..]);
      assert forall i :: 0 < i < |c| + 1 ==> ([s[0]] + c)[i] == c[i - 1];
      [s[0]] + c
  }

  /** Collapsing whitespace turns every whitespace character into a space
      and keeps every other character. */
  lemma {:induction false} CollapseChars(s: string)
    requires forall i :: 0 <= i < |s| ==> IsQueryChar(s[i]) || IsSpace(s[i])
    ensures forall i :: 0 <= i < |CollapseSpaces(s)| ==> IsQueryChar(CollapseSpaces(s)[i])
    decreases |s|
  {
    if |s| > 0 {
      var rest := if IsSpace(s[0]) then TrimStart(s) else s[1..];
      assert forall i :: 0 <= i < |rest| ==> rest[i] == s[|s| - |rest| + i];
      CollapseChars(rest);
      var head := if IsSpace(s[0]) then " " else [s[0]];
      assert CollapseSpaces(s) == head + CollapseSpaces(rest);
    }
  }

  /** Collapsing whitespace only touches whitespace: the non-whitespace
      characters survive, in order. */
  lemma {:induction false} CollapseKeepsNonSpace(s: string)
    ensures Filter(NotSpace, CollapseSpaces(s)) == Filter(NotSpace, s)
    decreases |s|
  {
    if |s| > 0 {
      if IsSpace(s[0]) {
        var rest := TrimStart(s);
        var cut := |s| - |rest|;
        calc {
          Filter(NotSpace, CollapseSpaces(s));
          { assert CollapseSpaces(s) == " " + CollapseSpaces(rest); }
          Filter(NotSpace, " " + CollapseSpaces(rest));
          { FilterAppend(NotSpace, " ", CollapseSpaces(rest)); FilterSingleton(NotSpace, ' '); }
          Filter(NotSpace, CollapseSpaces(rest));
          { CollapseKeepsNonSpace(rest); }
          Filter(NotSpace, rest);
          { SpacePrefix(s, cut); }
          Filter(NotSpace, s);
        }
      } else {
        calc {
          Filter(NotSpace, CollapseSpaces(s));
          { assert CollapseSpaces(s) == [s[0]] + CollapseSpaces(s[1..]); }
          Filter(NotSpace, [s[0]] + CollapseSpaces(s[1..]));
          { FilterAppend(NotSpace, [s[0]], CollapseSpaces(s[1..])); FilterSingleton(NotSpace, s[0]); }
          [s[0]] + Filter(NotSpace, CollapseSpaces(s[1..]));
          { CollapseKeepsNonSpace(s[1..]); }
          [s[0]] + Filter(NotSpace, s[1..]);
        }
      }
    }
  }

  /** A string ending in a non-space character is collapsed on its own:
      no whitespace run crosses its end. */
  lemma {:induction false} CollapseSplit(x: string, z: string)
    requires |x| > 0 && !IsSpace(x[|x| - 1])
    ensures CollapseSpaces(x + z) == CollapseSpaces(x) + CollapseSpaces(z)
    decreases |x|
  {
    assert (x + z)[0] == x[0];
    if IsSpace(x[0]) {
      var t := TrimStart(x);
      assert !AllSpace(x) by { assert !IsSpace(x[|x| - 1]); }
      TrimStartAppend(x, z);
      TrimStartKeepsLast(x);
      calc {
        CollapseSpaces(x + z);
        " " + CollapseSpaces(t + z);
        { CollapseSplit(t, z); }
        " " + (CollapseSpaces(t) + CollapseSpaces(z));
        { Seqs.AppendAssoc(" ", CollapseSpaces(t), CollapseSpaces(z)); }
        " " + CollapseSpaces(t) + CollapseSpaces(z);
        CollapseSpaces(x) + CollapseSpaces(z);
      }
    } else if |x| == 1 {
      assert (x + z)[1..] == z;
      assert CollapseSpaces(x) == [x[0]];
    } else {
      calc {
        CollapseSpaces(x + z);
        { assert (x + z)[1..] == x[1..] + z; }
        [x[0]] + CollapseSpaces(x[1..] + z);
        { CollapseSplit(x[1..], z); }
        [x[0]] + (CollapseSpaces(x[1..]) + CollapseSpaces(z));
        { Seqs.AppendAssoc([x[0]], CollapseSpaces(x[1..]), CollapseSpaces(z)); }
        [x[0]] + CollapseSpaces(x[1..]) + CollapseSpaces(z);
        CollapseSpaces(x) + CollapseSpaces(z);
      }
    }
  }

  /** A whitespace run in front of a non-space character (or the end)
      becomes one space. */
  lemma {:induction false} CollapseRun(w: string, y: string)
    requires |w| > 0 && AllSpace(w)
    requires |y| == 0 || !IsSpace(y[0])
    ensures CollapseSpaces(w + y) == " " + CollapseSpaces(y)
  {
    assert (w + y)[0] == w[0];
    TrimStartPadded(w, y);
  }

  /** `\s+` replaced by one space: a whitespace run between two
      non-space characters becomes exactly one space, and the text on
      either side is collapsed on its own. A run at either end becomes one
      space too. */
  lemma {:induction false} CollapseWordBreak(x: string, w: string, y: string)
    requires |x| == 0 || !IsSpace(x[|x| - 1])
    requires |w| > 0 && AllSpace(w)
    requires |y| == 0 || !IsSpace(y[0])
    ensures CollapseSpaces(x + w + y) == CollapseSpaces(x) + " " + CollapseSpaces(y)
  {
    CollapseRun(w, y);
    if |x| == 0 {
      Seqs.EmptyPrefix(x, w, y);
      Seqs.EmptyPrefix(CollapseSpaces(x), " ", CollapseSpaces(y));
    } else {
      Seqs.AppendAssoc(x, w, y);
      Seqs.AppendAssoc(CollapseSpaces(x), " ", CollapseSpaces(y));
      CollapseSplit(x, w + y);
    }
  }

  /** Text without whitespace is left alone by the collapse. */
  lemma {:induction false} CollapseNoSpace(s: string)
    requires forall i :: 0 <= i < |s| ==> !IsSpace(s[i])
    ensures CollapseSpaces(s) == s
    decreases |s|
  {
    if |s| > 0 {
      CollapseNoSpace(s[1..]);
      assert s == [s[0]] + s[1..];
    }
  }

  /** Dropping a whitespace prefix keeps the non-whitespace characters. */
  lemma {:induction false} SpacePrefix(s: string, cut: nat)
    requires cut <= |s| && AllSpace(s[..cut])
    ensures Filter(NotSpace, s[cut..]) == Filter(NotSpace, s)
  {
    forall k | 0 <= k < cut
      ensures IsSpace(s[k])
    {
      assert s[..cut][k] == s[k];
    }
    PaddedNonSpace(s, cut, |s|);
    assert s[cut..|s|] == s[cut..];
  }

  /** `normalizeSearchQuery` is made from its input: the non-space
      characters of the result are exactly the word characters of the
      trimmed, lower-cased query, in order. Letters and digits are never
      lost or invented; only punctuation and whitespace change. */
  lemma {:induction false} NormalizeSearchQueryKeepsWords(query: string)
    ensures Filter(NotSpace, NormalizeSearchQuery(query)) == Filter(IsWordChar, LowerStr(Trim(query)))
  {
    var lowered := LowerStr(Trim(query));
    if query == "" {
      assert lowered == "";
    } else {
      var kept := RemoveSpecial(lowered);
      calc {
        Filter(NotSpace, NormalizeSearchQuery(query));
        Filter(NotSpace, CollapseSpaces(kept));
        { CollapseKeepsNonSpace(kept); }
        Filter(NotSpace, kept);
        { RemoveSpecialKeepsWords(lowered); }
        Filter(IsWordChar, lowered);
      }
    }
  }

  /** Two words separated by any whitespace run normalise to the two
      lower-cased words joined by a single space: the word boundary is
      kept. */
  lemma {:induction false} NormalizeSearchQueryTwoWords(x: string, w: string, y: string)
    requires |x| > 0 && forall i :: 0 <= i < |x| ==> IsWordChar(x[i])
    requires |w| > 0 && AllSpace(w)
    requires |y| > 0 && forall i :: 0 <= i < |y| ==> IsWordChar(y[i])
    ensures NormalizeSearchQuery(x + w + y) == LowerStr(x) + " " + LowerStr(y)
  {
    var q := x + w + y;
    var lx, ly := LowerStr(x), LowerStr(y);
    var m := lx + w + ly;
    assert q[0] == x[0] && q[|q| - 1] == y[|y| - 1];
    TrimKeepsUnpadded(q);
    LowerAroundSpaces(x, w, y);
    LowerWord(x);
    LowerWord(y);
    WordsAndSpacesKept(lx, w, ly);
    calc {
      NormalizeSearchQuery(q);
      CollapseSpaces(RemoveSpecial(LowerStr(Trim(q))));
      CollapseSpaces(m);
      { CollapseWordBreak(lx, w, ly); }
      CollapseSpaces(lx) + " " + CollapseSpaces(ly);
      { CollapseNoSpace(lx); CollapseNoSpace(ly); }
      lx + " " + ly;
    }
  }

  /** Lower-casing leaves whitespace alone. */
  lemma LowerAroundSpaces(x: string, w: string, y: string)
    requires AllSpace(w)
    ensures LowerStr(x + w + y) == LowerStr(x) + w + LowerStr(y)
  {
    forall i | 0 <= i < |w|
      ensures Lower(w[i]) == w[i]
    {
      assert IsSpace(w[i]);
    }
  }

  /** A lower-cased word is still a word, with no whitespace in it. */
  lemma LowerWord(x: string)
    requires forall i :: 0 <= i < |x| ==> IsWordChar(x[i])
    ensures forall i :: 0 <= i < |LowerStr(x)| ==> IsWordChar(LowerStr(x)[i]) && !IsSpace(LowerStr(x)[i])
  {
    forall i | 0 <= i < |x|
      ensures IsWordChar(LowerStr(x)[i]) && !IsSpace(LowerStr(x)[i])
    {
      assert IsWordChar(x[i]);
    }
  }

  lemma {:induction false} WordsAndSpacesKept(a: string, w: string, b: string)
    requires forall i :: 0 <= i < |a| ==> IsWordChar(a[i])
    requires AllSpace(w)
    requires forall i :: 0 <= i < |b| ==> IsWordChar(b[i])
    ensures RemoveSpecial(a + w + b) == a + w + b
  {
    var m := a + w + b;
    forall i | 0 <= i < |m|
      ensures IsWordChar(m[i]) || IsSpace(m[i])
    {
      if i < |a| {
        assert m[i] == a[i];
      } else if i < |a| + |w| {
        assert m[i] == w[i - |a|];
      } else {
        assert m[i] == b[i - |a| - |w|];
      }
    }
    RemoveSpecialKeepsAll(m);
  }

  /** A character `normalizeSearchQuery` can return. */
  predicate IsQueryChar(c: char) {
    ('a' <= c <= 'z') || ('0' <= c <= '9') || c == '_' || c == ' '
  }

  /** Only query characters, and never two spaces in a row. */
  predicate IsCleanQuery(s: string) {
    && (forall i :: 0 <= i < |s| ==> IsQueryChar(s[i]))
    && (forall i :: 0 <= i < |s| - 1 ==> !(s[i] == ' ' && s[i + 1] == ' '))
  }

  /** `normalizeSearchQuery(query)` as written: trim first, then lower-case,
      strip everything but word characters and whitespace, and collapse
      whitespace runs. */
  function NormalizeSearchQuery(query: string): (r: string)
    ensures query == "" ==> r == ""
    ensures IsCleanQuery(r)
  {
    if query == "" then ""
    else
      var kept := RemoveSpecial(LowerStr(Trim(query)));
      KeptChars(LowerStr(Trim(query)));
      CollapseChars(kept);
      CollapseSpaces(kept)
  }

  /** After lower-casing and `RemoveSpecial`, only lower-case word
      characters and whitespace are left. */
  lemma {:induction false} KeptChars(s: string)
    requires forall i :: 0 <= i < |s| ==> !IsAsciiUpper(s[i])
    ensures forall i :: 0 <= i < |RemoveSpecial(s)| ==>
              IsQueryChar(RemoveSpecial(s)[i]) || IsSpace(RemoveSpecial(s)[i])
  {
    if |s| > 0 {
      KeptChars(s[1..]);
      var head := if IsWordChar(s[0]) || IsSpace(s[0]) then [s[0]] else "";
      assert RemoveSpecial(s) == head + RemoveSpecial(s[1..]);
    }
  }

  /** As written the function is not idempotent: "a !" is trimmed before
      the "!" is removed, so its trailing space survives, and a second
      pass trims it. */
  lemma NormalizeSearchQueryNotIdempotent()
    ensures NormalizeSearchQuery("a !") == "a "
    ensures NormalizeSearchQuery(NormalizeSearchQuery("a !")) == "a"
  {
    NormalizeBang();
    NormalizeTrailingSpace();
  }

  lemma NormalizeBang()
    ensures NormalizeSearchQuery("a !") == "a "
  {
    BangSteps();
    CollapseTrailingSpace();
  }

  lemma BangSteps()
    ensures RemoveSpecial(LowerStr(Trim("a !"))) == "a "
  {
    TrimKeepsUnpadded("a !");
    LowerBang();
    RemoveBang();
  }

  lemma LowerBang()
    ensures LowerStr("a !") == "a !"
  {
    var s := "a !";
    assert Lower(s[0]) == s[0] && Lower(s[1]) == s[1] && Lower(s[2]) == s[2];
  }

  /** A string with no whitespace at either end is its own trim. */
  lemma TrimKeepsUnpadded(s: string)
    requires |s| > 0 && !IsSpace(s[0]) && !IsSpace(s[|s| - 1])
    ensures Trim(s) == s
  {
    assert TrimStart(s) == s;
  }

  lemma RemoveBang()
    ensures RemoveSpecial("a !") == "a "
  {
    var s := "a !";
    assert s[1..][1..][1..] == "";
    assert RemoveSpecial(s[1..][1..]) == "";
    assert RemoveSpecial(s[1..]) == " ";
  }

  lemma CollapseTrailingSpace()
    ensures CollapseSpaces("a ") == "a "
  {
    assert TrimStart(" ") == "";
    assert CollapseSpaces(" ") == " ";
  }

  lemma NormalizeTrailingSpace()
    ensures NormalizeSearchQuery("a ") == "a"
  {
    TrailingSpaceSteps();
    assert CollapseSpaces("a") == "a";
  }

  lemma TrailingSpaceSteps()
    ensures RemoveSpecial(LowerStr(Trim("a "))) == "a"
  {
    assert TrimStart("a ") == "a ";
    assert TrimEnd("a ") == "a";
    assert Lower('a') == 'a';
    assert LowerStr("a") == "a";
    assert RemoveSpecial("a") == "a";
  }

  /** `normalizeSearchQuery` with the trim moved to the end, so that no
      space is left at either end. */
  function NormalizeSearchQueryFixed(query: string): (r: string)
    ensures query == "" ==> r == ""
    ensures IsCleanQuery(r)
    ensures |r| > 0 ==> r[0] != ' ' && r[|r| - 1] != ' '
  {
    if query == "" then ""
    else
      var kept := RemoveSpecial(LowerStr(query));
      KeptChars(LowerStr(query));
      CollapseChars(kept);
      var r := Trim(CollapseSpaces(kept));
      CleanInfix(CollapseSpaces(kept));
      r
  }

  /** Trimming a clean query keeps it clean. */
  lemma CleanInfix(s: string)
    requires IsCleanQuery(s)
    ensures IsCleanQuery(Trim(s))
  {
    var off := TrimBounds(s);
    var t := Trim(s);
    assert forall i :: 0 <= i < |t| ==> t[i] == s[off + i];
  }

  /** The corrected query clean-up is idempotent. */
  lemma NormalizeSearchQueryFixedIdempotent(query: string)
    ensures NormalizeSearchQueryFixed(NormalizeSearchQueryFixed(query)) == NormalizeSearchQueryFixed(query)
  {
    var r := NormalizeSearchQueryFixed(query);
    if r != "" {
      LowerClean(r);
      RemoveSpecialClean(r);
      CollapseOfClean(r);
      TrimOfClean(r);
    }
  }

  lemma LowerClean(s: string)
    requires IsCleanQuery(s)
    ensures LowerStr(s) == s
  {
  }

  lemma {:induction false} RemoveSpecialClean(s: string)
    requires forall i :: 0 <= i < |s| ==> IsQueryChar(s[i])
    ensures RemoveSpecial(s) == s
  {
    if |s| > 0 {
      RemoveSpecialClean(s[1..]);
      assert s == [s[0]] + s[1..];
    }
  }

  /** A clean query is left alone by collapsing. */
  lemma {:induction false} CollapseOfClean(s: string)
    requires IsCleanQuery(s)
    ensures CollapseSpaces(s) == s
    decreases |s|
  {
    if |s| > 0 {
      assert IsCleanQuery(s[1..]) by {
        assert forall i :: 0 <= i < |s| - 1 ==> s[1..][i] == s[i + 1];
      }
      if IsSpace(s[0]) {
        assert |s| == 1 || !IsSpace(s[1]);
        assert TrimStart(s[1..]) == s[1..];
      }
      CollapseOfClean(s[1..]);
      assert s == [s[0]] + s[1..];
    }
  }

  lemma TrimOfClean(s: string)
    requires |s| > 0 && s[0] != ' ' && s[|s| - 1] != ' ' && IsCleanQuery(s)
    ensures Trim(s) == s
  {
    assert !IsSpace(s[0]) && !IsSpace(s[|s| - 1]);
    assert TrimStart(s) == s;
  }

  // ---------------------------------------------------------------------
  // generateSearchSuggestions
  // ---------------------------------------------------------------------

  function NameOf(item: Item): string {
    item.name
  }

  /** `name?.toLowerCase().includes(queryLower)`; an absent name is "",
      which contains no query of two or more characters. */
  predicate NameMatches(name: string, ql: string) {
    Includes(LowerStr(name), ql)
  }

  /** The names one `forEach` adds to the `Set`, in order. */
  function MatchingNames(items: seq<Item>, ql: string): (r: seq<string>)
    ensures forall i :: 0 <= i < |r| ==> NameMatches(r[i], ql)
  {
    Map(NameOf, Filter((x: Item) => NameMatches(x.name, ql), items))
  }

  /** The category names the third `forEach` adds, in order. */
  function MatchingCategories(categories: seq<string>, ql: string): (r: seq<string>)
    ensures forall i :: 0 <= i < |r| ==> NameMatches(r[i], ql)
  {
    Filter((c: string) => NameMatches(c, ql), categories)
  }

  /** Every name the `Set` receives: products, then restaurants, then
      categories. */
  function Candidates(ql: string, products: seq<Item>, restaurants: seq<Item>, categories: seq<string>): seq<string> {
    MatchingNames(products, ql) + MatchingNames(restaurants, ql) + MatchingCategories(categories, ql)
  }

  /** `generateSearchSuggestions(query, { products, restaurants, categories })`
      of searchConfig.js; absent lists are empty and an absent query is "". */
  function GenerateSuggestions(query: string, products: seq<Item>, restaurants: seq<Item>, categories: seq<string>): (r: seq<string>)
    ensures |query| < MinSearchLength ==> r == []
    ensures |r| <= MaxSuggestions
    ensures NoDup(r)
  {
    if |query| < MinSearchLength then []
    else Take(Dedup(Candidates(LowerStr(query), products, restaurants, categories)), MaxSuggestions)
  }

  /** Every suggestion contains the lower-cased query, ignoring case. */
  lemma SuggestionsMatch(query: string, products: seq<Item>, restaurants: seq<Item>, categories: seq<string>)
    ensures var r := GenerateSuggestions(query, products, restaurants, categories);
            forall i :: 0 <= i < |r| ==> NameMatches(r[i], LowerStr(query))
  {
    var ql := LowerStr(query);
    var p := (s: string) => NameMatches(s, ql);
    if |query| >= MinSearchLength {
      var a := MatchingNames(products, ql) + MatchingNames(restaurants, ql);
      var b := MatchingCategories(categories, ql);
      assert GenerateSuggestions(query, products, restaurants, categories) == Take(Dedup(a + b), MaxSuggestions);
      NamesMatch(ql, MatchingNames(products, ql), MatchingNames(restaurants, ql));
      DedupTakeAll(p, a, b, MaxSuggestions);
    }
  }

  /** Both halves of the named candidates contain the query. */
  lemma NamesMatch(ql: string, pm: seq<string>, rm: seq<string>)
    requires forall i :: 0 <= i < |pm| ==> NameMatches(pm[i], ql)
    requires forall i :: 0 <= i < |rm| ==> NameMatches(rm[i], ql)
    ensures forall i :: 0 <= i < |pm + rm| ==> NameMatches((pm + rm)[i], ql)
  {
    forall i | 0 <= i < |pm + rm|
      ensures NameMatches((pm + rm)[i], ql)
    {
      if i >= |pm| {
        assert (pm + rm)[i] == rm[i - |pm|];
      }
    }
  }

  /** Suggestions are the first distinct candidates in first-seen order
      (none is skipped in favour of a later one): no restaurant or category
      name precedes a product name, and no category name precedes a
      restaurant name. */
  lemma SuggestionsOrder(query: string, products: seq<Item>, restaurants: seq<Item>, categories: seq<string>)
    ensures var ql := LowerStr(query);
            var pm := MatchingNames(products, ql);
            var rm := MatchingNames(restaurants, ql);
            var c := Candidates(ql, products, restaurants, categories);
            var r := GenerateSuggestions(query, products, restaurants, categories);
            && (forall i :: 0 <= i < |r| ==> r[i] in c)
            && (forall i, j :: 0 <= i < j < |r| ==> FirstIndex(c, r[i]) < FirstIndex(c, r[j]))
            && (forall i, j :: 0 <= i < j < |r| && r[j] in pm ==> r[i] in pm)
            && (forall x, j :: x in c && 0 <= j < |r| && FirstIndex(c, x) < FirstIndex(c, r[j]) ==> x in r)
  {
    var ql := LowerStr(query);
    var pm := MatchingNames(products, ql);
    var rm := MatchingNames(restaurants, ql);
    var cm := MatchingCategories(categories, ql);
    var r := GenerateSuggestions(query, products, restaurants, categories);
    if |query| >= MinSearchLength {
      assert r == Take(Dedup(pm + rm + cm), MaxSuggestions);
      DedupTakeOrder(pm + rm, cm, MaxSuggestions);
      DedupTakeFirstPart(pm, rm, cm, MaxSuggestions);
      DedupTakeNoSkip(pm + rm + cm, MaxSuggestions);
    } else {
      assert r == [];
    }
  }

  /** No category name precedes a product or restaurant name. */
  lemma SuggestionsCategoriesLast(query: string, products: seq<Item>, restaurants: seq<Item>, categories: seq<string>)
    ensures var ql := LowerStr(query);
            var named := MatchingNames(products, ql) + MatchingNames(restaurants, ql);
            var r := GenerateSuggestions(query, products, restaurants, categories);
            forall i, j :: 0 <= i < j < |r| && r[j] in named ==> r[i] in named
  {
    var ql := LowerStr(query);
    var named := MatchingNames(products, ql) + MatchingNames(restaurants, ql);
    var cm := MatchingCategories(categories, ql);
    var r := GenerateSuggestions(query, products, restaurants, categories);
    if |query| >= MinSearchLength {
      assert r == Take(Dedup(named + cm), MaxSuggestions);
      DedupTakeOrder(named, cm, MaxSuggestions);
    } else {
      assert r == [];
    }
  }

  /** When fewer than eight suggestions come back, every matching product,
      restaurant and category name is among them. */
  lemma SuggestionsComplete(query: string, products: seq<Item>, restaurants: seq<Item>, categories: seq<string>)
    ensures var ql := LowerStr(query);
            var r := GenerateSuggestions(query, products, restaurants, categories);
            |query| >= MinSearchLength && |r| < MaxSuggestions ==>
              && (forall k :: 0 <= k < |products| && NameMatches(products[k].name, ql) ==> products[k].name in r)
              && (forall k :: 0 <= k < |restaurants| && NameMatches(restaurants[k].name, ql) ==> restaurants[k].name in r)
              && (forall k :: 0 <= k < |categories| && NameMatches(categories[k], ql) ==> categories[k] in r)
  {
    var ql := LowerStr(query);
    var r := GenerateSuggestions(query, products, restaurants, categories);
    if |query| >= MinSearchLength && |r| < MaxSuggestions {
      var c := Candidates(ql, products, restaurants, categories);
      assert r == Dedup(c);
      var pm := MatchingNames(products, ql);
      var rm := MatchingNames(restaurants, ql);
      var cm := MatchingCategories(categories, ql);
      forall k | 0 <= k < |products| && NameMatches(products[k].name, ql)
        ensures products[k].name in r
      {
        var p := (x: Item) => NameMatches(x.name, ql);
        assert p(products[k]);
        MapFilterComplete(NameOf, p, products, k);
        DedupContains(c, products[k].name);
      }
      forall k | 0 <= k < |restaurants| && NameMatches(restaurants[k].name, ql)
        ensures restaurants[k].name in r
      {
        var p := (x: Item) => NameMatches(x.name, ql);
        assert p(restaurants[k]);
        MapFilterComplete(NameOf, p, restaurants, k);
        DedupContains(c, restaurants[k].name);
      }
      forall k | 0 <= k < |categories| && NameMatches(categories[k], ql)
        ensures categories[k] in r
      {
        var p := (s: string) => NameMatches(s, ql);
        FilterMembership(p, categories, categories[k]);
        DedupContains(c, categories[k]);
      }
    }
  }
}
