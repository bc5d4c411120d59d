/** The stem keyword matcher `find_matching_keywords`: every keyword of
    every category is searched for with the pattern `(?<!\w)keyword\w*`
    under IGNORECASE, and the keywords found and their categories are
    collected in catalog order. */
module Keywords {

  /** What the regular-expression engine consults about characters: the
      class `\w` and the per-character fold that IGNORECASE compares by. */
  datatype CharClasses = CharClasses(isWord: char -> bool, fold: char -> char)

  /** One category of the catalog: its name (the JSON file name) and its
      keyword list. */
  datatype Category = Category(name: string, keywords: seq<string>)

  /** `a` and `b` agree character by character once folded. */
  predicate FoldEqual(cc: CharClasses, a: string, b: string)
  {
    |a| == |b| && forall k :: 0 <= k < |a| ==> cc.fold(a[k]) == cc.fold(b[k])
  }

  /** `(?<!\w)keyword` matches at position `p` of `text`: the keyword occurs
      there, case-insensitively, and no word character comes right before. */
  predicate StemAt(cc: CharClasses, text: string, keyword: string, p: nat)
  {
    && p + |keyword| <= |text|
    && FoldEqual(cc, text[p..p + |keyword|], keyword)
    && (p == 0 || !cc.isWord(text[p - 1]))
  }

  ghost predicate StemOccurs(cc: CharClasses, text: string, keyword: string)
  {
    exists p: nat :: StemAt(cc, text, keyword, p)
  }

  /** The whole pattern `(?<!\w)keyword\w*` matches `text[p..q]`. */
  predicate PatternAt(cc: CharClasses, text: string, keyword: string, p: nat, q: nat)
  {
    && StemAt(cc, text, keyword, p)
    && p + |keyword| <= q <= |text|
    && forall k :: p + |keyword| <= k < q ==> cc.isWord(text[k])
  }

  /** The trailing `\w*` never decides whether the pattern is found: it
      matches somewhere exactly when the keyword does, at the same place. */
  lemma PatternIffStem(cc: CharClasses, text: string, keyword: string)
    ensures (exists p: nat, q: nat :: PatternAt(cc, text, keyword, p, q)) <==> StemOccurs(cc, text, keyword)
  {
    if StemOccurs(cc, text, keyword) {
      var p: nat :| StemAt(cc, text, keyword, p);
      assert PatternAt(cc, text, keyword, p, p + |keyword|);
    }
  }

  /** `re.search(pattern, text, re.IGNORECASE)` succeeds: the engine tries
      the positions of `text` from `from` on, left to right. */
  function Search(cc: CharClasses, text: string, keyword: string, from: nat): bool
    requires from <= |text|
    decreases |text| - from
  {
    if StemAt(cc, text, keyword, from) then true
    else if from == |text| then false
    else Search(cc, text, keyword, from + 1)
  }

  lemma {:induction false} SearchFromIff(cc: CharClasses, text: string, keyword: string, from: nat)
    requires from <= |text|
    ensures Search(cc, text, keyword, from) <==> exists p: nat :: from <= p && StemAt(cc, text, keyword, p)
    decreases |text| - from
  {
    if !StemAt(cc, text, keyword, from) && from < |text| {
      SearchFromIff(cc, text, keyword, from + 1);
      if exists p: nat :: from <= p && StemAt(cc, text, keyword, p) {
        var p: nat :| from <= p && StemAt(cc, text, keyword, p);
        assert from + 1 <= p;
      }
    } else if !StemAt(cc, text, keyword, from) {
      forall p: nat | from <= p ensures !StemAt(cc, text, keyword, p) {
        if p > from { assert p + |keyword| > |text|; }
      }
    }
  }

  /** A keyword is found exactly when it occurs, case-insensitively, at the
      start of the text or right after a character that is not a word
      character. */
  lemma SearchIff(cc: CharClasses, text: string, keyword: string)
    ensures Search(cc, text, keyword, 0) <==> StemOccurs(cc, text, keyword)
  {
    SearchFromIff(cc, text, keyword, 0);
  }

  /** The keywords of `keywords` that are found, in order. */
  function Found(cc: CharClasses, text: string, keywords: seq<string>): seq<string>
  {
    if keywords == [] then []
    else
      var last := keywords[|keywords| - 1];
      Found(cc, text, keywords[..|keywords| - 1]) + (if Search(cc, text, last, 0) then [last] else [])
  }

  /** Reference definition of the first result: one entry per
      (category, keyword) pair that is found, in catalog order. */
  function MatchedKeywords(cc: CharClasses, text: string, catalog: seq<Category>): seq<string>
  {
    if catalog == [] then []
    else
      var last := catalog[|catalog| - 1];
      MatchedKeywords(cc, text, catalog[..|catalog| - 1]) + Found(cc, text, last.keywords)
  }

  /** The names of the categories with a keyword found, in catalog order. */
  function MatchedNames(cc: CharClasses, text: string, catalog: seq<Category>): seq<string>
  {
    if catalog == [] then []
    else
      var last := catalog[|catalog| - 1];
      MatchedNames(cc, text, catalog[..|catalog| - 1]) + (if Found(cc, text, last.keywords) != [] then [last.name] else [])
  }

  /** `xs` with every element after its first occurrence dropped. */
  function Dedup(xs: seq<string>): seq<string>
  {
    if xs == [] then []
    else
      var d := Dedup(xs[..|xs| - 1]);
      if xs[|xs| - 1] in d then d else d + [xs[|xs| - 1]]
  }

  /** Reference definition of the second result. */
  function MatchedCategories(cc: CharClasses, text: string, catalog: seq<Category>): seq<string>
  {
    Dedup(MatchedNames(cc, text, catalog))
  }

  /** `find_matching_keywords(text, keywords_dict)`, with the dictionary
      given as its sequence of items. */
  method FindMatchingKeywords(cc: CharClasses, text: string, catalog: seq<Category>)
    returns (matchingKeywords: seq<string>, categories: seq<string>)
    ensures matchingKeywords == MatchedKeywords(cc, text, catalog)
    ensures categories == MatchedCategories(cc, text, catalog)
  {
    matchingKeywords, categories := [], [];
    for c := 0 to |catalog|
      invariant matchingKeywords == MatchedKeywords(cc, text, catalog[..c])
      invariant categories == Dedup(MatchedNames(cc, text, catalog[..c]))
    {
      var category := catalog[c].name;
      var keywords := catalog[c].keywords;
      ghost var names := MatchedNames(cc, text, catalog[..c]);
      assert keywords[..0] == [] && names + [] == names;
      for j := 0 to |keywords|
        invariant matchingKeywords == MatchedKeywords(cc, text, catalog[..c]) + Found(cc, text, keywords[..j])
        invariant categories == Dedup(names + if Found(cc, text, keywords[..j]) != [] then [category] else [])
      {
        FoundSnoc(cc, text, keywords, j);
        if Search(cc, text, keywords[j], 0) {
          DedupMembers(names + [category]);
          assert (names + [category])[..|names|] == names;
          matchingKeywords := matchingKeywords + [keywords[j]];
          if category !in categories {
            categories := categories + [category];
          }
        }
      }
      assert keywords[..|keywords|] == keywords;
      CatalogSnoc(cc, text, catalog, c);
    }
    assert catalog[..|catalog|] == catalog;
  }

  lemma FoundSnoc(cc: CharClasses, text: string, keywords: seq<string>, j: nat)
    requires j < |keywords|
    ensures Found(cc, text, keywords[..j + 1]) ==
              Found(cc, text, keywords[..j]) + (if Search(cc, text, keywords[j], 0) then [keywords[j]] else [])
  {
    assert keywords[..j + 1][..j] == keywords[..j];
  }

  lemma CatalogSnoc(cc: CharClasses, text: string, catalog: seq<Category>, c: nat)
    requires c < |catalog|
    ensures MatchedKeywords(cc, text, catalog[..c + 1]) ==
              MatchedKeywords(cc, text, catalog[..c]) + Found(cc, text, catalog[c].keywords)
    ensures MatchedNames(cc, text, catalog[..c + 1]) ==
              MatchedNames(cc, text, catalog[..c]) + (if Found(cc, text, catalog[c].keywords) != [] then [catalog[c].name] else [])
  {
    assert catalog[..c + 1][..c] == catalog[..c];
  }

  /** `Dedup` keeps exactly the elements of its argument. */
  lemma {:induction false} DedupMembers(xs: seq<string>)
    ensures forall x :: x in Dedup(xs) <==> x in xs
    decreases |xs|
  {
    if xs != [] {
      DedupMembers(xs[..|xs| - 1]);
      assert xs == xs[..|xs| - 1] + [xs[|xs| - 1]];
    }
  }

  predicate NoDuplicates(xs: seq<string>)
  {
    forall i, j :: 0 <= i < j < |xs| ==> xs[i] != xs[j]
  }

  /** `Dedup` leaves no name twice. */
  lemma {:induction false} DedupNoDuplicates(xs: seq<string>)
    ensures NoDuplicates(Dedup(xs))
    decreases |xs|
  {
    if xs != [] {
      DedupNoDuplicates(xs[..|xs| - 1]);
    }
  }

  /** A keyword is in the first result exactly when it belongs to a category
      of the catalog and is found in the text. */
  lemma {:induction false} MatchedKeywordsMembers(cc: CharClasses, text: string, catalog: seq<Category>, x: string)
    ensures x in MatchedKeywords(cc, text, catalog) <==>
              StemOccurs(cc, text, x) && exists c :: 0 <= c < |catalog| && x in catalog[c].keywords
    decreases |catalog|
  {
    SearchIff(cc, text, x);
    if catalog != [] {
      var init := catalog[..|catalog| - 1];
      var last := catalog[|catalog| - 1];
      MatchedKeywordsMembers(cc, text, init, x);
      FoundMembers(cc, text, last.keywords, x);
      if exists c :: 0 <= c < |catalog| && x in catalog[c].keywords {
        var c :| 0 <= c < |catalog| && x in catalog[c].keywords;
        if c < |init| {
          assert init[c] == catalog[c];
        }
      }
      assert forall c :: 0 <= c < |init| ==> init[c] == catalog[c];
    }
  }

  lemma {:induction false} FoundMembers(cc: CharClasses, text: string, keywords: seq<string>, x: string)
    ensures x in Found(cc, text, keywords) <==> x in keywords && Search(cc, text, x, 0)
    decreases |keywords|
  {
    if keywords != [] {
      FoundMembers(cc, text, keywords[..|keywords| - 1], x);
      assert keywords == keywords[..|keywords| - 1] + [keywords[|keywords| - 1]];
    }
  }

  /** Some keyword of the category is found in the text. */
  ghost predicate HasMatch(cc: CharClasses, text: string, category: Category)
  {
    exists k :: 0 <= k < |category.keywords| && StemOccurs(cc, text, category.keywords[k])
  }

  lemma {:induction false} FoundNonEmptyIff(cc: CharClasses, text: string, keywords: seq<string>)
    ensures Found(cc, text, keywords) != [] <==>
              exists k :: 0 <= k < |keywords| && StemOccurs(cc, text, keywords[k])
    decreases |keywords|
  {
    if keywords != [] {
      var init := keywords[..|keywords| - 1];
      var last := keywords[|keywords| - 1];
      FoundNonEmptyIff(cc, text, init);
      SearchIff(cc, text, last);
      assert forall k :: 0 <= k < |init| ==> init[k] == keywords[k];
      if exists k :: 0 <= k < |keywords| && StemOccurs(cc, text, keywords[k]) {
        var k :| 0 <= k < |keywords| && StemOccurs(cc, text, keywords[k]);
        if k < |init| {
          assert StemOccurs(cc, text, init[k]);
        }
      }
    }
  }

  lemma {:induction false} MatchedNamesMembers(cc: CharClasses, text: string, catalog: seq<Category>, x: string)
    ensures x in MatchedNames(cc, text, catalog) <==>
              exists c :: 0 <= c < |catalog| && catalog[c].name == x && HasMatch(cc, text, catalog[c])
    decreases |catalog|
  {
    if catalog != [] {
      var init := catalog[..|catalog| - 1];
      var last := catalog[|catalog| - 1];
      MatchedNamesMembers(cc, text, init, x);
      FoundNonEmptyIff(cc, text, last.keywords);
      assert forall c :: 0 <= c < |init| ==> init[c] == catalog[c];
      if exists c :: 0 <= c < |catalog| && catalog[c].name == x && HasMatch(cc, text, catalog[c]) {
        var c :| 0 <= c < |catalog| && catalog[c].name == x && HasMatch(cc, text, catalog[c]);
        if c < |init| {
          assert init[c] == catalog[c];
        }
      }
    }
  }

  /** The categories are distinct, and a name is among them exactly when a
      category of that name has a keyword that is found. */
  lemma MatchedCategoriesMembers(cc: CharClasses, text: string, catalog: seq<Category>, x: string)
    ensures NoDuplicates(MatchedCategories(cc, text, catalog))
    ensures x in MatchedCategories(cc, text, catalog) <==>
              exists c :: 0 <= c < |catalog| && catalog[c].name == x && HasMatch(cc, text, catalog[c])
  {
    DedupNoDuplicates(MatchedNames(cc, text, catalog));
    DedupMembers(MatchedNames(cc, text, catalog));
    MatchedNamesMembers(cc, text, catalog, x);
  }

  lemma {:induction false} MatchedNamesEmptyIff(cc: CharClasses, text: string, catalog: seq<Category>)
    ensures MatchedNames(cc, text, catalog) == [] <==> MatchedKeywords(cc, text, catalog) == []
    decreases |catalog|
  {
    if catalog != [] {
      MatchedNamesEmptyIff(cc, text, catalog[..|catalog| - 1]);
    }
  }

  /** Categories are reported exactly when keywords are, and an empty
      catalog gives two empty lists. */
  lemma MatchedCategoriesEmptyIff(cc: CharClasses, text: string, catalog: seq<Category>)
    ensures MatchedCategories(cc, text, catalog) == [] <==> MatchedKeywords(cc, text, catalog) == []
    ensures catalog == [] ==> MatchedKeywords(cc, text, catalog) == [] && MatchedCategories(cc, text, catalog) == []
  {
    MatchedNamesEmptyIff(cc, text, catalog);
    DedupMembers(MatchedNames(cc, text, catalog));
    if MatchedNames(cc, text, catalog) != [] {
      assert MatchedNames(cc, text, catalog)[0] in MatchedNames(cc, text, catalog);
    }
  }

  /** ASCII letters, digits and `_` as `\w`, and ASCII lower-casing as the
      fold: enough for the examples below. */
  const AsciiClasses: CharClasses :=
    CharClasses(c => ('a' <= c <= 'z') || ('A' <= c <= 'Z') || ('0' <= c <= '9') || c == '_',
                c => if 'A' <= c <= 'Z' then (c as int + 32) as char else c)

  /** A keyword never matches in the middle of a word. */
  lemma NoStemInsideWord()
    ensures !StemOccurs(AsciiClasses, "scatter", "cat")
  {
    var cc, t := AsciiClasses, "scatter";
    forall p: nat ensures !StemAt(cc, t, "cat", p) {
      if p == 1 {
        assert cc.isWord(t[0]);
      } else if p + 3 <= |t| {
        assert t[p..p + 3][0] == t[p];
        assert cc.fold(t[p]) != cc.fold('c');
      }
    }
  }

  /** A keyword matches at the start of a word, in any case, and may be
      followed by more letters. */
  lemma StemAtWordStart()
    ensures StemOccurs(AsciiClasses, "cats", "cat")
    ensures StemOccurs(AsciiClasses, "Vihane ta on.", "viha")
  {
    var cc := AsciiClasses;
    assert StemAt(cc, "cats", "cat", 0) by {
      assert "cats"[0..3] == "cat";
    }
    assert StemAt(cc, "Vihane ta on.", "viha", 0) by {
      assert "Vihane ta on."[0..4] == "Viha";
    }
  }

  /** Both keywords of the example below occur in its text as stems. */
  lemma VihaStemsFound()
    ensures Search(AsciiClasses, "Ta on vihane.", "viha", 0)
    ensures Search(AsciiClasses, "Ta on vihane.", "vihane", 0)
  {
    var cc := AsciiClasses;
    var text := "Ta on vihane.";
    assert StemAt(cc, text, "viha", 6) by {
      assert text[6..10] == "viha";
      assert !cc.isWord(text[5]);
    }
    assert StemAt(cc, text, "vihane", 6) by {
      assert text[6..12] == "vihane";
      assert !cc.isWord(text[5]);
    }
    SearchFromIff(cc, text, "viha", 0);
    SearchFromIff(cc, text, "vihane", 0);
  }

  /** The keywords of each category of the example below that are found. */
  lemma VihaFound()
    ensures Found(AsciiClasses, "Ta on vihane.", ["viha"]) == ["viha"]
    ensures Found(AsciiClasses, "Ta on vihane.", ["viha", "vihane"]) == ["viha", "vihane"]
  {
    VihaStemsFound();
    var ks: seq<string> := ["viha", "vihane"];
    assert ks[..1] == ["viha"];
    assert ks[..1][..0] == [];
  }

  /** The references over a catalog of two categories. */
  lemma PairCatalog(cc: CharClasses, text: string, a: Category, b: Category)
    ensures MatchedKeywords(cc, text, [a, b]) == Found(cc, text, a.keywords) + Found(cc, text, b.keywords)
    ensures MatchedNames(cc, text, [a, b])
      == (if Found(cc, text, a.keywords) != [] then [a.name] else [])
       + (if Found(cc, text, b.keywords) != [] then [b.name] else [])
  {
    assert [a, b][..1] == [a];
    assert [a][..0] == [];
    assert MatchedKeywords(cc, text, [a]) == Found(cc, text, a.keywords);
    assert MatchedNames(cc, text, [a]) == (if Found(cc, text, a.keywords) != [] then [a.name] else []);
  }

  /** Deduplicating two distinct names keeps both. */
  lemma DedupPair(x: string, y: string)
    requires x != y
    ensures Dedup([x, y]) == [x, y]
  {
    assert [x, y][..1] == [x];
    assert [x][..0] == [];
    assert Dedup([x]) == [x];
  }

  /** Keywords are reported once per category that lists them; categories
      are reported once. */
  lemma DuplicateKeywordExample()
    ensures var catalog := [Category("anger", ["viha", "vihane"]), Category("fear", ["viha"])];
      && MatchedKeywords(AsciiClasses, "Ta on vihane.", catalog) == ["viha", "vihane", "viha"]
      && MatchedCategories(AsciiClasses, "Ta on vihane.", catalog) == ["anger", "fear"]
  {
    VihaFound();
    PairCatalog(AsciiClasses, "Ta on vihane.", Category("anger", ["viha", "vihane"]), Category("fear", ["viha"]));
    DedupPair("anger", "fear");
  }
}
