/** The keyword pass `process_keywords` over one subtitle table: italic tags
    are deleted from every text, the rows are merged across ellipses, and
    every merged row with a matching keyword is kept with its context
    window. Also the composition of the whole chain with the parser. */
module Pipeline {
  import opened Strings
  import opened Srt
  import opened Ellipsis
  import opened Keywords

  /** The rows `range(max(0, index - 1), min(n, index + 2))` of a table of
      `n` rows, as a half-open interval. */
  function WindowStart(index: int): nat
  {
    if index - 1 > 0 then index - 1 else 0
  }

  function WindowEnd(n: nat, index: int): int
  {
    if index + 2 < n then index + 2 else n
  }

  /** The texts of the context window of row `index`. */
  function Window(texts: seq<string>, index: int): (w: seq<string>)
    ensures |w| <= 3
  {
    var lo, hi := WindowStart(index), WindowEnd(|texts|, index);
    if lo < hi then texts[lo..hi] else []
  }

  /** `combine_text(df, index)`: the texts of the window, joined with blanks. */
  method CombineText(texts: seq<string>, index: int) returns (r: string)
    ensures r == Join(Window(texts, index), " ")
  {
    var parts: seq<string> := [];
    var lo, hi := WindowStart(index), WindowEnd(|texts|, index);
    var i := lo;
    while i < hi
      invariant lo < hi ==> lo <= i <= hi && parts == texts[lo..i]
      invariant lo >= hi ==> parts == []
      decreases hi - i
    {
      assert texts[lo..i + 1] == texts[lo..i] + [texts[i]];
      parts := parts + [texts[i]];
      i := i + 1;
    }
    r := Join(parts, " ");
  }

  /** The window of an interior row holds three texts, that of the first or
      last row of a table of two or more rows holds two, and the window of
      a one-row table holds just that row. Each is the row's neighbours and
      the row itself, in order. */
  lemma WindowSizes(texts: seq<string>, index: int)
    requires 0 <= index < |texts|
    ensures 0 < index < |texts| - 1 ==> Window(texts, index) == [texts[index - 1], texts[index], texts[index + 1]]
    ensures index == 0 && |texts| >= 2 ==> Window(texts, index) == [texts[0], texts[1]]
    ensures index == |texts| - 1 && |texts| >= 2 ==> Window(texts, index) == [texts[index - 1], texts[index]]
    ensures |texts| == 1 ==> Window(texts, index) == [texts[0]]
  {
    var w := Window(texts, index);
    if 0 < index < |texts| - 1 {
      assert w == texts[index - 1..index + 2];
    } else if index == 0 && |texts| >= 2 {
      assert w == texts[0..2];
    } else if index == |texts| - 1 && |texts| >= 2 {
      assert w == texts[index - 1..|texts|];
    } else {
      assert w == texts[0..1];
    }
  }

  /** A window that lies outside the table is empty and joins to `''`. */
  lemma WindowOutside(texts: seq<string>, index: int)
    requires index <= -2 || index >= |texts| + 1
    ensures Window(texts, index) == [] && Join(Window(texts, index), " ") == ""
  {
  }

  /** Reference definition of `delete_substrings(text, substrings)`: every
      substring removed in turn, each with one `replace(s, '')`. */
  function DeleteAll(text: string, substrings: seq<string>): string
  {
    if substrings == [] then text
    else RemoveAll(DeleteAll(text, substrings[..|substrings| - 1]), substrings[|substrings| - 1])
  }

  method DeleteSubstrings(text: string, substrings: seq<string>) returns (r: string)
    ensures r == DeleteAll(text, substrings)
  {
    r := text;
    for k := 0 to |substrings|
      invariant r == DeleteAll(text, substrings[..k])
    {
      assert substrings[..k + 1][..k] == substrings[..k];
      r := RemoveAll(r, substrings[k]);
    }
    assert substrings[..|substrings|] == substrings;
  }

  /** Deleting substrings never makes a text longer, and leaves it as it is
      when none of them occurs in it. */
  lemma {:induction false} DeleteAllShrinks(text: string, substrings: seq<string>)
    ensures |DeleteAll(text, substrings)| <= |text|
    ensures (forall k :: 0 <= k < |substrings| ==> substrings[k] == [] || Find(text, substrings[k], 0) == |text|)
              ==> DeleteAll(text, substrings) == text
    decreases |substrings|
  {
    if substrings != [] {
      var init := substrings[..|substrings| - 1];
      DeleteAllShrinks(text, init);
      assert forall k :: 0 <= k < |init| ==> init[k] == substrings[k];
    }
  }

  /** Deleting substrings without blanks keeps a trailing blank. */
  lemma {:induction false} DeleteAllKeepsTrailingSpace(text: string, substrings: seq<string>)
    requires EndsWith(text, " ")
    requires forall k, c :: 0 <= k < |substrings| && 0 <= c < |substrings[k]| ==> substrings[k][c] != ' '
    ensures EndsWith(DeleteAll(text, substrings), " ")
    decreases |substrings|
  {
    if substrings != [] {
      var init := substrings[..|substrings| - 1];
      assert forall k :: 0 <= k < |init| ==> init[k] == substrings[k];
      DeleteAllKeepsTrailingSpace(text, init);
      RemoveAllKeepsTrailingSpace(DeleteAll(text, init), substrings[|substrings| - 1]);
    }
  }

  /** One `replace` is a single left-to-right pass: the text it leaves may
      hold the substring again. */
  lemma ReplaceIsSinglePass()
    ensures RemoveAll("<<i>i>", "<i>") == "<i>"
  {
    var s := "<<i>i>";
    assert s[0..3] == "<<i";
    assert !Occurs(s, "<i>", 0);
    assert Occurs(s, "<i>", 1);
    assert Find(s, "<i>", 0) == 1;
    var rest := s[4..];
    assert rest == "i>";
    assert Find(rest, "<i>", 0) == |rest|;
  }

  /** The italic tags `process_keywords` deletes. */
  const ItalicTags: seq<string> := ["<i>", "</i>"]

  /** The table as `process_keywords` reads it back: the text and movie of
      each record. */
  function RowsOf(subs: seq<Sub>): (rows: seq<Row>)
    ensures |rows| == |subs| && forall k :: 0 <= k < |subs| ==> rows[k] == Row(subs[k].text, subs[k].movie)
  {
    seq(|subs|, k requires 0 <= k < |subs| => Row(subs[k].text, subs[k].movie))
  }

  function WithoutTags(rows: seq<Row>): (r: seq<Row>)
    ensures |r| == |rows| && forall k :: 0 <= k < |rows| ==> r[k] == rows[k].(text := DeleteAll(rows[k].text, ItalicTags))
  {
    seq(|rows|, k requires 0 <= k < |rows| => rows[k].(text := DeleteAll(rows[k].text, ItalicTags)))
  }

  /** Cleaning one more row appends it, cleaned. */
  lemma WithoutTagsSnoc(rows: seq<Row>, k: nat)
    requires k < |rows|
    ensures WithoutTags(rows[..k + 1]) == WithoutTags(rows[..k]) + [rows[k].(text := DeleteAll(rows[k].text, ItalicTags))]
  {
    assert rows[..k + 1][..k] == rows[..k];
  }

  /** One row of the output table. */
  datatype OutRow = OutRow(combinedText: string, movie: MovieField, matchingKeywords: string, category: string)

  /** Merged row `index` has a matching keyword. */
  predicate IsSelected(cc: CharClasses, catalog: seq<Category>, texts: seq<string>, index: nat)
    requires index < |texts|
  {
    MatchedKeywords(cc, texts[index], catalog) != []
  }

  /** The output row for merged row `index`. */
  function OutRowAt(cc: CharClasses, catalog: seq<Category>, texts: seq<string>, movies: seq<MovieField>,
                    index: nat): OutRow
    requires index < |texts| == |movies|
  {
    OutRow(Join(Window(texts, index), " "), movies[index],
           Join(MatchedKeywords(cc, texts[index], catalog), ", "),
           Join(MatchedCategories(cc, texts[index], catalog), ", "))
  }

  /** The output row of every merged row, selected or not. */
  function OutRows(cc: CharClasses, catalog: seq<Category>, texts: seq<string>, movies: seq<MovieField>): (rs: seq<OutRow>)
    requires |texts| == |movies|
    ensures |rs| == |texts| && forall k :: 0 <= k < |texts| ==> rs[k] == OutRowAt(cc, catalog, texts, movies, k)
  {
    seq(|texts|, k requires 0 <= k < |texts| => OutRowAt(cc, catalog, texts, movies, k))
  }

  /** Which merged rows have a matching keyword. */
  function Matches(cc: CharClasses, catalog: seq<Category>, texts: seq<string>): (flags: seq<bool>)
    ensures |flags| == |texts| && forall k :: 0 <= k < |texts| ==> flags[k] == IsSelected(cc, catalog, texts, k)
  {
    seq(|texts|, k requires 0 <= k < |texts| => IsSelected(cc, catalog, texts, k))
  }

  /** The items among the first `n` whose flag is set, in order. */
  function Pick<T>(flags: seq<bool>, items: seq<T>, n: nat): seq<T>
    requires n <= |flags| == |items|
  {
    if n == 0 then [] else Pick(flags, items, n - 1) + if flags[n - 1] then [items[n - 1]] else []
  }

  /** The positions below `n` whose flag is set, in increasing order. */
  function Positions(flags: seq<bool>, n: nat): seq<nat>
    requires n <= |flags|
  {
    if n == 0 then [] else Positions(flags, n - 1) + if flags[n - 1] then [n - 1] else []
  }

  /** Reference definition of the rows `process_keywords` writes: the output
      rows of the merged rows that have a matching keyword. */
  function Selection(cc: CharClasses, catalog: seq<Category>, texts: seq<string>, movies: seq<MovieField>): seq<OutRow>
    requires |texts| == |movies|
  {
    Pick(Matches(cc, catalog, texts), OutRows(cc, catalog, texts, movies), |texts|)
  }

  /** One iteration of the row-selection loop: the rows selected among the
      first `index` grow to those selected among the first `index + 1`. */
  method SelectRow(cc: CharClasses, catalog: seq<Category>, texts: seq<string>, movies: seq<MovieField>,
                   index: nat, newRows: seq<OutRow>)
    returns (r: seq<OutRow>)
    requires index < |texts| == |movies|
    requires newRows == Pick(Matches(cc, catalog, texts), OutRows(cc, catalog, texts, movies), index)
    ensures r == Pick(Matches(cc, catalog, texts), OutRows(cc, catalog, texts, movies), index + 1)
  {
    ghost var flags := Matches(cc, catalog, texts);
    ghost var items := OutRows(cc, catalog, texts, movies);
    var matchingKeywords, categories := FindMatchingKeywords(cc, texts[index], catalog);
    assert flags[index] == (matchingKeywords != []);
    r := newRows;
    if matchingKeywords != [] {
      var combinedText := CombineText(texts, index);
      var row := OutRow(combinedText, movies[index], Join(matchingKeywords, ", "), Join(categories, ", "));
      assert row == items[index];
      r := r + [row];
    }
  }

  /** The row-selection loop of `process_keywords` over the merged table's
      `text` and `movie` columns. */
  method SelectRows(cc: CharClasses, catalog: seq<Category>, texts: seq<string>, movies: seq<MovieField>)
    returns (newRows: seq<OutRow>)
    requires |texts| == |movies|
    ensures newRows == Selection(cc, catalog, texts, movies)
  {
    newRows := [];
    for index := 0 to |texts|
      invariant newRows == Pick(Matches(cc, catalog, texts), OutRows(cc, catalog, texts, movies), index)
    {
      newRows := SelectRow(cc, catalog, texts, movies, index, newRows);
    }
  }

  /** Picking keeps exactly the items at the set positions, in order. */
  lemma {:induction false} PickByPositions<T>(flags: seq<bool>, items: seq<T>, n: nat)
    requires n <= |flags| == |items|
    ensures |Pick(flags, items, n)| == |Positions(flags, n)|
    ensures forall k :: 0 <= k < |Positions(flags, n)| ==>
              Positions(flags, n)[k] < n && Pick(flags, items, n)[k] == items[Positions(flags, n)[k]]
    decreases n
  {
    if n > 0 {
      PickByPositions(flags, items, n - 1);
    }
  }

  /** The positions are increasing, and a position is among them exactly
      when its flag is set. */
  lemma {:induction false} PositionsExact(flags: seq<bool>, n: nat)
    requires n <= |flags|
    ensures forall k, l :: 0 <= k < l < |Positions(flags, n)| ==> Positions(flags, n)[k] < Positions(flags, n)[l]
    ensures forall i: nat :: i in Positions(flags, n) <==> i < n && flags[i]
    decreases n
  {
    if n > 0 {
      var prev := Positions(flags, n - 1);
      PositionsExact(flags, n - 1);
      assert forall k :: 0 <= k < |prev| ==> prev[k] in prev;
    }
  }

  /** The rows written are those of the merged rows with a matching keyword,
      in increasing order of position, each with its own window, movie,
      keywords and categories. */
  lemma SelectionKeepsMatchingRows(cc: CharClasses, catalog: seq<Category>, texts: seq<string>, movies: seq<MovieField>)
    requires |texts| == |movies|
    ensures var ps := Positions(Matches(cc, catalog, texts), |texts|);
      && |Selection(cc, catalog, texts, movies)| == |ps|
      && (forall k, l :: 0 <= k < l < |ps| ==> ps[k] < ps[l])
      && (forall i: nat :: i in ps <==> i < |texts| && MatchedKeywords(cc, texts[i], catalog) != [])
      && forall k :: 0 <= k < |ps| ==> ps[k] < |texts| && Selection(cc, catalog, texts, movies)[k] == OutRowAt(cc, catalog, texts, movies, ps[k])
  {
    PickByPositions(Matches(cc, catalog, texts), OutRows(cc, catalog, texts, movies), |texts|);
    PositionsExact(Matches(cc, catalog, texts), |texts|);
  }

  /** Which records have a text that is not blank once stripped. */
  function NonBlankFlags(subs: seq<Sub>): (flags: seq<bool>)
    ensures |flags| == |subs| && forall k :: 0 <= k < |subs| ==> flags[k] == (Strip(subs[k].text) != [])
  {
    seq(|subs|, k requires 0 <= k < |subs| => Strip(subs[k].text) != [])
  }

  /** Filtering the first `n` records picks those of non-blank text. */
  lemma {:induction false} KeepNonBlankPrefix(subs: seq<Sub>, n: nat)
    requires n <= |subs|
    ensures KeepNonBlank(subs[..n]) == Pick(NonBlankFlags(subs), subs, n)
    decreases n
  {
    if n > 0 {
      assert subs[..n][..n - 1] == subs[..n - 1];
      KeepNonBlankPrefix(subs, n - 1);
    }
  }

  /** `df[df['text'].str.strip() != '']` keeps one copy of each record of
      non-blank text and no other, in increasing order of position. */
  lemma KeepNonBlankKeepsOrder(subs: seq<Sub>)
    ensures var ps := Positions(NonBlankFlags(subs), |subs|);
      && |KeepNonBlank(subs)| == |ps|
      && (forall k, l :: 0 <= k < l < |ps| ==> ps[k] < ps[l])
      && (forall i: nat :: i in ps <==> i < |subs| && Strip(subs[i].text) != [])
      && forall k :: 0 <= k < |ps| ==> ps[k] < |subs| && KeepNonBlank(subs)[k] == subs[ps[k]]
  {
    KeepNonBlankPrefix(subs, |subs|);
    assert subs[..|subs|] == subs;
    PickByPositions(NonBlankFlags(subs), subs, |subs|);
    PositionsExact(NonBlankFlags(subs), |subs|);
  }

  /** `df['text'].apply(lambda x: delete_substrings(x, ['<i>', '</i>']))`:
      the italic tags deleted from every text, row by row. */
  method DeleteTags(rows: seq<Row>) returns (cleaned: seq<Row>)
    ensures cleaned == WithoutTags(rows)
  {
    cleaned := [];
    for k := 0 to |rows|
      invariant cleaned == WithoutTags(rows[..k])
    {
      var text := DeleteSubstrings(rows[k].text, ItalicTags);
      WithoutTagsSnoc(rows, k);
      cleaned := cleaned + [rows[k].(text := text)];
    }
    assert rows[..|rows|] == rows;
  }

  /** `process_keywords` once the table is read: tags deleted from every
      text, rows merged across ellipses, rows with a match selected. */
  method ProcessKeywords(cc: CharClasses, catalog: seq<Category>, rows: seq<Row>) returns (newRows: seq<OutRow>)
    ensures var merged := Merge(WithoutTags(rows));
      newRows == Selection(cc, catalog, TextColumn(merged), MovieColumn(merged))
  {
    var cleaned := DeleteTags(rows);
    var texts, movies := CombineRowsWithEllipsis(cleaned);
    newRows := SelectRows(cc, catalog, texts, movies);
  }

  /** The driver's table: the records `parse_srt` produces, without those
      of blank text, as rows of text and movie, with their tags deleted. */
  function ParsedRows(lines: seq<string>, movie: string): seq<Row>
  {
    WithoutTags(RowsOf(KeepNonBlank(Parse(lines, movie))))
  }

  lemma ItalicTagsHaveNoBlank()
    ensures forall k, c :: 0 <= k < |ItalicTags| && 0 <= c < |ItalicTags[k]| ==> ItalicTags[k][c] != ' '
  {
    assert ItalicTags[0] == "<i>" && ItalicTags[1] == "</i>";
  }

  /** A text that is empty or ends with a blank no longer ends with "..."
      once its tags are deleted. */
  lemma CleanTextNotContinued(t: string)
    requires WellFormedText(t)
    ensures !Continued(DeleteAll(t, ItalicTags))
  {
    ItalicTagsHaveNoBlank();
    if t == [] {
      DeleteAllShrinks(t, ItalicTags);
    } else {
      DeleteAllKeepsTrailingSpace(t, ItalicTags);
    }
  }

  /** The records the driver keeps have well-formed texts. */
  lemma KeptTextsWellFormed(lines: seq<string>, movie: string)
    ensures forall x :: x in KeepNonBlank(Parse(lines, movie)) ==> WellFormedText(x.text)
  {
    var parsed := Parse(lines, movie);
    ParseRecords(lines, movie);
    forall x | x in KeepNonBlank(parsed) ensures WellFormedText(x.text) {
      var j :| 0 <= j < |parsed| && parsed[j] == x;
    }
  }

  /** Every non-empty parsed text ends with a blank, and deleting the tags
      keeps that blank, so no row of the driver's table ends with "...":
      the merger hands it back row for row, each text with its own movie. */
  lemma ParsedRowsNeverMerge(lines: seq<string>, movie: string)
    ensures NoneContinued(ParsedRows(lines, movie))
    ensures Merge(ParsedRows(lines, movie)) == Unmerged(ParsedRows(lines, movie))
  {
    var kept := KeepNonBlank(Parse(lines, movie));
    var rows := ParsedRows(lines, movie);
    KeptTextsWellFormed(lines, movie);
    forall k | 0 <= k < |rows| ensures !Continued(rows[k].text) {
      assert kept[k] in kept;
      CleanTextNotContinued(kept[k].text);
    }
    MergeIdentityIff(rows);
  }
}
