/** The ellipsis merger `combine_rows_with_ellipsis`: a subtitle row whose
    text ends with "..." is joined with the "..." rows after it and with the
    first row after them that does not end with "...". A flag then skips the
    row right after the merged one, and only that row: when a run holds two
    or more "..." rows, the later rows of the run are emitted again. */
module Ellipsis {
  import opened Strings

  /** One row of the subtitle table: its text and its movie name. */
  datatype Row = Row(text: string, movie: string)

  /** The movie column of a merged row: the row's own name, or, for a merged
      row, the set of names that `', '.join` turns into one string (in an
      order Python does not fix). */
  datatype MovieField = Plain(name: string) | Joined(names: set<string>)

  datatype Merged = Merged(text: string, movie: MovieField)

  const Dots: string := "..."

  /** A text that continues on the next row: `text.endswith('...')`. */
  predicate Continued(t: string)
  {
    EndsWith(t, Dots)
  }

  function Texts(rows: seq<Row>): (ts: seq<string>)
    ensures |ts| == |rows| && forall k :: 0 <= k < |rows| ==> ts[k] == rows[k].text
  {
    seq(|rows|, k requires 0 <= k < |rows| => rows[k].text)
  }

  /** The names of the movies of `rows`. */
  function Movies(rows: seq<Row>): set<string>
  {
    if rows == [] then {} else Movies(rows[..|rows| - 1]) + {rows[|rows| - 1].movie}
  }

  /** The first position at or after `j` whose text is not continued, or the
      number of rows: where the inner `while` loop stops. */
  function RunEnd(rows: seq<Row>, j: nat): (e: nat)
    requires j <= |rows|
    ensures j <= e <= |rows|
    ensures e < |rows| ==> !Continued(rows[e].text)
    ensures forall k :: j <= k < e ==> Continued(rows[k].text)
    decreases |rows| - j
  {
    if j == |rows| || !Continued(rows[j].text) then j else RunEnd(rows, j + 1)
  }

  /** Row `i`, when it is processed, raises `skip_next`: it is continued and
      some row after its run exists to close it. */
  predicate SkipsNext(rows: seq<Row>, i: nat)
    requires i < |rows|
  {
    Continued(rows[i].text) && RunEnd(rows, i + 1) < |rows|
  }

  /** Row `i` is processed rather than skipped: the row before it, if any,
      was either skipped itself or did not raise `skip_next`. */
  predicate Emitted(rows: seq<Row>, i: nat)
    requires i < |rows|
    decreases i
  {
    i == 0 || !(Emitted(rows, i - 1) && SkipsNext(rows, i - 1))
  }

  /** The end of the rows that row `i` covers when it is processed. */
  function SpanEnd(rows: seq<Row>, i: nat): (e: nat)
    requires i < |rows|
    ensures i < e <= |rows|
  {
    if !Continued(rows[i].text) then i + 1
    else
      var e := RunEnd(rows, i + 1);
      if e < |rows| then e + 1 else e
  }

  /** What processing row `i` appends to the two output columns. */
  function MergedRow(rows: seq<Row>, i: nat): Merged
    requires i < |rows|
  {
    if !Continued(rows[i].text) then Merged(rows[i].text, Plain(rows[i].movie))
    else
      var span := rows[i..SpanEnd(rows, i)];
      Merged(Join(Texts(span), " "), Joined(Movies(span)))
  }

  /** The merged rows produced by the first `n` input rows. */
  function MergeUpTo(rows: seq<Row>, n: nat): seq<Merged>
    requires n <= |rows|
  {
    if n == 0 then []
    else MergeUpTo(rows, n - 1) + (if Emitted(rows, n - 1) then [MergedRow(rows, n - 1)] else [])
  }

  /** Reference definition of `combine_rows_with_ellipsis(df)`. */
  function Merge(rows: seq<Row>): seq<Merged>
  {
    MergeUpTo(rows, |rows|)
  }

  function TextColumn(ms: seq<Merged>): (ts: seq<string>)
    ensures |ts| == |ms| && forall k :: 0 <= k < |ms| ==> ts[k] == ms[k].text
  {
    seq(|ms|, k requires 0 <= k < |ms| => ms[k].text)
  }

  function MovieColumn(ms: seq<Merged>): (fs: seq<MovieField>)
    ensures |fs| == |ms| && forall k :: 0 <= k < |ms| ==> fs[k] == ms[k].movie
  {
    seq(|ms|, k requires 0 <= k < |ms| => ms[k].movie)
  }

  /** `combine_rows_with_ellipsis(df)`: the `text` and `movie` columns of the
      merged table. */
  method CombineRowsWithEllipsis(rows: seq<Row>) returns (texts: seq<string>, movies: seq<MovieField>)
    ensures texts == TextColumn(Merge(rows)) && movies == MovieColumn(Merge(rows))
  {
    texts, movies := [], [];
    var skipNext := false;
    for i := 0 to |rows|
      invariant skipNext == (i > 0 && Emitted(rows, i - 1) && SkipsNext(rows, i - 1))
      invariant texts == TextColumn(MergeUpTo(rows, i)) && movies == MovieColumn(MergeUpTo(rows, i))
    {
      if skipNext {
        skipNext := false;
        continue;
      }
      var m;
      m, skipNext := ProcessRow(rows, i);
      ColumnsSnoc(MergeUpTo(rows, i), m);
      texts := texts + [m.text];
      movies := movies + [m.movie];
    }
  }

  /** The body of the outer loop for a row that is not skipped: the merged
      row it appends, and the new value of `skip_next`. */
  method ProcessRow(rows: seq<Row>, i: nat) returns (m: Merged, skipNext: bool)
    requires i < |rows|
    ensures m == MergedRow(rows, i) && skipNext == SkipsNext(rows, i)
  {
    var text := rows[i].text;
    var movie := rows[i].movie;
    skipNext := false;
    if EndsWith(text, Dots) {
      var combinedText := text;
      var combinedMovies := {movie};
      var j := i + 1;
      assert rows[i..j] == [rows[i]];
      while j < |rows| && EndsWith(rows[j].text, Dots)
        invariant i + 1 <= j <= |rows|
        invariant RunEnd(rows, i + 1) == RunEnd(rows, j)
        invariant combinedText == Join(Texts(rows[i..j]), " ")
        invariant combinedMovies == Movies(rows[i..j])
        decreases |rows| - j
      {
        SpanSnoc(rows, i, j);
        combinedText := combinedText + " " + rows[j].text;
        combinedMovies := combinedMovies + {rows[j].movie};
        j := j + 1;
      }
      if j < |rows| {
        SpanSnoc(rows, i, j);
        combinedText := combinedText + " " + rows[j].text;
        combinedMovies := combinedMovies + {rows[j].movie};
        skipNext := true;
        j := j + 1;
      }
      assert j == SpanEnd(rows, i);
      m := Merged(combinedText, Joined(combinedMovies));
    } else {
      m := Merged(text, Plain(movie));
    }
  }

  lemma ColumnsSnoc(ms: seq<Merged>, m: Merged)
    ensures TextColumn(ms + [m]) == TextColumn(ms) + [m.text]
    ensures MovieColumn(ms + [m]) == MovieColumn(ms) + [m.movie]
  {
  }

  /** Growing a span by one row appends its text after a blank and adds its
      movie to the set. */
  lemma SpanSnoc(rows: seq<Row>, i: nat, j: nat)
    requires i < j < |rows|
    ensures Join(Texts(rows[i..j + 1]), " ") == Join(Texts(rows[i..j]), " ") + " " + rows[j].text
    ensures Movies(rows[i..j + 1]) == Movies(rows[i..j]) + {rows[j].movie}
  {
    assert rows[i..j + 1] == rows[i..j] + [rows[j]];
    assert rows[i..j + 1][..j - i] == rows[i..j];
    assert Texts(rows[i..j + 1]) == Texts(rows[i..j]) + [rows[j].text];
    JoinSnoc(Texts(rows[i..j]), rows[j].text, " ");
  }

  /** The merged table never has more rows than its input. */
  lemma {:induction false} MergeUpToLength(rows: seq<Row>, n: nat)
    requires n <= |rows|
    ensures |MergeUpTo(rows, n)| <= n
    ensures |MergeUpTo(rows, n)| == n ==>
              forall k :: 0 <= k < n ==> Emitted(rows, k) && MergeUpTo(rows, n)[k] == MergedRow(rows, k)
  {
    if n > 0 {
      MergeUpToLength(rows, n - 1);
    }
  }

  /** Rows as they are when nothing is merged: each text with its own movie. */
  function Unmerged(rows: seq<Row>): (ms: seq<Merged>)
    ensures |ms| == |rows|
  {
    seq(|rows|, k requires 0 <= k < |rows| => Merged(rows[k].text, Plain(rows[k].movie)))
  }

  predicate NoneContinued(rows: seq<Row>)
  {
    forall k :: 0 <= k < |rows| ==> !Continued(rows[k].text)
  }

  lemma {:induction false} MergeUpToNoneContinued(rows: seq<Row>, n: nat)
    requires n <= |rows| && NoneContinued(rows)
    ensures MergeUpTo(rows, n) == Unmerged(rows)[..n]
  {
    if n > 0 {
      MergeUpToNoneContinued(rows, n - 1);
      assert Emitted(rows, n - 1);
      assert Unmerged(rows)[..n] == Unmerged(rows)[..n - 1] + [Unmerged(rows)[n - 1]];
    }
  }

  /** The merger gives back its input, text for text and movie for movie,
      exactly when no text ends with "...". */
  lemma MergeIdentityIff(rows: seq<Row>)
    ensures Merge(rows) == Unmerged(rows) <==> NoneContinued(rows)
  {
    if NoneContinued(rows) {
      MergeUpToNoneContinued(rows, |rows|);
      assert Unmerged(rows)[..|rows|] == Unmerged(rows);
    } else {
      var c :| 0 <= c < |rows| && Continued(rows[c].text);
      MergeUpToLength(rows, |rows|);
      if |Merge(rows)| == |rows| {
        assert Merge(rows)[c].movie.Joined?;
        assert Unmerged(rows)[c].movie.Plain?;
      }
    }
  }

  /** No row except possibly the last ends with "...". */
  predicate OnlyLastContinued(rows: seq<Row>)
  {
    forall k :: 0 <= k < |rows| - 1 ==> !Continued(rows[k].text)
  }

  /** The movie field that `', '.join` turns into the name `m`: the name
      itself, or the set holding only it. */
  predicate NamesMovie(f: MovieField, m: string)
  {
    f == Plain(m) || f == Joined({m})
  }

  /** A row with no row after it to merge with is emitted as it is. */
  lemma LoneSpan(rows: seq<Row>, i: nat)
    requires i == |rows| - 1
    ensures MergedRow(rows, i).text == rows[i].text
    ensures NamesMovie(MergedRow(rows, i).movie, rows[i].movie)
  {
    if Continued(rows[i].text) {
      assert RunEnd(rows, i + 1) == |rows|;
      var span := rows[i..SpanEnd(rows, i)];
      assert span == [rows[i]];
      assert Texts(span) == [rows[i].text];
      assert span[..0] == [];
      assert Movies(span) == Movies([]) + {rows[i].movie};
      assert Join(Texts(span), " ") == rows[i].text;
    }
  }

  /** While no row before the last is continued, every row read is emitted
      with its own text and its own movie name. */
  lemma {:induction false} MergeUpToUnchanged(rows: seq<Row>, n: nat)
    requires n <= |rows|
    requires forall j :: 0 <= j < n && j < |rows| - 1 ==> !Continued(rows[j].text)
    ensures |MergeUpTo(rows, n)| == n
    ensures forall k :: 0 <= k < n ==>
              MergeUpTo(rows, n)[k].text == rows[k].text && NamesMovie(MergeUpTo(rows, n)[k].movie, rows[k].movie)
  {
    if n > 0 {
      MergeUpToUnchanged(rows, n - 1);
      assert n - 1 > 0 ==> !Continued(rows[n - 2].text);
      assert Emitted(rows, n - 1);
      if n - 1 == |rows| - 1 {
        LoneSpan(rows, n - 1);
      }
    }
  }

  /** A span of rows joins to a text longer than its first row's by at
      least one character per further row. */
  lemma {:induction false} SpanTextLonger(rows: seq<Row>, i: nat, j: nat)
    requires i < j <= |rows|
    ensures |Join(Texts(rows[i..j]), " ")| >= |rows[i].text| + (j - i - 1)
    decreases j
  {
    if j == i + 1 {
      assert Texts(rows[i..j]) == [rows[i].text];
    } else {
      SpanTextLonger(rows, i, j - 1);
      SpanSnoc(rows, i, j - 1);
    }
  }

  /** The merged rows of a shorter prefix start the merged rows of a longer one. */
  lemma {:induction false} MergeUpToPrefix(rows: seq<Row>, m: nat, n: nat)
    requires m <= n <= |rows|
    ensures |MergeUpTo(rows, m)| <= |MergeUpTo(rows, n)|
    ensures MergeUpTo(rows, n)[..|MergeUpTo(rows, m)|] == MergeUpTo(rows, m)
    decreases n
  {
    if m < n {
      MergeUpToPrefix(rows, m, n - 1);
      var a, b := MergeUpTo(rows, m), MergeUpTo(rows, n - 1);
      assert MergeUpTo(rows, n)[..|b|] == b;
      assert MergeUpTo(rows, n)[..|a|] == b[..|a|];
    }
  }

  /** The first continued row before the last, given that there is one. */
  lemma {:induction false} FirstContinued(rows: seq<Row>, c: nat) returns (k: nat)
    requires c < |rows| - 1 && Continued(rows[c].text)
    ensures k <= c && Continued(rows[k].text)
    ensures forall j :: 0 <= j < k ==> !Continued(rows[j].text)
    decreases c
  {
    if j :| 0 <= j < c && Continued(rows[j].text) {
      k := FirstContinued(rows, j);
    } else {
      k := c;
    }
  }

  /** A continued row with a row after it is merged with at least that row,
      so its merged text is longer than its own. */
  lemma MergedRowLonger(rows: seq<Row>, k: nat)
    requires k < |rows| - 1 && Continued(rows[k].text)
    ensures MergedRow(rows, k).text != rows[k].text
  {
    var e := SpanEnd(rows, k);
    assert e >= k + 2;
    SpanTextLonger(rows, k, e);
  }

  /** When no row before `k` is continued, row `k` is the `k`-th merged row. */
  lemma MergedAtUnchangedPrefix(rows: seq<Row>, k: nat)
    requires k < |rows|
    requires forall j :: 0 <= j < k ==> !Continued(rows[j].text)
    ensures k < |Merge(rows)| && Merge(rows)[k] == MergedRow(rows, k)
  {
    MergeUpToUnchanged(rows, k);
    assert k > 0 ==> !Continued(rows[k - 1].text);
    assert Emitted(rows, k);
    var pre := MergeUpTo(rows, k + 1);
    assert pre == MergeUpTo(rows, k) + [MergedRow(rows, k)];
    assert |pre| == k + 1 && pre[k] == MergedRow(rows, k);
    MergeUpToPrefix(rows, k + 1, |rows|);
    var whole := Merge(rows);
    assert whole[..k + 1] == pre;
    assert whole[k] == whole[..k + 1][k];
  }

  /** `combine_rows_with_ellipsis` returns its input unchanged, text for
      text, exactly when no row except possibly the last ends with "...";
      the movie column then holds each row's own name, as a name or as the
      one-name set that `', '.join` turns into it. */
  lemma MergeUnchangedIff(rows: seq<Row>)
    ensures TextColumn(Merge(rows)) == Texts(rows) <==> OnlyLastContinued(rows)
    ensures OnlyLastContinued(rows) ==>
              |Merge(rows)| == |rows| && forall k :: 0 <= k < |rows| ==> NamesMovie(MovieColumn(Merge(rows))[k], rows[k].movie)
  {
    if OnlyLastContinued(rows) {
      MergeUpToUnchanged(rows, |rows|);
      assert TextColumn(Merge(rows)) == Texts(rows);
    } else {
      var c :| 0 <= c < |rows| - 1 && Continued(rows[c].text);
      var k := FirstContinued(rows, c);
      MergedAtUnchangedPrefix(rows, k);
      MergedRowLonger(rows, k);
      assert TextColumn(Merge(rows))[k] != Texts(rows)[k];
    }
  }

  /** The merged table is at most as long as its input. */
  lemma MergeLength(rows: seq<Row>)
    ensures |Merge(rows)| <= |rows|
  {
    MergeUpToLength(rows, |rows|);
  }

  /** `skip_next` suppresses the row right after a merged row and no other:
      the row after the skipped one is processed again, even when it was
      already part of the merged text. */
  lemma SkipsOnlyNext(rows: seq<Row>, i: nat)
    requires i < |rows| && Emitted(rows, i) && SkipsNext(rows, i)
    ensures i + 1 < |rows| && !Emitted(rows, i + 1)
    ensures i + 2 < |rows| ==> Emitted(rows, i + 2)
  {
  }

  /** A string that ends with a blank and then `y` ends with "..." exactly
      when `y` does. */
  lemma EndsWithDotsAfterBlank(x: string, y: string)
    ensures Continued(x + " " + y) <==> Continued(y)
  {
    var s := x + " " + y;
    if |y| < 3 && |s| >= 3 {
      assert s[|s| - |y| - 1] == ' ';
      assert s[|s| - 3..][2 - |y|] == ' ';
    }
    if |y| >= 3 {
      assert s[|s| - 3..] == y[|y| - 3..];
    }
  }

  lemma JoinedSpanEnd(rows: seq<Row>, i: nat, j: nat)
    requires i < j <= |rows|
    ensures Continued(Join(Texts(rows[i..j]), " ")) <==> Continued(rows[j - 1].text)
  {
    var joined := Join(Texts(rows[i..j]), " ");
    var last := rows[j - 1].text;
    if j > i + 1 {
      var init := Join(Texts(rows[i..j - 1]), " ");
      SpanSnoc(rows, i, j - 1);
      assert joined == init + " " + last;
      EndsWithDotsAfterBlank(init, last);
    } else {
      assert Texts(rows[i..j]) == [last];
      assert joined == last;
    }
  }

  /** A merged text still ends with "..." exactly when its row is continued
      and its run of "..." rows reaches the end of the table; otherwise the
      row that closes the run supplies its end. */
  lemma MergedTextContinued(rows: seq<Row>, i: nat)
    requires i < |rows|
    ensures Continued(MergedRow(rows, i).text) <==> Continued(rows[i].text) && !SkipsNext(rows, i)
  {
    if Continued(rows[i].text) {
      JoinedSpanEnd(rows, i, SpanEnd(rows, i));
    }
  }

  /** The movies of a merged row are movies of the table: that of the row
      itself and, when the run is closed, that of the closing row. */
  lemma MergedMovies(rows: seq<Row>, i: nat)
    requires i < |rows| && Continued(rows[i].text)
    ensures MergedRow(rows, i).movie.Joined?
    ensures rows[i].movie in MergedRow(rows, i).movie.names
    ensures SkipsNext(rows, i) ==> rows[RunEnd(rows, i + 1)].movie in MergedRow(rows, i).movie.names
    ensures MergedRow(rows, i).movie.names <= Movies(rows)
  {
    var e := SpanEnd(rows, i);
    MoviesOfSlice(rows, i, e);
  }

  /** `Movies` holds exactly the movie names of the rows. */
  lemma {:induction false} MoviesMembers(rs: seq<Row>)
    ensures forall k :: 0 <= k < |rs| ==> rs[k].movie in Movies(rs)
    ensures forall m :: m in Movies(rs) ==> exists k :: 0 <= k < |rs| && rs[k].movie == m
    decreases |rs|
  {
    if rs != [] {
      var init := rs[..|rs| - 1];
      MoviesMembers(init);
      assert forall k :: 0 <= k < |init| ==> init[k] == rs[k];
    }
  }

  lemma MoviesOfSlice(rows: seq<Row>, i: nat, j: nat)
    requires i < j <= |rows|
    ensures Movies(rows[i..j]) <= Movies(rows)
    ensures forall k :: i <= k < j ==> rows[k].movie in Movies(rows[i..j])
  {
    var span := rows[i..j];
    MoviesMembers(span);
    MoviesMembers(rows);
    assert forall k :: i <= k < j ==> rows[k] == span[k - i];
    forall m | m in Movies(span) ensures m in Movies(rows) {
      var k :| 0 <= k < |span| && span[k].movie == m;
      assert rows[i + k] == span[k];
    }
  }

  /** A run of two "..." rows and a closing row: the closing row is merged
      into the first row and then emitted once more on its own, since only
      the second row is skipped. */
  lemma RunOfTwoEmitsClosingRowTwice()
    ensures var rows := [Row("a...", "A"), Row("b...", "B"), Row("c", "C")];
      Merge(rows) == [Merged("a... b... c", Joined({"A", "B", "C"})), Merged("c", Plain("C"))]
  {
    var rows := [Row("a...", "A"), Row("b...", "B"), Row("c", "C")];
    assert Continued(rows[0].text) && Continued(rows[1].text);
    assert !Continued(rows[2].text);
    assert RunEnd(rows, 1) == 2;
    assert SpanEnd(rows, 0) == 3;
    assert Texts(rows[0..3]) == ["a...", "b...", "c"];
    assert Join(["a...", "b...", "c"], " ") == "a... b... c";
    assert Movies(rows[0..3]) == {"A", "B", "C"} by {
      assert rows[0..1][..0] == [];
      assert Movies(rows[0..1]) == {"A"};
      assert rows[0..2][..1] == rows[0..1];
      assert Movies(rows[0..2]) == {"A", "B"};
      assert rows[0..3][..2] == rows[0..2];
    }
    assert Emitted(rows, 0) && SkipsNext(rows, 0);
    assert !Emitted(rows, 1);
    assert Emitted(rows, 2);
  }
}
