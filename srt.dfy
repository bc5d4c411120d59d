/** The subtitle parser `parse_srt`: a pass over the lines of a subtitle
    file that keeps one record in progress, and the filter that drops the
    records whose text is blank. The reference definition `Parse` cuts the
    lines into blocks, each made of a header line (a line that is all digits
    once stripped) and the lines up to the next header. */
module Srt {
  import opened Strings

  datatype Option<T> = None | Some(value: T)

  /** One subtitle record, the dict with keys `index`, `start_time`,
      `end_time`, `text` and `movie`; `None` stands for Python's `None`. */
  datatype Sub = Sub(index: Option<nat>, startTime: Option<string>, endTime: Option<string>,
                     text: string, movie: string)

  /** The record the parser starts from and opens at every header. */
  function Fresh(index: Option<nat>, movie: string): Sub
  {
    Sub(index, None, None, "", movie)
  }

  /** The parser strips every line before looking at it. */
  function StripAll(lines: seq<string>): (r: seq<string>)
    ensures |r| == |lines| && forall k :: 0 <= k < |lines| ==> r[k] == Strip(lines[k])
  {
    seq(|lines|, k requires 0 <= k < |lines| => Strip(lines[k]))
  }

  lemma StripAllAppend(a: seq<string>, b: seq<string>)
    ensures StripAll(a + b) == StripAll(a) + StripAll(b)
  {
  }

  /** A stripped line that is all digits (`line.isdigit()`) opens a new record. */
  predicate IsHeader(line: string)
  {
    IsDigits(line)
  }

  predicate NoHeader(lines: seq<string>)
  {
    forall k :: 0 <= k < |lines| ==> !IsHeader(lines[k])
  }

  predicate IsDigitAt(s: string, k: nat)
  {
    k < |s| && IsAsciiDigit(s[k])
  }

  /** `\d{2}:\d{2}:\d{2},\d{3}` at position `at` of `s`. */
  predicate IsClockAt(s: string, at: nat)
  {
    && at + 12 <= |s|
    && IsDigitAt(s, at) && IsDigitAt(s, at + 1) && s[at + 2] == ':'
    && IsDigitAt(s, at + 3) && IsDigitAt(s, at + 4) && s[at + 5] == ':'
    && IsDigitAt(s, at + 6) && IsDigitAt(s, at + 7) && s[at + 8] == ','
    && IsDigitAt(s, at + 9) && IsDigitAt(s, at + 10) && IsDigitAt(s, at + 11)
  }

  const Arrow: string := " --> "

  /** `re.match` of `\d{2}:\d{2}:\d{2},\d{3} --> \d{2}:\d{2}:\d{2},\d{3}`:
      the pattern is anchored at the start of `s` only, so anything may
      follow the second time. */
  predicate IsTimestamp(s: string)
  {
    |s| >= 29 && IsClockAt(s, 0) && s[12..17] == Arrow && IsClockAt(s, 17)
  }

  /** The arrow does not occur before the first blank of `s`. */
  lemma NoArrowBefore(s: string, m: nat)
    requires m <= |s| && forall k :: 0 <= k < m ==> s[k] != ' '
    ensures Find(s, Arrow, 0) >= m
  {
    var q := Find(s, Arrow, 0);
    if q < |s| {
      assert s[q] == s[q..q + 5][0];
    }
  }

  lemma ClockHasNoBlank(s: string, at: nat)
    requires IsClockAt(s, at)
    ensures forall k :: at <= k < at + 12 ==> s[k] != ' '
  {
  }

  /** Splitting a timestamp line on the arrow gives at least two pieces:
      the first time, and a piece that starts with the second time and runs
      up to the next arrow or the end of the line. */
  lemma TimestampSplit(s: string)
    requires IsTimestamp(s)
    ensures |Split(s, Arrow)| >= 2
    ensures Split(s, Arrow)[0] == s[..12]
    ensures |Split(s, Arrow)[1]| >= 12 && Split(s, Arrow)[1][..12] == s[17..29]
    ensures Split(s, Arrow)[1] == s[17..][..Find(s[17..], Arrow, 0)]
  {
    ClockHasNoBlank(s, 0);
    NoArrowBefore(s, 12);
    assert Occurs(s, Arrow, 12);
    var rest := s[17..];
    ClockHasNoBlank(s, 17);
    assert forall k :: 0 <= k < 12 ==> rest[k] == s[17 + k];
    NoArrowBefore(rest, 12);
    SplitFirstTwo(s, Arrow, 12, 12);
  }

  /** `line.split(' --> ')[0]` and `[1]` of a timestamp line. */
  function Times(s: string): (t: (string, string))
    requires IsTimestamp(s)
    ensures t.0 == s[..12]
    ensures |t.1| >= 12 && t.1[..12] == s[17..29]
    ensures t.1 == s[17..][..Find(s[17..], Arrow, 0)]
  {
    TimestampSplit(s);
    var parts := Split(s, Arrow);
    (parts[0], parts[1])
  }

  /** A stripped line that the parser adds to the text of the record in
      progress: neither a header nor a timestamp, and not empty. */
  predicate IsTextLine(line: string)
  {
    !IsHeader(line) && !IsTimestamp(line) && line != []
  }

  /** What one line adds to the text: the line and one blank. */
  function Contribution(line: string): string
  {
    if IsTextLine(line) then line + " " else ""
  }

  /** The text of a block: the contributions of its lines, in order. A
      non-empty text ends with a blank. */
  function BodyText(body: seq<string>): (t: string)
    ensures t != [] ==> t[|t| - 1] == ' '
  {
    if body == [] then ""
    else
      var init := BodyText(body[..|body| - 1]);
      var c := Contribution(body[|body| - 1]);
      assert init == [] ==> (init + c) == c;
      init + c
  }

  /** The position of the last timestamp line of a block, or -1: a later
      timestamp line overrides the times of an earlier one. */
  function LastTimestamp(body: seq<string>): (k: int)
    ensures -1 <= k < |body|
    ensures k >= 0 ==> IsTimestamp(body[k])
    ensures forall j :: k < j < |body| ==> !IsTimestamp(body[j])
  {
    if body == [] then -1
    else if IsTimestamp(body[|body| - 1]) then |body| - 1
    else LastTimestamp(body[..|body| - 1])
  }

  /** The record a header and the lines after it produce. */
  function Block(header: string, body: seq<string>, movie: string): Sub
    requires IsHeader(header)
  {
    var k := LastTimestamp(body);
    Sub(Some(DigitsValue(header)),
        if k < 0 then None else Some(Times(body[k]).0),
        if k < 0 then None else Some(Times(body[k]).1),
        BodyText(body), movie)
  }

  /** Lines as `strip()` leaves them: none starts with white space. */
  predicate Stripped(lines: seq<string>)
  {
    forall k :: 0 <= k < |lines| ==> lines[k] == [] || !IsSpace(lines[k][0])
  }

  /** The text of a block of stripped lines starts with a visible character. */
  lemma {:induction false} BodyTextVisible(body: seq<string>)
    requires Stripped(body)
    ensures BodyText(body) != [] ==> !IsSpace(BodyText(body)[0])
    decreases |body|
  {
    if body != [] {
      var init := body[..|body| - 1];
      assert Stripped(init) by {
        forall k | 0 <= k < |init| ensures init[k] == [] || !IsSpace(init[k][0]) {
          assert init[k] == body[k];
        }
      }
      BodyTextVisible(init);
    }
  }

  /** The position of the first header at or after `from`, or `|lines|`. */
  function NextHeader(lines: seq<string>, from: nat): (n: nat)
    requires from <= |lines|
    ensures from <= n <= |lines|
    ensures n < |lines| ==> IsHeader(lines[n])
    ensures forall k :: from <= k < n ==> !IsHeader(lines[k])
    decreases |lines| - from
  {
    if from == |lines| then from
    else if IsHeader(lines[from]) then from
    else NextHeader(lines, from + 1)
  }

  /** The records of stripped lines: lines before the first header are
      dropped, and every header yields the record of its block. */
  function Blocks(lines: seq<string>, movie: string): seq<Sub>
    decreases |lines|
  {
    if lines == [] then []
    else if !IsHeader(lines[0]) then Blocks(lines[1..], movie)
    else
      var n := NextHeader(lines, 1);
      [Block(lines[0], lines[1..n], movie)] + Blocks(lines[n..], movie)
  }

  /** Reference definition of `parse_srt(srt_lines, movie_name)`. */
  function Parse(lines: seq<string>, movie: string): seq<Sub>
  {
    Blocks(StripAll(lines), movie)
  }

  /** The values of the header lines, in order. */
  function HeaderValues(lines: seq<string>): seq<nat>
  {
    if lines == [] then []
    else (if IsHeader(lines[0]) then [DigitsValue(lines[0])] else []) + HeaderValues(lines[1..])
  }

  /** What a line that is not a header does to the record in progress. */
  function Step(sub: Sub, line: string): Sub
  {
    if IsTimestamp(line) then sub.(startTime := Some(Times(line).0), endTime := Some(Times(line).1))
    else sub.(text := sub.text + Contribution(line))
  }

  /** The body of the parser's loop for a stripped line that is not a
      header: a timestamp line sets both times from `split(' --> ')`, and
      any other non-empty line is appended to the text with a blank. */
  method ReadLine(sub: Sub, line: string) returns (r: Sub)
    requires !IsHeader(line)
    ensures r == Step(sub, line)
  {
    r := sub;
    if IsTimestamp(line) {
      TimestampSplit(line);
      var times := Split(line, Arrow);
      r := r.(startTime := Some(times[0]), endTime := Some(times[1]));
    } else if line != [] {
      r := r.(text := r.text + line + " ");
    }
  }

  /** `parse_srt(srt_lines, movie_name)`. */
  method ParseSrt(lines: seq<string>, movie: string) returns (subs: seq<Sub>)
    ensures subs == Parse(lines, movie)
  {
    ghost var ls := StripAll(lines);
    subs := [];
    var sub := Fresh(None, movie);
    // The lines seen so far are `done`, then the header of `sub`, then `body`.
    ghost var done: seq<string> := [];
    ghost var header: string := "0";
    ghost var body: seq<string> := [];
    for i := 0 to |lines|
      invariant sub.index.None? ==> subs == [] && NoHeader(ls[..i])
      invariant sub.index.Some? ==> && ls[..i] == done + [header] + body
                                    && IsHeader(header) && NoHeader(body)
                                    && subs == Blocks(done, movie)
                                    && sub == Block(header, body, movie)
    {
      var line := Strip(lines[i]);
      assert line == ls[i];
      PrefixSnoc(ls, i);
      if IsDigits(line) {
        if sub.index.Some? {
          BlocksAppendBlock(done, header, body, movie);
          subs := subs + [sub];
          done := ls[..i];
        } else {
          BlocksNoHeader(ls[..i], movie);
          done := ls[..i];
        }
        sub := Fresh(Some(DigitsValue(line)), movie);
        assert ls[..i + 1] == done + [line] + [];
        header, body := line, [];
      } else {
        if sub.index.Some? {
          BlockSnoc(header, body, line, movie);
          NoHeaderSnoc(body, line);
          Regroup(done + [header], body, [line]);
        } else {
          NoHeaderSnoc(ls[..i], line);
        }
        body := body + [line];
        sub := ReadLine(sub, line);
      }
    }
    assert ls[..|lines|] == ls;
    if sub.index.Some? {
      BlocksAppendBlock(done, header, body, movie);
      subs := subs + [sub];
    } else {
      BlocksNoHeader(ls, movie);
    }
  }

  lemma NoHeaderSnoc(lines: seq<string>, line: string)
    requires NoHeader(lines) && !IsHeader(line)
    ensures NoHeader(lines + [line])
  {
  }

  /** One more line that is not a header adds its contribution to the text
      and, when it is a timestamp line, sets the times; nothing else moves. */
  lemma BlockSnoc(header: string, body: seq<string>, line: string, movie: string)
    requires IsHeader(header) && !IsHeader(line)
    ensures Block(header, body + [line], movie) == Step(Block(header, body, movie), line)
  {
    assert (body + [line])[..|body|] == body;
  }

  /** Lines without a header produce no record. */
  lemma {:induction false} BlocksNoHeader(lines: seq<string>, movie: string)
    requires NoHeader(lines)
    ensures Blocks(lines, movie) == []
    decreases |lines|
  {
    if lines != [] {
      BlocksNoHeader(lines[1..], movie);
    }
  }

  /** A position that has a header (or is the end), with no header between
      `from` and it, is the next header. */
  lemma {:induction false} NextHeaderAt(lines: seq<string>, from: nat, n: nat)
    requires from <= n <= |lines|
    requires n < |lines| ==> IsHeader(lines[n])
    requires forall k :: from <= k < n ==> !IsHeader(lines[k])
    ensures NextHeader(lines, from) == n
    decreases n - from
  {
    if from < n {
      NextHeaderAt(lines, from + 1, n);
    }
  }

  /** A prefix one element longer is the prefix and that element. */
  lemma PrefixSnoc<T>(s: seq<T>, i: nat)
    requires i < |s|
    ensures s[..i + 1] == s[..i] + [s[i]]
  {
  }

  /** Concatenation regrouped; stated once so that proofs over long
      concatenations need not rediscover it. */
  lemma Regroup<T>(a: seq<T>, b: seq<T>, c: seq<T>)
    ensures a + (b + c) == a + b + c
  {
  }

  /** A header followed by header-free lines makes exactly one block. */
  lemma BlocksSingle(header: string, body: seq<string>, movie: string)
    requires IsHeader(header) && NoHeader(body)
    ensures Blocks([header] + body, movie) == [Block(header, body, movie)]
  {
    var all := [header] + body;
    assert forall k :: 1 <= k < |all| ==> all[k] == body[k - 1];
    NextHeaderAt(all, 1, |all|);
    assert all[1..|all|] == body && all[|all|..] == [];
  }

  /** The first block of `pre + tail`, when `pre` starts with a header and
      `tail` does too, is the first block of `pre`. */
  lemma BlocksHeaderFirst(pre: seq<string>, tail: seq<string>, movie: string)
    requires pre != [] && IsHeader(pre[0]) && tail != [] && IsHeader(tail[0])
    ensures Blocks(pre + tail, movie)
         == [Block(pre[0], pre[1..NextHeader(pre, 1)], movie)] + Blocks(pre[NextHeader(pre, 1)..] + tail, movie)
  {
    var all, m := pre + tail, NextHeader(pre, 1);
    assert all[|pre|] == tail[0];
    assert forall k :: 1 <= k < |pre| ==> all[k] == pre[k];
    NextHeaderAt(all, 1, m);
    assert all[1..m] == pre[1..m];
    assert all[m..] == pre[m..] + tail;
  }

  /** A header followed by header-free lines, appended to any lines, adds
      exactly its own block to the records. */
  lemma {:induction false} BlocksAppendBlock(pre: seq<string>, header: string, body: seq<string>, movie: string)
    requires IsHeader(header) && NoHeader(body)
    ensures Blocks(pre + [header] + body, movie) == Blocks(pre, movie) + [Block(header, body, movie)]
    decreases |pre|
  {
    var tail, last := [header] + body, Block(header, body, movie);
    Regroup(pre, [header], body);
    if pre == [] {
      assert pre + tail == tail;
      BlocksSingle(header, body, movie);
    } else if !IsHeader(pre[0]) {
      assert (pre + tail)[1..] == pre[1..] + tail;
      Regroup(pre[1..], [header], body);
      BlocksAppendBlock(pre[1..], header, body, movie);
    } else {
      var m := NextHeader(pre, 1);
      BlocksHeaderFirst(pre, tail, movie);
      Regroup(pre[m..], [header], body);
      BlocksAppendBlock(pre[m..], header, body, movie);
      var first, rest := Block(pre[0], pre[1..m], movie), Blocks(pre[m..], movie);
      assert Blocks(pre, movie) == [first] + rest;
      Regroup([first], rest, [last]);
    }
  }

  lemma {:induction false} BlocksSkipPreamble(pre: seq<string>, lines: seq<string>, movie: string)
    requires NoHeader(pre)
    ensures Blocks(pre + lines, movie) == Blocks(lines, movie)
    decreases |pre|
  {
    if pre != [] {
      assert (pre + lines)[0] == pre[0];
      assert (pre + lines)[1..] == pre[1..] + lines;
      assert NoHeader(pre[1..]) by {
        forall k | 0 <= k < |pre| - 1 ensures !IsHeader(pre[1..][k]) {
          assert pre[1..][k] == pre[k + 1];
        }
      }
      BlocksSkipPreamble(pre[1..], lines, movie);
    } else {
      assert pre + lines == lines;
    }
  }

  /** Lines before the first digit-only line contribute nothing. */
  lemma ParseSkipsPreamble(pre: seq<string>, lines: seq<string>, movie: string)
    requires forall k :: 0 <= k < |pre| ==> !IsDigits(Strip(pre[k]))
    ensures Parse(pre + lines, movie) == Parse(lines, movie)
  {
    StripAllAppend(pre, lines);
    BlocksSkipPreamble(StripAll(pre), StripAll(lines), movie);
  }

  lemma {:induction false} HeaderValuesSkip(lines: seq<string>, n: nat)
    requires n <= |lines| && NoHeader(lines[..n])
    ensures HeaderValues(lines) == HeaderValues(lines[n..])
    decreases n
  {
    if n > 0 {
      assert !IsHeader(lines[..n][0]);
      assert lines[1..][..n - 1] == lines[1..n];
      assert lines[1..][n - 1..] == lines[n..];
      HeaderValuesSkip(lines[1..], n - 1);
    }
  }

  /** A text that is empty, or starts with a visible character and ends
      with one blank. */
  predicate WellFormedText(t: string)
  {
    t == [] || (!IsSpace(t[0]) && t[|t| - 1] == ' ')
  }

  /** `subs` are records for the header values `values`, in order, of the
      movie `movie`, each with a well-formed text. */
  predicate RecordsFor(subs: seq<Sub>, values: seq<nat>, movie: string)
  {
    && |subs| == |values|
    && forall k :: 0 <= k < |subs| ==>
         subs[k].index == Some(values[k]) && subs[k].movie == movie && WellFormedText(subs[k].text)
  }

  lemma RecordsForCons(sub: Sub, subs: seq<Sub>, v: nat, values: seq<nat>, movie: string)
    requires sub.index == Some(v) && sub.movie == movie && WellFormedText(sub.text)
    requires RecordsFor(subs, values, movie)
    ensures RecordsFor([sub] + subs, [v] + values, movie)
  {
    var all := [sub] + subs;
    assert forall k :: 1 <= k < |all| ==> all[k] == subs[k - 1];
  }

  lemma StrippedSlice(lines: seq<string>, i: nat, j: nat)
    requires Stripped(lines) && i <= j <= |lines|
    ensures Stripped(lines[i..j])
  {
    forall k | 0 <= k < j - i ensures lines[i..j][k] == [] || !IsSpace(lines[i..j][k][0]) {
      assert lines[i..j][k] == lines[i + k];
    }
  }

  lemma {:induction false} BlocksRecords(lines: seq<string>, movie: string)
    requires Stripped(lines)
    ensures RecordsFor(Blocks(lines, movie), HeaderValues(lines), movie)
    decreases |lines|
  {
    if lines != [] {
      if !IsHeader(lines[0]) {
        StrippedSlice(lines, 1, |lines|);
        assert lines[1..|lines|] == lines[1..];
        BlocksRecords(lines[1..], movie);
        assert HeaderValues(lines) == HeaderValues(lines[1..]);
      } else {
        var n := NextHeader(lines, 1);
        StrippedSlice(lines, n, |lines|);
        StrippedSlice(lines, 1, n);
        assert lines[n..|lines|] == lines[n..];
        BlocksRecords(lines[n..], movie);
        BodyTextVisible(lines[1..n]);
        assert lines[1..][..n - 1] == lines[1..n];
        assert lines[1..][n - 1..] == lines[n..];
        HeaderValuesSkip(lines[1..], n - 1);
        RecordsForCons(Block(lines[0], lines[1..n], movie), Blocks(lines[n..], movie),
                       DigitsValue(lines[0]), HeaderValues(lines[n..]), movie);
      }
    }
  }

  /** `parse_srt` emits one record per digit-only line, in input order: its
      index is that line's value and its movie the given name. A record's
      text is empty, or starts with a visible character and ends with one
      blank, so it never ends with an ellipsis. */
  lemma ParseRecords(lines: seq<string>, movie: string)
    ensures RecordsFor(Parse(lines, movie), HeaderValues(StripAll(lines)), movie)
  {
    var ls := StripAll(lines);
    forall k | 0 <= k < |ls| ensures ls[k] == [] || !IsSpace(ls[k][0]) {
    }
    BlocksRecords(ls, movie);
  }

  /** The driver's filter `df[df['text'].str.strip() != '']`: the records
      whose text is not blank, in their order. */
  function KeepNonBlank(subs: seq<Sub>): (r: seq<Sub>)
    ensures |r| <= |subs|
    ensures forall x :: x in r <==> x in subs && Strip(x.text) != []
  {
    if subs == [] then []
    else
      var last := subs[|subs| - 1];
      KeepNonBlank(subs[..|subs| - 1]) + if Strip(last.text) != [] then [last] else []
  }

  /** For parsed records, blank text is empty text: the filter drops exactly
      the records of blocks that had no text line. */
  lemma ParsedBlankIsEmpty(lines: seq<string>, movie: string)
    ensures forall x :: x in Parse(lines, movie) ==> (Strip(x.text) == [] <==> x.text == [])
  {
    ParseRecords(lines, movie);
    forall x | x in Parse(lines, movie) ensures Strip(x.text) == [] <==> x.text == [] {
      StripEmptyIff(x.text);
    }
  }
}
