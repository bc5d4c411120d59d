/** The parts of Python's `str` type that the subtitle pipeline relies on:
    `strip()`, `isdigit()`, `int()`, `endswith()`, `split()`, `join()` and
    `replace(old, '')`, written over `seq<char>`. */
module Strings {

  /** The characters for which Python's `str.isspace()` holds. */
  predicate IsSpace(c: char)
  {
    || c == ' '
    || ('\t' <= c <= '\r')
    || ('\U{1C}' <= c <= '\U{1F}')
    || c == '\U{85}' || c == '\U{A0}' || c == '\U{1680}'
    || ('\U{2000}' <= c <= '\U{200A}')
    || c == '\U{2028}' || c == '\U{2029}' || c == '\U{202F}' || c == '\U{205F}' || c == '\U{3000}'
  }

  /** The first position at or after `i` that does not hold white space. */
  function SkipSpaces(s: string, i: nat): (j: nat)
    requires i <= |s|
    ensures i <= j <= |s|
    ensures j < |s| ==> !IsSpace(s[j])
    decreases |s| - i
  {
    if i < |s| && IsSpace(s[i]) then SkipSpaces(s, i + 1) else i
  }

  /** The end of `s[lo..hi]` once its trailing white space is dropped. */
  function TrimEnd(s: string, lo: nat, hi: nat): (j: nat)
    requires lo <= hi <= |s|
    ensures lo <= j <= hi
    ensures j > lo ==> !IsSpace(s[j - 1])
    decreases hi
  {
    if hi > lo && IsSpace(s[hi - 1]) then TrimEnd(s, lo, hi - 1) else hi
  }

  /** `s.strip()`: `s` without its leading and trailing white space. The
      result is a slice of `s` that leaves out only white space on either
      side, and it neither starts nor ends with white space; these facts
      determine it. */
  function Strip(s: string): (r: string)
    ensures |r| <= |s|
    ensures r != [] ==> !IsSpace(r[0]) && !IsSpace(r[|r| - 1])
    ensures exists lo, hi :: && 0 <= lo <= hi <= |s| && r == s[lo..hi]
                             && (forall k :: 0 <= k < lo ==> IsSpace(s[k]))
                             && (forall k :: hi <= k < |s| ==> IsSpace(s[k]))
  {
    var lo := SkipSpaces(s, 0);
    var hi := TrimEnd(s, lo, |s|);
    SkipSpacesSkipsSpaces(s, 0);
    TrimEndDropsSpaces(s, lo, |s|);
    s[lo..hi]
  }

  lemma {:induction false} SkipSpacesSkipsSpaces(s: string, i: nat)
    requires i <= |s|
    ensures forall k :: i <= k < SkipSpaces(s, i) ==> IsSpace(s[k])
    decreases |s| - i
  {
    if i < |s| && IsSpace(s[i]) {
      SkipSpacesSkipsSpaces(s, i + 1);
    }
  }

  lemma {:induction false} TrimEndDropsSpaces(s: string, lo: nat, hi: nat)
    requires lo <= hi <= |s|
    ensures forall k :: TrimEnd(s, lo, hi) <= k < hi ==> IsSpace(s[k])
    decreases hi
  {
    if hi > lo && IsSpace(s[hi - 1]) {
      TrimEndDropsSpaces(s, lo, hi - 1);
    }
  }

  /** `s.strip()` is empty exactly when every character of `s` is white space. */
  lemma StripEmptyIff(s: string)
    ensures Strip(s) == [] <==> forall k :: 0 <= k < |s| ==> IsSpace(s[k])
  {
    var lo := SkipSpaces(s, 0);
    SkipSpacesSkipsSpaces(s, 0);
    TrimEndDropsSpaces(s, lo, |s|);
  }

  /** Any slice of `s` that leaves out only white space on either side and
      neither starts nor ends with white space is `s.strip()`. */
  lemma StripUnique(s: string, lo: nat, hi: nat)
    requires lo <= hi <= |s|
    requires forall k :: 0 <= k < lo ==> IsSpace(s[k])
    requires forall k :: hi <= k < |s| ==> IsSpace(s[k])
    requires lo < hi ==> !IsSpace(s[lo]) && !IsSpace(s[hi - 1])
    ensures s[lo..hi] == Strip(s)
  {
    var l := SkipSpaces(s, 0);
    SkipSpacesSkipsSpaces(s, 0);
    if lo < hi {
      assert l == lo;
      var h := TrimEnd(s, l, |s|);
      TrimEndDropsSpaces(s, l, |s|);
      assert h == hi;
    } else {
      StripEmptyIff(s);
      assert forall k :: 0 <= k < |s| ==> IsSpace(s[k]) by {
        forall k | 0 <= k < |s| ensures IsSpace(s[k]) {
          if k >= lo { assert k >= hi; }
        }
      }
    }
  }

  predicate IsAsciiDigit(c: char)
  {
    '0' <= c <= '9'
  }

  /** `s.isdigit()` (over ASCII digits): non-empty and made of digits only. */
  predicate IsDigits(s: string)
  {
    |s| > 0 && forall k :: 0 <= k < |s| ==> IsAsciiDigit(s[k])
  }

  /** `int(s)` for a string of decimal digits (leading zeros allowed). */
  function DigitsValue(s: string): (n: nat)
    requires forall k :: 0 <= k < |s| ==> IsAsciiDigit(s[k])
    decreases |s|
  {
    if s == [] then 0
    else
      var last := s[|s| - 1];
      assert IsAsciiDigit(last);
      10 * DigitsValue(s[..|s| - 1]) + (last as int - '0' as int)
  }

  /** `str(n)`: the decimal representation of `n`, with no leading zero. */
  function Decimal(n: nat): (s: string)
    ensures IsDigits(s)
    ensures |s| > 1 ==> s[0] != '0'
    decreases n
  {
    if n < 10 then [('0' as int + n) as char]
    else Decimal(n / 10) + [('0' as int + n % 10) as char]
  }

  /** `int(str(n)) == n`. */
  /** A leading zero does not change the value, as `int('007') == 7`. */
  lemma {:induction false} DigitsValueLeadingZero(s: string)
    requires forall k :: 0 <= k < |s| ==> IsAsciiDigit(s[k])
    ensures DigitsValue("0" + s) == DigitsValue(s)
    decreases |s|
  {
    if s != [] {
      assert ("0" + s)[..|s|] == "0" + s[..|s| - 1];
      DigitsValueLeadingZero(s[..|s| - 1]);
    }
  }

  lemma {:induction false} DigitsValueOfDecimal(n: nat)
    ensures DigitsValue(Decimal(n)) == n
    decreases n
  {
    if n >= 10 {
      var s := Decimal(n);
      assert s[..|s| - 1] == Decimal(n / 10);
      DigitsValueOfDecimal(n / 10);
    }
  }

  /** `s.endswith(suffix)`. */
  predicate EndsWith(s: string, suffix: string)
  {
    |suffix| <= |s| && s[|s| - |suffix|..] == suffix
  }

  /** `s.endswith(suffix)` holds exactly when `s` is some string followed
      by `suffix`. */
  lemma EndsWithIff(s: string, suffix: string)
    ensures EndsWith(s, suffix) <==> exists t :: s == t + suffix
  {
    if EndsWith(s, suffix) {
      assert s == s[..|s| - |suffix|] + suffix;
    }
    forall t | s == t + suffix ensures EndsWith(s, suffix) {
      assert s[|t|..] == suffix;
    }
  }

  /** `pat` occurs in `s` starting at position `q`. */
  predicate Occurs(s: string, pat: string, q: nat)
  {
    q + |pat| <= |s| && s[q..q + |pat|] == pat
  }

  /** The least position `q >= from` at which `pat` occurs in `s`, or `|s|`
      when there is none. */
  function Find(s: string, pat: string, from: nat): (q: nat)
    requires from <= |s|
    ensures from <= q <= |s|
    ensures q < |s| ==> Occurs(s, pat, q)
    ensures forall p :: from <= p < q ==> !Occurs(s, pat, p)
    decreases |s| - from
  {
    if from == |s| then |s|
    else if Occurs(s, pat, from) then from
    else Find(s, pat, from + 1)
  }

  /** `sep.join(parts)`. */
  function Join(parts: seq<string>, sep: string): string
  {
    if parts == [] then []
    else if |parts| == 1 then parts[0]
    else parts[0] + sep + Join(parts[1..], sep)
  }

  /** Appending one more part to a join puts one separator before it; this is
      how the source grows a joined string with `+=`. */
  lemma {:induction false} JoinSnoc(parts: seq<string>, x: string, sep: string)
    ensures Join(parts + [x], sep) == if parts == [] then x else Join(parts, sep) + sep + x
    decreases |parts|
  {
    if |parts| > 1 {
      assert (parts + [x])[1..] == parts[1..] + [x];
      JoinSnoc(parts[1..], x, sep);
    } else if |parts| == 1 {
      assert parts + [x] == [parts[0], x];
    }
  }

  /** `s.split(sep)` for a non-empty separator: the pieces between the
      left-to-right, non-overlapping occurrences of `sep`. Joining them with
      `sep` gives `s` back. */
  function Split(s: string, sep: string): (parts: seq<string>)
    requires sep != []
    ensures |parts| >= 1
    ensures Join(parts, sep) == s
    decreases |s|
  {
    var q := Find(s, sep, 0);
    if q == |s| then [s]
    else
      assert s == s[..q] + sep + s[q + |sep|..];
      [s[..q]] + Split(s[q + |sep|..], sep)
  }

  /** The first piece of a split ends at the first separator. */
  lemma SplitFirstPiece(s: string, sep: string)
    requires sep != []
    ensures Split(s, sep)[0] == s[..Find(s, sep, 0)]
  {
    var q := Find(s, sep, 0);
    if q < |s| {
      assert Split(s, sep) == [s[..q]] + Split(s[q + |sep|..], sep);
    }
  }

  /** When `sep` first occurs at `q`, and not again within `m` characters
      after it, the first piece of the split is `s[..q]` and the second
      starts with the `m` characters after the separator and runs up to the
      next separator or the end of `s`. */
  lemma SplitFirstTwo(s: string, sep: string, q: nat, m: nat)
    requires sep != [] && q < |s| && Find(s, sep, 0) == q
    requires Find(s[q + |sep|..], sep, 0) >= m
    ensures |Split(s, sep)| >= 2 && Split(s, sep)[0] == s[..q]
    ensures |Split(s, sep)[1]| >= m && Split(s, sep)[1][..m] == s[q + |sep|..q + |sep| + m]
    ensures Split(s, sep)[1] == s[q + |sep|..][..Find(s[q + |sep|..], sep, 0)]
  {
    var rest := s[q + |sep|..];
    var tail := Split(rest, sep);
    assert Split(s, sep) == [s[..q]] + tail;
    SplitFirstPiece(rest, sep);
    var r := Find(rest, sep, 0);
    assert rest[..r][..m] == rest[..m];
  }

  /** No piece of `s.split(sep)` holds `sep`. */
  lemma {:induction false} SplitPiecesHoldNoSeparator(s: string, sep: string)
    requires sep != []
    ensures forall k, p: nat :: 0 <= k < |Split(s, sep)| ==> !Occurs(Split(s, sep)[k], sep, p)
    decreases |s|
  {
    var q := Find(s, sep, 0);
    if q == |s| {
      forall p: nat ensures !Occurs(s, sep, p) {
        if p >= |s| { assert p + |sep| > |s|; }
      }
    } else {
      var rest := s[q + |sep|..];
      SplitPiecesHoldNoSeparator(rest, sep);
      forall p: nat | Occurs(s[..q], sep, p) ensures false {
        assert s[..q][p..p + |sep|] == s[p..p + |sep|];
        assert Occurs(s, sep, p);
      }
      assert Split(s, sep) == [s[..q]] + Split(rest, sep);
    }
  }

  /** `s.replace(pat, '')`: every left-to-right, non-overlapping occurrence
      of `pat` deleted. An empty `pat` leaves `s` as it is, and so does a
      `pat` that does not occur. */
  function RemoveAll(s: string, pat: string): (r: string)
    ensures |r| <= |s|
    ensures pat == [] || Find(s, pat, 0) == |s| ==> r == s
    decreases |s|
  {
    if pat == [] then s
    else
      var q := Find(s, pat, 0);
      if q == |s| then s else s[..q] + RemoveAll(s[q + |pat|..], pat)
  }

  /** Deleting `pat` is joining the pieces of `s.split(pat)` with nothing. */
  lemma {:induction false} RemoveAllIsJoinOfSplit(s: string, pat: string)
    requires pat != []
    ensures RemoveAll(s, pat) == Join(Split(s, pat), "")
    decreases |s|
  {
    var q := Find(s, pat, 0);
    if q < |s| {
      var rest := s[q + |pat|..];
      RemoveAllIsJoinOfSplit(rest, pat);
      JoinCons(s[..q], Split(rest, pat), "");
    }
  }

  lemma JoinCons(x: string, parts: seq<string>, sep: string)
    requires parts != []
    ensures Join([x] + parts, sep) == x + sep + Join(parts, sep)
  {
    assert ([x] + parts)[1..] == parts;
  }

  /** Deleting a pattern that holds no blank keeps a trailing blank. */
  lemma {:induction false} RemoveAllKeepsTrailingSpace(s: string, pat: string)
    requires EndsWith(s, " ")
    requires forall k :: 0 <= k < |pat| ==> pat[k] != ' '
    ensures EndsWith(RemoveAll(s, pat), " ")
    decreases |s|
  {
    if pat != [] {
      var q := Find(s, pat, 0);
      if q < |s| {
        assert s[q + |pat| - 1] == pat[|pat| - 1];
        assert q + |pat| < |s|;
        RemoveAllKeepsTrailingSpace(s[q + |pat|..], pat);
      }
    }
  }
}
