/** Character classes and string operations of the JavaScript runtime, restricted to what the
    summarizer uses: regular-expression splits, `trim`, ASCII case mapping, `includes`, `join`
    and the decimal rendering of a count inside a template literal. */
module Text {

  function Min(a: int, b: int): int { if a <= b then a else b }

  /** A value that may be absent, such as the `undefined` that `Array.prototype.find` returns. */
  datatype Option<T> = None | Some(value: T)

  // ---------------------------------------------------------------------------------------------
  // Character classes

  /** The characters of the sentence-split class `[.!?]`. */
  predicate IsTerminator(c: char) { c == '.' || c == '!' || c == '?' }

  /** White space as JavaScript's `\s` and `String.prototype.trim` define it
      (WhiteSpace and LineTerminator of ECMA-262). */
  predicate IsSpace(c: char) {
    || c == ' ' || c == '\t' || c == '\n' || c == '\U{B}' || c == '\U{C}' || c == '\r'
    || c == '\U{A0}' || c == '\U{1680}' || ('\U{2000}' <= c <= '\U{200A}')
    || c == '\U{2028}' || c == '\U{2029}' || c == '\U{202F}' || c == '\U{205F}'
    || c == '\U{3000}' || c == '\U{FEFF}'
  }

  /** The class `\w` of a regular expression without the `u` flag: `[A-Za-z0-9_]`. */
  predicate IsWordChar(c: char) { 'a' <= c <= 'z' || 'A' <= c <= 'Z' || '0' <= c <= '9' || c == '_' }

  /** The class `\W`. */
  predicate IsNonWordChar(c: char) { !IsWordChar(c) }

  predicate IsDigit(c: char) { '0' <= c <= '9' }

  predicate IsUpper(c: char) { 'A' <= c <= 'Z' }

  /** No character of `s` belongs to the class `sep`. */
  predicate NoSep(s: string, sep: char -> bool) { forall k :: 0 <= k < |s| ==> !sep(s[k]) }

  // ---------------------------------------------------------------------------------------------
  // Case mapping (ASCII letters only)

  function LowerChar(c: char): char { if IsUpper(c) then (c as int + 32) as char else c }

  function UpperChar(c: char): char { if 'a' <= c <= 'z' then (c as int - 32) as char else c }

  /** `toLowerCase`: maps every ASCII capital to its small letter and keeps everything else. */
  function Lower(s: string): (r: string)
    ensures |r| == |s|
    ensures forall k :: 0 <= k < |r| ==> !IsUpper(r[k])
    ensures forall k :: 0 <= k < |r| ==> IsWordChar(r[k]) == IsWordChar(s[k])
    ensures forall k :: 0 <= k < |r| ==> (IsUpper(s[k]) || r[k] == s[k])
    ensures forall k :: 0 <= k < |r| && IsUpper(s[k]) ==> 'a' <= r[k] <= 'z' && UpperChar(r[k]) == s[k]
  {
    seq(|s|, k requires 0 <= k < |s| => LowerChar(s[k]))
  }

  lemma LowerAppend(a: string, b: string)
    ensures Lower(a + b) == Lower(a) + Lower(b)
  {
  }

  lemma LowerPrefix(s: string, n: nat)
    requires n <= |s|
    ensures Lower(s[..n]) == Lower(s)[..n]
  {
  }

  // ---------------------------------------------------------------------------------------------
  // Substring search

  /** `hay.includes(needle)`. */
  predicate Contains(hay: string, needle: string) {
    exists i | 0 <= i <= |hay| - |needle| :: OccursAt(hay, needle, i)
  }

  /** `needle` occurs in `hay` starting at index `i`. */
  predicate OccursAt(hay: string, needle: string, i: nat) {
    i + |needle| <= |hay| && hay[i..i + |needle|] == needle
  }

  // ---------------------------------------------------------------------------------------------
  // trim

  /** `s` without its leading white space. */
  function TrimStart(s: string): (r: string)
    ensures |r| <= |s| && r == s[|s| - |r|..]
    ensures forall k :: 0 <= k < |s| - |r| ==> IsSpace(s[k])
    ensures r == [] || !IsSpace(r[0])
  {
    if |s| > 0 && IsSpace(s[0]) then TrimStart(s[1..]) else s
  }

  /** `s` without its trailing white space. */
  function TrimEnd(s: string): (r: string)
    ensures |r| <= |s| && r == s[..|r|]
    ensures forall k :: |r| <= k < |s| ==> IsSpace(s[k])
    ensures r == [] || !IsSpace(r[|r| - 1])
  {
    if |s| > 0 && IsSpace(s[|s| - 1]) then TrimEnd(s[..|s| - 1]) else s
  }

  predicate IsTrimmed(s: string) { s == [] || (!IsSpace(s[0]) && !IsSpace(s[|s| - 1])) }

  lemma TrimStartAllSpace(s: string)
    ensures TrimStart(s) == [] <==> forall k :: 0 <= k < |s| ==> IsSpace(s[k])
  {
    var t := TrimStart(s);
    if t != [] {
      assert t[0] == s[|s| - |t|];
    }
  }

  lemma TrimEndKeepsFirst(t: string)
    requires t == [] || !IsSpace(t[0])
    ensures TrimEnd(t) == [] <==> t == []
    ensures t != [] ==> TrimEnd(t)[0] == t[0]
  {
  }

  /** `String.prototype.trim`: the longest substring of `s` that neither starts nor ends with
      white space, obtained by removing white space only at the two ends. */
  function Trim(s: string): (r: string)
    ensures IsTrimmed(r)
    ensures |r| <= |TrimStart(s)| && r == TrimStart(s)[..|r|]
    ensures forall k :: |r| <= k < |TrimStart(s)| ==> IsSpace(TrimStart(s)[k])
    ensures r == [] <==> forall k :: 0 <= k < |s| ==> IsSpace(s[k])
  {
    var t := TrimStart(s);
    TrimStartAllSpace(s);
    TrimEndKeepsFirst(t);
    TrimEnd(t)
  }

  lemma TrimKeepsNoSep(s: string, sep: char -> bool)
    requires NoSep(s, sep)
    ensures NoSep(Trim(s), sep)
  {
    var t := TrimStart(s);
    var r := Trim(s);
    forall k | 0 <= k < |r| ensures !sep(r[k]) {
      assert r[k] == t[k] == s[|s| - |t| + k];
    }
  }

  // ---------------------------------------------------------------------------------------------
  // split on a run of separators: `s.split(/[C]+/)` for a character class C

  /** Index of the first separator in `s`, or `|s|` when there is none. */
  function FirstSep(s: string, sep: char -> bool): (i: nat)
    ensures i <= |s|
    ensures forall k :: 0 <= k < i ==> !sep(s[k])
    ensures i < |s| ==> sep(s[i])
  {
    if s == [] || sep(s[0]) then 0 else 1 + FirstSep(s[1..], sep)
  }

  /** `s` without its leading run of separators. */
  function SkipSeps(s: string, sep: char -> bool): (r: string)
    ensures |r| <= |s| && r == s[|s| - |r|..]
    ensures forall k :: 0 <= k < |s| - |r| ==> sep(s[k])
    ensures r == [] || !sep(r[0])
  {
    if s != [] && sep(s[0]) then SkipSeps(s[1..], sep) else s
  }

  /** `s.split(/[C]+/)` where `sep` is the class C: the pieces between the maximal runs of
      separators, including an empty first (last) piece when `s` starts (ends) with a separator,
      and `[""]` for the empty string. */
  function Split(s: string, sep: char -> bool): (pieces: seq<string>)
    ensures |pieces| > 0
    ensures forall k :: 0 <= k < |pieces| ==> NoSep(pieces[k], sep)
    decreases |s|
  {
    var i := FirstSep(s, sep);
    if i == |s| then [s]
    else
      var rest := SkipSeps(s[i..], sep);
      assert |rest| < |s[i..]|;
      [s[..i]] + Split(rest, sep)
  }

  /** A string without separators is its own single piece. */
  lemma SplitNoSep(s: string, sep: char -> bool)
    requires NoSep(s, sep)
    ensures Split(s, sep) == [s]
  {
    assert FirstSep(s, sep) == |s|;
  }

  lemma {:induction false} FirstSepConcat(a: string, t: string, sep: char -> bool)
    ensures FirstSep(a + t, sep) == if FirstSep(a, sep) < |a| then FirstSep(a, sep) else |a| + FirstSep(t, sep)
  {
    if a != [] {
      assert (a + t)[0] == a[0];
      if !sep(a[0]) {
        assert (a + t)[1..] == a[1..] + t;
        FirstSepConcat(a[1..], t, sep);
      }
    } else {
      assert a + t == t;
    }
  }

  lemma {:induction false} SkipSepsAppend(x: string, y: string, sep: char -> bool)
    requires SkipSeps(x, sep) != []
    ensures SkipSeps(x + y, sep) == SkipSeps(x, sep) + y
    decreases |x|
  {
    assert (x + y)[0] == x[0];
    if sep(x[0]) {
      assert (x + y)[1..] == x[1..] + y;
      SkipSepsAppend(x[1..], y, sep);
    }
  }

  lemma {:induction false} SkipSepsAllSep(x: string, y: string, sep: char -> bool)
    requires SkipSeps(x, sep) == []
    ensures SkipSeps(x + y, sep) == SkipSeps(y, sep)
    decreases |x|
  {
    if x != [] {
      assert sep(x[0]);
      assert (x + y)[0] == x[0];
      assert (x + y)[1..] == x[1..] + y;
      SkipSepsAllSep(x[1..], y, sep);
    } else {
      assert x + y == y;
    }
  }

  /** A run of separators followed by a string that does not start with one: the first
      separator is at the front and skipping the run leaves that string. */
  lemma RunThen(run: string, b: string, sep: char -> bool)
    requires |run| > 0 && forall k :: 0 <= k < |run| ==> sep(run[k])
    requires b == [] || !sep(b[0])
    ensures FirstSep(run + b, sep) == 0 && SkipSeps(run + b, sep) == b
  {
    assert (run + b)[0] == run[0];
    assert SkipSeps(run, sep) == [];
    SkipSepsAllSep(run, b, sep);
  }

  /** The case of `SplitCut` where `a` holds no separator. */
  lemma SplitCutFirst(a: string, run: string, b: string, sep: char -> bool)
    requires |run| > 0 && forall k :: 0 <= k < |run| ==> sep(run[k])
    requires FirstSep(a, sep) == |a|
    requires b == [] || !sep(b[0])
    ensures Split(a + run + b, sep) == [a] + Split(b, sep)
  {
    var s := a + run + b;
    RunThen(run, b, sep);
    FirstSepConcat(a, run + b, sep);
    assert s == a + (run + b);
    assert s[..|a|] == a && s[|a|..] == run + b;
  }

  /** The leading piece of a string with a separator, and the rest after the run. */
  lemma SplitFront(s: string, sep: char -> bool)
    requires FirstSep(s, sep) < |s|
    ensures var i := FirstSep(s, sep);
      Split(s, sep) == [s[..i]] + Split(SkipSeps(s[i..], sep), sep)
  {
  }

  /** One step of `SplitCut` for an `a` that holds a separator, given the cut law for what follows
      the first run of `a`. */
  lemma SplitCutStep(a: string, run: string, b: string, sep: char -> bool)
    requires |run| > 0 && forall k :: 0 <= k < |run| ==> sep(run[k])
    requires FirstSep(a, sep) < |a|
    requires SkipSeps(a[FirstSep(a, sep)..], sep) != []
    requires var restA := SkipSeps(a[FirstSep(a, sep)..], sep);
      Split(restA + run + b, sep) == Split(restA, sep) + Split(b, sep)
    ensures Split(a + run + b, sep) == Split(a, sep) + Split(b, sep)
  {
    var s := a + run + b;
    var i := FirstSep(a, sep);
    var tail := a[i..];
    var restA := SkipSeps(tail, sep);
    var rb := run + b;
    var rest := restA + rb;
    Associative(a, run, b);
    SliceConcat(a, rb, i);
    FirstSepConcat(a, rb, sep);
    assert SkipSeps(s[i..], sep) == rest by {
      SkipSepsAppend(tail, rb, sep);
    }
    assert Split(s, sep) == [a[..i]] + Split(rest, sep) by {
      SplitFront(s, sep);
    }
    assert Split(a, sep) == [a[..i]] + Split(restA, sep) by {
      SplitFront(a, sep);
    }
    Associative(restA, run, b);
    Associative([a[..i]], Split(restA, sep), Split(b, sep));
  }

  /** Where the cuts fall: a maximal run of separators between `a` and `b` splits exactly there,
      so the pieces are those of `a` followed by those of `b`. */
  lemma {:induction false} SplitCut(a: string, run: string, b: string, sep: char -> bool)
    requires |run| > 0 && forall k :: 0 <= k < |run| ==> sep(run[k])
    requires a == [] || !sep(a[|a| - 1])
    requires b == [] || !sep(b[0])
    ensures Split(a + run + b, sep) == Split(a, sep) + Split(b, sep)
    decreases |a|
  {
    var i := FirstSep(a, sep);
    if i == |a| {
      SplitCutFirst(a, run, b, sep);
      SplitNoSep(a, sep);
    } else {
      var tail := a[i..];
      var restA := SkipSeps(tail, sep);
      assert restA != [] && restA[|restA| - 1] == a[|a| - 1];
      SplitCut(restA, run, b, sep);
      SplitCutStep(a, run, b, sep);
    }
  }

  lemma Associative<T>(x: seq<T>, y: seq<T>, z: seq<T>)
    ensures x + (y + z) == x + y + z
  {
  }

  lemma SliceConcat<T>(x: seq<T>, y: seq<T>, i: nat)
    requires i <= |x|
    ensures (x + y)[..i] == x[..i] && (x + y)[i..] == x[i..] + y
  {
  }

  /** Concatenation of all pieces. */
  function Concat(pieces: seq<string>): string {
    if pieces == [] then [] else pieces[0] + Concat(pieces[1..])
  }

  /** `s` with every separator removed: the reference the pieces of a split are measured against. */
  function Strip(s: string, sep: char -> bool): string {
    if s == [] then [] else (if sep(s[0]) then [] else [s[0]]) + Strip(s[1..], sep)
  }

  lemma {:induction false} StripAppend(a: string, b: string, sep: char -> bool)
    ensures Strip(a + b, sep) == Strip(a, sep) + Strip(b, sep)
  {
    if a != [] {
      var head := if sep(a[0]) then [] else [a[0]];
      assert (a + b)[0] == a[0];
      assert (a + b)[1..] == a[1..] + b;
      StripAppend(a[1..], b, sep);
      calc {
        Strip(a + b, sep);
        head + Strip(a[1..] + b, sep);
        head + (Strip(a[1..], sep) + Strip(b, sep));
        (head + Strip(a[1..], sep)) + Strip(b, sep);
      }
    } else {
      assert a + b == b;
    }
  }

  lemma {:induction false} StripNoSep(s: string, sep: char -> bool)
    requires NoSep(s, sep)
    ensures Strip(s, sep) == s
  {
    if s != [] { StripNoSep(s[1..], sep); }
  }

  lemma {:induction false} StripAllSep(s: string, sep: char -> bool)
    requires forall k :: 0 <= k < |s| ==> sep(s[k])
    ensures Strip(s, sep) == []
  {
    if s != [] { StripAllSep(s[1..], sep); }
  }

  /** Strip of a string that is a separator-free prefix, a run of separators and a rest. */
  lemma {:induction false} StripThreeParts(s: string, i: nat, d: nat, sep: char -> bool)
    requires i + d <= |s|
    requires NoSep(s[..i], sep)
    requires forall k :: i <= k < i + d ==> sep(s[k])
    ensures Strip(s, sep) == s[..i] + Strip(s[i + d..], sep)
  {
    var run := s[i..i + d];
    assert s == s[..i] + (run + s[i + d..]);
    assert forall k :: 0 <= k < |run| ==> run[k] == s[i + k];
    StripAppend(s[..i], run + s[i + d..], sep);
    StripAppend(run, s[i + d..], sep);
    StripNoSep(s[..i], sep);
    StripAllSep(run, sep);
  }

  /** The split loses exactly the separators: the pieces, concatenated in order, are the
      non-separator characters of `s` in their original order. */
  lemma {:induction false} SplitConcat(s: string, sep: char -> bool)
    ensures Concat(Split(s, sep)) == Strip(s, sep)
    decreases |s|
  {
    var i := FirstSep(s, sep);
    if i == |s| {
      assert s[..i] == s;
      StripNoSep(s, sep);
    } else {
      var rest := SkipSeps(s[i..], sep);
      var d := |s| - i - |rest|;
      assert rest == s[i + d..];
      StripThreeParts(s, i, d, sep);
      SplitConcat(rest, sep);
      var pieces := [s[..i]] + Split(rest, sep);
      assert Split(s, sep) == pieces;
      assert pieces[0] == s[..i] && pieces[1..] == Split(rest, sep);
    }
  }

  /** Number of maximal runs of separators in `s`; `inRun` tells whether the character just
      before `s` was a separator. */
  function RunStarts(s: string, sep: char -> bool, inRun: bool): nat {
    if s == [] then 0 else (if sep(s[0]) && !inRun then 1 else 0) + RunStarts(s[1..], sep, sep(s[0]))
  }

  lemma {:induction false} RunStartsSkipWord(s: string, sep: char -> bool, n: nat, inRun: bool)
    requires n <= |s| && NoSep(s[..n], sep) && (n > 0 || !inRun)
    ensures RunStarts(s, sep, inRun) == RunStarts(s[n..], sep, false)
  {
    if n > 0 {
      assert !sep(s[..n][0]);
      assert s[1..][..n - 1] == s[..n][1..];
      RunStartsSkipWord(s[1..], sep, n - 1, false);
      assert s[1..][n - 1..] == s[n..];
    }
  }

  lemma {:induction false} RunStartsSkipRun(s: string, sep: char -> bool, n: nat)
    requires n <= |s| && forall k :: 0 <= k < n ==> sep(s[k])
    ensures RunStarts(s, sep, true) == RunStarts(s[n..], sep, true)
  {
    if n > 0 {
      RunStartsSkipRun(s[1..], sep, n - 1);
      assert s[1..][n - 1..] == s[n..];
    }
  }

  /** The number of pieces is one more than the number of separator runs. */
  lemma {:induction false} SplitCount(s: string, sep: char -> bool)
    ensures |Split(s, sep)| == RunStarts(s, sep, false) + 1
    decreases |s|
  {
    var i := FirstSep(s, sep);
    assert s[..i] == s[..i];
    RunStartsSkipWord(s, sep, i, false);
    if i == |s| {
      assert s[i..] == [];
    } else {
      var tail := s[i..];
      var rest := SkipSeps(tail, sep);
      var d := |tail| - |rest|;
      assert RunStarts(tail, sep, false) == 1 + RunStarts(tail[1..], sep, true);
      RunStartsSkipRun(tail[1..], sep, d - 1);
      assert tail[1..][d - 1..] == rest;
      if rest != [] {
        assert RunStarts(rest, sep, true) == RunStarts(rest, sep, false);
      }
      SplitCount(rest, sep);
    }
  }

  // ---------------------------------------------------------------------------------------------
  // join

  /** `parts.join(delim)`. */
  function Join(parts: seq<string>, delim: string): (r: string)
    ensures |parts| == 0 ==> r == ""
    ensures |parts| > 0 ==> |parts[0]| <= |r| && r[..|parts[0]|] == parts[0]
    ensures |parts| > 0 ==> |r| == TotalLength(parts) + (|parts| - 1) * |delim|
  {
    if |parts| == 0 then ""
    else if |parts| == 1 then parts[0]
    else parts[0] + delim + Join(parts[1..], delim)
  }

  /** Joining one more part appends the delimiter and that part. */
  lemma {:induction false} JoinAppend(parts: seq<string>, p: string, delim: string)
    requires |parts| > 0
    ensures Join(parts + [p], delim) == Join(parts, delim) + delim + p
  {
    var all := parts + [p];
    assert all[0] == parts[0] && all[1..] == parts[1..] + [p];
    if |parts| > 1 {
      JoinAppend(parts[1..], p, delim);
    } else {
      assert all[1..] == [p];
    }
  }

  function TotalLength(parts: seq<string>): nat {
    if parts == [] then 0 else |parts[0]| + TotalLength(parts[1..])
  }

  // ---------------------------------------------------------------------------------------------
  // decimal numerals

  function DigitChar(d: nat): char
    requires d < 10
  {
    ('0' as int + d) as char
  }

  /** The decimal numeral a template literal produces for a non-negative integer. */
  function NatToString(n: nat): (r: string)
    ensures |r| > 0
    ensures forall k :: 0 <= k < |r| ==> IsDigit(r[k])
    ensures (r[0] == '0') == (n == 0)
  {
    if n < 10 then [DigitChar(n)] else NatToString(n / 10) + [DigitChar(n % 10)]
  }

  /** The value of a string of decimal digits (non-digits count as zero). */
  function ParseNat(s: string): nat {
    if s == [] then 0
    else
      var c := s[|s| - 1];
      10 * ParseNat(s[..|s| - 1]) + (if IsDigit(c) then c as int - '0' as int else 0)
  }

  /** A rendered count reads back as the same count. */
  lemma {:induction false} NatToStringRoundTrip(n: nat)
    ensures ParseNat(NatToString(n)) == n
  {
    if n >= 10 {
      var r := NatToString(n);
      assert r[..|r| - 1] == NatToString(n / 10);
      NatToStringRoundTrip(n / 10);
    }
  }

  /** A numeral in canonical form: decimal digits, no leading zero unless it is `0` itself. */
  predicate IsCanonicalNumeral(s: string) {
    |s| > 0 && (forall k :: 0 <= k < |s| ==> IsDigit(s[k])) && (s[0] != '0' || |s| == 1)
  }

  lemma {:induction false} ParseNatPositive(s: string)
    requires |s| > 0 && (forall k :: 0 <= k < |s| ==> IsDigit(s[k])) && s[0] != '0'
    ensures ParseNat(s) > 0
    decreases |s|
  {
    if |s| > 1 {
      ParseNatPositive(s[..|s| - 1]);
    }
  }

  /** A canonical numeral is the rendering of its own value, so distinct canonical numerals have
      distinct values. */
  lemma {:induction false} CanonicalNumeralRoundTrip(s: string)
    requires IsCanonicalNumeral(s)
    ensures NatToString(ParseNat(s)) == s
    decreases |s|
  {
    var n := |s|;
    var d := s[n - 1] as int - '0' as int;
    if n == 1 {
      assert ParseNat(s) == d;
      assert [DigitChar(d)] == s;
    } else {
      var pre := s[..n - 1];
      assert pre[0] == s[0];
      ParseNatPositive(pre);
      CanonicalNumeralRoundTrip(pre);
      var v := ParseNat(s);
      assert v == 10 * ParseNat(pre) + d;
      assert v / 10 == ParseNat(pre) && v % 10 == d;
      assert s == pre + [s[n - 1]];
    }
  }
}
