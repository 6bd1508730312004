/** The Python `str` operations the compiler relies on, restricted to ASCII:
    `startswith`, `endswith`, `split(sep)`, `split(sep, 1)`, `split()`,
    `join`, `strip()`, `strip(chars)`, `lstrip(chars)`, `splitlines()` (on
    `"\n"` only), `isdigit()` (ASCII digits only), `int()` of a digit string,
    `str()` of a natural number and slicing past the end. */
module PyStr {
  import opened Wrappers

  /** The ASCII characters for which Python's `str.isspace` holds. */
  const Whitespace: string :=
    [' ', '\t', '\n', '\r', 11 as char, 12 as char, 28 as char, 29 as char, 30 as char, 31 as char]

  predicate StartsWith(s: string, prefix: string) {
    |prefix| <= |s| && s[..|prefix|] == prefix
  }

  predicate EndsWith(s: string, suffix: string) {
    |suffix| <= |s| && s[|s| - |suffix|..] == suffix
  }

  /** `pat` occurs in `s` starting at index `i`. */
  predicate OccursAt(s: string, pat: string, i: int) {
    0 <= i && i + |pat| <= |s| && s[i..i + |pat|] == pat
  }

  /** Python's `pat in s`. */
  predicate Contains(s: string, pat: string) {
    exists i :: 0 <= i <= |s| && OccursAt(s, pat, i)
  }

  /** `s.find(pat, from)`: the leftmost occurrence at or after `from`. */
  function FindFrom(s: string, pat: string, from: nat): (r: Option<nat>)
    ensures r.Some? ==> from <= r.value && OccursAt(s, pat, r.value)
    ensures r.Some? ==> forall j :: from <= j < r.value ==> !OccursAt(s, pat, j)
    ensures r.None? ==> forall j :: from <= j ==> !OccursAt(s, pat, j)
    decreases |s| - from
  {
    if from + |pat| > |s| then None
    else if s[from..from + |pat|] == pat then Some(from)
    else FindFrom(s, pat, from + 1)
  }

  /** `sep.join(parts)`. */
  function Join(parts: seq<string>, sep: string): string {
    if |parts| == 0 then ""
    else if |parts| == 1 then parts[0]
    else parts[0] + sep + Join(parts[1..], sep)
  }

  /** `s.split(sep)` for a non-empty separator: cut at every leftmost,
      non-overlapping occurrence. */
  function Split(s: string, sep: string): (r: seq<string>)
    requires |sep| > 0
    ensures |r| >= 1
    decreases |s|
  {
    match FindFrom(s, sep, 0)
    case None => [s]
    case Some(k) => [s[..k]] + Split(s[k + |sep|..], sep)
  }

  /** `s.split(sep, 1)`: at most one cut, at the first occurrence. */
  function SplitOnce(s: string, sep: string): (r: seq<string>)
    requires |sep| > 0
    ensures |r| == 1 || |r| == 2
    ensures |r| == 2 <==> Contains(s, sep)
    ensures |r| == 1 ==> r[0] == s
    ensures |r| == 2 ==> r[0] + sep + r[1] == s && !Contains(r[0], sep)
    ensures r[0] == Split(s, sep)[0]
  {
    match FindFrom(s, sep, 0)
    case None => [s]
    case Some(k) =>
      PrefixBeforeFirstIsFree(s, sep, k);
      assert s == s[..k] + sep + s[k + |sep|..];
      [s[..k], s[k + |sep|..]]
  }

  /** Number of leftmost, non-overlapping occurrences of `sep` in `s`,
      counted by scanning one position at a time. */
  function Count(s: string, sep: string): nat
    requires |sep| > 0
    decreases |s|
  {
    if |s| < |sep| then 0
    else if s[..|sep|] == sep then 1 + Count(s[|sep|..], sep)
    else Count(s[1..], sep)
  }

  /** `s[k:]`: slicing past the end gives the empty string. */
  function Drop(s: string, k: nat): (r: string)
    ensures k <= |s| ==> s == s[..k] + r
    ensures |s| <= k ==> r == ""
  {
    if k <= |s| then s[k..] else ""
  }

  // ---------------------------------------------------------------------
  // Stripping. Python treats the `chars` argument as a set of characters.

  /** `s.lstrip(chars)`. */
  function LStripChars(s: string, chars: string): (r: string)
    ensures |r| <= |s| && r == s[|s| - |r|..]
    ensures forall i :: 0 <= i < |s| - |r| ==> s[i] in chars
    ensures r != [] ==> r[0] !in chars
    decreases |s|
  {
    if s != [] && s[0] in chars then
      var r := LStripChars(s[1..], chars);
      LStripShift(s, chars, r);
      r
    else s
  }

  /** Stripping one more leading character of `chars`. */
  lemma {:induction false} LStripShift(s: string, chars: string, r: string)
    requires s != [] && s[0] in chars
    requires |r| <= |s[1..]| && r == s[1..][|s[1..]| - |r|..]
    requires forall i :: 0 <= i < |s[1..]| - |r| ==> s[1..][i] in chars
    ensures |r| <= |s| && r == s[|s| - |r|..]
    ensures forall i :: 0 <= i < |s| - |r| ==> s[i] in chars
  {
    assert s[1..][|s[1..]| - |r|..] == s[|s| - |r|..];
    assert forall i :: 1 <= i < |s| - |r| ==> s[i] == s[1..][i - 1];
  }

  /** `s.rstrip(chars)`. */
  function RStripChars(s: string, chars: string): (r: string)
    ensures |r| <= |s| && r == s[..|r|]
    ensures forall i :: |r| <= i < |s| ==> s[i] in chars
    ensures r != [] ==> r[|r| - 1] !in chars
    decreases |s|
  {
    if s != [] && s[|s| - 1] in chars then
      var r := RStripChars(s[..|s| - 1], chars);
      RStripShift(s, chars, s[..|s| - 1], r);
      r
    else s
  }

  /** Stripping one more trailing character of `chars`. */
  lemma {:induction false} RStripShift(s: string, chars: string, t: string, r: string)
    requires s != [] && s[|s| - 1] in chars && t == s[..|s| - 1]
    requires |r| <= |t| && r == t[..|r|]
    requires forall i :: |r| <= i < |t| ==> t[i] in chars
    ensures |r| <= |s| && r == s[..|r|]
    ensures forall i :: |r| <= i < |s| ==> s[i] in chars
  {
    assert t[..|r|] == s[..|r|];
    assert forall i :: |r| <= i < |s| - 1 ==> s[i] == t[i];
  }

  /** `s.strip(chars)`. */
  function StripChars(s: string, chars: string): (r: string)
    ensures |r| <= |s|
    ensures r != [] ==> r[0] !in chars && r[|r| - 1] !in chars
    ensures (forall i :: 0 <= i < |s| ==> s[i] in chars) <==> r == []
  {
    var l := LStripChars(s, chars);
    var r := RStripChars(l, chars);
    assert l != [] ==> l[0] !in chars;
    assert r != [] ==> r[0] == l[0];
    r
  }

  /** `s.strip()`. */
  function Strip(s: string): string {
    StripChars(s, Whitespace)
  }

  /** `s.splitlines()` where `"\n"` is the only line break: no empty line
      is produced for a final terminator. */
  function SplitLines(s: string): (r: seq<string>)
    ensures s == "" <==> r == []
    ensures forall i :: 0 <= i < |r| ==> !Contains(r[i], "\n")
    ensures EndsWith(s, "\n") ==> Join(r, "\n") + "\n" == s
    ensures !EndsWith(s, "\n") ==> Join(r, "\n") == s
  {
    var p := Split(s, "\n");
    SplitPiecesFree(s, "\n");
    SplitJoin(s, "\n");
    if p[|p| - 1] == "" then
      SplitLinesDropsFinalEmpty(s);
      p[..|p| - 1]
    else
      SplitLinesKeepsLast(s);
      p
  }

  /** When the last piece of a split at newlines is empty, `s` is empty or
      ends with the newline before it. */
  lemma SplitLinesDropsFinalEmpty(s: string)
    requires var p := Split(s, "\n"); p[|p| - 1] == ""
    ensures var p := Split(s, "\n");
      && (|p| == 1 ==> s == "")
      && (|p| > 1 ==> EndsWith(s, "\n") && Join(p[..|p| - 1], "\n") + "\n" == s)
  {
    var p := Split(s, "\n");
    SplitJoin(s, "\n");
    if |p| > 1 {
      var init := p[..|p| - 1];
      JoinSnoc(init, "", "\n");
      assert init + [""] == p;
      assert Join(init, "\n") + "\n" + "" == s;
      assert Join(init, "\n") + "\n" == s;
    } else {
      assert p == [""];
    }
  }

  /** When the last piece of a split at newlines is not empty, `s` does not
      end with a newline. */
  lemma SplitLinesKeepsLast(s: string)
    requires var p := Split(s, "\n"); p[|p| - 1] != ""
    ensures s != "" && !EndsWith(s, "\n")
  {
    var p := Split(s, "\n");
    SplitJoin(s, "\n");
    SplitPiecesFree(s, "\n");
    JoinEndsWithLast(p, "\n");
  }

  /** A join whose last part is non-empty and free of a one-character
      separator does not end with that separator. */
  lemma {:induction false} JoinEndsWithLast(parts: seq<string>, sep: string)
    requires |parts| >= 1 && |sep| == 1 && AllFree(parts, sep)
    requires parts[|parts| - 1] != ""
    ensures Join(parts, sep) != "" && !EndsWith(Join(parts, sep), sep)
  {
    var last := parts[|parts| - 1];
    var j := Join(parts, sep);
    assert !Contains(last, sep);
    LastCharOfJoin(parts, sep);
    var c := last[|last| - 1];
    assert !OccursAt(last, sep, |last| - 1);
    assert last[|last| - 1..|last|] == [c];
    assert j[|j| - 1..] == [c];
  }

  /** A join whose last part is non-empty ends with that part's last character. */
  lemma LastCharOfJoin(parts: seq<string>, sep: string)
    requires |parts| >= 1 && parts[|parts| - 1] != ""
    ensures var j := Join(parts, sep); var last := parts[|parts| - 1];
      j != "" && j[|j| - 1] == last[|last| - 1]
  {
    var last := parts[|parts| - 1];
    if |parts| > 1 {
      JoinSnoc(parts[..|parts| - 1], last, sep);
      assert parts[..|parts| - 1] + [last] == parts;
    }
  }

  /** The first word of `s.split()`, or `None` where Python's `[0]` would
      raise `IndexError` because `s` is all whitespace. */
  function FirstWord(s: string): (r: Option<string>)
    ensures r.None? <==> forall i :: 0 <= i < |s| ==> s[i] in Whitespace
    ensures r.Some? ==> r.value != [] && forall i :: 0 <= i < |r.value| ==> r.value[i] !in Whitespace
  {
    var t := LStripChars(s, Whitespace);
    if t == [] then None
    else
      var n := WordLength(t, 0);
      Some(t[..n])
  }

  /** Index of the first whitespace character of `t` at or after `i`. */
  function WordLength(t: string, i: nat): (n: nat)
    requires i <= |t|
    ensures i <= n <= |t|
    ensures forall j :: i <= j < n ==> t[j] !in Whitespace
    ensures n < |t| ==> t[n] in Whitespace
    decreases |t| - i
  {
    if i == |t| || t[i] in Whitespace then i else WordLength(t, i + 1)
  }

  // ---------------------------------------------------------------------
  // Digits and numbers.

  predicate IsDigit(c: char) {
    '0' <= c <= '9'
  }

  /** `s.isdigit()` for ASCII: non-empty and made of digits only. */
  predicate IsDigits(s: string) {
    |s| > 0 && forall i :: 0 <= i < |s| ==> IsDigit(s[i])
  }

  /** `int(s)` for a string of decimal digits (leading zeros allowed). */
  function DigitsValue(s: string): nat
    requires forall i :: 0 <= i < |s| ==> IsDigit(s[i])
  {
    if s == [] then 0
    else
      assert IsDigit(s[|s| - 1]);
      10 * DigitsValue(s[..|s| - 1]) + (s[|s| - 1] as int - '0' as int)
  }

  /** `str(n)`: the canonical decimal spelling of `n`. */
  function NatToString(n: nat): (r: string)
    ensures IsDigits(r) && DigitsValue(r) == n
    ensures r[0] == '0' ==> n == 0
  {
    if n < 10 then [('0' as int + n) as char]
    else
      var d := [('0' as int + n % 10) as char];
      var r := NatToString(n / 10) + d;
      assert r[..|r| - 1] == NatToString(n / 10);
      r
  }

  // ---------------------------------------------------------------------
  // Lemmas about splitting and joining.

  /** No occurrence of `sep` lies wholly before the first one. */
  lemma PrefixBeforeFirstIsFree(s: string, sep: string, k: nat)
    requires |sep| > 0 && FindFrom(s, sep, 0) == Some(k)
    ensures !Contains(s[..k], sep)
  {
    forall j | 0 <= j <= k ensures !OccursAt(s[..k], sep, j) {
      if j + |sep| <= k {
        assert s[..k][j..j + |sep|] == s[j..j + |sep|];
        assert !OccursAt(s, sep, j);
      }
    }
  }

  /** Joining the pieces of a split with the separator restores the string. */
  lemma {:induction false} SplitJoin(s: string, sep: string)
    requires |sep| > 0
    ensures Join(Split(s, sep), sep) == s
    decreases |s|
  {
    match FindFrom(s, sep, 0)
    case None =>
    case Some(k) =>
      var rest := s[k + |sep|..];
      var tail := Split(rest, sep);
      SplitJoin(rest, sep);
      var p := [s[..k]] + tail;
      assert Split(s, sep) == p;
      assert p[0] == s[..k] && p[1..] == tail;
      assert Join(p, sep) == s[..k] + sep + Join(tail, sep);
      assert s[k..k + |sep|] == sep;
      assert s == s[..k] + s[k..k + |sep|] + rest;
  }

  /** No piece of a split contains the separator. */
  lemma {:induction false} SplitPiecesFree(s: string, sep: string)
    requires |sep| > 0
    ensures AllFree(Split(s, sep), sep)
    decreases |s|
  {
    match FindFrom(s, sep, 0)
    case None =>
      assert !Contains(s, sep);
      assert Split(s, sep) == [s];
    case Some(k) =>
      var rest := s[k + |sep|..];
      SplitPiecesFree(rest, sep);
      PrefixBeforeFirstIsFree(s, sep, k);
      assert Split(s, sep) == [s[..k]] + Split(rest, sep);
      AllFreeCons(s[..k], Split(rest, sep), sep);
  }

  /** No part contains `sep`. */
  predicate AllFree(parts: seq<string>, sep: string) {
    forall i :: 0 <= i < |parts| ==> !Contains(parts[i], sep)
  }

  lemma AllFreeCons(x: string, parts: seq<string>, sep: string)
    requires !Contains(x, sep) && AllFree(parts, sep)
    ensures AllFree([x] + parts, sep)
  {
    var p := [x] + parts;
    forall i | 0 <= i < |p| ensures !Contains(p[i], sep) {
      if i > 0 { assert p[i] == parts[i - 1]; }
    }
  }

  /** Skipping a stretch that holds no occurrence does not change the count. */
  lemma {:induction false} CountSkip(s: string, sep: string, j: nat)
    requires |sep| > 0 && j <= |s|
    requires forall i :: 0 <= i < j ==> !OccursAt(s, sep, i)
    ensures Count(s, sep) == Count(s[j..], sep)
    decreases j
  {
    if j > 0 {
      if |s| < |sep| {
        assert |s[j..]| < |sep|;
      } else {
        assert !OccursAt(s, sep, 0);
        assert Count(s, sep) == Count(s[1..], sep);
        forall i | 0 <= i < j - 1 ensures !OccursAt(s[1..], sep, i) {
          OccursInTail(s, sep, i);
        }
        CountSkip(s[1..], sep, j - 1);
        assert s[1..][j - 1..] == s[j..];
      }
    }
  }

  /** An occurrence in `s[1..]` is one in `s`, one place further on. */
  lemma OccursInTail(s: string, sep: string, i: nat)
    requires s != []
    ensures OccursAt(s[1..], sep, i) ==> OccursAt(s, sep, i + 1)
  {
    if OccursAt(s[1..], sep, i) {
      assert s[1..][i..i + |sep|] == s[i + 1..i + 1 + |sep|];
    }
  }

  /** `s.split(sep)` has one piece more than there are occurrences. */
  lemma {:induction false} SplitCount(s: string, sep: string)
    requires |sep| > 0
    ensures |Split(s, sep)| == Count(s, sep) + 1
    decreases |s|
  {
    match FindFrom(s, sep, 0)
    case None =>
      CountSkip(s, sep, |s|);
      assert |s[|s|..]| == 0;
    case Some(k) =>
      CountSkip(s, sep, k);
      assert s[k..][..|sep|] == sep;
      assert s[k..][|sep|..] == s[k + |sep|..];
      SplitCount(s[k + |sep|..], sep);
  }

  /** A single-character pattern occurs exactly when the character does. */
  lemma ContainsChar(s: string, c: char)
    ensures Contains(s, [c]) <==> c in s
  {
    if c in s {
      var i :| 0 <= i < |s| && s[i] == c;
      assert s[i..i + 1] == [c];
      assert OccursAt(s, [c], i);
    }
    if Contains(s, [c]) {
      var i :| 0 <= i <= |s| && OccursAt(s, [c], i);
      assert s[i] == s[i..i + 1][0];
    }
  }

  /** Joining two or more parts puts the separator into the result. */
  lemma JoinOfSeveralContainsSep(parts: seq<string>, sep: string)
    ensures |parts| >= 2 ==> Contains(Join(parts, sep), sep)
  {
    if |parts| >= 2 {
      var j := Join(parts, sep);
      assert j == parts[0] + sep + Join(parts[1..], sep);
      assert j[|parts[0]|..|parts[0]| + |sep|] == sep;
      assert OccursAt(j, sep, |parts[0]|);
    }
  }

  /** Joining with one more part appends the separator and that part. */
  lemma {:induction false} JoinSnoc(parts: seq<string>, x: string, sep: string)
    requires |parts| >= 1
    ensures Join(parts + [x], sep) == Join(parts, sep) + sep + x
    decreases |parts|
  {
    if |parts| > 1 {
      assert (parts + [x])[1..] == parts[1..] + [x];
      JoinSnoc(parts[1..], x, sep);
    }
  }

  /** `[f(x) for x in xs]`. */
  function MapStrings(f: string -> string, xs: seq<string>): (r: seq<string>)
    ensures |r| == |xs| && forall i :: 0 <= i < |xs| ==> r[i] == f(xs[i])
  {
    seq(|xs|, i requires 0 <= i < |xs| => f(xs[i]))
  }

  lemma {:induction false} MapStringsOfOne(f: string -> string, a: string)
    ensures MapStrings(f, [a]) == [f(a)]
  {
  }

  lemma {:induction false} MapStringsOfTwo(f: string -> string, a: string, b: string)
    ensures MapStrings(f, [a, b]) == [f(a), f(b)]
  {
  }

  /** Joining two parts puts the separator between them. */
  lemma {:induction false} JoinTwo(a: string, b: string, sep: string)
    ensures Join([a, b], sep) == a + sep + b
  {
    assert [a, b][1..] == [b];
  }

  /** The last two parts of a join, unfolded. */
  lemma {:induction false} JoinTwoMore(parts: seq<string>, d: string)
    requires |parts| >= 3
    ensures var n := |parts|;
      Join(parts, d) == Join(parts[..n - 2], d) + (d + parts[n - 2] + d) + parts[n - 1]
  {
    var n := |parts|;
    var pre := parts[..n - 2];
    var mid := parts[..n - 1];
    var x := parts[n - 2];
    var y := parts[n - 1];
    assert pre + [x] == mid;
    assert mid + [y] == parts;
    JoinSnoc(pre, x, d);
    JoinSnoc(mid, y, d);
    var j := Join(pre, d);
    calc {
      Join(parts, d);
      Join(mid, d) + d + y;
      j + d + x + d + y;
      j + (d + x + d) + y;
    }
  }

  /** Splitting at a separator whose first character `s` lacks gives `s`
      whole. */
  lemma {:induction false} SplitAbsent(s: string, sep: string)
    requires |sep| > 0 && sep[0] !in s
    ensures Split(s, sep) == [s] && !Contains(s, sep)
  {
    forall j | 0 <= j ensures !OccursAt(s, sep, j) {
      if j + |sep| <= |s| {
        assert s[j..j + |sep|][0] == s[j];
      }
    }
  }

  /** A string without the character `c` has no occurrence of `[c]`. */
  lemma {:induction false} FindCharAbsent(s: string, c: char, from: nat)
    requires c !in s
    ensures FindFrom(s, [c], from) == None
  {
    forall j | from <= j ensures !OccursAt(s, [c], j) {
      if j + 1 <= |s| {
        assert s[j..j + 1] == [s[j]];
      }
    }
  }

  /** The first occurrence of `[c]` in `p + [c] + rest`, where `p` does not
      hold `c`, is right after `p`. */
  lemma {:induction false} FindCharAfterPrefix(p: string, c: char, rest: string)
    requires c !in p
    ensures FindFrom(p + [c] + rest, [c], 0) == Some(|p|)
  {
    var s := p + [c] + rest;
    assert s[|p|..|p| + 1] == [c];
    assert OccursAt(s, [c], |p|);
    forall j | 0 <= j < |p| ensures !OccursAt(s, [c], j) {
      assert s[j..j + 1] == [p[j]];
    }
  }

  /** Splitting at a character the parts do not hold undoes joining them
      with it. */
  lemma {:induction false} SplitOfJoin(parts: seq<string>, c: char)
    requires |parts| >= 1 && forall i :: 0 <= i < |parts| ==> c !in parts[i]
    ensures Split(Join(parts, [c]), [c]) == parts
    decreases |parts|
  {
    if |parts| == 1 {
      FindCharAbsent(parts[0], c, 0);
    } else {
      var p := parts[0];
      var rest := Join(parts[1..], [c]);
      assert Join(parts, [c]) == p + [c] + rest;
      FindCharAfterPrefix(p, c, rest);
      var s := p + [c] + rest;
      assert s[..|p|] == p && s[|p| + 1..] == rest;
      SplitOfJoin(parts[1..], c);
      assert [p] + parts[1..] == parts;
    }
  }

  /** `splitlines` undoes joining lines with `"\n"` when no line holds a
      newline and the last line is not empty. */
  lemma {:induction false} SplitLinesOfJoin(lines: seq<string>)
    requires |lines| >= 1 && lines[|lines| - 1] != ""
    requires forall i :: 0 <= i < |lines| ==> '\n' !in lines[i]
    ensures SplitLines(Join(lines, "\n")) == lines
  {
    SplitOfJoin(lines, '\n');
    assert "\n" == ['\n'];
  }

  /** A non-empty string without a newline is a single line. */
  lemma {:induction false} SplitLinesSingle(s: string)
    requires s != "" && '\n' !in s
    ensures SplitLines(s) == [s]
  {
    SplitLinesOfJoin([s]);
  }

  // ---------------------------------------------------------------------
  // Lemmas about stripping and words.

  /** A string whose two ends are outside `chars` is its own strip. */
  lemma StripCharsOfStripped(s: string, chars: string)
    requires s != [] ==> s[0] !in chars && s[|s| - 1] !in chars
    ensures StripChars(s, chars) == s
  {
  }

  /** Stripping twice is stripping once. */
  lemma StripCharsIdempotent(s: string, chars: string)
    ensures StripChars(StripChars(s, chars), chars) == StripChars(s, chars)
  {
    StripCharsOfStripped(StripChars(s, chars), chars);
  }

  /** The first word of a string that starts with `w`, where `w` holds no
      whitespace and is followed by whitespace or the end, is `w`. */
  lemma FirstWordOfPrefix(w: string, rest: string)
    requires w != [] && forall i :: 0 <= i < |w| ==> w[i] !in Whitespace
    requires rest != [] ==> rest[0] in Whitespace
    ensures FirstWord(w + rest) == Some(w)
  {
    var s := w + rest;
    assert s[0] == w[0];
    assert LStripChars(s, Whitespace) == s;
    var n := WordLength(s, 0);
    assert forall j :: 0 <= j < |w| ==> s[j] == w[j];
    assert |w| < |s| ==> s[|w|] == rest[0];
    assert n == |w|;
    assert s[..|w|] == w;
  }

  /** Left-stripping skips a prefix made of stripped characters. */
  lemma {:induction false} LStripPrefix(p: string, s: string, chars: string)
    requires forall i :: 0 <= i < |p| ==> p[i] in chars
    ensures LStripChars(p + s, chars) == LStripChars(s, chars)
    decreases |p|
  {
    if p != [] {
      assert (p + s)[1..] == p[1..] + s;
      LStripPrefix(p[1..], s, chars);
    } else {
      assert p + s == s;
    }
  }

  /** Two non-empty lines without newlines joined by one newline hold no
      blank line. */
  lemma {:induction false} NoBlankLineBetween(a: string, b: string)
    requires a != "" && b != "" && '\n' !in a && '\n' !in b
    ensures !Contains(a + "\n" + b, "\n\n")
  {
    var s := a + "\n" + b;
    forall j | 0 <= j <= |s| ensures !OccursAt(s, "\n\n", j) {
      if j + 2 <= |s| {
        assert s[j..j + 2][0] == s[j] && s[j..j + 2][1] == s[j + 1];
        if j < |a| {
          assert s[j] == a[j];
        } else if j == |a| {
          assert s[j + 1] == b[0];
        } else {
          assert s[j] == b[j - |a| - 1];
        }
      }
    }
  }

  /** Leading whitespace does not change the strip. */
  lemma {:induction false} StripLeadingWhitespace(c: char, s: string)
    requires c in Whitespace
    ensures Strip([c] + s) == Strip(s)
  {
    assert ([c] + s)[1..] == s;
    assert LStripChars([c] + s, Whitespace) == LStripChars(s, Whitespace);
  }

  /** A string does not start with a prefix whose first character differs
      from its own. */
  lemma {:induction false} NotStartsWith(s: string, prefix: string)
    requires s != "" && prefix != "" && s[0] != prefix[0]
    ensures !StartsWith(s, prefix)
  {
    if |prefix| <= |s| {
      assert s[..|prefix|][0] == s[0];
    }
  }
}
