/** The two fixed regular expressions of the inline tokenizer, written as
    left-to-right scanners (`re.findall`), and the title search.

      images: `!\[(.*?)\]\((.*?)\)`
      links:  `(?<!\!)\[(.*?)\]\((.*?)\)`

    Both groups are non-greedy and `.` never matches a newline, so a match
    lies on one line. For a given start, only the first `](` after the `[`
    on that line can work: if no `)` follows it on the line, none follows
    any later `](` either. The caption therefore ends at the first `](` and
    the url at the first `)` after it. */
module MarkdownUtilities {
  import opened Wrappers
  import opened PyStr

  /** One match: it begins at `start`; `open` is its `[`, `close` the `]`
      of its `](`, and `end` is one past its `)`. */
  datatype Match = Match(start: nat, open: nat, close: nat, end: nat)

  /** The index of the first newline at or after `i`, or `|s|`. */
  function LineEnd(s: string, i: nat): (e: nat)
    requires i <= |s|
    ensures i <= e <= |s|
    ensures forall j :: i <= j < e ==> s[j] != '\n'
    ensures e < |s| ==> s[e] == '\n'
    decreases |s| - i
  {
    if i == |s| || s[i] == '\n' then i else LineEnd(s, i + 1)
  }

  /** The shape every match has, for images (`image`) or links. */
  predicate Valid(s: string, m: Match, image: bool) {
    && m.start <= m.open < m.close && m.close + 2 < m.end <= |s|
    && (image ==> m.open == m.start + 1 && s[m.start] == '!')
    && (!image ==> m.open == m.start)
    && s[m.open] == '[' && s[m.close] == ']' && s[m.close + 1] == '(' && s[m.end - 1] == ')'
  }

  /** The regex matches `m`: it has the shape of a match, lies on one line
      (`.` never matches a newline) and, for a link, is not preceded by
      `!`. Any such `m` is a match, not only the one with the shortest
      groups. */
  predicate RegexMatch(s: string, m: Match, image: bool) {
    && Valid(s, m, image)
    && (forall x :: m.open <= x < m.end ==> s[x] != '\n')
    && (!image ==> m.start == 0 || s[m.start - 1] != '!')
  }

  /** The first group: alt text or anchor text. */
  function Label(s: string, m: Match): string
    requires m.open < m.close <= |s|
  {
    s[m.open + 1..m.close]
  }

  /** The second group: the url. */
  function Target(s: string, m: Match): string
    requires m.close + 2 < m.end <= |s|
  {
    s[m.close + 2..m.end - 1]
  }

  /** The markdown text of an image (`![caption](url)`) or a link (`[caption](url)`). */
  function Literal(image: bool, caption: string, url: string): string {
    (if image then "!" else "") + "[" + caption + "](" + url + ")"
  }

  /** The matched text is the literal built from the two groups. */
  predicate SpellsLiteral(s: string, m: Match, image: bool)
    requires Valid(s, m, image)
  {
    s[m.start..m.end] == Literal(image, Label(s, m), Target(s, m))
  }

  /** The non-greedy, single-line captures: no newline in either group, the
      caption stops at its first `](` and the url at its first `)`. */
  predicate NonGreedy(s: string, m: Match, image: bool)
    requires Valid(s, m, image)
  {
    && '\n' !in Label(s, m) && '\n' !in Target(s, m)
    && ')' !in Target(s, m) && !Contains(Label(s, m), "](")
  }

  /** The first `)` in `s[u..e]`. */
  function UrlEnd(s: string, u: nat, e: nat): (r: Option<nat>)
    requires e <= |s|
    ensures r.Some? ==> u <= r.value < e && s[r.value] == ')'
    ensures r.Some? ==> forall x :: u <= x < r.value ==> s[x] != ')'
    ensures r.None? ==> forall x :: u <= x < e ==> s[x] != ')'
    decreases e - u
  {
    if u >= e then None
    else if s[u] == ')' then Some(u)
    else UrlEnd(s, u + 1, e)
  }

  /** The groups' boundaries for a `[` just before `t`, on a line ending at
      `e`: the first `](` in `s[t..e]` and the first `)` after it, before
      `e`. When no `)` follows the first `](` on the line, none follows a
      later one either, so there is no match. */
  function Brackets(s: string, t: nat, e: nat): (r: Option<(nat, nat)>)
    requires e <= |s|
    ensures r.Some? ==> t <= r.value.0 && r.value.0 + 2 <= r.value.1 < e
    ensures r.Some? ==> s[r.value.0] == ']' && s[r.value.0 + 1] == '(' && s[r.value.1] == ')'
    ensures r.Some? ==> forall x :: t <= x < r.value.0 ==> !(s[x] == ']' && s[x + 1] == '(')
    ensures r.Some? ==> forall x :: r.value.0 + 2 <= x < r.value.1 ==> s[x] != ')'
    decreases e - t
  {
    if t + 1 >= e then None
    else if s[t] == ']' && s[t + 1] == '(' then
      match UrlEnd(s, t + 2, e)
      case None => None
      case Some(k) => Some((t, k))
    else Brackets(s, t + 1, e)
  }

  /** The regex tried at position `i` alone. What a match found here
      satisfies is `MatchAtFacts`. */
  function MatchAt(s: string, i: nat, image: bool): (r: Option<Match>)
    ensures r.Some? ==> r.value.start == i < r.value.end <= |s|
  {
    var open := if image then i + 1 else i;
    if open >= |s| || s[open] != '[' then None
    else if image && s[i] != '!' then None
    else if !image && i > 0 && s[i - 1] == '!' then None
    else
      var e := LineEnd(s, open);
      match Brackets(s, open + 1, e)
      case None => None
      case Some((j, k)) => Some(Match(i, open, j, k + 1))
  }

  /** A match found at `i` starts there, has the shape of a match, spells
      the literal of its groups, has non-greedy single-line groups and, for
      a link, is not preceded by `!`. */
  lemma MatchAtFacts(s: string, i: nat, image: bool)
    requires MatchAt(s, i, image).Some?
    ensures var m := MatchAt(s, i, image).value;
      && Valid(s, m, image) && SpellsLiteral(s, m, image) && NonGreedy(s, m, image)
      && (!image ==> i == 0 || s[i - 1] != '!')
  {
    var open := if image then i + 1 else i;
    var e := LineEnd(s, open);
    var b := Brackets(s, open + 1, e);
    assert b.Some?;
    var j := b.value.0;
    var k := b.value.1;
    var m := Match(i, open, j, k + 1);
    assert MatchAt(s, i, image) == Some(m);
    MatchShape(s, i, open, j, k, image);
    MatchCaptures(s, i, open, j, k, e, image);
  }

  /** `re.findall` from position `i`: try each position in turn and, after a
      match, continue where it ended. */
  function Scan(s: string, i: nat, image: bool): (r: seq<Match>)
    ensures forall k :: 0 <= k < |r| ==> i <= r[k].start
    ensures forall k :: 0 <= k < |r| - 1 ==> r[k].end <= r[k + 1].start
    decreases |s| - i
  {
    if i >= |s| then []
    else
      var here := MatchAt(s, i, image);
      if here.Some? then
        var m := here.value;
        var rest := Scan(s, m.end, image);
        var r := [m] + rest;
        assert r[0] == m;
        assert forall k :: 1 <= k < |r| ==> r[k] == rest[k - 1];
        r
      else
        Scan(s, i + 1, image)
  }

  /** Everything the scanner returns is what the regex matches at its start. */
  lemma {:induction false} ScanMatches(s: string, i: nat, image: bool)
    ensures forall k :: 0 <= k < |Scan(s, i, image)| ==> MatchAt(s, Scan(s, i, image)[k].start, image) == Some(Scan(s, i, image)[k])
    decreases |s| - i
  {
    if i < |s| {
      var here := MatchAt(s, i, image);
      if here.Some? {
        var m := here.value;
        ScanMatches(s, m.end, image);
        var rest := Scan(s, m.end, image);
        var r := [m] + rest;
        assert Scan(s, i, image) == r;
        forall k | 0 <= k < |r| ensures MatchAt(s, r[k].start, image) == Some(r[k]) {
          if k > 0 {
            assert r[k] == rest[k - 1];
          }
        }
      } else {
        ScanMatches(s, i + 1, image);
      }
    }
  }

  /** Everything the scanner returns has the shape of a match. */
  lemma ScanValid(s: string, i: nat, image: bool)
    ensures forall k :: 0 <= k < |Scan(s, i, image)| ==> Valid(s, Scan(s, i, image)[k], image)
  {
    var r := Scan(s, i, image);
    ScanMatches(s, i, image);
    forall k | 0 <= k < |r| ensures Valid(s, r[k], image) {
      assert MatchAt(s, r[k].start, image) == Some(r[k]);
      MatchAtFacts(s, r[k].start, image);
    }
  }

  /** The `(caption, url)` tuples `re.findall` returns for these matches. */
  function Groups(s: string, ms: seq<Match>, image: bool): (r: seq<(string, string)>)
    requires forall k :: 0 <= k < |ms| ==> Valid(s, ms[k], image)
    ensures |r| == |ms|
    ensures forall k :: 0 <= k < |ms| ==> Valid(s, ms[k], image) && r[k] == (Label(s, ms[k]), Target(s, ms[k]))
  {
    seq(|ms|, k requires 0 <= k < |ms| && Valid(s, ms[k], image) => (Label(s, ms[k]), Target(s, ms[k])))
  }

  /** `extract_markdown_images`. */
  function ExtractMarkdownImages(text: string): seq<(string, string)> {
    ScanValid(text, 0, true);
    Groups(text, Scan(text, 0, true), true)
  }

  /** `extract_markdown_links`. */
  function ExtractMarkdownLinks(text: string): seq<(string, string)> {
    ScanValid(text, 0, false);
    Groups(text, Scan(text, 0, false), false)
  }

  /** `extract_title`: the stripped rest of the first line that starts with `"# "`. */
  function ExtractTitle(markdown: string): Result<string> {
    TitleIn(SplitLines(markdown))
  }

  /** The loop of `extract_title` over the lines, with its early return. */
  function TitleIn(lines: seq<string>): (r: Result<string>)
    ensures r.Err? <==> forall i :: 0 <= i < |lines| ==> !StartsWith(lines[i], "# ")
    ensures r.Err? ==> r.error == ValueError("No h1 header found in the markdown file.")
    ensures r.Ok? ==> exists i :: 0 <= i < |lines| && StartsWith(lines[i], "# ")
                                  && (forall j :: 0 <= j < i ==> !StartsWith(lines[j], "# "))
                                  && r.value == Strip(lines[i][2..])
  {
    if lines == [] then Err(ValueError("No h1 header found in the markdown file."))
    else if StartsWith(lines[0], "# ") then Ok(Strip(lines[0][2..]))
    else
      var r := TitleIn(lines[1..]);
      assert forall i :: 1 <= i < |lines| ==> lines[i] == lines[1..][i - 1];
      r
  }

  // ---------------------------------------------------------------------
  // Lemmas.

  /** The shape and the spelling of a match whose `](` is at `j` and whose
      `)` is at `k`. */
  lemma MatchShape(s: string, i: nat, open: nat, j: nat, k: nat, image: bool)
    requires open == (if image then i + 1 else i) && open < j && j + 2 <= k < |s|
    requires s[open] == '[' && (image ==> s[i] == '!')
    requires s[j] == ']' && s[j + 1] == '(' && s[k] == ')'
    ensures Valid(s, Match(i, open, j, k + 1), image)
    ensures SpellsLiteral(s, Match(i, open, j, k + 1), image)
  {
    var m := Match(i, open, j, k + 1);
    assert Valid(s, m, image);
    var caption := s[open + 1..j];
    var url := s[j + 2..k];
    assert Label(s, m) == caption && Target(s, m) == url;
    LiteralAt(s, i, open, j, k, image);
  }

  /** Character by character, the text from `i` to the `)` at `k` is the
      literal of the two groups. */
  lemma LiteralAt(s: string, i: nat, open: nat, j: nat, k: nat, image: bool)
    requires open == (if image then i + 1 else i) && open < j && j + 2 <= k < |s|
    requires s[open] == '[' && (image ==> s[i] == '!')
    requires s[j] == ']' && s[j + 1] == '(' && s[k] == ')'
    ensures s[i..k + 1] == Literal(image, s[open + 1..j], s[j + 2..k])
  {
    var t := s[i..k + 1];
    var lit := Literal(image, s[open + 1..j], s[j + 2..k]);
    assert |t| == |lit|;
    forall x | 0 <= x < |t| ensures t[x] == lit[x] {
      assert t[x] == s[i + x];
    }
  }

  /** The captures of a match whose `](` is the first after its `[` and
      whose `)` is the first after that, both before the end of the line. */
  lemma MatchCaptures(s: string, i: nat, open: nat, j: nat, k: nat, e: nat, image: bool)
    requires Valid(s, Match(i, open, j, k + 1), image) && k < e <= |s|
    requires forall t :: open <= t < e ==> s[t] != '\n'
    requires forall t :: open + 1 <= t < j ==> !(s[t] == ']' && s[t + 1] == '(')
    requires forall t :: j + 2 <= t < k ==> s[t] != ')'
    ensures NonGreedy(s, Match(i, open, j, k + 1), image)
  {
    var caption := s[open + 1..j];
    var url := s[j + 2..k];
    assert forall t :: 0 <= t < |url| ==> url[t] == s[j + 2 + t];
    assert forall t :: 0 <= t < |caption| ==> caption[t] == s[open + 1 + t];
    forall p | 0 <= p <= |caption| ensures !OccursAt(caption, "](", p) {
      if p + 2 <= |caption| {
        assert caption[p..p + 2] == [caption[p], caption[p + 1]];
      }
    }
  }

  /** The scanner finds nothing exactly when the regex matches at no
      position. */
  lemma {:induction false} ScanEmptyIff(s: string, i: nat, image: bool)
    ensures Scan(s, i, image) == [] <==> forall p :: i <= p < |s| ==> MatchAt(s, p, image).None?
    decreases |s| - i
  {
    if i < |s| {
      ScanEmptyIff(s, i + 1, image);
    }
  }

  /** `extract_markdown_images` returns `[]` exactly when the image pattern
      matches nowhere in the text. */
  lemma NoImagesIff(text: string)
    ensures ExtractMarkdownImages(text) == [] <==> NoMatchIn(text, 0, |text|, true)
  {
    ScanEmptyIff(text, 0, true);
    NothingFoundIff(text, 0, |text|, true);
  }

  /** `extract_markdown_links` returns `[]` exactly when the link pattern
      matches nowhere in the text. */
  lemma NoLinksIff(text: string)
    ensures ExtractMarkdownLinks(text) == [] <==> NoMatchIn(text, 0, |text|, false)
  {
    ScanEmptyIff(text, 0, false);
    NothingFoundIff(text, 0, |text|, false);
  }

  /** The regex matches nowhere in `[lo, hi)`: no match starts there. */
  ghost predicate NoMatchIn(s: string, lo: nat, hi: nat, image: bool) {
    forall m :: RegexMatch(s, m, image) ==> !(lo <= m.start < hi)
  }

  /** Whenever the regex can match at a position, the scanner finds a
      match there. */
  lemma MatchAtComplete(s: string, m: Match, image: bool)
    requires RegexMatch(s, m, image)
    ensures MatchAt(s, m.start, image).Some?
  {
    LineEndAtLeast(s, m.open, m.end);
    BracketsFound(s, m.open + 1, m.close, m.end - 1, LineEnd(s, m.open));
  }

  /** What the scanner finds at a position is a match of the regex. */
  lemma MatchAtSound(s: string, p: nat, image: bool)
    requires MatchAt(s, p, image).Some?
    ensures RegexMatch(s, MatchAt(s, p, image).value, image)
  {
    MatchAtFacts(s, p, image);
    var open := if image then p + 1 else p;
    var e := LineEnd(s, open);
    assert Brackets(s, open + 1, e).Some?;
    assert MatchAt(s, p, image).value.end <= e;
  }

  /** A line reaches at least as far as the first newline. */
  lemma {:induction false} LineEndAtLeast(s: string, i: nat, n: nat)
    requires i <= n <= |s|
    requires forall x :: i <= x < n ==> s[x] != '\n'
    ensures LineEnd(s, i) >= n
    decreases n - i
  {
    if i < n {
      LineEndAtLeast(s, i + 1, n);
    }
  }

  /** A `)` at `k` in `[u, e)` gives a first one. */
  lemma {:induction false} UrlEndFound(s: string, u: nat, k: nat, e: nat)
    requires u <= k < e <= |s| && s[k] == ')'
    ensures UrlEnd(s, u, e).Some?
    decreases k - u
  {
    if s[u] != ')' {
      UrlEndFound(s, u + 1, k, e);
    }
  }

  /** A `](` at `j`, with a `)` at `k` after it and before `e`, gives the
      groups' boundaries. */
  lemma {:induction false} BracketsFound(s: string, t: nat, j: nat, k: nat, e: nat)
    requires t <= j && j + 2 <= k < e <= |s|
    requires s[j] == ']' && s[j + 1] == '(' && s[k] == ')'
    ensures Brackets(s, t, e).Some?
    decreases j - t
  {
    if s[t] == ']' && s[t + 1] == '(' {
      UrlEndFound(s, t + 2, k, e);
    } else {
      BracketsFound(s, t + 1, j, k, e);
    }
  }

  /** The scanner finds nothing at any position of `[lo, hi)` exactly when
      the regex matches nowhere there. */
  lemma NothingFoundIff(s: string, lo: nat, hi: nat, image: bool)
    ensures (forall p :: lo <= p < hi ==> MatchAt(s, p, image).None?) <==> NoMatchIn(s, lo, hi, image)
  {
    if forall p :: lo <= p < hi ==> MatchAt(s, p, image).None? {
      forall m | RegexMatch(s, m, image) ensures !(lo <= m.start < hi) {
        if lo <= m.start < hi {
          MatchAtComplete(s, m, image);
        }
      }
    }
    if NoMatchIn(s, lo, hi, image) {
      forall p | lo <= p < hi ensures MatchAt(s, p, image).None? {
        if MatchAt(s, p, image).Some? {
          MatchAtSound(s, p, image);
        }
      }
    }
  }

  /** The regex matches nowhere at a position where the scanner finds
      nothing. */
  lemma NothingFoundAt(s: string, p: nat, image: bool)
    requires MatchAt(s, p, image).None?
    ensures NoMatchIn(s, p, p + 1, image)
  {
    forall m | RegexMatch(s, m, image) ensures m.start != p {
      if m.start == p {
        MatchAtComplete(s, m, image);
      }
    }
  }

  /** Matches are leftmost: the regex matches nowhere between the scan
      position and the first match. */
  lemma {:induction false} ScanSkipsNoMatch(s: string, i: nat, image: bool)
    ensures var r := Scan(s, i, image); |r| > 0 ==> NoMatchIn(s, i, r[0].start, image)
    decreases |s| - i
  {
    if i < |s| && MatchAt(s, i, image).None? {
      ScanSkipsNoMatch(s, i + 1, image);
      NothingFoundAt(s, i, image);
    }
  }

  /** The regex matches nowhere between two consecutive matches of `r`. */
  ghost predicate GapsHoldNoMatch(s: string, r: seq<Match>, image: bool) {
    forall k :: 0 <= k < |r| - 1 ==> NoMatchIn(s, r[k].end, r[k + 1].start, image)
  }

  /** Matches are leftmost: the regex matches nowhere between two
      consecutive matches. */
  lemma {:induction false} ScanGapsHoldNoMatch(s: string, i: nat, image: bool)
    ensures GapsHoldNoMatch(s, Scan(s, i, image), image)
    decreases |s| - i
  {
    if i < |s| {
      var here := MatchAt(s, i, image);
      if here.Some? {
        var m := here.value;
        var rest := Scan(s, m.end, image);
        ScanSkipsNoMatch(s, m.end, image);
        ScanGapsHoldNoMatch(s, m.end, image);
        var r := [m] + rest;
        assert Scan(s, i, image) == r;
        forall k | 0 <= k < |r| - 1 ensures NoMatchIn(s, r[k].end, r[k + 1].start, image) {
          if k > 0 {
            assert r[k] == rest[k - 1] && r[k + 1] == rest[k];
          } else {
            assert r[1] == rest[0];
          }
        }
      } else {
        ScanGapsHoldNoMatch(s, i + 1, image);
        assert Scan(s, i, image) == Scan(s, i + 1, image);
      }
    }
  }

  /** The image `![a](u)` is never also reported as the link `[a](u)`. */
  lemma ImageIsNotLink(s: string, p: nat)
    requires MatchAt(s, p, true).Some?
    ensures MatchAt(s, p + 1, false).None?
  {
  }

  /** A title line on its own. */
  lemma TitleOfSingleLine(line: string)
    requires line != "" && '\n' !in line
    ensures ExtractTitle(line) == (if StartsWith(line, "# ") then Ok(Strip(line[2..]))
                                   else Err(ValueError("No h1 header found in the markdown file.")))
  {
    assert !EndsWith(line, "\n") by {
      assert line[|line| - 1..] == [line[|line| - 1]];
    }
    var lines := SplitLines(line);
    assert Join(lines, "\n") == line;
    ContainsChar(line, '\n');
    JoinOfSeveralContainsSep(lines, "\n");
    assert |lines| == 1;
  }
}
