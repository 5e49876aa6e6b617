/**
  Title and year extraction from a media path (manage.py, `extractor`).

  The source compiles `(?:\w*)\/(.+) \((\d+)\)` and calls `search` on the
  path.  Searching tries start positions from left to right; at a start p the
  greedy `\w*` runs to the first non-word character, which must be the "/".
  Hence the "/" that a successful search uses is always the FIRST "/" of the
  path after which `(.+) \((\d+)\)` can match, whatever `\w` is taken to
  mean, and the model searches for that "/" directly.  `.` matches anything
  but a newline, and `.+` is greedy, so the title ends at the LAST
  " (digits)" group of that line; anything after the group is ignored.
 */
module TitleExtractor {
  import opened Wrappers

  /** The two groups of a successful match. */
  datatype Parsed = Parsed(title: string, year: string)

  predicate IsDigit(c: char) {
    '0' <= c <= '9'
  }

  /** The length of the run of digits that starts at index i. */
  function DigitRun(s: string, i: nat): (n: nat)
    requires i <= |s|
    ensures i + n <= |s|
    ensures forall k :: i <= k < i + n ==> IsDigit(s[k])
    ensures i + n == |s| || !IsDigit(s[i + n])
    decreases |s| - i
  {
    if i < |s| && IsDigit(s[i]) then 1 + DigitRun(s, i + 1) else 0
  }

  /** A run of exactly n digits at i, not followed by another digit, is what DigitRun measures. */
  lemma {:induction false} DigitRunExact(s: string, i: nat, n: nat)
    requires i + n <= |s|
    requires forall k :: i <= k < i + n ==> IsDigit(s[k])
    requires i + n == |s| || !IsDigit(s[i + n])
    ensures DigitRun(s, i) == n
    decreases n
  {
    if n > 0 {
      DigitRunExact(s, i + 1, n - 1);
    }
  }

  /** `s[e..]` begins with " (" DIGITS ")": the part ` \((\d+)\)` of the pattern. */
  predicate YearGroupAt(s: string, e: nat) {
    e + 2 <= |s| && s[e] == ' ' && s[e + 1] == '(' &&
    var n := DigitRun(s, e + 2);
    0 < n && e + 2 + n < |s| && s[e + 2 + n] == ')'
  }

  /** No newline among s[a..b]. */
  predicate NoNewline(s: string, a: nat, b: nat) {
    forall i :: a <= i < b && i < |s| ==> s[i] != '\n'
  }

  /**
    The pattern matches with its "/" at index j and its `(.+)` group
    occupying s[j+1..e].
   */
  predicate MatchAt(s: string, j: nat, e: nat) {
    j + 1 < e <= |s| && s[j] == '/' && NoNewline(s, j + 1, e) && YearGroupAt(s, e)
  }

  /** The match `search` reports: the leftmost "/" that can match, and then the longest title. */
  ghost predicate SearchMatch(s: string, j: nat, e: nat) {
    MatchAt(s, j, e) &&
    (forall j': nat, e': nat :: MatchAt(s, j', e') ==> j <= j') &&
    (forall e': nat :: MatchAt(s, j, e') ==> e' <= e)
  }

  /** The two groups of the match whose title group is s[j+1..e]. */
  function Groups(s: string, j: nat, e: nat): Parsed
    requires MatchAt(s, j, e)
  {
    Parsed(s[j + 1..e], s[e + 2..e + 2 + DigitRun(s, e + 2)])
  }

  /** The index of the first newline at or after k, or |s| when there is none. */
  function LineEnd(s: string, k: nat): (r: nat)
    requires k <= |s|
    ensures k <= r <= |s|
    ensures NoNewline(s, k, r)
    ensures r < |s| ==> s[r] == '\n'
    decreases |s| - k
  {
    if k == |s| || s[k] == '\n' then k else LineEnd(s, k + 1)
  }

  /** The largest e with lo < e <= hi at which a year group starts, if any. */
  function LastYearGroup(s: string, lo: nat, hi: nat): (r: Option<nat>)
    ensures r.Some? ==> lo < r.value <= hi && YearGroupAt(s, r.value)
    ensures r.Some? ==> forall e :: r.value < e <= hi ==> !YearGroupAt(s, e)
    ensures r.None? ==> forall e :: lo < e <= hi ==> !YearGroupAt(s, e)
    decreases hi
  {
    if hi <= lo then None
    else if YearGroupAt(s, hi) then Some(hi)
    else LastYearGroup(s, lo, hi - 1)
  }

  /** The end of the longest title group for the "/" at index j, if the rest of the pattern can match there. */
  function TitleEnd(s: string, j: nat): (r: Option<nat>)
    requires j < |s| && s[j] == '/'
    ensures r.Some? ==> MatchAt(s, j, r.value)
    ensures r.Some? ==> forall e: nat :: MatchAt(s, j, e) ==> e <= r.value
    ensures r.None? ==> forall e: nat :: !MatchAt(s, j, e)
  {
    var hi := LineEnd(s, j + 1);
    var r := LastYearGroup(s, j + 1, hi);
    assert hi < |s| ==> s[hi] == '\n';
    assert forall e: nat :: MatchAt(s, j, e) ==> e <= hi;
    r
  }

  /** The leftmost "/" at or after index j for which the pattern matches, and the end of its title group. */
  function FirstMatch(s: string, j: nat): (r: Option<(nat, nat)>)
    requires j <= |s|
    ensures r.Some? ==> j <= r.value.0 && MatchAt(s, r.value.0, r.value.1)
    ensures r.Some? ==> forall j': nat, e': nat :: j <= j' < r.value.0 ==> !MatchAt(s, j', e')
    ensures r.Some? ==> forall e': nat :: MatchAt(s, r.value.0, e') ==> e' <= r.value.1
    ensures r.None? ==> forall j': nat, e': nat :: j <= j' ==> !MatchAt(s, j', e')
    decreases |s| - j
  {
    if j == |s| then None
    else if s[j] == '/' && TitleEnd(s, j).Some? then Some((j, TitleEnd(s, j).value))
    else FirstMatch(s, j + 1)
  }

  /**
    `extractor.search(path).groups()`: None when the pattern does not match
    anywhere (the source's skip), else the title and year of the search match.
   */
  function Extract(path: string): (r: Option<Parsed>)
    ensures r.None? <==> forall j: nat, e: nat :: !MatchAt(path, j, e)
    ensures r.Some? ==> exists j: nat, e: nat :: SearchMatch(path, j, e) && r.value == Groups(path, j, e)
  {
    match FirstMatch(path, 0)
    case None => None
    case Some((j, e)) =>
      assert SearchMatch(path, j, e);
      Some(Groups(path, j, e))
  }

  /** The search match is unique. */
  lemma SearchMatchUnique(s: string, j: nat, e: nat, j': nat, e': nat)
    requires SearchMatch(s, j, e) && SearchMatch(s, j', e')
    ensures j == j' && e == e'
  {
  }

  /** Extract reports the search match's groups. */
  lemma ExtractSearchMatch(s: string, j: nat, e: nat)
    requires SearchMatch(s, j, e)
    ensures Extract(s) == Some(Groups(s, j, e))
  {
    var r := Extract(s);
    var j1, e1 :| SearchMatch(s, j1, e1) && r.value == Groups(s, j1, e1);
    SearchMatchUnique(s, j, e, j1, e1);
  }

  /** The conditions under which `ExtractAtPositions` locates the search match. */
  predicate WellPlaced(s: string, j: nat, e: nat, close: nat) {
    && j + 1 < e && e + 2 < close < |s|
    && (forall i :: 0 <= i < j ==> s[i] != '/')
    && s[j] == '/'
    && (forall i :: j + 1 <= i < e ==> s[i] != '\n')
    && s[e] == ' ' && s[e + 1] == '('
    && (forall k :: e + 2 <= k < close ==> IsDigit(s[k]))
    && s[close] == ')'
    && (forall k :: close < k < |s| ==> s[k] != '(')
  }

  lemma WellPlacedMatch(s: string, j: nat, e: nat, close: nat)
    requires WellPlaced(s, j, e, close)
    ensures MatchAt(s, j, e) && DigitRun(s, e + 2) == close - (e + 2)
  {
    DigitRunExact(s, e + 2, close - (e + 2));
  }

  lemma WellPlacedLongest(s: string, j: nat, e: nat, close: nat, e': nat)
    requires WellPlaced(s, j, e, close)
    requires e < e'
    ensures !YearGroupAt(s, e')
  {
    if e' + 1 < |s| {
      var k := e' + 1;
      if k < close {
        assert IsDigit(s[k]);
      }
      assert s[k] != '(';
    }
  }

  /**
    The search result in terms of positions: the first "/" of s is at j, the
    title group s[j+1..e] is on one line, " (" DIGITS ")" follows it and
    closes at index close, and no "(" comes after that.
   */
  lemma ExtractAtPositions(s: string, j: nat, e: nat, close: nat)
    requires WellPlaced(s, j, e, close)
    ensures Extract(s) == Some(Parsed(s[j + 1..e], s[e + 2..close]))
  {
    WellPlacedMatch(s, j, e, close);
    forall j': nat, e': nat | MatchAt(s, j', e') ensures j <= j' {
      assert s[j'] == '/';
    }
    forall e': nat | MatchAt(s, j, e') ensures e' <= e {
      if e < e' {
        WellPlacedLongest(s, j, e, close, e');
      }
    }
    ExtractSearchMatch(s, j, e);
  }

  /**
    A path of the form `<category>/<title> (<digits>)<rest>`, whose category
    has no "/", whose title is non-empty and on one line and whose rest has
    no "(", yields exactly that title and that year.
   */
  lemma ExtractWellFormed(category: string, title: string, year: string, rest: string)
    requires '/' !in category
    requires |title| > 0 && '\n' !in title
    requires |year| > 0 && forall i :: 0 <= i < |year| ==> IsDigit(year[i])
    requires '(' !in rest
    ensures Extract(category + "/" + title + " (" + year + ")" + rest) == Some(Parsed(title, year))
  {
    var s := category + "/" + title + " (" + year + ")" + rest;
    var j := |category|;
    var e := j + 1 + |title|;
    var close := e + 2 + |year|;
    assert s[..j] == category;
    assert s[j + 1..e] == title;
    assert s[e + 2..close] == year;
    assert s[close + 1..] == rest;
    forall i | 0 <= i < j ensures s[i] != '/' {
      assert s[i] == category[i];
    }
    forall i | j + 1 <= i < e ensures s[i] != '\n' {
      assert s[i] == title[i - (j + 1)];
    }
    forall k | e + 2 <= k < close ensures IsDigit(s[k]) {
      assert s[k] == year[k - (e + 2)];
    }
    forall k | close < k < |s| ensures s[k] != '(' {
      assert s[k] == rest[k - (close + 1)];
    }
    ExtractAtPositions(s, j, e, close);
  }

  /** `movies/Alien (1979)` gives the title "Alien" and the year "1979". */
  lemma AlienExample()
    ensures Extract("movies/Alien (1979)") == Some(Parsed("Alien", "1979"))
  {
    assert "movies/Alien (1979)" == "movies" + "/" + "Alien" + " (" + "1979" + ")" + "";
    ExtractWellFormed("movies", "Alien", "1979", "");
  }

  /** Because `.+` is greedy, the title runs up to the last year group: `movies/Heat (1995) (2023)` gives "Heat (1995)". */
  lemma GreedyTitleExample()
    ensures Extract("movies/Heat (1995) (2023)") == Some(Parsed("Heat (1995)", "2023"))
  {
    assert "movies/Heat (1995) (2023)" == "movies" + "/" + "Heat (1995)" + " (" + "2023" + ")" + "";
    ExtractWellFormed("movies", "Heat (1995)", "2023", "");
  }

  /** Trailing text after the year group is ignored. */
  lemma TrailingTextExample()
    ensures Extract("TV/Alien (1979) 1080p.mkv") == Some(Parsed("Alien", "1979"))
  {
    assert "TV/Alien (1979) 1080p.mkv" == "TV" + "/" + "Alien" + " (" + "1979" + ")" + " 1080p.mkv";
    ExtractWellFormed("TV", "Alien", "1979", " 1080p.mkv");
  }

  /** A path without a space holds no year group, so the pattern matches nowhere. */
  lemma NoSpaceNoMatch(s: string)
    requires forall i :: 0 <= i < |s| ==> s[i] != ' '
    ensures Extract(s) == None
  {
    forall e: nat ensures !YearGroupAt(s, e) {
      if e < |s| {
        assert s[e] != ' ';
      }
    }
  }

  /** A path without any year group does not match. */
  lemma NoYearExample()
    ensures Extract("movies/old") == None
  {
    NoSpaceNoMatch("movies/old");
  }
}
