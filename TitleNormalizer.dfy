/**
  Title normalisation (manage.py, lines 124-129).

  The title goes through four stages: Unicode NFKD, dropping every
  non-ASCII character (`encode('ascii', 'ignore')`), deleting every
  character that is neither a word character nor whitespace (`normalizer`),
  and replacing every run of whitespace by one space (`space_collapser`).
  NFKD is given as a parameter: the properties proved here hold whatever it
  returns.  After the second stage the text is ASCII, so `\w` and `\s`
  (Unicode classes in the source) are exactly their ASCII members here.
 */
module TitleNormalizer {

  predicate IsAscii(c: char) {
    c as int < 128
  }

  /** `\w` on ASCII: letters, digits and "_". */
  predicate IsWord(c: char) {
    ('a' <= c <= 'z') || ('A' <= c <= 'Z') || ('0' <= c <= '9') || c == '_'
  }

  /** `\s` on ASCII: tab, line feed, vertical tab, form feed, carriage return, the four separators 0x1c-0x1f, and space. */
  predicate IsSpace(c: char) {
    (9 <= c as int <= 13) || (28 <= c as int <= 32)
  }

  /** The characters of s that satisfy keep, in order. */
  function Keep(keep: char -> bool, s: string): (r: string)
    ensures |r| <= |s|
    ensures forall i :: 0 <= i < |r| ==> keep(r[i])
    ensures (forall i :: 0 <= i < |s| ==> keep(s[i])) ==> r == s
  {
    if s == [] then []
    else if keep(s[0]) then [s[0]] + Keep(keep, s[1..])
    else Keep(keep, s[1..])
  }

  /** A character is kept exactly when it occurs in s and satisfies keep. */
  lemma {:induction false} KeepMembers(keep: char -> bool, s: string, c: char)
    ensures c in Keep(keep, s) <==> c in s && keep(c)
  {
    if s != [] {
      KeepMembers(keep, s[1..], c);
      assert s == [s[0]] + s[1..];
    }
  }

  /** Nothing is kept of a string none of whose characters satisfies keep. */
  lemma {:induction false} KeepNone(keep: char -> bool, s: string)
    requires forall i :: 0 <= i < |s| ==> !keep(s[i])
    ensures Keep(keep, s) == []
  {
    if s != [] {
      KeepNone(keep, s[1..]);
    }
  }

  /** Keep splits over concatenation. */
  lemma {:induction false} KeepAppend(keep: char -> bool, a: string, b: string)
    ensures Keep(keep, a + b) == Keep(keep, a) + Keep(keep, b)
  {
    if a == [] {
      assert a + b == b;
    } else {
      assert (a + b)[0] == a[0];
      assert (a + b)[1..] == a[1..] + b;
      KeepAppend(keep, a[1..], b);
    }
  }

  /** Filtering by q and then by p is filtering by "p and q". */
  lemma {:induction false} KeepKeep(p: char -> bool, q: char -> bool, pq: char -> bool, s: string)
    requires forall c :: pq(c) <==> p(c) && q(c)
    ensures Keep(p, Keep(q, s)) == Keep(pq, s)
  {
    if s != [] {
      KeepKeep(p, q, pq, s[1..]);
      if q(s[0]) {
        var t := [s[0]] + Keep(q, s[1..]);
        assert t[0] == s[0] && t[1..] == Keep(q, s[1..]);
      }
    }
  }

  /** `.encode('ascii', 'ignore').decode('ascii')`: every non-ASCII character is dropped, the rest kept in order. */
  function DropNonAscii(s: string): (r: string)
    ensures forall c :: c in r <==> c in s && IsAscii(c)
    ensures (forall i :: 0 <= i < |s| ==> IsAscii(s[i])) ==> r == s
  {
    assert forall c :: c in Keep(IsAscii, s) <==> c in s && IsAscii(c) by {
      forall c ensures c in Keep(IsAscii, s) <==> c in s && IsAscii(c) {
        KeepMembers(IsAscii, s, c);
      }
    }
    Keep(IsAscii, s)
  }

  predicate IsWordOrSpace(c: char) {
    IsWord(c) || IsSpace(c)
  }

  /** `normalizer.sub('', s)`: deletes every match of `[^\w\s]`, keeping word characters and whitespace in order. */
  function DropPunctuation(s: string): (r: string)
    ensures forall c :: c in r <==> c in s && IsWordOrSpace(c)
    ensures (forall i :: 0 <= i < |s| ==> IsWordOrSpace(s[i])) ==> r == s
  {
    assert forall c :: c in Keep(IsWordOrSpace, s) <==> c in s && IsWordOrSpace(c) by {
      forall c ensures c in Keep(IsWordOrSpace, s) <==> c in s && IsWordOrSpace(c) {
        KeepMembers(IsWordOrSpace, s, c);
      }
    }
    Keep(IsWordOrSpace, s)
  }

  /** s without its leading run of whitespace. */
  function DropLeadingSpace(s: string): (r: string)
    ensures |r| <= |s| && r == s[|s| - |r|..]
    ensures forall i :: 0 <= i < |s| - |r| ==> IsSpace(s[i])
    ensures r == [] || !IsSpace(r[0])
  {
    if s != [] && IsSpace(s[0]) then DropLeadingSpace(s[1..]) else s
  }

  /** `space_collapser.sub(' ', s)`: every maximal run of `\s+` becomes one space. */
  function CollapseSpaces(s: string): (r: string)
    ensures |r| <= |s|
    ensures r == [] <==> s == []
    ensures r != [] ==> (r[0] == ' ' <==> IsSpace(s[0]))
    decreases |s|
  {
    if s == [] then []
    else if IsSpace(s[0]) then [' '] + CollapseSpaces(DropLeadingSpace(s[1..]))
    else [s[0]] + CollapseSpaces(s[1..])
  }

  /** The only whitespace in s is single spaces: no tab, newline or similar, and no two spaces side by side. */
  predicate SingleSpaced(s: string) {
    && (forall i :: 0 <= i < |s| ==> IsSpace(s[i]) ==> s[i] == ' ')
    && (forall i :: 0 <= i < |s| - 1 ==> !(s[i] == ' ' && s[i + 1] == ' '))
  }

  predicate IsVisible(c: char) {
    !IsSpace(c)
  }

  /** The non-whitespace characters of s, in order. */
  function Visible(s: string): string {
    Keep(IsVisible, s)
  }

  /** Collapsing leaves single spaces only. */
  lemma {:induction false} CollapseSingleSpaced(s: string)
    ensures SingleSpaced(CollapseSpaces(s))
    decreases |s|
  {
    if s != [] {
      if IsSpace(s[0]) {
        var t := DropLeadingSpace(s[1..]);
        CollapseSingleSpaced(t);
        var u := CollapseSpaces(t);
        assert CollapseSpaces(s) == [' '] + u;
        assert u != [] ==> u[0] != ' ';
      } else {
        CollapseSingleSpaced(s[1..]);
        assert CollapseSpaces(s) == [s[0]] + CollapseSpaces(s[1..]);
      }
    }
  }

  /** Collapsing keeps every non-whitespace character, in order, and adds none. */
  lemma {:induction false} CollapseKeepsVisible(s: string)
    ensures Visible(CollapseSpaces(s)) == Visible(s)
    decreases |s|
  {
    if s != [] {
      if IsSpace(s[0]) {
        var rest := s[1..];
        var t := DropLeadingSpace(rest);
        CollapseKeepsVisible(t);
        var dropped := rest[..|rest| - |t|];
        assert rest == dropped + t;
        KeepAppend(IsVisible, dropped, t);
        KeepNone(IsVisible, dropped);
        assert CollapseSpaces(s) == [' '] + CollapseSpaces(t);
        KeepAppend(IsVisible, [' '], CollapseSpaces(t));
        KeepAppend(IsVisible, [s[0]], rest);
        assert s == [s[0]] + rest;
      } else {
        CollapseKeepsVisible(s[1..]);
        assert CollapseSpaces(s) == [s[0]] + CollapseSpaces(s[1..]);
      }
    }
  }

  /** A single-spaced string is unchanged by collapsing: collapsing is idempotent. */
  lemma {:induction false} CollapseSingleSpacedUnchanged(s: string)
    requires SingleSpaced(s)
    ensures CollapseSpaces(s) == s
    decreases |s|
  {
    if s != [] {
      assert SingleSpaced(s[1..]);
      if IsSpace(s[0]) {
        assert DropLeadingSpace(s[1..]) == s[1..];
      }
      CollapseSingleSpacedUnchanged(s[1..]);
    }
  }

  /** Dropping the leading whitespace of a + x, where a ends in a non-whitespace character, only touches a. */
  lemma {:induction false} DropLeadingSpaceAppend(a: string, x: string)
    requires a != [] && !IsSpace(a[|a| - 1])
    ensures DropLeadingSpace(a + x) == DropLeadingSpace(a) + x
    ensures var d := DropLeadingSpace(a); d != [] && !IsSpace(d[|d| - 1]) && |d| <= |a|
    decreases |a|
  {
    if IsSpace(a[0]) {
      assert (a + x)[1..] == a[1..] + x;
      DropLeadingSpaceAppend(a[1..], x);
    }
  }

  /**
    A run of whitespace that follows a non-whitespace character (or starts
    the string) is collapsed on its own: the text up to such a boundary and
    the text after it are collapsed independently.
   */
  lemma {:induction false} CollapseAppend(a: string, x: string)
    requires a == [] || !IsSpace(a[|a| - 1])
    ensures CollapseSpaces(a + x) == CollapseSpaces(a) + CollapseSpaces(x)
    decreases |a|
  {
    if a == [] {
      assert a + x == x;
    } else if IsSpace(a[0]) {
      var rest := a[1..];
      assert (a + x)[0] == a[0] && (a + x)[1..] == rest + x;
      DropLeadingSpaceAppend(rest, x);
      CollapseAppend(DropLeadingSpace(rest), x);
    } else {
      assert (a + x)[0] == a[0] && (a + x)[1..] == a[1..] + x;
      CollapseAppend(a[1..], x);
    }
  }

  /** Every non-empty run of whitespace, whatever its characters, becomes exactly one space. */
  lemma CollapseRun(w: string)
    requires |w| > 0 && forall i :: 0 <= i < |w| ==> IsSpace(w[i])
    ensures CollapseSpaces(w) == " "
  {
    var d := DropLeadingSpace(w[1..]);
    assert d == [];
  }

  /** Word characters are ASCII and are not whitespace. */
  lemma WordCharClass(c: char)
    requires IsWord(c)
    ensures IsAscii(c) && !IsSpace(c) && IsVisible(c)
  {
  }

  /** The ASCII whitespace of `\s`, listed: the five controls tab to carriage return, the separators 0x1c-0x1f, and space. */
  lemma AsciiWhitespace(c: char)
    requires IsAscii(c)
    ensures IsSpace(c) <==> c in ['\t', '\n', '\U{0B}', '\U{0C}', '\r', '\U{1C}', '\U{1D}', '\U{1E}', '\U{1F}', ' ']
  {
  }

  /** The stages after NFKD. */
  function Clean(s: string): (r: string)
    ensures forall i :: 0 <= i < |r| ==> IsWord(r[i]) || r[i] == ' '
    ensures SingleSpaced(r)
    ensures Visible(r) == Keep(IsWord, s)
  {
    var kept := DropPunctuation(DropNonAscii(s));
    CollapseSingleSpaced(kept);
    CollapseKeepsVisible(kept);
    assert forall c :: IsWord(c) <==> IsVisible(c) && IsWordOrSpace(c);
    KeepKeep(IsVisible, IsWordOrSpace, IsWord, DropNonAscii(s));
    KeepKeep(IsWord, IsAscii, IsWord, s);
    var r := CollapseSpaces(kept);
    forall i | 0 <= i < |r| ensures IsWord(r[i]) || r[i] == ' ' {
      if r[i] != ' ' {
        KeepMembers(IsVisible, r, r[i]);
        CollapseKeepsVisible(kept);
        KeepMembers(IsVisible, kept, r[i]);
        KeepMembers(IsWordOrSpace, DropNonAscii(s), r[i]);
      }
    }
    r
  }

  /**
    The normalised title: only ASCII word characters and single spaces, and
    every word character of the decomposed title, in order.
   */
  function Normalize(nfkd: string -> string, title: string): (r: string)
    ensures forall i :: 0 <= i < |r| ==> IsWord(r[i]) || r[i] == ' '
    ensures forall i :: 0 <= i < |r| - 1 ==> !(r[i] == ' ' && r[i + 1] == ' ')
    ensures Visible(r) == Keep(IsWord, nfkd(title))
  {
    Clean(nfkd(title))
  }

  /** Cleaning a cleaned string changes nothing. */
  lemma CleanIdempotent(s: string)
    ensures Clean(Clean(s)) == Clean(s)
  {
    var r := Clean(s);
    assert forall i :: 0 <= i < |r| ==> IsAscii(r[i]);
    assert DropNonAscii(r) == r;
    assert DropPunctuation(r) == r;
    CollapseSingleSpacedUnchanged(r);
  }

  /** Unicode normalisation leaves a pure ASCII string as it is. */
  ghost predicate FixesAscii(nfkd: string -> string) {
    forall s :: (forall i :: 0 <= i < |s| ==> IsAscii(s[i])) ==> nfkd(s) == s
  }

  /** Normalising a normalised title gives it back. */
  lemma NormalizeIdempotent(nfkd: string -> string, title: string)
    requires FixesAscii(nfkd)
    ensures Normalize(nfkd, Normalize(nfkd, title)) == Normalize(nfkd, title)
  {
    var r := Normalize(nfkd, title);
    assert forall i :: 0 <= i < |r| ==> IsAscii(r[i]);
    assert nfkd(r) == r;
    CleanIdempotent(nfkd(title));
  }

  const SpiderMan := "Spider-Man: No Way Home"

  /** Punctuation disappears and the single spaces stay. */
  lemma SpiderManExample(nfkd: string -> string)
    requires nfkd(SpiderMan) == SpiderMan
    ensures Normalize(nfkd, SpiderMan) == "SpiderMan No Way Home"
  {
    assert DropNonAscii(SpiderMan) == SpiderMan by {
      assert forall i :: 0 <= i < |SpiderMan| ==> IsAscii(SpiderMan[i]);
    }
    SpiderManPunctuation();
    SpiderManCollapsed();
  }

  lemma SpiderManCollapsed()
    ensures CollapseSpaces("SpiderMan No Way Home") == "SpiderMan No Way Home"
  {
    CollapseSingleSpacedUnchanged("SpiderMan No Way Home");
  }

  lemma SpiderManPunctuation()
    ensures DropPunctuation(SpiderMan) == "SpiderMan No Way Home"
  {
    SpiderManPieces();
    SpiderKept();
    ManColonDropped();
    TailKept();
    KeepThree(IsWordOrSpace, SpiderMan, "Spider", "-Man:", " No Way Home", "SpiderMan No Way Home", "Spider", "Man", " No Way Home");
  }

  /** Keep over a string made of three pieces. */
  lemma KeepThree(keep: char -> bool, t: string, a: string, b: string, c: string, r: string, ra: string, rb: string, rc: string)
    requires t == a + b + c && r == ra + rb + rc
    requires Keep(keep, a) == ra && Keep(keep, b) == rb && Keep(keep, c) == rc
    ensures Keep(keep, t) == r
  {
    KeepAppend(keep, a + b, c);
    KeepAppend(keep, a, b);
  }

  /** How the example and its normal form split into pieces. */
  lemma SpiderManPieces()
    ensures SpiderMan == "Spider" + "-Man:" + " No Way Home"
    ensures "SpiderMan No Way Home" == "Spider" + "Man" + " No Way Home"
  {
  }

  lemma SpiderKept()
    ensures Keep(IsWordOrSpace, "Spider") == "Spider"
  {
  }

  lemma ManColonDropped()
    ensures Keep(IsWordOrSpace, "-Man:") == "Man"
  {
    assert Keep(IsWordOrSpace, ":") == "";
    assert Keep(IsWordOrSpace, "n:") == "n";
    assert Keep(IsWordOrSpace, "an:") == "an";
    assert Keep(IsWordOrSpace, "Man:") == "Man";
  }

  lemma TailKept()
    ensures Keep(IsWordOrSpace, " No Way Home") == " No Way Home"
  {
    var tail := " No Way Home";
    assert forall i :: 0 <= i < |tail| ==> IsWordOrSpace(tail[i]);
  }

  /** A string already in normal form, word characters and single spaces, comes out of the cleaning stages unchanged. */
  lemma NormalFormFixed(s: string)
    requires forall i :: 0 <= i < |s| ==> IsWord(s[i]) || s[i] == ' '
    requires forall i :: 0 <= i < |s| - 1 ==> !(s[i] == ' ' && s[i + 1] == ' ')
    ensures Clean(s) == s
  {
    assert DropNonAscii(s) == s;
    assert DropPunctuation(s) == s;
    CollapseSingleSpacedUnchanged(s);
  }

  /** A letter whose decomposition is a base letter and a combining accent keeps only the base letter. */
  lemma AmelieExample(nfkd: string -> string)
    requires nfkd("Am\U{E9}lie") == "Ame\U{301}lie"
    ensures Normalize(nfkd, "Am\U{E9}lie") == "Amelie"
  {
    AmelieAscii();
    AmelieFixed();
  }

  /** "Amelie" is already in normal form. */
  lemma AmelieFixed()
    ensures DropNonAscii("Amelie") == "Amelie" && Clean("Amelie") == "Amelie"
  {
    NormalFormFixed("Amelie");
  }

  lemma AmelieAscii()
    ensures DropNonAscii("Ame\U{301}lie") == "Amelie"
  {
    AmeliePieces();
    AsciiKept("Ame");
    AsciiKept("lie");
    KeepThree(IsAscii, "Ame\U{301}lie", "Ame", "\U{301}", "lie", "Amelie", "Ame", "", "lie");
  }

  /** How the decomposed example splits around its combining accent. */
  lemma AmeliePieces()
    ensures "Ame\U{301}lie" == "Ame" + "\U{301}" + "lie"
    ensures "Amelie" == "Ame" + "" + "lie"
  {
  }

  /** ASCII text passes the ASCII stage unchanged. */
  lemma AsciiKept(s: string)
    requires forall i :: 0 <= i < |s| ==> IsAscii(s[i])
    ensures Keep(IsAscii, s) == s
  {
  }
}
