/**
  The name prettifier of the sidebar: `prettifyName` turns a post's file name
  such as "2014-02-04-my-first-post.md" into the text shown on its button,
  "my first post". It is three `String.replace` calls applied in order:

    1. the global regular expression /\d{1,}-\d{1,}-\d{1,}-/g is replaced by
       the empty string (StripDates);
    2. the global regular expression /-/g is replaced by a space
       (HyphensToSpaces);
    3. the literal string ".md" is replaced once, at its first occurrence, by
       the empty string (RemoveFirst).
 */
module Prettify {
  import opened Options

  /** `\d` of a JavaScript regular expression: the ASCII digits only. */
  predicate IsDigit(c: char) {
    '0' <= c <= '9'
  }

  /** The length of the longest prefix of `s` made of digits. */
  function DigitRun(s: string): (n: nat)
    ensures n <= |s|
    ensures forall i :: 0 <= i < n ==> IsDigit(s[i])
    ensures n < |s| ==> !IsDigit(s[n])
  {
    if s != [] && IsDigit(s[0]) then 1 + DigitRun(s[1..]) else 0
  }

  /** `s[..k]` is one `\d{1,}-` group: at least one digit, then a hyphen. */
  predicate Field(s: string, k: nat) {
    2 <= k <= |s| && s[k - 1] == '-' && forall i :: 0 <= i < k - 1 ==> IsDigit(s[i])
  }

  /** Matches one `\d{1,}-` group at the start of `s`: the greedy digit run and a hyphen. */
  function DateField(s: string): Option<nat> {
    var d := DigitRun(s);
    if 0 < d < |s| && s[d] == '-' then Some(d + 1) else None
  }

  /**
    The greedy run cannot backtrack to a shorter one, since a hyphen never is
    a digit: a group is found exactly when there is one, and it is the only
    one there is.
   */
  lemma DateFieldExact(s: string, k: nat)
    ensures Field(s, k) <==> DateField(s) == Some(k)
  {
    var d := DigitRun(s);
    if Field(s, k) {
      assert !IsDigit(s[k - 1]);
    }
  }

  /** `s[..n]` is three `\d{1,}-` groups, the first of length `a`, the second of length `b`. */
  predicate DateSplit(s: string, a: nat, b: nat, n: nat) {
    a + b <= n && Field(s, a) && Field(s[a..], b) && Field(s[a + b..], n - a - b)
  }

  /** Matches /\d{1,}-\d{1,}-\d{1,}-/ at the start of `s`, as the regular-expression engine does at one position. */
  function DateMatch(s: string): (r: Option<nat>)
    ensures r.Some? ==> 6 <= r.value <= |s|
  {
    match DateField(s)
    case None => None
    case Some(a) =>
      match DateField(s[a..])
      case None => None
      case Some(b) =>
        match DateField(s[a + b..])
        case None => None
        case Some(c) => Some(a + b + c)
  }

  /** A match found is three `\d{1,}-` groups. */
  lemma DateMatchSplit(s: string) returns (a: nat, b: nat)
    requires DateMatch(s).Some?
    ensures DateSplit(s, a, b, DateMatch(s).value)
  {
    a := DateField(s).value;
    b := DateField(s[a..]).value;
    DateFieldExact(s, a);
    DateFieldExact(s[a..], b);
    DateFieldExact(s[a + b..], DateMatch(s).value - a - b);
  }

  /** Every way of reading a prefix as three groups is the match found: it is unique. */
  lemma DateMatchComplete(s: string, a: nat, b: nat, n: nat)
    requires DateSplit(s, a, b, n)
    ensures DateMatch(s) == Some(n)
  {
    DateFieldExact(s, a);
    DateFieldExact(s[a..], b);
    DateFieldExact(s[a + b..], n - a - b);
  }

  /**
    `s.replace(/\d{1,}-\d{1,}-\d{1,}-/g, '')`: the scan goes left to right;
    where a match starts it is deleted and the scan resumes after it,
    otherwise the character is kept and the scan moves on by one.
   */
  function StripDates(s: string): (r: string)
    ensures |r| <= |s|
    decreases |s|
  {
    if s == [] then []
    else match DateMatch(s)
      case Some(n) => StripDates(s[n..])
      case None => [s[0]] + StripDates(s[1..])
  }

  /** `s.replace(/-/g, ' ')`: every hyphen becomes a space, nothing else changes. */
  function HyphensToSpaces(s: string): (r: string)
    ensures |r| == |s|
    ensures '-' !in r
  {
    seq(|s|, i requires 0 <= i < |s| => if s[i] == '-' then ' ' else s[i])
  }

  /** `pat` occurs in `s` at index `i`. */
  predicate OccursAt(s: string, pat: string, i: nat) {
    i + |pat| <= |s| && s[i..i + |pat|] == pat
  }

  /** `s.indexOf(pat)`: the first index where `pat` occurs, if any. */
  function FindFirst(s: string, pat: string): (r: Option<nat>)
    ensures r.Some? ==> OccursAt(s, pat, r.value)
    ensures forall i: nat :: OccursAt(s, pat, i) ==> r.Some? && r.value <= i
    decreases |s|
  {
    if |s| < |pat| then None
    else if s[..|pat|] == pat then Some(0)
    else
      assert !OccursAt(s, pat, 0);
      forall i: nat | OccursAt(s, pat, i) ensures 1 <= i && OccursAt(s[1..], pat, i - 1) {
        assert s[1..][i - 1..i - 1 + |pat|] == s[i..i + |pat|];
      }
      match FindFirst(s[1..], pat)
      case None => None
      case Some(i) =>
        assert s[1..][i..i + |pat|] == s[i + 1..i + 1 + |pat|];
        Some(i + 1)
  }

  /**
    `s.replace(pat, '')` with a string pattern: the first occurrence of `pat`
    is deleted, wherever it is; without an occurrence `s` is returned as is.
   */
  function RemoveFirst(s: string, pat: string): (r: string)
    ensures r == s || |r| + |pat| == |s|
  {
    match FindFirst(s, pat)
    case None => s
    case Some(i) => s[..i] + s[i + |pat|..]
  }

  /** The replacement adds no character and never lengthens the string. */
  lemma RemoveFirstShrinks(s: string, pat: string)
    ensures |RemoveFirst(s, pat)| <= |s|
    ensures multiset(RemoveFirst(s, pat)) <= multiset(s)
  {
    match FindFirst(s, pat)
    case None =>
    case Some(i) =>
      assert s == s[..i] + s[i..i + |pat|] + s[i + |pat|..];
  }

  /** Without an occurrence the string is returned as it is. */
  lemma RemoveFirstUnchanged(s: string, pat: string)
    requires forall i: nat :: !OccursAt(s, pat, i)
    ensures RemoveFirst(s, pat) == s
  {
    assert FindFirst(s, pat).None?;
  }

  /** The occurrence deleted is the first one, wherever it is. */
  lemma RemoveFirstDeletesFirst(s: string, pat: string, i: nat)
    requires OccursAt(s, pat, i)
    requires forall j: nat :: j < i ==> !OccursAt(s, pat, j)
    ensures RemoveFirst(s, pat) == s[..i] + s[i + |pat|..]
  {
    assert FindFirst(s, pat) == Some(i);
  }

  /** The extension deleted by the last step. */
  const Extension: string := ".md"

  /** `prettifyName(name)`. */
  function PrettifyName(name: string): (r: string)
    ensures |r| <= |name|
  {
    RemoveFirst(HyphensToSpaces(StripDates(name)), Extension)
  }

  /** A display name never holds a hyphen and is never longer than the file name. */
  lemma PrettifyNameShape(name: string)
    ensures '-' !in PrettifyName(name)
    ensures |PrettifyName(name)| <= |name|
  {
    var h := HyphensToSpaces(StripDates(name));
    RemoveFirstShrinks(h, Extension);
    assert '-' !in multiset(h);
  }

  // ---------------------------------------------------------------------
  // The date pass

  /** Every character of a date match is a digit or a hyphen, and the match ends in a hyphen. */
  lemma DateMatchChars(s: string, n: nat)
    requires DateMatch(s) == Some(n)
    ensures 6 <= n <= |s| && s[n - 1] == '-'
    ensures forall i :: 0 <= i < n ==> IsDigit(s[i]) || s[i] == '-'
  {
    var a, b := DateMatchSplit(s);
    forall i | 0 <= i < n ensures IsDigit(s[i]) || s[i] == '-' {
      if i < a {
      } else if i < a + b {
        assert s[a..][i - a] == s[i];
      } else {
        assert s[a + b..][i - a - b] == s[i];
      }
    }
    assert s[a + b..][n - a - b - 1] == s[n - 1];
  }

  /** A match can only start at a digit. */
  lemma NoMatchAtNonDigit(s: string)
    requires s != [] && !IsDigit(s[0])
    ensures DateMatch(s) == None
  {
  }

  /** A string without a hyphen has no date run in it, so the date pass leaves it alone. */
  lemma {:induction false} StripDatesNoHyphen(s: string)
    requires '-' !in s
    ensures StripDates(s) == s
    decreases |s|
  {
    if s != [] {
      assert '-' !in s[1..] by {
        forall i | 0 <= i < |s[1..]| ensures s[1..][i] != '-' {
          assert s[1..][i] == s[i + 1];
        }
      }
      StripDatesNoHyphen(s[1..]);
    }
  }

  /** Where a character is not a digit no match starts: it is copied and the scan moves on. */
  lemma StripDatesCopies(p: string, s: string)
    requires p != [] && !IsDigit(p[0])
    ensures StripDates(p + s) == [p[0]] + StripDates(p[1..] + s)
  {
    NoMatchAtNonDigit(p + s);
    assert (p + s)[1..] == p[1..] + s;
  }

  lemma ConsTail(p: string, x: string)
    requires p != []
    ensures [p[0]] + (p[1..] + x) == p + x
  {
    assert p == [p[0]] + p[1..];
  }

  /**
    The pass is not anchored: text without digits before a position is
    copied, and matching goes on after it.
   */
  lemma {:induction false} StripDatesSkipsText(p: string, s: string)
    requires forall i :: 0 <= i < |p| ==> !IsDigit(p[i])
    ensures StripDates(p + s) == p + StripDates(s)
    decreases |p|
  {
    if p != [] {
      assert forall i :: 0 <= i < |p[1..]| ==> !IsDigit(p[1..][i]) by {
        forall i | 0 <= i < |p[1..]| ensures !IsDigit(p[1..][i]) {
          assert p[1..][i] == p[i + 1];
        }
      }
      StripDatesSkipsText(p[1..], s);
      StripDatesCopies(p, s);
      ConsTail(p, StripDates(s));
    } else {
      assert p + s == s;
    }
  }

  /** `d` is one whole date run: three `\d{1,}-` groups. */
  ghost predicate IsDateRun(d: string) {
    exists a: nat, b: nat :: DateSplit(d, a, b, |d|)
  }

  /** A date run followed by anything is matched exactly, whatever follows it. */
  lemma DateRunMatches(d: string, s: string)
    requires IsDateRun(d)
    ensures DateMatch(d + s) == Some(|d|)
  {
    var a: nat, b: nat :| DateSplit(d, a, b, |d|);
    assert (d + s)[a..] == d[a..] + s;
    assert (d + s)[a + b..] == d[a + b..] + s;
    DateMatchComplete(d + s, a, b, |d|);
  }

  /**
    Because of the `g` flag, a date run is deleted not only at the start of
    the name: after text without digits, the run is
    gone and matching continues behind it.
   */
  lemma StripDatesDeletesRun(p: string, d: string, s: string)
    requires forall i :: 0 <= i < |p| ==> !IsDigit(p[i])
    requires IsDateRun(d)
    ensures StripDates(p + d + s) == p + StripDates(s)
  {
    assert p + d + s == p + (d + s);
    StripDatesSkipsText(p, d + s);
    DateRunMatches(d, s);
    assert (d + s)[|d|..] == s;
  }

  /** The characters of `s` that are neither digits nor hyphens, in order. */
  function Text(s: string): string {
    if s == [] then []
    else (if IsDigit(s[0]) || s[0] == '-' then [] else [s[0]]) + Text(s[1..])
  }

  lemma {:induction false} TextAppend(s: string, t: string)
    ensures Text(s + t) == Text(s) + Text(t)
    decreases |s|
  {
    if s != [] {
      assert (s + t)[1..] == s[1..] + t;
      TextAppend(s[1..], t);
    } else {
      assert s + t == t;
    }
  }

  /** A match is deleted and the scan goes on right after it. */
  lemma StripDatesDeletes(s: string, n: nat)
    requires s != [] && DateMatch(s) == Some(n)
    ensures StripDates(s) == StripDates(s[n..])
  {
  }

  /** Where no match starts, the character is copied and the scan moves on by one. */
  lemma StripDatesKeeps(s: string)
    requires s != [] && DateMatch(s) == None
    ensures StripDates(s) == [s[0]] + StripDates(s[1..])
  {
  }

  /** Digits and hyphens hold no text. */
  lemma {:induction false} TextSkipsDigitsAndHyphens(s: string, n: nat)
    requires n <= |s|
    requires forall i :: 0 <= i < n ==> IsDigit(s[i]) || s[i] == '-'
    ensures Text(s) == Text(s[n..])
    decreases n
  {
    if n > 0 {
      assert Text(s) == Text(s[1..]);
      assert s[1..][n - 1..] == s[n..];
      TextSkipsDigitsAndHyphens(s[1..], n - 1);
    }
  }

  lemma TextCons(s: string, t: string)
    requires s != []
    ensures Text([s[0]] + t) == Text([s[0]]) + Text(t) && Text(s) == Text([s[0]]) + Text(s[1..])
  {
    TextAppend([s[0]], t);
    TextAppend([s[0]], s[1..]);
    assert s == [s[0]] + s[1..];
  }

  /**
    The date pass deletes digits and hyphens only: every other character of
    the name survives it, in its order.
   */
  lemma {:induction false} StripDatesKeepsText(s: string)
    ensures Text(StripDates(s)) == Text(s)
    decreases |s|
  {
    if s != [] {
      match DateMatch(s)
      case Some(n) =>
        StripDatesDeletes(s, n);
        DateMatchChars(s, n);
        TextSkipsDigitsAndHyphens(s, n);
        StripDatesKeepsText(s[n..]);
      case None =>
        StripDatesKeeps(s);
        TextCons(s, StripDates(s[1..]));
        StripDatesKeepsText(s[1..]);
    }
  }

  // ---------------------------------------------------------------------
  // The whole prettifier

  /** A name with no hyphen and no ".md" is displayed as it is. */
  lemma PrettifyUnchanged(s: string)
    requires '-' !in s
    requires forall i: nat :: !OccursAt(s, Extension, i)
    ensures PrettifyName(s) == s
  {
    StripDatesNoHyphen(s);
    assert HyphensToSpaces(s) == s;
    RemoveFirstUnchanged(s, Extension);
  }

  /** Only the first ".md" goes, wherever it is. */
  lemma RemovesFirstExtensionOnly()
    ensures PrettifyName("a.md.md") == "a.md"
  {
    var s := "a.md.md";
    assert s[0..3][0] == 'a';
    PrettifyPlain(s, 1);
  }

  /** For a name without digits and hyphens, the prettifier only deletes the first ".md". */
  lemma PrettifyPlain(s: string, i: nat)
    requires forall k :: 0 <= k < |s| ==> !IsDigit(s[k]) && s[k] != '-'
    requires OccursAt(s, Extension, i)
    requires forall j: nat :: j < i ==> !OccursAt(s, Extension, j)
    ensures PrettifyName(s) == s[..i] + s[i + 3..]
  {
    assert '-' !in s;
    StripDatesNoHyphen(s);
    assert HyphensToSpaces(s) == s;
    RemoveFirstDeletesFirst(s, Extension, i);
  }

  lemma HyphensToSpacesAppend(s: string, t: string)
    ensures HyphensToSpaces(s + t) == HyphensToSpaces(s) + HyphensToSpaces(t)
  {
    var l, r := HyphensToSpaces(s + t), HyphensToSpaces(s) + HyphensToSpaces(t);
    forall i | 0 <= i < |l| ensures l[i] == r[i] {
      if i < |s| {
        assert (s + t)[i] == s[i];
      } else {
        assert (s + t)[i] == t[i - |s|];
      }
    }
  }

  /** No ".md" before the end of `h`, so the extension deleted is the trailing one. */
  lemma RemoveTrailingExtension(h: string)
    requires '.' !in h
    ensures RemoveFirst(h + Extension, Extension) == h
  {
    var s := h + Extension;
    assert s[|h|..|h| + 3] == Extension;
    forall j: nat | j < |h| ensures !OccursAt(s, Extension, j) {
      assert s[j] == h[j] && h[j] in h;
    }
    RemoveFirstDeletesFirst(s, Extension, |h|);
    assert s[..|h|] + s[|h| + 3..] == h;
  }

  /** A leading date run is deleted and the scan goes on right after it. */
  lemma StripDatesLeadingRun(d: string, s: string)
    requires IsDateRun(d)
    ensures StripDates(d + s) == StripDates(s)
  {
    DateRunMatches(d, s);
    assert (d + s)[|d|..] == s;
  }

  /** The date pass on a post's file name deletes exactly its leading date run. */
  lemma StripDatesDatedPost(d: string, p: string, q: string)
    requires IsDateRun(d)
    requires forall i :: 0 <= i < |p| ==> !IsDigit(p[i])
    requires '-' !in q
    ensures StripDates(d + p + q + Extension) == p + q + Extension
  {
    var tail := q + Extension;
    NoHyphenWithExtension(q);
    Regroup(d, p, q, Extension);
    StripDatesLeadingRun(d, p + tail);
    StripDatesSkipsText(p, tail);
    StripDatesNoHyphen(tail);
  }

  lemma NoHyphenWithExtension(q: string)
    requires '-' !in q
    ensures '-' !in q + Extension
  {
  }

  lemma Regroup(d: string, p: string, q: string, e: string)
    ensures d + p + q + e == d + (p + (q + e))
    ensures p + q + e == p + (q + e)
  {
  }

  lemma HyphensToSpacesSlug(p: string, q: string)
    requires '-' !in q
    ensures HyphensToSpaces(p + q + Extension) == HyphensToSpaces(p) + q + Extension
  {
    HyphensToSpacesAppend(p + q, Extension);
    HyphensToSpacesAppend(p, q);
    assert HyphensToSpaces(q) == q;
    assert HyphensToSpaces(Extension) == Extension;
  }

  lemma NoDotInSlug(p: string, q: string)
    requires '.' !in p && '.' !in q
    ensures '.' !in HyphensToSpaces(p) + q
  {
    var h := HyphensToSpaces(p) + q;
    forall i | 0 <= i < |h| ensures h[i] != '.' {
      if i < |p| {
        assert h[i] == HyphensToSpaces(p)[i] && p[i] in p;
      } else {
        assert h[i] == q[i - |p|] && q[i - |p|] in q;
      }
    }
  }

  /**
    The shape of a post's file name: a date run, then a slug whose first part
    holds no digits, then a part without hyphens, then ".md". Its display
    name is the slug with its hyphens turned into spaces.
   */
  lemma PrettifyDatedPost(d: string, p: string, q: string)
    requires IsDateRun(d)
    requires forall i :: 0 <= i < |p| ==> !IsDigit(p[i])
    requires '.' !in p && '-' !in q && '.' !in q
    ensures PrettifyName(d + p + q + Extension) == HyphensToSpaces(p) + q
  {
    StripDatesDatedPost(d, p, q);
    HyphensToSpacesSlug(p, q);
    NoDotInSlug(p, q);
    RemoveTrailingExtension(HyphensToSpaces(p) + q);
  }

  /**
    A name without a date: a slug whose first part holds no digits, a part
    without hyphens, then ".md". It is displayed as the slug with its
    hyphens turned into spaces.
   */
  lemma PrettifyUndated(p: string, q: string)
    requires forall i :: 0 <= i < |p| ==> !IsDigit(p[i])
    requires '.' !in p && '-' !in q && '.' !in q
    ensures PrettifyName(p + q + Extension) == HyphensToSpaces(p) + q
  {
    var tail := q + Extension;
    assert '-' !in tail;
    assert p + q + Extension == p + tail;
    StripDatesSkipsText(p, tail);
    StripDatesNoHyphen(tail);
    HyphensToSpacesSlug(p, q);
    NoDotInSlug(p, q);
    RemoveTrailingExtension(HyphensToSpaces(p) + q);
  }

  lemma SampleNoDate()
    ensures PrettifyName("no-date-here.md") == "no date here"
  {
    assert "no-date-here.md" == "no-date-here" + "" + Extension;
    PartsNoDate();
  }

  lemma PartsNoDate()
    ensures PrettifyName("no-date-here" + "" + Extension) == "no date here"
  {
    WordsNoDate();
    PrettifyUndated("no-date-here", "");
    SlugNoDate();
  }

  lemma WordsNoDate()
    ensures (forall i :: 0 <= i < |"no-date-here"| ==> !IsDigit("no-date-here"[i])) && '.' !in "no-date-here"
  {
  }

  lemma SlugNoDate()
    ensures HyphensToSpaces("no-date-here") == "no date here"
  {
    var s := "no-date-here";
    assert |HyphensToSpaces(s)| == |s|;
  }

  /**
    The scan resumes behind a deleted run, so a date run that overlaps it is
    not deleted: "1-1-1-1-" holds the run "1-1-1-" at index 2 as well as at
    index 0, and only the first one goes.
   */
  lemma OverlappingRunSurvives()
    ensures IsDateRun("1-1-1-") && "1-1-1-1-"[2..] == "1-1-1-"
    ensures StripDates("1-1-1-1-") == "1-"
  {
    OneRun();
    var s := "1-1-1-1-";
    assert s == "1-1-1-" + "1-";
    DateRunMatches("1-1-1-", "1-");
    StripDatesDeletes(s, 6);
    assert s[6..] == "1-";
    LoneGroupKept();
  }

  lemma OneRun()
    ensures IsDateRun("1-1-1-")
  {
    DateRunOf("1", "1", "1");
    assert "1" + "-" + "1" + "-" + "1" + "-" == "1-1-1-";
  }

  /** One `\d{1,}-` group alone is no date run and is kept. */
  lemma LoneGroupKept()
    ensures StripDates("1-") == "1-"
  {
    var s := "1-";
    assert DateField(s[2..]) == None;
    StripDatesKeeps(s);
    assert s[1..] == "-";
    StripDatesKeeps("-");
    assert "-"[1..] == "";
  }

  // The sample file names of the sidebar and their display names. Each is
  // first proved on the name split into its parts, then on the name itself.

  /** Three runs of digits, each closed by a hyphen, make a date run. */
  lemma DateRunOf(y: string, m: string, d: string)
    requires y != [] && forall i :: 0 <= i < |y| ==> IsDigit(y[i])
    requires m != [] && forall i :: 0 <= i < |m| ==> IsDigit(m[i])
    requires d != [] && forall i :: 0 <= i < |d| ==> IsDigit(d[i])
    ensures IsDateRun(y + "-" + m + "-" + d + "-")
  {
    var s := y + "-" + m + "-" + d + "-";
    var a, b := |y| + 1, |m| + 1;
    assert s[..a] == y + "-";
    assert s[a..][..b] == m + "-";
    assert s[a + b..] == d + "-";
    assert DateSplit(s, a, b, |s|);
  }

  lemma SampleFirstPost()
    ensures PrettifyName("2014-02-04-my-first-post.md") == "my first post"
  {
    assert "2014-02-04-my-first-post.md" == "2014-02-04-" + "my-first-post" + "" + Extension;
    PartsFirstPost();
  }

  lemma WordsFirstPost()
    ensures (forall i :: 0 <= i < |"my-first-post"| ==> !IsDigit("my-first-post"[i])) && '.' !in "my-first-post"
  {
  }

  lemma PartsFirstPost()
    ensures PrettifyName("2014-02-04-" + "my-first-post" + "" + Extension) == "my first post"
  {
    assert "2014-02-04-" == "2014" + "-" + "02" + "-" + "04" + "-";
    DateRunOf("2014", "02", "04");
    WordsFirstPost();
    PrettifyDatedPost("2014-02-04-", "my-first-post", "");
    SlugFirstPost();
  }

  lemma SlugFirstPost()
    ensures HyphensToSpaces("my-first-post") == "my first post"
  {
    var s := "my-first-post";
    assert |HyphensToSpaces(s)| == |s|;
  }

  lemma SampleSecondPost()
    ensures PrettifyName("2014-02-06-second-post.md") == "second post"
  {
    assert "2014-02-06-second-post.md" == "2014-02-06-" + "second-post" + "" + Extension;
    PartsSecondPost();
  }

  lemma WordsSecondPost()
    ensures (forall i :: 0 <= i < |"second-post"| ==> !IsDigit("second-post"[i])) && '.' !in "second-post"
  {
  }

  lemma PartsSecondPost()
    ensures PrettifyName("2014-02-06-" + "second-post" + "" + Extension) == "second post"
  {
    assert "2014-02-06-" == "2014" + "-" + "02" + "-" + "06" + "-";
    DateRunOf("2014", "02", "06");
    WordsSecondPost();
    PrettifyDatedPost("2014-02-06-", "second-post", "");
    SlugSecondPost();
  }

  lemma SlugSecondPost()
    ensures HyphensToSpaces("second-post") == "second post"
  {
    var s := "second-post";
    assert |HyphensToSpaces(s)| == |s|;
  }

  /** The digits of "2015" are not followed by a date run, so they stay. */
  lemma SampleHappy2015()
    ensures PrettifyName("2015-01-01-happy-2015.md") == "happy 2015"
  {
    assert "2015-01-01-happy-2015.md" == "2015-01-01-" + "happy-" + "2015" + Extension;
    PartsHappy2015();
  }

  lemma WordsHappy2015()
    ensures (forall i :: 0 <= i < |"happy-"| ==> !IsDigit("happy-"[i])) && '.' !in "happy-"
  {
  }

  lemma PartsHappy2015()
    ensures PrettifyName("2015-01-01-" + "happy-" + "2015" + Extension) == "happy 2015"
  {
    assert "2015-01-01-" == "2015" + "-" + "01" + "-" + "01" + "-";
    DateRunOf("2015", "01", "01");
    WordsHappy2015();
    PrettifyDatedPost("2015-01-01-", "happy-", "2015");
    SlugHappy();
  }

  lemma SlugHappy()
    ensures HyphensToSpaces("happy-") + "2015" == "happy 2015"
  {
    var s := "happy-";
    assert |HyphensToSpaces(s)| == |s|;
  }

  lemma SampleHaventPosted()
    ensures PrettifyName("2017-07-05-havent-posted-in-a-while.md") == "havent posted in a while"
  {
    assert "2017-07-05-havent-posted-in-a-while.md" == "2017-07-05-" + "havent-posted-in-a-while" + "" + Extension;
    PartsHaventPosted();
  }

  lemma WordsHaventPosted()
    ensures (forall i :: 0 <= i < |"havent-posted-in-a-while"| ==> !IsDigit("havent-posted-in-a-while"[i])) && '.' !in "havent-posted-in-a-while"
  {
  }

  lemma PartsHaventPosted()
    ensures PrettifyName("2017-07-05-" + "havent-posted-in-a-while" + "" + Extension) == "havent posted in a while"
  {
    assert "2017-07-05-" == "2017" + "-" + "07" + "-" + "05" + "-";
    DateRunOf("2017", "07", "05");
    WordsHaventPosted();
    PrettifyDatedPost("2017-07-05-", "havent-posted-in-a-while", "");
    SlugHaventPosted();
  }

  lemma SlugHaventPosted()
    ensures HyphensToSpaces("havent-posted-in-a-while") == "havent posted in a while"
  {
    var s := "havent-posted-in-a-while";
    assert |HyphensToSpaces(s)| == |s|;
  }
}
