/**
  The labelling of the entries at the site's root (`parseRootDirectory`):
  each name is tested with `String.prototype.match`, which turns its string
  argument into a regular expression and searches for it anywhere in the
  name. Only '.' is special in the three patterns used; it matches one
  UTF-16 code unit that is not a line terminator.

  A Dafny string holds code points, not UTF-16 code units. A code point
  from U+10000 up is two code units in JavaScript, and no literal character
  of the patterns matches either half. So where a '.' stands between two
  literal characters, as in "_config.yml", it matches exactly the code
  points below U+10000 that are not line terminators.
 */
module RootDirectory {
  import opened Prettify

  /** The characters the regular-expression '.' does not match. */
  predicate IsLineTerminator(c: char) {
    c == '\n' || c == '\r' || c == '\U{2028}' || c == '\U{2029}'
  }

  /** A code point that is a single UTF-16 code unit. */
  predicate IsSingleUnit(c: char) {
    c < '\U{10000}'
  }

  /** One pattern character against one character of the name. */
  predicate CharMatches(p: char, c: char) {
    if p == '.' then IsSingleUnit(c) && !IsLineTerminator(c) else c == p
  }

  /** The pattern matches `s` at index `i`. */
  predicate MatchesAt(s: string, pat: string, i: nat) {
    i + |pat| <= |s| && forall j :: 0 <= j < |pat| ==> CharMatches(pat[j], s[i + j])
  }

  /** `s.match(pat)` is truthy: the scan tries every index from the left. */
  function Search(s: string, pat: string): (r: bool)
    ensures r ==> |pat| <= |s|
    decreases |s|
  {
    if |s| < |pat| then false
    else if MatchesAt(s, pat, 0) then true
    else Search(s[1..], pat)
  }

  /** A match at index `i + 1` of `s` is a match at index `i` of `s[1..]`, and back. */
  lemma MatchesAtTail(s: string, pat: string, i: nat)
    requires s != []
    ensures MatchesAt(s, pat, i + 1) <==> MatchesAt(s[1..], pat, i)
  {
    if i + 1 + |pat| <= |s| {
      forall j | 0 <= j < |pat| ensures CharMatches(pat[j], s[1..][i + j]) == CharMatches(pat[j], s[i + 1 + j]) {
        assert s[1..][i + j] == s[i + 1 + j];
      }
    }
  }

  /** The search finds a match exactly when the pattern matches at some index. */
  lemma {:induction false} SearchFinds(s: string, pat: string)
    ensures Search(s, pat) <==> exists i: nat :: MatchesAt(s, pat, i)
    decreases |s|
  {
    if |s| < |pat| {
    } else if MatchesAt(s, pat, 0) {
    } else {
      SearchFinds(s[1..], pat);
      if Search(s, pat) {
        var i: nat :| MatchesAt(s[1..], pat, i);
        MatchesAtTail(s, pat, i);
      } else {
        forall i: nat ensures !MatchesAt(s, pat, i) {
          if i > 0 {
            MatchesAtTail(s, pat, i - 1);
          }
        }
      }
    }
  }

  const ConfigPattern: string := "_config.yml"
  const AssetsPattern: string := "assets"
  const SitePattern: string := "_site"

  const SettingsLabel: string := "Site Settings"
  const AssetsLabel: string := "Site Assets"
  const FilesLabel: string := "Site Files"

  /** The `innerText` a root entry's button gets; the empty string when no branch sets one. */
  function RootLabel(name: string): (r: string)
    ensures r == "" || r == SettingsLabel || r == AssetsLabel || r == FilesLabel
    ensures Search(name, ConfigPattern) ==> r == SettingsLabel
    ensures r == "" <==> !Search(name, ConfigPattern) && !Search(name, AssetsPattern) && !Search(name, SitePattern)
    ensures r == SettingsLabel <==> Search(name, ConfigPattern)
    ensures r == AssetsLabel <==> !Search(name, ConfigPattern) && Search(name, AssetsPattern)
    ensures r == FilesLabel <==> !Search(name, ConfigPattern) && !Search(name, AssetsPattern) && Search(name, SitePattern)
  {
    if Search(name, ConfigPattern) then SettingsLabel
    else if Search(name, AssetsPattern) then AssetsLabel
    else if Search(name, SitePattern) then FilesLabel
    else ""
  }

  /** `element.match` names a method of every string, so the test on it is always truthy. */
  const HasMatchMethod: bool := true

  /**
    `parseRootDirectory(directory)` as written. Every entry gets a button and
    its label, but the `if (button.innerText)` that appends the button is the
    body of the last `else if (element.match)`: it runs only when no label
    was set, and then the label is empty. No button is ever appended.
   */
  method ParseRootDirectory(directory: seq<string>) returns (labels: seq<string>, appended: seq<string>)
    ensures |labels| == |directory|
    ensures forall i :: 0 <= i < |directory| ==> labels[i] == RootLabel(directory[i])
    ensures appended == []
  {
    labels, appended := [], [];
    for index := 0 to |directory|
      invariant |labels| == index
      invariant forall i :: 0 <= i < index ==> labels[i] == RootLabel(directory[i])
      invariant appended == []
    {
      var element := directory[index];
      var innerText := "";
      if Search(element, ConfigPattern) {
        innerText := SettingsLabel;
      } else if Search(element, AssetsPattern) {
        innerText := AssetsLabel;
      } else if Search(element, SitePattern) {
        innerText := FilesLabel;
      } else if HasMatchMethod {
        if |innerText| != 0 {
          appended := appended + [innerText];
        }
      }
      labels := labels + [innerText];
    }
  }

  /** The label of every entry, in order. */
  function Labels(directory: seq<string>): seq<string> {
    seq(|directory|, i requires 0 <= i < |directory| => RootLabel(directory[i]))
  }

  /** The labels that are not empty, in order. */
  function Labelled(labels: seq<string>): (r: seq<string>)
    ensures |r| <= |labels|
  {
    if labels == [] then []
    else
      var text := labels[|labels| - 1];
      Labelled(labels[..|labels| - 1]) + (if |text| != 0 then [text] else [])
  }

  /** One more entry gives one more label. */
  lemma LabelsSnoc(directory: seq<string>, index: nat)
    requires index < |directory|
    ensures Labels(directory[..index + 1]) == Labels(directory[..index]) + [RootLabel(directory[index])]
  {
  }

  /** A label added at the end is kept exactly when it is not empty. */
  lemma LabelledSnoc(labels: seq<string>, text: string)
    ensures Labelled(labels + [text]) == Labelled(labels) + (if |text| != 0 then [text] else [])
  {
    assert (labels + [text])[..|labels|] == labels;
  }

  /** The buttons the sidebar is evidently meant to get: one per labelled entry, in order. */
  function Buttons(directory: seq<string>): (r: seq<string>)
    ensures |r| <= |directory|
    ensures forall b :: b in r ==> b in [SettingsLabel, AssetsLabel, FilesLabel]
  {
    LabelledKeeps(Labels(directory));
    Labelled(Labels(directory))
  }

  /** Only labels that are not empty are kept. */
  lemma {:induction false} LabelledKeeps(labels: seq<string>)
    ensures forall b :: b in Labelled(labels) ==> b in labels && b != ""
    decreases |labels|
  {
    if labels != [] {
      var init := labels[..|labels| - 1];
      LabelledKeeps(init);
      assert forall b :: b in init ==> b in labels;
    }
  }

  /** `parseRootDirectory` with the button appended whenever a branch gave it a label. */
  method ParseRootDirectoryIntended(directory: seq<string>) returns (labels: seq<string>, appended: seq<string>)
    ensures |labels| == |directory|
    ensures forall i :: 0 <= i < |directory| ==> labels[i] == RootLabel(directory[i])
    ensures appended == Buttons(directory)
  {
    labels, appended := [], [];
    for index := 0 to |directory|
      invariant |labels| == index
      invariant labels == Labels(directory[..index])
      invariant appended == Labelled(labels)
    {
      var element := directory[index];
      var innerText := "";
      if Search(element, ConfigPattern) {
        innerText := SettingsLabel;
      } else if Search(element, AssetsPattern) {
        innerText := AssetsLabel;
      } else if Search(element, SitePattern) {
        innerText := FilesLabel;
      }
      assert innerText == RootLabel(element);
      LabelsSnoc(directory, index);
      LabelledSnoc(labels, innerText);
      if |innerText| != 0 {
        appended := appended + [innerText];
      }
      labels := labels + [innerText];
    }
    assert labels == Labels(directory);
  }

  // ---------------------------------------------------------------------
  // Properties of the labelling

  /** Without a '.', a pattern is searched for as a plain substring. */
  lemma SearchLiteral(s: string, pat: string)
    requires '.' !in pat
    ensures Search(s, pat) <==> exists i: nat :: OccursAt(s, pat, i)
  {
    SearchFinds(s, pat);
    forall i: nat ensures MatchesAt(s, pat, i) <==> OccursAt(s, pat, i) {
      if MatchesAt(s, pat, i) {
        forall j | 0 <= j < |pat| ensures s[i..i + |pat|][j] == pat[j] {
          assert pat[j] in pat;
        }
      }
      if OccursAt(s, pat, i) {
        forall j | 0 <= j < |pat| ensures CharMatches(pat[j], s[i + j]) {
          assert pat[j] in pat;
          assert s[i..i + |pat|][j] == s[i + j];
        }
      }
    }
  }

  /** A pattern whose first character is literal and absent from `s` is not found. */
  lemma AbsentFirstChar(s: string, pat: string)
    requires pat != [] && pat[0] != '.' && pat[0] !in s
    ensures !Search(s, pat)
  {
    SearchFinds(s, pat);
    forall i: nat | i + |pat| <= |s| ensures !MatchesAt(s, pat, i) {
      assert s[i + 0] in s;
    }
  }

  /** The branches are tried in order: the settings file, then assets, then the built site. */
  lemma RootLabelExamples()
    ensures RootLabel("_config.yml") == SettingsLabel
    ensures RootLabel("assets") == AssetsLabel
    ensures RootLabel("_site") == FilesLabel
    ensures RootLabel("assets_site") == AssetsLabel
    ensures RootLabel("index.md") == ""
  {
    assert MatchesAt("_config.yml", ConfigPattern, 0);
    assert MatchesAt("assets", AssetsPattern, 0);
    assert MatchesAt("_site", SitePattern, 0);
    AssetsBeforeSite();
    NoLabelForPage();
  }

  /** "assets_site" also holds "_site", but the assets branch comes first. */
  lemma AssetsBeforeSite()
    ensures RootLabel("assets_site") == AssetsLabel
  {
    assert !CharMatches(ConfigPattern[0], "assets_site"[0]);
    assert MatchesAt("assets_site", AssetsPattern, 0);
  }

  lemma NoLabelForPage()
    ensures RootLabel("index.md") == ""
  {
    AbsentFirstChar("index.md", AssetsPattern);
    AbsentFirstChar("index.md", SitePattern);
  }

  /**
    The '.' of "_config.yml" is a wildcard: "_config_yml" is labelled as the
    settings file too, but not a name with a line break in that place.
   */
  lemma ConfigDotIsWildcard()
    ensures RootLabel("_config_yml") == SettingsLabel
    ensures !Search("_config\nyml", ConfigPattern)
  {
    assert MatchesAt("_config_yml", ConfigPattern, 0);
    assert !CharMatches(ConfigPattern[7], "_config\nyml"[7]);
  }

  /**
    A code point from U+10000 up in the place of the '.' is two code units:
    the '.' takes the first and 'y' fails on the second, so the name gets no
    label at all.
   */
  lemma ConfigDotIsOneUnit()
    ensures RootLabel("_config\U{1F600}yml") == ""
  {
    var s := "_config\U{1F600}yml";
    assert !CharMatches(ConfigPattern[7], s[7]);
    AbsentFirstChar(s, AssetsPattern);
    SiteAbsentAfterStart();
  }

  /** In that name the only '_' is the first character and 'c' follows it, so "_site" is nowhere. */
  lemma SiteAbsentAfterStart()
    ensures !Search("_config\U{1F600}yml", SitePattern)
  {
    var s := "_config\U{1F600}yml";
    assert !CharMatches(SitePattern[1], s[1]);
    forall i: nat ensures !MatchesAt(s, SitePattern, i) {
      if 0 < i && i + |SitePattern| <= |s| {
        assert !CharMatches(SitePattern[0], s[i + 0]);
      }
    }
    SearchFinds(s, SitePattern);
  }

  /**
    As written, a site root holding "_config.yml" gets no button at all,
    while the intended code would append the "Site Settings" button.
   */
  lemma SettingsButtonLost()
    ensures Buttons(["_config.yml"]) == [SettingsLabel]
  {
    assert MatchesAt("_config.yml", ConfigPattern, 0);
    assert ["_config.yml"][..0] == [];
  }

  /** No label survives exactly when every label is empty. */
  lemma {:induction false} LabelledEmpty(labels: seq<string>)
    ensures |Labelled(labels)| == 0 <==> forall i :: 0 <= i < |labels| ==> |labels[i]| == 0
    decreases |labels|
  {
    if labels != [] {
      var n := |labels| - 1;
      var init := labels[..n];
      LabelledEmpty(init);
      assert forall i :: 0 <= i < n ==> init[i] == labels[i];
    }
  }

  /** The intended buttons: none exactly when no entry gets a label. */
  lemma ButtonsEmpty(directory: seq<string>)
    ensures Buttons(directory) == [] <==> forall i :: 0 <= i < |directory| ==> RootLabel(directory[i]) == ""
  {
    var labels := Labels(directory);
    LabelledEmpty(labels);
    assert forall i :: 0 <= i < |directory| ==> labels[i] == RootLabel(directory[i]);
  }
}
