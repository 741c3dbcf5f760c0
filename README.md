# jekyll-manager sidebar model

jekyll-manager is a small Electron shell for browsing a Jekyll site. Its
renderer (`renderer.js`) reads the site's `_config.yml` and the listings of
the collection directories, and fills the sidebar: the site title, one
section per collection ("posts" first), and one button per post. Each button
shows a display name derived from the file name by `prettifyName`. It reads
the entries at the site root and labels the settings file, the assets
directory and the built site.

This project models, in Dafny, how the renderer turns a parsed configuration
and directory listings, given as inputs, into the sidebar:

- `options.dfy`: module `Options`, the `Option` datatype.
- `prettify.dfy`: module `Prettify`, `prettifyName` as pure functions. The
  global date regex `/\d{1,}-\d{1,}-\d{1,}-/g` is a left-to-right recursive
  scan (`StripDates`). `/-/g` becomes `HyphensToSpaces`. The single
  `replace('.md', '')` becomes `RemoveFirst`, which deletes the first
  occurrence only.
- `sidebar.dfy`: module `Sidebar`. It covers `setSiteTitle`'s fallback,
  `readConfigFile`'s guard, `getCollections` (the `unshift` and the index
  loop) and `getPostsInCollection` (the in-place `reverse` on an array and
  the loop that makes one button per name). The title and the section names
  are functions; the loops are methods, proved against the predicates
  `ListsPosts` and `SectionsFor`.
- `root_directory.dfy`: module `RootDirectory`, the label selection of
  `parseRootDirectory`. `String.prototype.match` with a string argument is a
  regex search, so the `.` in `'_config.yml'` is a wildcard for one UTF-16
  code unit that is not a line terminator. Between two literal characters
  that means any code point below U+10000 except a line terminator.

The file system is a `map` from a directory path to the names
`readdirSync` returns there. A path missing from the map is one where
`readdirSync` throws. The code does not catch that exception, so the
section loop stops at that point. The section whose directory is missing
keeps its header and gets no posts. The outcome `ListingMissing(path)`
records the throw.

Behaviour of the code that is easy to misread:

- Every date run the left-to-right scan meets is deleted, not only a leading
  one. After a deletion the scan resumes behind it, so a run that overlaps one
  already deleted can survive in part: `"1-1-1-1-"` becomes `"1-"`.
- A collection directory that cannot be listed is not treated as an empty
  list: `readdirSync` throws, and the `if (posts)` test is always true for
  an array.
- A missing or falsy `collections` value builds no sections at all, not
  even "posts".
- An empty `collections` mapping builds only "posts".
- Posts appear in the reverse of the listing order, not in a sorted order.

## Model

| member | source | states |
|---|---|---|
| `Prettify.DigitRun` | renderer.js:235 | the `\d{1,}` run at the start of a string is the longest prefix of digits: every character before it is a digit, and the next one is not |
| `Prettify.DateFieldExact` | renderer.js:235 | one `\d{1,}-` group of length k is matched exactly when the first k characters are digits closed by a hyphen; the group is unique, so backtracking cannot find another |
| `Prettify.DateMatch` | renderer.js:235 | one attempt of the date regex at the start of a string: the three groups one after the other, each the greedy digit run closed by a hyphen; a match found is at least six characters long and lies within the string |
| `Prettify.DateMatchSplit` | renderer.js:235 | a match found at a position is three digit groups, each ending in a hyphen |
| `Prettify.DateMatchComplete` | renderer.js:235 | whenever the string starts with three such groups, the regex matches there, and every way of splitting them gives the same match length |
| `Prettify.StripDates` | renderer.js:235 | the global date-run deletion never lengthens the name |
| `Prettify.HyphensToSpaces` | renderer.js:236 | `/-/g` replaced by a space keeps the length and leaves no hyphen |
| `Prettify.FindFirst` | renderer.js:237 | the index found is an occurrence of the pattern and no occurrence comes before it; with no occurrence, nothing is found |
| `Prettify.RemoveFirst` | renderer.js:237 | `replace` with a string pattern and an empty replacement: the first occurrence found is cut out, so the string comes back either unchanged or shorter by exactly the pattern's length |
| `Prettify.RemoveFirstShrinks` | renderer.js:237 | the string-pattern `replace` adds no character and never lengthens the string |
| `Prettify.RemoveFirstUnchanged` | renderer.js:237 | without an occurrence of the pattern the string is returned unchanged |
| `Prettify.RemoveFirstDeletesFirst` | renderer.js:237 | only the first occurrence is deleted, wherever it is; later ones stay |
| `Prettify.PrettifyName` | renderer.js:233-239 | `prettifyName`: the date pass, then hyphens to spaces, then the first ".md" deleted, in that order; the display name is never longer than the file name |
| `Prettify.PrettifyNameShape` | renderer.js:233-239 | the display name never contains a hyphen and is never longer than the file name |
| `Prettify.DateMatchChars` | renderer.js:235 | a date match is at least six characters long, made only of digits and hyphens, and ends in a hyphen |
| `Prettify.StripDatesNoHyphen` | renderer.js:235 | a name without a hyphen comes through the date pass unchanged |
| `Prettify.StripDatesSkipsText` | renderer.js:235 | the pass is unanchored: text without digits is copied and matching resumes after it |
| `Prettify.DateRunOf` | renderer.js:235 | any three non-empty digit runs, each closed by a hyphen, form a date run such as "2014-02-04-" |
| `Prettify.DateRunMatches` | renderer.js:235 | a whole date run is matched exactly, whatever follows it |
| `Prettify.StripDatesLeadingRun` | renderer.js:235 | a leading date run is deleted, and the scan goes on right behind it |
| `Prettify.StripDatesDeletesRun` | renderer.js:235 | because of the `g` flag, a date run after text without digits is deleted too, not only a leading one |
| `Prettify.OverlappingRunSurvives` | renderer.js:235 | the scan resumes behind a deleted run, so "1-1-1-1-", which holds the date run "1-1-1-" at index 0 and at index 2, becomes "1-" |
| `Prettify.StripDatesKeepsText` | renderer.js:235 | the date pass deletes only digits and hyphens: all other characters survive, in order |
| `Prettify.PrettifyUnchanged` | renderer.js:233-239 | a name with no hyphen and no ".md" is displayed as it is |
| `Prettify.PrettifyPlain` | renderer.js:237 | for a name without digits and hyphens, only the first ".md" is deleted, wherever it occurs |
| `Prettify.RemovesFirstExtensionOnly` | renderer.js:237 | "a.md.md" is displayed as "a.md" |
| `Prettify.RemoveTrailingExtension` | renderer.js:237 | when the text before the trailing ".md" has no '.', that trailing ".md" is the one deleted |
| `Prettify.StripDatesDatedPost` | renderer.js:235 | for a dated post name, the date pass deletes exactly the leading date run |
| `Prettify.PrettifyUndated` | renderer.js:233-239 | a name without a date run, a slug whose first part holds no digits, a part without hyphens and ".md", displays as the slug with spaces for hyphens |
| `Prettify.SampleNoDate` | renderer.js:233-239 | "no-date-here.md" displays as "no date here" |
| `Prettify.PrettifyDatedPost` | renderer.js:233-239 | a date run, a slug and ".md" display as the slug with spaces for hyphens; digits in the slug not followed by a date run survive |
| `Prettify.SampleFirstPost` | renderer.js:33 | "2014-02-04-my-first-post.md" displays as "my first post" |
| `Prettify.SampleSecondPost` | renderer.js:34 | "2014-02-06-second-post.md" displays as "second post" |
| `Prettify.SampleHappy2015` | renderer.js:35 | "2015-01-01-happy-2015.md" displays as "happy 2015": the trailing 2015 is kept |
| `Prettify.SampleHaventPosted` | renderer.js:36 | "2017-07-05-havent-posted-in-a-while.md" displays as "havent posted in a while" |
| `Sidebar.SiteTitle` | renderer.js:165 | the title shown is never empty: it is the configured title when that is a non-empty string, and otherwise 'new site!' (renderer.js:31) |
| `Sidebar.EntryFor` | renderer.js:194-196 | one post button: its text is the prettified file name, never longer than the name, and its path is the collection's directory followed by the file name, so it ends with the name |
| `Sidebar.Reverse` | renderer.js:192 | the listing array is reversed in place: element k is the old element n-1-k |
| `Sidebar.PostsInCollection` | renderer.js:188-202 | exactly one button per listed name; button k shows the prettified name of the (n-1-k)-th name and carries the path directory + "/_" + collection + "/" + name |
| `Sidebar.SectionNames` | renderer.js:170-171 | the names are "posts" and then the keys in order. There is one more name than there are keys, and a "posts" key is kept, so "posts" appears once more than among the keys |
| `Sidebar.GetCollections` | renderer.js:169-186 | one section per name, in order, each holding its collection's buttons. At the first directory that cannot be listed, that section keeps its header with no posts and the loop stops. The outcome is complete exactly when every directory can be listed |
| `Sidebar.ReadConfigFile` | renderer.js:148-159 | the title is always set. Without a truthy `collections` value no section is built, not even "posts"; otherwise the sections are those of `getCollections` |
| `Sidebar.ListsPostsUnique` | renderer.js:190-199 | a listing determines its buttons |
| `Sidebar.SectionsDeterministic` | renderer.js:169-186 | the same configuration and listings always give the same sections and outcome |
| `Sidebar.PostsSectionFirst` | renderer.js:170-173 | whenever sections are built, the first one is "posts", even when its directory cannot be listed |
| `Sidebar.SectionsFollowKeys` | renderer.js:170-185 | when every directory can be listed, section j+1 is key j. A key "posts" gives two sections named "posts" |
| `Sidebar.TwoPostsNewestFirst` | renderer.js:192-196 | the listing ["2014-02-04-a.md", "2015-01-01-b.md"] is shown b first, then a |
| `RootDirectory.Search` | renderer.js:85-91 | `element.match(pattern)` with a string pattern: the indices are tried from the left until the pattern matches at one; a match needs the name to be at least as long as the pattern |
| `RootDirectory.SearchFinds` | renderer.js:85-91 | `match` with a string pattern is truthy exactly when the pattern matches at some index, with '.' matching one code unit that is not a line terminator (a code point below U+10000) |
| `RootDirectory.SearchLiteral` | renderer.js:88-91 | a pattern without '.', such as 'assets' or '_site', is a plain substring search |
| `RootDirectory.RootLabel` | renderer.js:85-93 | the branch chain, in its priority order: the label is one of "Site Settings", "Site Assets", "Site Files" or empty; it is "Site Settings" exactly when the name matches "_config.yml"; "Site Assets" exactly when it matches "assets" but not "_config.yml"; "Site Files" exactly when it matches "_site" and neither of the others; empty exactly when none of the three matches |
| `RootDirectory.RootLabelExamples` | renderer.js:85-93 | labels are tried in order: settings, then assets, then site files. "assets_site" is labelled as assets, and a name matching none gets no label |
| `RootDirectory.ConfigDotIsWildcard` | renderer.js:85 | "_config_yml" is labelled as the settings file; a line break in place of the '.' does not match |
| `RootDirectory.ConfigDotIsOneUnit` | renderer.js:85-91 | a code point from U+10000 up in the place of the '.' is two UTF-16 code units, so "_config" + U+1F600 + "yml" matches none of the patterns and gets no label |
| `RootDirectory.ParseRootDirectory` | renderer.js:80-100 | as written: each entry's button gets the label of the first branch that matches, but no button is ever appended |
| `RootDirectory.Buttons` | renderer.js:96-98 | the intended buttons are at most one per entry, and each is one of the three labels |
| `RootDirectory.ParseRootDirectoryIntended` | renderer.js:80-100 | corrected: the labels are the same, and the buttons appended are exactly the labelled entries' labels, in order |
| `RootDirectory.SettingsButtonLost` | renderer.js:85-98 | with the append in place, a root holding "_config.yml" gets the "Site Settings" button |
| `RootDirectory.ButtonsEmpty` | renderer.js:94-98 | with the append in place, no button is appended exactly when no entry gets a label |

## Left out

- Electron's `remote`, `Menu`, `dialog.showOpenDialog` and `window.localStorage` (`init`, `selectNewSiteDirectory`) are host and UI calls.
- `getBaseDirectoryListing` (asynchronous `fs.readdir`) is left out, because it only wires `parseRootDirectory` and `readConfigFile` to the file system. The root listing is an input of `ParseRootDirectory` instead.
- `fs.readFileSync` of `_config.yml` and `yaml.parse` are left out: the parsed configuration is an input. The uncaught exception for a missing file is not modelled. Neither is the `TypeError` that a null parse result (an empty file) causes at `parsedConfig.title`.
- Sidebar.SiteTitle: models string titles only. A non-string value (a number or boolean from YAML) is shown by the code as its text, or replaced by the default when falsy. The model does not cover that.
- Sidebar.ReadConfigFile: the model covers one call on an empty sidebar. The code never clears the sections (only the root file list is emptied, renderer.js:73), so after a second site directory is chosen `getCollections` adds a second set of sections after the first, and the `querySelector` lookup puts the new buttons into the old lists of the same name. That accumulation is not modelled.
- Sidebar.ReadConfigFile: collection keys are a given sequence. JavaScript's `Object.keys` order (integer-like keys first) is not modelled. Neither are the index keys a truthy non-object `collections` value would give.
- Sidebar.GetCollections: the DOM lookup `querySelector('[data-file-list=...]')` is not modelled. With a duplicate name it finds the first list of that name, so the second section's buttons land in the first section's list. With an unquoted odd key the selector fails. The model gives each section its own list.
- RootDirectory.SearchFinds: strings are sequences of code points, and `CharMatches` lets '.' take one code point below U+10000. That is exact for the three patterns used, where every '.' stands between two literal characters. For a '.' at either end of a pattern, JavaScript could also match half of a surrogate pair, and the model does not cover that.
- `createPostList` (buttons for the hard-coded sample names), `destroyChildren`, `accordionInit`, `accordionToggle`, `openConfigFile`, the click listeners and all console logging are DOM or UI glue.
- `openFile` (`readFileSync` plus `markdown.toHTML`) is left out, because it calls a foreign Markdown library.
- Sidebar.PostsInCollection: the button keeps only its text and path, as the code does; the raw file name is not stored separately.

## Findings

| source | as written | input that shows it | evidently intended | confidence | as-written member | corrected member |
|---|---|---|---|---|---|---|
| renderer.js:94-98 | `else if (element.match)` has no body of its own, so the following `if (button.innerText) { appendChild }` becomes its body. It runs only when no branch set a label, and then the label is empty. | root listing `["_config.yml"]`: no button is appended (`RootDirectory.ParseRootDirectory` ensures `appended == []` for every listing) | append the button whenever one of the three branches gave it a label (`RootDirectory.SettingsButtonLost`: the "Site Settings" button) | not executed; read from the code's control flow | `RootDirectory.ParseRootDirectory` | `RootDirectory.ParseRootDirectoryIntended` |
