/**
  How the sidebar is filled from a site's parsed `_config.yml` and the
  listings of its collection directories (`readConfigFile`, `setSiteTitle`,
  `getCollections` and `getPostsInCollection`).

  The parsed configuration and the directory listings are inputs: the file
  system is a map from a directory path to the names `readdirSync` lists
  there, and a path that is not in the map is one where `readdirSync`
  throws.
 */
module Sidebar {
  import opened Options
  import opened Prettify

  /**
    The parsed configuration, as far as the sidebar looks at it. `title` is
    None when the key is absent or its value is null; `collections` is None
    when the key is absent or its value is falsy, and otherwise holds the
    keys of the collections mapping in their order.
   */
  datatype SiteConfig = SiteConfig(title: Option<string>, collections: Option<seq<string>>)

  /** One post button: its text and its `data-file-name` path. */
  datatype PostEntry = PostEntry(text: string, path: string)

  /** One section: its `h2` header text and the buttons of its list. */
  datatype Section = Section(name: string, entries: seq<PostEntry>)

  /** How building the sections ended: normally, or with `readdirSync` throwing for a path. */
  datatype Outcome = Complete | ListingMissing(path: string)

  /** What one `readConfigFile` call adds to the sidebar. */
  datatype SidebarView = SidebarView(title: string, sections: seq<Section>, outcome: Outcome)

  /** The title shown when the configuration gives none. */
  const DefaultTitle: string := "new site!"

  /** The section that is always listed first. */
  const PostsCollection: string := "posts"

  /** `title || siteName` for a string title: the empty string is falsy like a missing one. */
  function SiteTitle(title: Option<string>): (r: string)
    ensures r != []
    ensures title.Some? && title.value != [] ==> r == title.value
    ensures title.None? || title.value == [] ==> r == DefaultTitle
  {
    match title
    case Some(t) => if t != [] then t else DefaultTitle
    case None => DefaultTitle
  }

  /** The directory a collection's posts are listed from. */
  function CollectionDirectory(directory: string, collection: string): string {
    directory + "/_" + collection
  }

  /** The button of one post of a collection. */
  function EntryFor(directory: string, collection: string, post: string): (e: PostEntry)
    ensures |e.text| <= |post|
    ensures |post| <= |e.path| && e.path[|e.path| - |post|..] == post
  {
    PostEntry(PrettifyName(post), CollectionDirectory(directory, collection) + "/" + post)
  }

  /** `entries` lists `listing` last name first, one button per name. */
  predicate ListsPosts(entries: seq<PostEntry>, directory: string, collection: string, listing: seq<string>) {
    |entries| == |listing| &&
    forall k :: 0 <= k < |listing| ==> entries[k] == EntryFor(directory, collection, listing[|listing| - 1 - k])
  }

  /** `posts.reverse()`: the array is reversed in place. */
  method Reverse(a: array<string>)
    modifies a
    ensures forall k :: 0 <= k < a.Length ==> a[k] == old(a[a.Length - 1 - k])
  {
    var i, j := 0, a.Length - 1;
    while i < j
      invariant 0 <= i <= a.Length && j == a.Length - 1 - i
      invariant forall k :: 0 <= k < i || j < k < a.Length ==> a[k] == old(a[a.Length - 1 - k])
      invariant forall k :: i <= k <= j ==> a[k] == old(a[k])
    {
      a[i], a[j] := a[j], a[i];
      i, j := i + 1, j - 1;
    }
  }

  /**
    `getPostsInCollection(collection)` once `readdirSync` has returned
    `listing`: the listing is reversed and one button is made per name, its
    text the prettified name and its path the name under the collection's
    directory.
   */
  method PostsInCollection(directory: string, collection: string, listing: seq<string>)
    returns (entries: seq<PostEntry>)
    ensures ListsPosts(entries, directory, collection, listing)
  {
    var posts := new string[|listing|](i requires 0 <= i < |listing| => listing[i]);
    Reverse(posts);
    entries := [];
    for i := 0 to posts.Length
      invariant |entries| == i
      invariant forall k :: 0 <= k < i ==> entries[k] == EntryFor(directory, collection, posts[k])
    {
      entries := entries + [EntryFor(directory, collection, posts[i])];
    }
  }

  /** `collectionKeys.unshift('posts')`: "posts" goes in front of the keys. */
  function SectionNames(keys: seq<string>): (names: seq<string>)
    ensures |names| == |keys| + 1
    ensures names[0] == PostsCollection && names[1..] == keys
    ensures multiset(names)[PostsCollection] == multiset(keys)[PostsCollection] + 1
  {
    [PostsCollection] + keys
  }

  /** Section `s` is the complete section of collection `name`. */
  predicate Built(s: Section, directory: string, name: string, files: map<string, seq<string>>) {
    var path := CollectionDirectory(directory, name);
    s.name == name && path in files && ListsPosts(s.entries, directory, name, files[path])
  }

  /**
    The sections that the loop over `names` leaves behind: each name gets a
    complete section, in order, until the first one whose directory cannot
    be listed; that one keeps its header and an empty list, and the loop
    stops there.
   */
  predicate SectionsFor(directory: string, names: seq<string>, files: map<string, seq<string>>,
                        sections: seq<Section>, outcome: Outcome)
  {
    (outcome == Complete <==> forall n :: n in names ==> CollectionDirectory(directory, n) in files) &&
    (outcome == Complete ==>
      |sections| == |names| &&
      forall i :: 0 <= i < |names| ==> Built(sections[i], directory, names[i], files)) &&
    (outcome.ListingMissing? ==>
      var k := |sections| - 1;
      0 <= k < |names| &&
      outcome.path == CollectionDirectory(directory, names[k]) && outcome.path !in files &&
      sections[k] == Section(names[k], []) &&
      forall i :: 0 <= i < k ==> Built(sections[i], directory, names[i], files))
  }

  /**
    `getCollections(collections)`: "posts" and then every key, in order and
    without removing duplicates, each with its header and its posts.
   */
  method GetCollections(directory: string, keys: seq<string>, files: map<string, seq<string>>)
    returns (sections: seq<Section>, outcome: Outcome)
    ensures SectionsFor(directory, SectionNames(keys), files, sections, outcome)
  {
    var collectionKeys := keys;
    collectionKeys := [PostsCollection] + collectionKeys;
    sections, outcome := [], Complete;
    for index := 0 to |collectionKeys|
      invariant |sections| == index
      invariant forall i :: 0 <= i < index ==> Built(sections[i], directory, collectionKeys[i], files)
    {
      var element := collectionKeys[index];
      var path := CollectionDirectory(directory, element);
      if path !in files {
        sections := sections + [Section(element, [])];
        outcome := ListingMissing(path);
        return;
      }
      var entries := PostsInCollection(directory, element, files[path]);
      sections := sections + [Section(element, entries)];
    }
    forall n | n in collectionKeys ensures CollectionDirectory(directory, n) in files {
      var i :| 0 <= i < |collectionKeys| && collectionKeys[i] == n;
      assert Built(sections[i], directory, collectionKeys[i], files);
    }
  }

  /**
    `readConfigFile()` once the file is read and parsed: the title is set
    first; the sections are built only when the configuration has a truthy
    `collections` value.
   */
  method ReadConfigFile(directory: string, config: SiteConfig, files: map<string, seq<string>>)
    returns (sidebar: SidebarView)
    ensures sidebar.title == SiteTitle(config.title)
    ensures config.collections.None? ==> sidebar.sections == [] && sidebar.outcome == Complete
    ensures config.collections.Some? ==>
              SectionsFor(directory, SectionNames(config.collections.value), files, sidebar.sections, sidebar.outcome)
  {
    var title := SiteTitle(config.title);
    var sections, outcome := [], Complete;
    if config.collections.Some? {
      sections, outcome := GetCollections(directory, config.collections.value, files);
    }
    sidebar := SidebarView(title, sections, outcome);
  }

  // ---------------------------------------------------------------------
  // Properties of the sidebar

  /** A listing determines its buttons. */
  lemma ListsPostsUnique(e1: seq<PostEntry>, e2: seq<PostEntry>, directory: string, collection: string,
                         listing: seq<string>)
    requires ListsPosts(e1, directory, collection, listing)
    requires ListsPosts(e2, directory, collection, listing)
    ensures e1 == e2
  {
    forall k | 0 <= k < |e1| ensures e1[k] == e2[k] {
      assert e1[k] == EntryFor(directory, collection, listing[|listing| - 1 - k]);
    }
  }

  /**
    Building the sidebar twice from the same configuration and the same
    listings gives the same sections and the same outcome.
   */
  lemma SectionsDeterministic(directory: string, names: seq<string>, files: map<string, seq<string>>,
                              s1: seq<Section>, o1: Outcome, s2: seq<Section>, o2: Outcome)
    requires SectionsFor(directory, names, files, s1, o1)
    requires SectionsFor(directory, names, files, s2, o2)
    ensures s1 == s2 && o1 == o2
  {
    // every section before the first missing directory is Built, and a Built section is unique
    if o1 == Complete && o2 == Complete {
      forall i | 0 <= i < |names| ensures s1[i] == s2[i] {
        ListsPostsUnique(s1[i].entries, s2[i].entries, directory, names[i],
                         files[CollectionDirectory(directory, names[i])]);
      }
    } else if o1.ListingMissing? && o2.ListingMissing? {
      var k1, k2 := |s1| - 1, |s2| - 1;
      if k1 < k2 {
        assert false;
      } else if k2 < k1 {
        assert false;
      }
      forall i | 0 <= i < k1 ensures s1[i] == s2[i] {
        ListsPostsUnique(s1[i].entries, s2[i].entries, directory, names[i],
                         files[CollectionDirectory(directory, names[i])]);
      }
    }
  }

  /** Whenever sections are built at all, the first one is "posts", whether the directory can be listed or not. */
  lemma PostsSectionFirst(directory: string, keys: seq<string>, files: map<string, seq<string>>,
                          sections: seq<Section>, outcome: Outcome)
    requires SectionsFor(directory, SectionNames(keys), files, sections, outcome)
    ensures sections != [] && sections[0].name == PostsCollection
  {
    var names := SectionNames(keys);
    if outcome == Complete {
      assert Built(sections[0], directory, names[0], files);
    } else if |sections| > 1 {
      assert Built(sections[0], directory, names[0], files);
    }
  }

  /**
    When every directory can be listed there is one section per key after
    "posts", in the order of the keys, so a key "posts" gives a second
    section of that name.
   */
  lemma SectionsFollowKeys(directory: string, keys: seq<string>, files: map<string, seq<string>>,
                           sections: seq<Section>)
    requires SectionsFor(directory, SectionNames(keys), files, sections, Complete)
    ensures |sections| == |keys| + 1
    ensures forall j :: 0 <= j < |keys| ==> sections[j + 1].name == keys[j]
    ensures PostsCollection in keys ==> |set i | 0 <= i < |sections| && sections[i].name == PostsCollection| >= 2
  {
    var names := SectionNames(keys);
    forall j | 0 <= j < |keys| ensures sections[j + 1].name == keys[j] {
      assert Built(sections[j + 1], directory, names[j + 1], files);
      assert names[j + 1] == keys[j];
    }
    if PostsCollection in keys {
      var j :| 0 <= j < |keys| && keys[j] == PostsCollection;
      assert Built(sections[0], directory, names[0], files);
      var both := {0, j + 1};
      assert both <= set i | 0 <= i < |sections| && sections[i].name == PostsCollection;
      assert |both| == 2;
      SubsetSize(both, set i | 0 <= i < |sections| && sections[i].name == PostsCollection);
    }
  }

  lemma SubsetSize(a: set<int>, b: set<int>)
    requires a <= b
    ensures |a| <= |b|
  {
    assert b == a + (b - a);
  }

  /** A listing of two dated posts is shown newest first. */
  lemma TwoPostsNewestFirst(directory: string, collection: string, entries: seq<PostEntry>)
    requires ListsPosts(entries, directory, collection, ["2014-02-04-a.md", "2015-01-01-b.md"])
    ensures entries == [EntryFor(directory, collection, "2015-01-01-b.md"),
                        EntryFor(directory, collection, "2014-02-04-a.md")]
  {
    assert entries[0] == EntryFor(directory, collection, "2015-01-01-b.md");
    assert entries[1] == EntryFor(directory, collection, "2014-02-04-a.md");
  }
}
