/** The documentation site's navigation: groups of items nested up to three
    levels deep, the flat list of linked items in reading order, lookups by
    path and the next/previous neighbours in that list. */
module DocsNavigation {
  import opened Wrappers

  /** A navigation entry; `items` is empty when the entry has none. */
  datatype NavItem = NavItem(title: string, href: Option<string>, category: bool, items: seq<NavItem>)

  datatype NavGroup = NavGroup(title: string, items: seq<NavItem>, collapsible: bool)

  /** An entry that links to `href` and has no children. */
  function Page(title: string, href: string): (r: NavItem)
    ensures Linked(r) <==> href != ""
  {
    NavItem(title, Some(href), false, [])
  }

  /** A heading that only groups its children. */
  function Category(title: string, items: seq<NavItem>): (r: NavItem)
    ensures !Linked(r)
  {
    NavItem(title, None, true, items)
  }

  const AuthorizationMethods: seq<NavItem> := [
    Page("checkImageQuality()", "/docs/modules/authorization/check-image-quality"),
    Page("compareByImage()", "/docs/modules/authorization/compare-by-image"),
    Page("compareByLiveVideo()", "/docs/modules/authorization/compare-by-live-video")
  ]

  const AuthorizationProviders: seq<NavItem> := [
    Page("AWS Rekognition", "/docs/modules/authorization/providers/aws")
  ]

  const MetadataExtractorMethods: seq<NavItem> := [
    Page("extractImageMetadata()", "/docs/modules/metadata-extractor/extract-image-metadata"),
    Page("extractGPSOnly()", "/docs/modules/metadata-extractor/extract-gps-only"),
    Page("hasGPSData()", "/docs/modules/metadata-extractor/has-gps-data")
  ]

  const Authorization: NavItem := Category("Authorization", [
    Page("Introduction", "/docs/modules/authorization/introduction"),
    Category("Methods", AuthorizationMethods),
    Category("Providers", AuthorizationProviders)
  ])

  const MetadataExtractor: NavItem := Category("Metadata Extractor", [
    Page("Introduction", "/docs/modules/metadata-extractor/introduction"),
    Category("Methods", MetadataExtractorMethods),
    Page("Edge Cases", "/docs/modules/metadata-extractor/edge-cases")
  ])

  const Credentials: NavItem := Category("Credentials", [
    Page("Introduction", "/docs/modules/credentials/introduction")
  ])

  const GetStartedPages: seq<NavItem> := [
    Page("Introduction", "/docs/get-started/introduction"),
    Page("Installation", "/docs/get-started/installation")
  ]

  const ApiReferencePages: seq<NavItem> := [
    Page("Utils", "/docs/api/utils"),
    Page("Error Codes", "/docs/api-reference/error-codes"),
    Page("Type Definitions", "/docs/api-reference/type-definitions")
  ]

  /** The navigation the documentation site ships. */
  const DocsNavigation: seq<NavGroup> := [
    NavGroup("Get Started", GetStartedPages, false),
    NavGroup("Modules", [Authorization, MetadataExtractor, Credentials], true),
    NavGroup("API Reference", ApiReferencePages, false)
  ]

  /** The hrefs of the shipped pages, in reading order. */
  const ShippedHrefs: seq<string> := [
    "/docs/get-started/introduction",
    "/docs/get-started/installation",
    "/docs/modules/authorization/introduction",
    "/docs/modules/authorization/check-image-quality",
    "/docs/modules/authorization/compare-by-image",
    "/docs/modules/authorization/compare-by-live-video",
    "/docs/modules/authorization/providers/aws",
    "/docs/modules/metadata-extractor/introduction",
    "/docs/modules/metadata-extractor/extract-image-metadata",
    "/docs/modules/metadata-extractor/extract-gps-only",
    "/docs/modules/metadata-extractor/has-gps-data",
    "/docs/modules/metadata-extractor/edge-cases",
    "/docs/modules/credentials/introduction",
    "/docs/api/utils",
    "/docs/api-reference/error-codes",
    "/docs/api-reference/type-definitions"
  ]

  /** `if (item.href)`: an entry links somewhere when its href is a
      non-empty string. */
  predicate Linked(item: NavItem) {
    item.href.Some? && item.href.value != ""
  }

  /** Third-level entries under second-level entries `ys`, each second-level
      entry followed by its own children. */
  function NestedInOrder(ys: seq<NavItem>): (r: seq<NavItem>)
    ensures |r| >= |ys|
  {
    if ys == [] then [] else [ys[0]] + ys[0].items + NestedInOrder(ys[1..])
  }

  /** First-level entries `xs`, each followed by its descendants down to the
      third level. */
  function ItemsInOrder(xs: seq<NavItem>): (r: seq<NavItem>)
    ensures |r| >= |xs|
  {
    if xs == [] then [] else [xs[0]] + NestedInOrder(xs[0].items) + ItemsInOrder(xs[1..])
  }

  /** Every entry of every group down to the third level, depth first, in
      document order. Deeper entries are never visited. */
  function Traversal(nav: seq<NavGroup>): seq<NavItem> {
    if nav == [] then [] else ItemsInOrder(nav[0].items) + Traversal(nav[1..])
  }

  /** The linked entries of `s`, in order. */
  function Links(s: seq<NavItem>): (r: seq<NavItem>)
    ensures |r| <= |s|
    ensures forall i :: 0 <= i < |r| ==> Linked(r[i])
  {
    if s == [] then []
    else if Linked(s[0]) then [s[0]] + Links(s[1..])
    else Links(s[1..])
  }

  /** The list `getAllNavItems` returns. */
  function AllNavItems(nav: seq<NavGroup>): seq<NavItem> {
    Links(Traversal(nav))
  }

  lemma {:induction false} LinksAppend(a: seq<NavItem>, b: seq<NavItem>)
    ensures Links(a + b) == Links(a) + Links(b)
  {
    if a != [] {
      assert (a + b)[1..] == a[1..] + b;
      LinksAppend(a[1..], b);
    } else {
      assert a + b == b;
    }
  }

  lemma UnfoldTraversal(nav: seq<NavGroup>, g: nat)
    requires g < |nav|
    ensures Traversal(nav[g..]) == ItemsInOrder(nav[g].items) + Traversal(nav[g + 1..])
  {
    assert nav[g..][1..] == nav[g + 1..];
  }

  lemma UnfoldItems(xs: seq<NavItem>, i: nat)
    requires i < |xs|
    ensures ItemsInOrder(xs[i..]) == [xs[i]] + NestedInOrder(xs[i].items) + ItemsInOrder(xs[i + 1..])
  {
    assert xs[i..][1..] == xs[i + 1..];
  }

  lemma UnfoldNested(ys: seq<NavItem>, j: nat)
    requires j < |ys|
    ensures NestedInOrder(ys[j..]) == [ys[j]] + ys[j].items + NestedInOrder(ys[j + 1..])
  {
    assert ys[j..][1..] == ys[j + 1..];
  }

  /** Regrouping a traversal step: the entry met next, then its own part,
      then the part after it, then the rest. */
  lemma Regroup(x: NavItem, a: seq<NavItem>, b: seq<NavItem>, c: seq<NavItem>)
    ensures [x] + a + b + c == [x] + (a + (b + c))
  {
  }

  lemma Regroup3(x: NavItem, a: seq<NavItem>, b: seq<NavItem>)
    ensures [x] + a + b == [x] + (a + b)
  {
  }

  /** Splitting off the entry at position `k`. */
  lemma SplitAt(s: seq<NavItem>, k: nat, tail: seq<NavItem>)
    requires k < |s|
    ensures s[k..] + tail == [s[k]] + (s[k + 1..] + tail)
  {
    assert s[k..] == [s[k]] + s[k + 1..];
  }

  /** An exhausted level leaves the rest. */
  lemma EmptyLevel(s: seq<NavItem>, tail: seq<NavItem>)
    ensures s[|s|..] + tail == tail
    ensures NestedInOrder(s[|s|..]) + tail == tail
    ensures ItemsInOrder(s[|s|..]) + tail == tail
  {
    assert s[|s|..] == [];
  }

  /** Meeting entry `x` next: it joins the list built so far exactly when it
      is linked. */
  lemma LinksStep(all: seq<NavItem>, x: NavItem, rest: seq<NavItem>)
    ensures all + Links([x] + rest) == (if Linked(x) then all + [x] else all) + Links(rest)
  {
    assert ([x] + rest)[1..] == rest;
  }

  /** `getAllNavItems`: the three nested loops push every linked entry. */
  method GetAllNavItems(nav: seq<NavGroup>) returns (all: seq<NavItem>)
    ensures all == AllNavItems(nav)
  {
    all := [];
    assert nav[0..] == nav;
    for g := 0 to |nav|
      invariant Links(Traversal(nav)) == all + Links(Traversal(nav[g..]))
    {
      var group := nav[g];
      ghost var tailG := Traversal(nav[g + 1..]);
      UnfoldTraversal(nav, g);
      assert group.items[0..] == group.items;
      for i := 0 to |group.items|
        invariant Links(Traversal(nav)) == all + Links(ItemsInOrder(group.items[i..]) + tailG)
      {
        var item := group.items[i];
        ghost var tailI := ItemsInOrder(group.items[i + 1..]) + tailG;
        UnfoldItems(group.items, i);
        Regroup(item, NestedInOrder(item.items), ItemsInOrder(group.items[i + 1..]), tailG);
        LinksStep(all, item, NestedInOrder(item.items) + tailI);
        if Linked(item) {
          all := all + [item];
        }
        assert item.items[0..] == item.items;
        for j := 0 to |item.items|
          invariant Links(Traversal(nav)) == all + Links(NestedInOrder(item.items[j..]) + tailI)
        {
          var nested := item.items[j];
          ghost var tailJ := NestedInOrder(item.items[j + 1..]) + tailI;
          UnfoldNested(item.items, j);
          Regroup(nested, nested.items, NestedInOrder(item.items[j + 1..]), tailI);
          LinksStep(all, nested, nested.items + tailJ);
          if Linked(nested) {
            all := all + [nested];
          }
          assert nested.items[0..] == nested.items;
          for k := 0 to |nested.items|
            invariant Links(Traversal(nav)) == all + Links(nested.items[k..] + tailJ)
          {
            var leaf := nested.items[k];
            SplitAt(nested.items, k, tailJ);
            LinksStep(all, leaf, nested.items[k + 1..] + tailJ);
            if Linked(leaf) {
              all := all + [leaf];
            }
          }
          EmptyLevel(nested.items, tailJ);
        }
        EmptyLevel(item.items, tailI);
      }
      EmptyLevel(group.items, tailG);
    }
    assert nav[|nav|..] == [];
  }

  /** The first entry of `s` whose href is exactly `path`. */
  function FirstMatch(s: seq<NavItem>, path: string): (r: Option<NavItem>)
    ensures r.Some? ==> r.value in s && r.value.href == Some(path)
    ensures r.None? <==> forall x :: x in s ==> x.href != Some(path)
  {
    if s == [] then None
    else if s[0].href == Some(path) then Some(s[0])
    else FirstMatch(s[1..], path)
  }

  lemma {:induction false} FirstMatchAppend(a: seq<NavItem>, b: seq<NavItem>, path: string)
    ensures FirstMatch(a + b, path) == if FirstMatch(a, path).Some? then FirstMatch(a, path) else FirstMatch(b, path)
  {
    if a != [] {
      assert (a + b)[1..] == a[1..] + b;
      FirstMatchAppend(a[1..], b, path);
    } else {
      assert a + b == b;
    }
  }

  /** The item a search meets next decides the first match of what is
      left. */
  lemma FirstMatchCons(x: NavItem, rest: seq<NavItem>, path: string)
    ensures FirstMatch([x] + rest, path) == if x.href == Some(path) then Some(x) else FirstMatch(rest, path)
  {
    assert ([x] + rest)[1..] == rest;
  }

  /** `getNavItemByPath`: the first entry, in traversal order, whose href
      is `path`. */
  method GetNavItemByPath(nav: seq<NavGroup>, path: string) returns (r: Option<NavItem>)
    ensures r == FirstMatch(Traversal(nav), path)
  {
    assert nav[0..] == nav;
    for g := 0 to |nav|
      invariant FirstMatch(Traversal(nav), path) == FirstMatch(Traversal(nav[g..]), path)
    {
      var group := nav[g];
      ghost var tailG := Traversal(nav[g + 1..]);
      UnfoldTraversal(nav, g);
      assert group.items[0..] == group.items;
      for i := 0 to |group.items|
        invariant FirstMatch(Traversal(nav), path) == FirstMatch(ItemsInOrder(group.items[i..]) + tailG, path)
      {
        var item := group.items[i];
        ghost var tailI := ItemsInOrder(group.items[i + 1..]) + tailG;
        UnfoldItems(group.items, i);
        Regroup(item, NestedInOrder(item.items), ItemsInOrder(group.items[i + 1..]), tailG);
        FirstMatchCons(item, NestedInOrder(item.items) + tailI, path);
        if item.href == Some(path) {
          return Some(item);
        }
        assert item.items[0..] == item.items;
        for j := 0 to |item.items|
          invariant FirstMatch(Traversal(nav), path) == FirstMatch(NestedInOrder(item.items[j..]) + tailI, path)
        {
          var nested := item.items[j];
          ghost var tailJ := NestedInOrder(item.items[j + 1..]) + tailI;
          UnfoldNested(item.items, j);
          Regroup(nested, nested.items, NestedInOrder(item.items[j + 1..]), tailI);
          FirstMatchCons(nested, nested.items + tailJ, path);
          if nested.href == Some(path) {
            return Some(nested);
          }
          assert nested.items[0..] == nested.items;
          for k := 0 to |nested.items|
            invariant FirstMatch(Traversal(nav), path) == FirstMatch(nested.items[k..] + tailJ, path)
          {
            var leaf := nested.items[k];
            SplitAt(nested.items, k, tailJ);
            FirstMatchCons(leaf, nested.items[k + 1..] + tailJ, path);
            if leaf.href == Some(path) {
              return Some(leaf);
            }
          }
          EmptyLevel(nested.items, tailJ);
        }
        EmptyLevel(item.items, tailI);
      }
      EmptyLevel(group.items, tailG);
    }
    assert nav[|nav|..] == [];
    return None;
  }

  /** The group holding the first entry whose href is `path`. */
  function FirstGroupMatch(nav: seq<NavGroup>, path: string): (r: Option<NavGroup>)
    ensures r.Some? ==> r.value in nav && FirstMatch(ItemsInOrder(r.value.items), path).Some?
  {
    if nav == [] then None
    else if FirstMatch(ItemsInOrder(nav[0].items), path).Some? then Some(nav[0])
    else FirstGroupMatch(nav[1..], path)
  }

  /** `getNavGroupByPath`: the group of the first entry whose href is
      `path`. */
  method GetNavGroupByPath(nav: seq<NavGroup>, path: string) returns (r: Option<NavGroup>)
    ensures r == FirstGroupMatch(nav, path)
  {
    assert nav[0..] == nav;
    for g := 0 to |nav|
      invariant FirstGroupMatch(nav, path) == FirstGroupMatch(nav[g..], path)
    {
      var group := nav[g];
      assert nav[g..][1..] == nav[g + 1..];
      ghost var whole := FirstMatch(ItemsInOrder(group.items), path);
      assert group.items[0..] == group.items;
      for i := 0 to |group.items|
        invariant whole == FirstMatch(ItemsInOrder(group.items[i..]), path)
      {
        var item := group.items[i];
        ghost var tailI := ItemsInOrder(group.items[i + 1..]);
        UnfoldItems(group.items, i);
        Regroup3(item, NestedInOrder(item.items), tailI);
        FirstMatchCons(item, NestedInOrder(item.items) + tailI, path);
        if item.href == Some(path) {
          return Some(group);
        }
        assert item.items[0..] == item.items;
        for j := 0 to |item.items|
          invariant whole == FirstMatch(NestedInOrder(item.items[j..]) + tailI, path)
        {
          var nested := item.items[j];
          ghost var tailJ := NestedInOrder(item.items[j + 1..]) + tailI;
          UnfoldNested(item.items, j);
          Regroup(nested, nested.items, NestedInOrder(item.items[j + 1..]), tailI);
          FirstMatchCons(nested, nested.items + tailJ, path);
          if nested.href == Some(path) {
            return Some(group);
          }
          assert nested.items[0..] == nested.items;
          for k := 0 to |nested.items|
            invariant whole == FirstMatch(nested.items[k..] + tailJ, path)
          {
            var leaf := nested.items[k];
            SplitAt(nested.items, k, tailJ);
            FirstMatchCons(leaf, nested.items[k + 1..] + tailJ, path);
            if leaf.href == Some(path) {
              return Some(group);
            }
          }
          EmptyLevel(nested.items, tailJ);
        }
        EmptyLevel(item.items, tailI);
      }
      assert group.items[|group.items|..] == [];
    }
    assert nav[|nav|..] == [];
    return None;
  }

  /** The group lookup fails exactly when the item lookup fails, and a
      found group holds the found item. */
  lemma {:induction false} GroupMatchesItemMatch(nav: seq<NavGroup>, path: string)
    ensures FirstGroupMatch(nav, path).None? <==> FirstMatch(Traversal(nav), path).None?
    ensures FirstGroupMatch(nav, path).Some? ==>
      FirstMatch(ItemsInOrder(FirstGroupMatch(nav, path).value.items), path) == FirstMatch(Traversal(nav), path)
  {
    if nav != [] {
      FirstMatchAppend(ItemsInOrder(nav[0].items), Traversal(nav[1..]), path);
      GroupMatchesItemMatch(nav[1..], path);
    }
  }

  /** `findIndex` of the first entry whose href is `path`; -1 when there
      is none. */
  function FindIndex(s: seq<NavItem>, path: string): (r: int)
    ensures -1 <= r < |s|
    ensures r >= 0 ==> s[r].href == Some(path) && forall i :: 0 <= i < r ==> s[i].href != Some(path)
    ensures r == -1 ==> forall i :: 0 <= i < |s| ==> s[i].href != Some(path)
  {
    if s == [] then -1
    else if s[0].href == Some(path) then 0
    else
      var r := FindIndex(s[1..], path);
      if r == -1 then -1 else r + 1
  }

  /** `getNextNavItem`: the entry after the first one linking to `path`. */
  function GetNextNavItem(nav: seq<NavGroup>, path: string): (r: Option<NavItem>)
    ensures r.Some? ==> Linked(r.value) && r.value in AllNavItems(nav)
    ensures r.Some? <==> 0 <= FindIndex(AllNavItems(nav), path) < |AllNavItems(nav)| - 1
    ensures r.Some? ==> r.value == AllNavItems(nav)[FindIndex(AllNavItems(nav), path) + 1]
  {
    var all := AllNavItems(nav);
    var i := FindIndex(all, path);
    if i != -1 && i < |all| - 1 then Some(all[i + 1]) else None
  }

  /** `getPreviousNavItem`: the entry before the first one linking to
      `path`. */
  function GetPreviousNavItem(nav: seq<NavGroup>, path: string): (r: Option<NavItem>)
    ensures r.Some? ==> Linked(r.value) && r.value in AllNavItems(nav)
    ensures r.Some? <==> FindIndex(AllNavItems(nav), path) > 0
    ensures r.Some? ==> r.value == AllNavItems(nav)[FindIndex(AllNavItems(nav), path) - 1]
  {
    var all := AllNavItems(nav);
    var i := FindIndex(all, path);
    if i > 0 then Some(all[i - 1]) else None
  }

  /** No two entries of the list link to the same place. */
  predicate DistinctHrefs(s: seq<NavItem>) {
    forall i, j :: 0 <= i < j < |s| ==> s[i].href != s[j].href
  }

  /** With distinct hrefs, an entry's own href finds its own index. */
  lemma FindIndexOfDistinct(s: seq<NavItem>, k: nat)
    requires DistinctHrefs(s) && k < |s| && s[k].href.Some?
    ensures FindIndex(s, s[k].href.value) == k
  {
  }

  /** Going forward and then back returns to where one started. */
  lemma NextThenPrevious(nav: seq<NavGroup>, path: string)
    requires DistinctHrefs(AllNavItems(nav))
    requires GetNextNavItem(nav, path).Some?
    ensures GetPreviousNavItem(nav, GetNextNavItem(nav, path).value.href.value).Some?
    ensures GetPreviousNavItem(nav, GetNextNavItem(nav, path).value.href.value).value.href == Some(path)
  {
    var all := AllNavItems(nav);
    var i := FindIndex(all, path);
    FindIndexOfDistinct(all, i + 1);
  }

  /** Going back and then forward returns to where one started. */
  lemma PreviousThenNext(nav: seq<NavGroup>, path: string)
    requires DistinctHrefs(AllNavItems(nav))
    requires GetPreviousNavItem(nav, path).Some?
    ensures GetNextNavItem(nav, GetPreviousNavItem(nav, path).value.href.value).Some?
    ensures GetNextNavItem(nav, GetPreviousNavItem(nav, path).value.href.value).value.href == Some(path)
  {
    var all := AllNavItems(nav);
    var i := FindIndex(all, path);
    FindIndexOfDistinct(all, i - 1);
  }

  /** Distinct hrefs among the links of `s` stay distinct among the links
      of its tail. */
  lemma DistinctLinksTail(s: seq<NavItem>)
    requires s != [] && DistinctHrefs(Links(s))
    ensures DistinctHrefs(Links(s[1..]))
  {
    if Linked(s[0]) {
      assert Links(s)[1..] == Links(s[1..]);
      DistinctHrefsTail(Links(s));
    }
  }

  lemma DistinctHrefsTail(u: seq<NavItem>)
    requires u != [] && DistinctHrefs(u)
    ensures DistinctHrefs(u[1..])
  {
    forall i, j | 0 <= i < j < |u| - 1
      ensures u[1..][i].href != u[1..][j].href
    {
      assert u[1..][i] == u[i + 1] && u[1..][j] == u[j + 1];
    }
  }

  /** A linked head whose href some listed entry shares is that entry. */
  lemma LinkedHeadIsTheEntry(s: seq<NavItem>, x: NavItem)
    requires x in Links(s) && DistinctHrefs(Links(s))
    requires s != [] && Linked(s[0]) && s[0].href == x.href
    ensures s[0] == x
  {
    assert Links(s)[0] == s[0];
    var m :| 0 <= m < |Links(s)| && Links(s)[m] == x;
    assert Links(s)[m].href == Links(s)[0].href;
  }

  /** With distinct hrefs among the linked entries, looking up an entry of
      the list by its own href finds that entry. */
  lemma {:induction false} LookupFindsListedItem(s: seq<NavItem>, x: NavItem)
    requires x in Links(s) && DistinctHrefs(Links(s))
    ensures FirstMatch(s, x.href.value) == Some(x)
  {
    if s[0].href == Some(x.href.value) {
      LinkedHeadIsTheEntry(s, x);
    } else {
      assert x in Links(s[1..]);
      DistinctLinksTail(s);
      LookupFindsListedItem(s[1..], x);
    }
  }

  /** Entries without children are their own traversal. */
  lemma {:induction false} LeavesInOrder(ps: seq<NavItem>)
    requires forall i :: 0 <= i < |ps| ==> ps[i].items == []
    ensures NestedInOrder(ps) == ps && ItemsInOrder(ps) == ps
  {
    if ps != [] {
      LeavesInOrder(ps[1..]);
    }
  }

  /** A list of linked entries is its own list of links. */
  lemma {:induction false} AllLinked(ps: seq<NavItem>)
    requires forall i :: 0 <= i < |ps| ==> Linked(ps[i])
    ensures Links(ps) == ps
  {
    if ps != [] {
      AllLinked(ps[1..]);
    }
  }

  lemma NestedCons(y: NavItem, ys: seq<NavItem>)
    ensures NestedInOrder([y] + ys) == [y] + y.items + NestedInOrder(ys)
  {
    assert ([y] + ys)[1..] == ys;
  }

  lemma ItemsCons(x: NavItem, xs: seq<NavItem>)
    ensures ItemsInOrder([x] + xs) == [x] + NestedInOrder(x.items) + ItemsInOrder(xs)
  {
    assert ([x] + xs)[1..] == xs;
  }

  /** A linked entry without children. */
  predicate IsPage(x: NavItem) {
    Linked(x) && x.items == []
  }

  /** A page, or an unlinked heading over pages. */
  predicate IsPageOrSection(x: NavItem) {
    IsPage(x) || (!Linked(x) && forall k :: 0 <= k < |x.items| ==> IsPage(x.items[k]))
  }

  /** A second-level entry's pages: itself when linked, else its children. */
  function SectionPages(y: NavItem): seq<NavItem> {
    if Linked(y) then [y] else y.items
  }

  /** The pages of `ys` in reading order, a heading standing for its
      pages. */
  function PagesOf(ys: seq<NavItem>): seq<NavItem> {
    if ys == [] then [] else SectionPages(ys[0]) + PagesOf(ys[1..])
  }

  lemma {:induction false} NestedLinks(ys: seq<NavItem>)
    requires forall j :: 0 <= j < |ys| ==> IsPageOrSection(ys[j])
    ensures Links(NestedInOrder(ys)) == PagesOf(ys)
  {
    if ys != [] {
      var y := ys[0];
      NestedLinks(ys[1..]);
      LinksAppend([y] + y.items, NestedInOrder(ys[1..]));
      LinksAppend([y], y.items);
      LeavesInOrder(y.items);
      if !Linked(y) {
        AllLinked(y.items);
      }
    }
  }

  /** A page, or a heading over pages and sections. */
  predicate IsTopEntry(x: NavItem) {
    IsPage(x) || (!Linked(x) && forall j :: 0 <= j < |x.items| ==> IsPageOrSection(x.items[j]))
  }

  /** A first-level entry's pages: itself when linked, else those of its
      children. */
  function EntryPages(x: NavItem): seq<NavItem> {
    if Linked(x) then [x] else PagesOf(x.items)
  }

  /** The pages under first-level entries `xs` in reading order. */
  function PagesBelow(xs: seq<NavItem>): seq<NavItem> {
    if xs == [] then [] else EntryPages(xs[0]) + PagesBelow(xs[1..])
  }

  lemma {:induction false} ItemsLinks(xs: seq<NavItem>)
    requires forall i :: 0 <= i < |xs| ==> IsTopEntry(xs[i])
    ensures Links(ItemsInOrder(xs)) == PagesBelow(xs)
  {
    if xs != [] {
      var x := xs[0];
      ItemsLinks(xs[1..]);
      LinksAppend([x] + NestedInOrder(x.items), ItemsInOrder(xs[1..]));
      LinksAppend([x], NestedInOrder(x.items));
      if Linked(x) {
        assert NestedInOrder(x.items) == [];
      } else {
        NestedLinks(x.items);
      }
    }
  }

  /** The pages of the "Modules" group, in reading order. */
  const ModulePages: seq<NavItem> :=
    [Authorization.items[0]] + AuthorizationMethods + AuthorizationProviders
    + ([MetadataExtractor.items[0]] + MetadataExtractorMethods + [MetadataExtractor.items[2]])
    + Credentials.items

  /** The pages the shipped navigation lists, in reading order. */
  const ShippedPages: seq<NavItem> := GetStartedPages + ModulePages + ApiReferencePages

  lemma PagesOfThree(a: NavItem, b: NavItem, c: NavItem)
    ensures PagesOf([a, b, c]) == SectionPages(a) + SectionPages(b) + SectionPages(c)
  {
    assert [a, b, c][1..] == [b, c];
    assert [b, c][1..] == [c];
    assert [c][1..] == [];
    assert PagesOf([c]) == SectionPages(c) + [];
  }

  lemma PagesBelowThree(a: NavItem, b: NavItem, c: NavItem)
    ensures PagesBelow([a, b, c]) == EntryPages(a) + EntryPages(b) + EntryPages(c)
  {
    assert [a, b, c][1..] == [b, c];
    assert [b, c][1..] == [c];
    assert [c][1..] == [];
    assert PagesBelow([c]) == EntryPages(c) + [];
  }

  lemma AuthorizationPages()
    ensures EntryPages(Authorization) == [Authorization.items[0]] + AuthorizationMethods + AuthorizationProviders
  {
    var a := Authorization.items;
    assert a == [a[0], a[1], a[2]];
    PagesOfThree(a[0], a[1], a[2]);
  }

  lemma MetadataExtractorPages()
    ensures EntryPages(MetadataExtractor)
         == [MetadataExtractor.items[0]] + MetadataExtractorMethods + [MetadataExtractor.items[2]]
  {
    var m := MetadataExtractor.items;
    assert m == [m[0], m[1], m[2]];
    PagesOfThree(m[0], m[1], m[2]);
  }

  lemma CredentialsPages()
    ensures EntryPages(Credentials) == Credentials.items
  {
    var c := Credentials.items;
    assert c[1..] == [];
    assert PagesOf(c) == SectionPages(c[0]) + [];
  }

  lemma ModulesPages()
    ensures PagesBelow([Authorization, MetadataExtractor, Credentials]) == ModulePages
  {
    PagesBelowThree(Authorization, MetadataExtractor, Credentials);
    AuthorizationPages();
    MetadataExtractorPages();
    CredentialsPages();
  }

  lemma {:induction false} PagesBelowPages(ps: seq<NavItem>)
    requires forall i :: 0 <= i < |ps| ==> IsPage(ps[i])
    ensures PagesBelow(ps) == ps
  {
    if ps != [] {
      PagesBelowPages(ps[1..]);
    }
  }

  lemma TraversalThree(a: NavGroup, b: NavGroup, c: NavGroup)
    ensures Traversal([a, b, c]) == ItemsInOrder(a.items) + ItemsInOrder(b.items) + ItemsInOrder(c.items)
  {
    assert [a, b, c][1..] == [b, c];
    assert [b, c][1..] == [c];
    assert [c][1..] == [];
    assert Traversal([c]) == ItemsInOrder(c.items) + [];
  }

  lemma ShippedTopEntries()
    ensures forall i :: 0 <= i < |DocsNavigation[0].items| ==> IsTopEntry(DocsNavigation[0].items[i])
    ensures forall i :: 0 <= i < |DocsNavigation[1].items| ==> IsTopEntry(DocsNavigation[1].items[i])
    ensures forall i :: 0 <= i < |DocsNavigation[2].items| ==> IsTopEntry(DocsNavigation[2].items[i])
    ensures forall i :: 0 <= i < |GetStartedPages| ==> IsPage(GetStartedPages[i])
    ensures forall i :: 0 <= i < |ApiReferencePages| ==> IsPage(ApiReferencePages[i])
  {
  }

  lemma LinksOfThreeGroups(nav: seq<NavGroup>)
    requires |nav| == 3
    requires forall i :: 0 <= i < |nav[0].items| ==> IsTopEntry(nav[0].items[i])
    requires forall i :: 0 <= i < |nav[1].items| ==> IsTopEntry(nav[1].items[i])
    requires forall i :: 0 <= i < |nav[2].items| ==> IsTopEntry(nav[2].items[i])
    ensures AllNavItems(nav) == PagesBelow(nav[0].items) + PagesBelow(nav[1].items) + PagesBelow(nav[2].items)
  {
    var a, b, c := nav[0], nav[1], nav[2];
    assert nav == [a, b, c];
    TraversalThree(a, b, c);
    LinksAppend(ItemsInOrder(a.items) + ItemsInOrder(b.items), ItemsInOrder(c.items));
    LinksAppend(ItemsInOrder(a.items), ItemsInOrder(b.items));
    ItemsLinks(a.items);
    ItemsLinks(b.items);
    ItemsLinks(c.items);
  }

  /** `getAllNavItems` on the shipped navigation lists its sixteen pages in
      reading order. */
  lemma ShippedAllNavItems()
    ensures AllNavItems(DocsNavigation) == ShippedPages
  {
    ShippedTopEntries();
    LinksOfThreeGroups(DocsNavigation);
    assert DocsNavigation[0].items == GetStartedPages;
    assert DocsNavigation[1].items == [Authorization, MetadataExtractor, Credentials];
    assert DocsNavigation[2].items == ApiReferencePages;
    PagesBelowPages(GetStartedPages);
    PagesBelowPages(ApiReferencePages);
    ModulesPages();
  }

  lemma ShippedHrefsDistinct()
    ensures forall i, j :: 0 <= i < j < |ShippedHrefs| ==> ShippedHrefs[i] != ShippedHrefs[j]
  {
  }

  lemma ShippedPagesHrefs()
    ensures |ShippedPages| == |ShippedHrefs|
    ensures forall i :: 0 <= i < |ShippedPages| ==> ShippedPages[i].href == Some(ShippedHrefs[i])
  {
  }

  /** No two pages of the shipped navigation share an href. */
  lemma ShippedHrefsAreDistinct()
    ensures DistinctHrefs(AllNavItems(DocsNavigation))
  {
    ShippedAllNavItems();
    ShippedPagesHrefs();
    ShippedHrefsDistinct();
  }

  /** In the shipped navigation, stepping forward and back returns to the
      page one started from. */
  lemma ShippedNextThenPrevious(path: string)
    requires GetNextNavItem(DocsNavigation, path).Some?
    ensures GetPreviousNavItem(DocsNavigation, GetNextNavItem(DocsNavigation, path).value.href.value).Some?
    ensures GetPreviousNavItem(DocsNavigation, GetNextNavItem(DocsNavigation, path).value.href.value).value.href == Some(path)
  {
    ShippedHrefsAreDistinct();
    NextThenPrevious(DocsNavigation, path);
  }

  /** Every shipped page is found by its own path, and it sits between its
      neighbours in the list; the first page has no previous and the last
      no next page. */
  lemma ShippedPageNeighbours(i: nat)
    requires i < |ShippedHrefs|
    ensures FirstMatch(Traversal(DocsNavigation), ShippedHrefs[i]) == Some(ShippedPages[i])
    ensures GetPreviousNavItem(DocsNavigation, ShippedHrefs[i]) == if i == 0 then None else Some(ShippedPages[i - 1])
    ensures GetNextNavItem(DocsNavigation, ShippedHrefs[i])
         == if i == |ShippedHrefs| - 1 then None else Some(ShippedPages[i + 1])
  {
    ShippedHrefsAreDistinct();
    ShippedAllNavItems();
    ShippedPagesHrefs();
    ListedItemNeighbours(DocsNavigation, i);
  }

  /** With distinct hrefs, every listed entry is found by its own path and
      sits between its neighbours in the list. */
  lemma ListedItemNeighbours(nav: seq<NavGroup>, i: nat)
    requires DistinctHrefs(AllNavItems(nav)) && i < |AllNavItems(nav)|
    ensures var all := AllNavItems(nav);
      FirstMatch(Traversal(nav), all[i].href.value) == Some(all[i])
      && GetPreviousNavItem(nav, all[i].href.value) == (if i == 0 then None else Some(all[i - 1]))
      && GetNextNavItem(nav, all[i].href.value) == (if i == |all| - 1 then None else Some(all[i + 1]))
  {
    var all := AllNavItems(nav);
    LookupFindsListedItem(Traversal(nav), all[i]);
    FindIndexOfDistinct(all, i);
  }

  lemma {:induction false} LinksKeeps(s: seq<NavItem>, x: NavItem)
    requires x in s && Linked(x)
    ensures x in Links(s)
  {
    if s[0] != x {
      LinksKeeps(s[1..], x);
    }
  }

  lemma {:induction false} InNested(ys: seq<NavItem>, j: nat)
    requires j < |ys|
    ensures ys[j] in NestedInOrder(ys)
    ensures forall z :: z in ys[j].items ==> z in NestedInOrder(ys)
  {
    if j > 0 {
      InNested(ys[1..], j - 1);
    }
  }

  lemma {:induction false} InItems(xs: seq<NavItem>, i: nat)
    requires i < |xs|
    ensures xs[i] in ItemsInOrder(xs)
    ensures forall z :: z in NestedInOrder(xs[i].items) ==> z in ItemsInOrder(xs)
  {
    if i > 0 {
      InItems(xs[1..], i - 1);
    }
  }

  lemma {:induction false} InTraversal(nav: seq<NavGroup>, g: nat)
    requires g < |nav|
    ensures forall z :: z in ItemsInOrder(nav[g].items) ==> z in Traversal(nav)
  {
    if g > 0 {
      InTraversal(nav[1..], g - 1);
    }
  }

  /** A first-level entry is visited, and listed when it is linked. */
  lemma ListedAtDepthOne(nav: seq<NavGroup>, g: nat, i: nat)
    requires g < |nav| && i < |nav[g].items|
    ensures nav[g].items[i] in Traversal(nav)
    ensures Linked(nav[g].items[i]) ==> nav[g].items[i] in AllNavItems(nav)
  {
    InItems(nav[g].items, i);
    InTraversal(nav, g);
    if Linked(nav[g].items[i]) {
      LinksKeeps(Traversal(nav), nav[g].items[i]);
    }
  }

  /** A second-level entry is visited, and listed when it is linked. */
  lemma ListedAtDepthTwo(nav: seq<NavGroup>, g: nat, i: nat, j: nat)
    requires g < |nav| && i < |nav[g].items| && j < |nav[g].items[i].items|
    ensures nav[g].items[i].items[j] in Traversal(nav)
    ensures Linked(nav[g].items[i].items[j]) ==> nav[g].items[i].items[j] in AllNavItems(nav)
  {
    var y := nav[g].items[i].items[j];
    InNested(nav[g].items[i].items, j);
    InItems(nav[g].items, i);
    InTraversal(nav, g);
    if Linked(y) {
      LinksKeeps(Traversal(nav), y);
    }
  }

  /** A third-level entry is visited, and listed when it is linked. */
  lemma ListedAtDepthThree(nav: seq<NavGroup>, g: nat, i: nat, j: nat, k: nat)
    requires g < |nav| && i < |nav[g].items| && j < |nav[g].items[i].items|
    requires k < |nav[g].items[i].items[j].items|
    ensures nav[g].items[i].items[j].items[k] in Traversal(nav)
    ensures Linked(nav[g].items[i].items[j].items[k]) ==> nav[g].items[i].items[j].items[k] in AllNavItems(nav)
  {
    var z := nav[g].items[i].items[j].items[k];
    InNested(nav[g].items[i].items, j);
    InItems(nav[g].items, i);
    InTraversal(nav, g);
    if Linked(z) {
      LinksKeeps(Traversal(nav), z);
    }
  }

  /** A page nested four levels deep is never visited: looking its path up
      finds nothing. */
  lemma DeepItemNotFound()
    ensures var deep := Page("Deep", "/deep");
      var nav := [NavGroup("G", [Category("A", [Category("B", [Category("C", [deep])])])], false)];
      FirstMatch(Traversal(nav), "/deep").None?
  {
    var deep := Page("Deep", "/deep");
    var c := Category("C", [deep]);
    var b := Category("B", [c]);
    var a := Category("A", [b]);
    assert NestedInOrder([b]) == [b, c] by {
      assert [b][1..] == [];
    }
    assert ItemsInOrder([a]) == [a, b, c] by {
      assert [a][1..] == [];
    }
    var nav := [NavGroup("G", [a], false)];
    assert nav[1..] == [];
    assert Traversal(nav) == [a, b, c];
  }
}
