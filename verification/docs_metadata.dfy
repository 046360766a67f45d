/** The documentation site's page metadata helpers: keyword lists, page
    titles, fallback descriptions and presets merged with a caller's
    overrides. */
module DocsMetadata {
  import opened Wrappers
  import opened JsStrings

  // ---------------------------------------------------------------------
  // Keywords
  // ---------------------------------------------------------------------

  const DefaultBaseKeywords: seq<string> := ["winter-auth", "documentation"]

  /** `s.replace(/\s+/g, '-')`: every maximal run of whitespace becomes one
      hyphen. */
  function HyphenateWhitespace(s: string): (r: string)
    ensures forall i :: 0 <= i < |r| ==> !IsWhitespace(r[i])
    ensures |r| <= |s|
    ensures r == [] <==> s == []
    ensures (forall i :: 0 <= i < |s| ==> !IsWhitespace(s[i])) ==> r == s
  {
    if s == [] then []
    else if IsWhitespace(s[0]) then
      var n := WhitespaceRun(s);
      ['-'] + HyphenateWhitespace(s[n..])
    else [s[0]] + HyphenateWhitespace(s[1..])
  }

  /** `k.toLowerCase().replace(/\s+/g, '-')`. */
  function Slugify(k: string): (r: string)
    ensures forall i :: 0 <= i < |r| ==> !IsWhitespace(r[i]) && !('A' <= r[i] <= 'Z')
    ensures r == [] <==> k == []
  {
    var lower := ToLowerAscii(k);
    assert forall i :: 0 <= i < |lower| ==> !('A' <= lower[i] <= 'Z');
    LowerCaseSurvives(lower);
    HyphenateWhitespace(lower)
  }

  predicate NoWhitespace(s: string) {
    forall i :: 0 <= i < |s| ==> !IsWhitespace(s[i])
  }

  predicate AllWhitespace(s: string) {
    forall i :: 0 <= i < |s| ==> IsWhitespace(s[i])
  }

  /** A whitespace run followed by text that does not start with
      whitespace is exactly as long as the run. */
  lemma WhitespaceRunOf(w: string, t: string)
    requires AllWhitespace(w) && (t == [] || !IsWhitespace(t[0]))
    ensures WhitespaceRun(w + t) == |w|
  {
    assert forall k :: 0 <= k < |w| ==> (w + t)[k] == w[k];
    assert t != [] ==> (w + t)[|w|] == t[0];
  }

  /** A word, then a maximal run of whitespace: the word is kept and the
      whole run becomes a single '-'. With `HyphenateWhitespace(a) == a`
      for a word `a`, this determines the result on every input. */
  lemma {:induction false} HyphenateWordThenRun(a: string, w: string, t: string)
    requires NoWhitespace(a) && w != [] && AllWhitespace(w) && (t == [] || !IsWhitespace(t[0]))
    ensures HyphenateWhitespace(a + w + t) == a + "-" + HyphenateWhitespace(t)
    decreases |a|
  {
    var s := a + w + t;
    if a == [] {
      assert s == w + t;
      WhitespaceRunOf(w, t);
      assert s[|w|..] == t;
    } else {
      assert s[0] == a[0];
      assert s[1..] == a[1..] + w + t;
      HyphenateWordThenRun(a[1..], w, t);
    }
  }

  /** Lower-casing keeps whitespace where it was. */
  lemma LowerKeepsWhitespace(s: string)
    ensures NoWhitespace(s) ==> NoWhitespace(ToLowerAscii(s))
    ensures AllWhitespace(s) ==> AllWhitespace(ToLowerAscii(s))
  {
  }

  /** A keyword without whitespace slugifies to its lower-case form. */
  lemma SlugifyWord(a: string)
    requires NoWhitespace(a)
    ensures Slugify(a) == ToLowerAscii(a)
  {
    LowerKeepsWhitespace(a);
  }

  /** A word followed by a maximal whitespace run slugifies to the
      lower-cased word, one '-', and the slug of the rest. */
  lemma {:induction false} SlugifyWordThenRun(a: string, w: string, t: string)
    requires NoWhitespace(a) && w != [] && AllWhitespace(w) && (t == [] || !IsWhitespace(t[0]))
    ensures Slugify(a + w + t) == ToLowerAscii(a) + "-" + Slugify(t)
  {
    assert ToLowerAscii(a + w + t) == ToLowerAscii(a) + ToLowerAscii(w) + ToLowerAscii(t);
    LowerKeepsWhitespace(a);
    LowerKeepsWhitespace(w);
    var lt := ToLowerAscii(t);
    assert lt == [] || !IsWhitespace(lt[0]);
    HyphenateWordThenRun(ToLowerAscii(a), ToLowerAscii(w), lt);
  }

  /** Hyphenating whitespace introduces no upper-case letter. */
  lemma {:induction false} LowerCaseSurvives(s: string)
    requires forall i :: 0 <= i < |s| ==> !('A' <= s[i] <= 'Z')
    ensures forall i :: 0 <= i < |HyphenateWhitespace(s)| ==> !('A' <= HyphenateWhitespace(s)[i] <= 'Z')
  {
    if s != [] {
      if IsWhitespace(s[0]) {
        LowerCaseSurvives(s[WhitespaceRun(s)..]);
      } else {
        LowerCaseSurvives(s[1..]);
      }
    }
  }

  /** Text that slugifying leaves as it is: no whitespace and no
      upper-case letter. */
  predicate IsSlug(k: string) {
    forall i :: 0 <= i < |k| ==> !IsWhitespace(k[i]) && !('A' <= k[i] <= 'Z')
  }

  /** A keyword that is already a slug is left as it is. */
  lemma SlugifySlug(k: string)
    requires IsSlug(k)
    ensures Slugify(k) == k
  {
    assert ToLowerAscii(k) == k;
  }

  /** Slugifying twice is slugifying once. */
  lemma SlugifyIdempotent(k: string)
    ensures Slugify(Slugify(k)) == Slugify(k)
  {
    SlugifySlug(Slugify(k));
  }

  function SlugifyAll(ks: seq<string>): (r: seq<string>)
    ensures |r| == |ks| && forall i :: 0 <= i < |ks| ==> r[i] == Slugify(ks[i])
  {
    if ks == [] then [] else [Slugify(ks[0])] + SlugifyAll(ks[1..])
  }

  /** `filter(Boolean)` on strings: the non-empty ones, in order. */
  function NonEmpty(xs: seq<string>): (r: seq<string>)
    ensures forall x :: x in r <==> x in xs && x != ""
  {
    if xs == [] then []
    else if xs[0] == "" then NonEmpty(xs[1..])
    else [xs[0]] + NonEmpty(xs[1..])
  }

  predicate NoDuplicates(xs: seq<string>) {
    forall i, j :: 0 <= i < j < |xs| ==> xs[i] != xs[j]
  }

  /** `[...new Set(xs)]`: each value once, where it first occurs. Adding a
      value the set already holds changes nothing. */
  function Dedup(xs: seq<string>): (r: seq<string>)
    ensures NoDuplicates(r)
    ensures forall x :: x in r <==> x in xs
    ensures |r| <= |xs|
  {
    if xs == [] then []
    else
      var d := Dedup(xs[..|xs| - 1]);
      var last := xs[|xs| - 1];
      assert forall x :: x in xs <==> x in xs[..|xs| - 1] || x == last by {
        assert xs == xs[..|xs| - 1] + [last];
      }
      if last in d then d else d + [last]
  }

  /** The position where `x` first occurs in `xs`. */
  function FirstIndex(xs: seq<string>, x: string): (r: nat)
    requires x in xs
    ensures r < |xs| && xs[r] == x
    ensures forall k :: 0 <= k < r ==> xs[k] != x
  {
    if xs[0] == x then 0 else 1 + FirstIndex(xs[1..], x)
  }

  /** The first occurrence of a value found in a prefix is found there. */
  lemma FirstIndexInPrefix(xs: seq<string>, n: nat, x: string)
    requires n <= |xs| && x in xs[..n]
    ensures FirstIndex(xs, x) == FirstIndex(xs[..n], x)
  {
    var a := FirstIndex(xs, x);
    var b := FirstIndex(xs[..n], x);
    assert xs[b] == x;
    forall k | 0 <= k < b
      ensures xs[k] != x
    {
      assert xs[k] == xs[..n][k];
    }
  }

  /** The de-duplicated list keeps first-occurrence order. */
  lemma {:induction false} DedupOrder(xs: seq<string>)
    ensures forall i, j :: 0 <= i < j < |Dedup(xs)| ==> FirstIndex(xs, Dedup(xs)[i]) < FirstIndex(xs, Dedup(xs)[j])
  {
    if xs != [] {
      var p := xs[..|xs| - 1];
      var last := xs[|xs| - 1];
      var d := Dedup(p);
      DedupOrder(p);
      assert xs == p + [last];
      forall i | 0 <= i < |d|
        ensures FirstIndex(xs, d[i]) == FirstIndex(p, d[i])
      {
        FirstIndexInPrefix(xs, |xs| - 1, d[i]);
      }
      if last !in d {
        assert last !in p;
        assert FirstIndex(xs, last) == |xs| - 1;
      }
    }
  }

  /** A list that already has no duplicates is left as it is. */
  lemma {:induction false} DedupOfDistinct(xs: seq<string>)
    requires NoDuplicates(xs)
    ensures Dedup(xs) == xs
  {
    if xs != [] {
      var p := xs[..|xs| - 1];
      assert NoDuplicates(p);
      DedupOfDistinct(p);
      assert xs[|xs| - 1] !in p;
      assert p + [xs[|xs| - 1]] == xs;
    }
  }

  /** De-duplicating a concatenation starts with the de-duplicated first
      part. */
  lemma {:induction false} DedupPrefix(a: seq<string>, b: seq<string>)
    ensures Dedup(a) <= Dedup(a + b)
  {
    if b != [] {
      assert (a + b)[..|a + b| - 1] == a + b[..|b| - 1];
      DedupPrefix(a, b[..|b| - 1]);
    } else {
      assert a + b == a;
    }
  }

  /** Everything `generateKeywords` de-duplicates: the base list as given,
      then the slugified additional keywords. */
  function AllKeywords(base: Option<seq<string>>, additional: seq<string>): seq<string> {
    base.GetOr(DefaultBaseKeywords) + SlugifyAll(additional)
  }

  /** `generateKeywords(baseKeywords, ...additionalKeywords)`; `None` is an
      omitted or `undefined` base list. */
  function GenerateKeywords(base: Option<seq<string>>, additional: seq<string>): (r: seq<string>)
    ensures NoDuplicates(r)
    ensures forall i :: 0 <= i < |r| ==> r[i] != ""
    ensures forall x :: x in r <==> x in AllKeywords(base, additional) && x != ""
  {
    var r := Dedup(NonEmpty(AllKeywords(base, additional)));
    assert forall i :: 0 <= i < |r| ==> r[i] in r;
    r
  }

  /** The keywords come out in the order in which they first occur. */
  lemma KeywordsInFirstOccurrenceOrder(base: Option<seq<string>>, additional: seq<string>)
    ensures var all := NonEmpty(AllKeywords(base, additional));
      var r := GenerateKeywords(base, additional);
      forall i, j :: 0 <= i < j < |r| ==> FirstIndex(all, r[i]) < FirstIndex(all, r[j])
  {
    DedupOrder(NonEmpty(AllKeywords(base, additional)));
  }

  lemma {:induction false} NonEmptyAppend(a: seq<string>, b: seq<string>)
    ensures NonEmpty(a + b) == NonEmpty(a) + NonEmpty(b)
  {
    if a != [] {
      assert (a + b)[1..] == a[1..] + b;
      NonEmptyAppend(a[1..], b);
    } else {
      assert a + b == b;
    }
  }

  lemma {:induction false} NonEmptyOfNonEmpty(xs: seq<string>)
    requires forall i :: 0 <= i < |xs| ==> xs[i] != ""
    ensures NonEmpty(xs) == xs
  {
    if xs != [] {
      NonEmptyOfNonEmpty(xs[1..]);
    }
  }

  /** A base list of distinct, non-empty keywords leads the result
      unchanged. */
  lemma BaseKeywordsLead(base: seq<string>, additional: seq<string>)
    requires NoDuplicates(base) && forall i :: 0 <= i < |base| ==> base[i] != ""
    ensures base <= GenerateKeywords(Some(base), additional)
  {
    NonEmptyAppend(base, SlugifyAll(additional));
    NonEmptyOfNonEmpty(base);
    DedupOfDistinct(base);
    DedupPrefix(base, NonEmpty(SlugifyAll(additional)));
  }

  /** With nothing given, the keywords are the default base list. */
  lemma DefaultKeywords()
    ensures GenerateKeywords(None, []) == DefaultBaseKeywords
  {
    assert AllKeywords(None, []) == DefaultBaseKeywords;
    NonEmptyOfNonEmpty(DefaultBaseKeywords);
    DedupOfDistinct(DefaultBaseKeywords);
  }

  // ---------------------------------------------------------------------
  // Titles and descriptions
  // ---------------------------------------------------------------------

  /** A section title counts when it is present and not empty. */
  predicate Truthy(s: Option<string>) {
    s.Some? && s.value != ""
  }

  /** `generatePageTitle(pageTitle, sectionTitle)`. */
  function GeneratePageTitle(pageTitle: string, sectionTitle: Option<string>): (r: string)
    ensures pageTitle <= r
    ensures r == pageTitle <==> !Truthy(sectionTitle)
    ensures Truthy(sectionTitle) ==> r[|pageTitle|..] == " - " + sectionTitle.value
  {
    if Truthy(sectionTitle) then pageTitle + " - " + sectionTitle.value else pageTitle
  }

  const DescriptionOpening := "Documentation for "
  const DescriptionClosing := " - Winter Auth biometric authentication and identity verification system."

  /** `generateDescription(title, section)`. */
  function GenerateDescription(title: string, section: Option<string>): (r: string)
    ensures DescriptionOpening + title <= r
    ensures |r| == |DescriptionOpening| + |title| + (if Truthy(section) then 4 + |section.value| else 0) + |DescriptionClosing|
    ensures r[|r| - |DescriptionClosing|..] == DescriptionClosing
  {
    var sectionText := if Truthy(section) then " in " + section.value else "";
    var r := DescriptionOpening + title + sectionText + DescriptionClosing;
    assert r == (DescriptionOpening + title) + (sectionText + DescriptionClosing);
    r
  }

  /** Without a section, the description names its title unambiguously. */
  lemma DescriptionDeterminesTitle(t1: string, t2: string, s1: Option<string>, s2: Option<string>)
    requires !Truthy(s1) && !Truthy(s2)
    requires GenerateDescription(t1, s1) == GenerateDescription(t2, s2)
    ensures t1 == t2
  {
    var n := |DescriptionOpening|;
    assert t1 == GenerateDescription(t1, s1)[n..n + |t1|];
    assert t2 == GenerateDescription(t2, s2)[n..n + |t2|];
  }

  /** Equal texts around two middles of equal length force equal middles. */
  lemma SameMiddle(pre: string, x: string, y: string, post: string)
    requires |x| == |y| && pre + x + post == pre + y + post
    ensures x == y
  {
    assert x == (pre + x + post)[|pre|..|pre| + |x|];
    assert y == (pre + y + post)[|pre|..|pre| + |y|];
  }

  lemma DescriptionWithSection(t: string, s: Option<string>)
    requires Truthy(s)
    ensures GenerateDescription(t, s) == (DescriptionOpening + t + " in ") + s.value + DescriptionClosing
  {
  }

  /** With the same title, the section is recovered from the description:
      truthy sections that differ give different descriptions. */
  lemma DescriptionDeterminesSection(t: string, s1: Option<string>, s2: Option<string>)
    requires Truthy(s1) && Truthy(s2)
    requires GenerateDescription(t, s1) == GenerateDescription(t, s2)
    ensures s1 == s2
  {
    DescriptionWithSection(t, s1);
    DescriptionWithSection(t, s2);
    SameMiddle(DescriptionOpening + t + " in ", s1.value, s2.value, DescriptionClosing);
  }

  // ---------------------------------------------------------------------
  // Presets
  // ---------------------------------------------------------------------

  datatype Preset = Api | Guide | Concept | Integration

  function PresetKeywords(p: Preset): seq<string> {
    match p
    case Api => ["api", "reference", "functions", "methods"]
    case Guide => ["guide", "tutorial", "how-to", "examples"]
    case Concept => ["concepts", "overview", "explanation", "theory"]
    case Integration => ["integration", "setup", "configuration", "implementation"]
  }

  function PresetDescription(p: Preset): string {
    match p
    case Api => "API reference documentation"
    case Guide => "Step-by-step guide"
    case Concept => "Conceptual documentation"
    case Integration => "Integration and setup guide"
  }

  /** `Partial<PageMetadata>`: `None` is a field that is absent. */
  datatype PartialPageMetadata = PartialPageMetadata(
    title: Option<string>,
    description: Option<string>,
    keywords: Option<seq<string>>,
    canonical: Option<string>,
    noindex: Option<bool>)

  /** `{ ...base, ...overrides }`: a field present in `overrides` wins. */
  function Spread(base: PartialPageMetadata, overrides: PartialPageMetadata): (r: PartialPageMetadata)
    ensures overrides.title.Some? ==> r.title == overrides.title
    ensures overrides.title.None? ==> r.title == base.title
    ensures overrides.description.Some? ==> r.description == overrides.description
    ensures overrides.description.None? ==> r.description == base.description
    ensures overrides.keywords.Some? ==> r.keywords == overrides.keywords
    ensures overrides.keywords.None? ==> r.keywords == base.keywords
    ensures overrides.canonical.Some? ==> r.canonical == overrides.canonical
    ensures overrides.canonical.None? ==> r.canonical == base.canonical
    ensures overrides.noindex.Some? ==> r.noindex == overrides.noindex
    ensures overrides.noindex.None? ==> r.noindex == base.noindex
  {
    PartialPageMetadata(
      if overrides.title.Some? then overrides.title else base.title,
      if overrides.description.Some? then overrides.description else base.description,
      if overrides.keywords.Some? then overrides.keywords else base.keywords,
      if overrides.canonical.Some? then overrides.canonical else base.canonical,
      if overrides.noindex.Some? then overrides.noindex else base.noindex)
  }

  /** `applyMetadataPreset(preset, customMetadata)`: the preset's keywords
      and description, then every field the caller gave. */
  function ApplyMetadataPreset(preset: Preset, custom: PartialPageMetadata): (r: PartialPageMetadata)
    ensures r.keywords.Some? && r.description.Some?
    ensures r.title == custom.title && r.canonical == custom.canonical && r.noindex == custom.noindex
    ensures r.keywords == if custom.keywords.Some? then custom.keywords
                          else Some(GenerateKeywords(Some(DefaultBaseKeywords), PresetKeywords(preset)))
    ensures r.description == if custom.description.Some? then custom.description
                             else Some(PresetDescription(preset))
  {
    var presetKeywords := PresetKeywords(preset);
    var computed := PartialPageMetadata(
      None,
      Some(if Truthy(custom.description) then custom.description.value else PresetDescription(preset)),
      Some(GenerateKeywords(Some(DefaultBaseKeywords), presetKeywords + custom.keywords.GetOr([]))),
      None,
      None);
    assert custom.keywords.None? ==> presetKeywords + custom.keywords.GetOr([]) == presetKeywords;
    Spread(computed, custom)
  }

  /** Applying a preset to its own result changes nothing. */
  lemma ApplyMetadataPresetIdempotent(preset: Preset, custom: PartialPageMetadata)
    ensures ApplyMetadataPreset(preset, ApplyMetadataPreset(preset, custom)) == ApplyMetadataPreset(preset, custom)
  {
  }

  /** Slugs are their own slugs. */
  lemma {:induction false} SlugifyAllSlugs(ks: seq<string>)
    requires forall i :: 0 <= i < |ks| ==> IsSlug(ks[i])
    ensures SlugifyAll(ks) == ks
  {
    forall i | 0 <= i < |ks|
      ensures SlugifyAll(ks)[i] == ks[i]
    {
      SlugifySlug(ks[i]);
    }
  }

  /** Additional keywords that are already distinct slugs, distinct from
      the base list too, follow the base list unchanged. */
  lemma SlugsAfterBase(base: seq<string>, ks: seq<string>)
    requires forall i :: 0 <= i < |ks| ==> IsSlug(ks[i])
    requires NoDuplicates(base + ks) && forall i :: 0 <= i < |base + ks| ==> (base + ks)[i] != ""
    ensures GenerateKeywords(Some(base), ks) == base + ks
  {
    SlugifyAllSlugs(ks);
    assert AllKeywords(Some(base), ks) == base + ks;
    NonEmptyOfNonEmpty(base + ks);
    DedupOfDistinct(base + ks);
  }

  /** Without caller keywords, a preset's keywords follow the default base
      list, in the preset's order. */
  lemma PresetKeywordsAfterBase(preset: Preset)
    ensures ApplyMetadataPreset(preset, PartialPageMetadata(None, None, None, None, None)).keywords
         == Some(DefaultBaseKeywords + PresetKeywords(preset))
  {
    PresetKeywordsAreSlugs(preset);
    SlugsAfterBase(DefaultBaseKeywords, PresetKeywords(preset));
  }

  /** Every preset keyword is already lower-case and free of whitespace. */
  lemma PresetKeywordsAreSlugs(preset: Preset)
    ensures var ks := PresetKeywords(preset); forall i :: 0 <= i < |ks| ==> IsSlug(ks[i])
  {
    PresetKeywordsArePlain(preset);
    PlainWordsAreSlugs(PresetKeywords(preset));
  }

  /** A lower-case letter or a hyphen. */
  predicate IsPlainChar(c: char) {
    'a' <= c <= 'z' || c == '-'
  }

  /** A word of lower-case letters and hyphens. */
  predicate PlainWord(k: string) {
    forall i :: 0 <= i < |k| ==> IsPlainChar(k[i])
  }

  lemma PresetKeywordsArePlain(preset: Preset)
    ensures var ks := PresetKeywords(preset); forall i :: 0 <= i < |ks| ==> PlainWord(ks[i])
  {
    match preset
    case Api => AllPlainWords("api", "reference", "functions", "methods");
    case Guide => AllPlainWords("guide", "tutorial", "how-to", "examples");
    case Concept => AllPlainWords("concepts", "overview", "explanation", "theory");
    case Integration => AllPlainWords("integration", "setup", "configuration", "implementation");
  }

  lemma AllPlainWords(a: string, b: string, c: string, d: string)
    requires PlainWord(a) && PlainWord(b) && PlainWord(c) && PlainWord(d)
    ensures var ks := [a, b, c, d]; forall i :: 0 <= i < |ks| ==> PlainWord(ks[i])
  {
  }

  lemma PlainWordsAreSlugs(ks: seq<string>)
    requires forall i :: 0 <= i < |ks| ==> PlainWord(ks[i])
    ensures forall i :: 0 <= i < |ks| ==> IsSlug(ks[i])
  {
    forall i | 0 <= i < |ks|
      ensures IsSlug(ks[i])
    {
      assert forall j :: 0 <= j < |ks[i]| ==> IsPlainChar(ks[i][j]);
    }
  }
}
