/** `buildLatestArtifacts`, `writeIndexHtml` and `main` of scripts/build-index.js: the
    manifest of latest captures, one entry per URL, and the rows of the HTML index. */
module Manifest {
  import opened Wrappers
  import opened Selection
  import opened Slug
  import opened SlugAllocation
  import opened Archive

  /** The URL comparator (`localeCompare`) is a strict total order on the URLs it sorts. */
  ghost predicate StrictTotalOrderOn(precedes: (string, string) -> bool, keys: set<string>) {
    (forall a :: a in keys ==> !precedes(a, a))
    && (forall a, b, c :: a in keys && b in keys && c in keys && precedes(a, b) && precedes(b, c) ==> precedes(a, c))
    && (forall a, b :: a in keys && b in keys && a != b ==> precedes(a, b) || precedes(b, a))
  }

  lemma OrderOnSubset(precedes: (string, string) -> bool, keys: set<string>, sub: set<string>)
    requires StrictTotalOrderOn(precedes, keys) && sub <= keys
    ensures StrictTotalOrderOn(precedes, sub)
  {
  }

  ghost predicate Ascending(s: seq<string>, precedes: (string, string) -> bool) {
    forall i, j :: 0 <= i < j < |s| ==> precedes(s[i], s[j])
  }

  /** The first key of a non-empty set under the comparator. */
  method Least(keys: set<string>, precedes: (string, string) -> bool) returns (m: string)
    requires keys != {} && StrictTotalOrderOn(precedes, keys)
    ensures m in keys
    ensures forall u :: u in keys && u != m ==> precedes(m, u)
  {
    m :| m in keys;
    var rest := keys - {m};
    ghost var seen := {m};
    while rest != {}
      invariant rest + seen == keys && rest !! seen && m in seen
      invariant forall u :: u in seen && u != m ==> precedes(m, u)
      decreases |rest|
    {
      var x :| x in rest;
      if precedes(x, m) {
        LeastStep(precedes, keys, seen, m, x);
        m := x;
      }
      rest := rest - {x};
      seen := seen + {x};
    }
  }

  lemma LeastStep(precedes: (string, string) -> bool, keys: set<string>, seen: set<string>, m: string, x: string)
    requires StrictTotalOrderOn(precedes, keys) && seen <= keys && m in seen && x in keys
    requires forall u :: u in seen && u != m ==> precedes(m, u)
    requires precedes(x, m)
    ensures forall u :: u in seen && u != x ==> precedes(x, u)
  {
    forall u | u in seen && u != x
      ensures precedes(x, u)
    {
      if u != m {
        assert precedes(m, u);
      }
    }
  }

  /** `Array.from(latestByUrl.keys()).sort(...)`: every key once, in ascending order. */
  method SortUrls(keys: set<string>, precedes: (string, string) -> bool) returns (sorted: seq<string>)
    requires StrictTotalOrderOn(precedes, keys)
    ensures forall u :: u in sorted <==> u in keys
    ensures |sorted| == |keys|
    ensures Ascending(sorted, precedes)
  {
    sorted := [];
    var rest := keys;
    while rest != {}
      invariant rest <= keys
      invariant forall u :: u in sorted <==> u in keys && u !in rest
      invariant |sorted| + |rest| == |keys|
      invariant Ascending(sorted, precedes)
      invariant forall i, u :: 0 <= i < |sorted| && u in rest ==> precedes(sorted[i], u)
      decreases |rest|
    {
      OrderOnSubset(precedes, keys, rest);
      var m := Least(rest, precedes);
      sorted := sorted + [m];
      rest := rest - {m};
    }
  }

  /** One element of `indexEntries`. Its four artifact paths are determined by the slug. */
  datatype Entry = Entry(url: string, slug: string, timestamp: string)

  function HtmlPath(e: Entry): string { "latest/" + e.slug + ".html" }
  function TextPath(e: Entry): string { "latest/" + e.slug + ".txt" }
  function MetaPath(e: Entry): string { "latest/" + e.slug + ".meta.json" }
  function MetaTextPath(e: Entry): string { "latest/" + e.slug + ".meta.txt" }

  /** Paths differing only in the slug between a fixed prefix and suffix are equal only
      for equal slugs. */
  lemma FramedInjective(pre: string, a: string, b: string, post: string)
    requires pre + a + post == pre + b + post
    ensures a == b
  {
    var x := pre + a + post;
    assert |a| == |b|;
    assert a == x[|pre|..|pre| + |a|];
    assert b == x[|pre|..|pre| + |b|];
  }

  /** Entries with distinct slugs share no artifact file of any kind. */
  lemma ArtifactPathsDistinct(e1: Entry, e2: Entry)
    requires e1.slug != e2.slug
    ensures HtmlPath(e1) != HtmlPath(e2) && TextPath(e1) != TextPath(e2)
    ensures MetaPath(e1) != MetaPath(e2) && MetaTextPath(e1) != MetaTextPath(e2)
  {
    if HtmlPath(e1) == HtmlPath(e2) {
      FramedInjective("latest/", e1.slug, e2.slug, ".html");
    }
    if TextPath(e1) == TextPath(e2) {
      FramedInjective("latest/", e1.slug, e2.slug, ".txt");
    }
    if MetaPath(e1) == MetaPath(e2) {
      FramedInjective("latest/", e1.slug, e2.slug, ".meta.json");
    }
    if MetaTextPath(e1) == MetaTextPath(e2) {
      FramedInjective("latest/", e1.slug, e2.slug, ".meta.txt");
    }
  }

  function SetOf(s: seq<string>): set<string> {
    set x | x in s
  }

  /** The slug `ensureUniqueSlug` starts from for a URL. */
  function OwnSlug(url: string): string {
    SlugBase(SlugifyUrl(url))
  }

  /** Slugs allocated so far: pairwise distinct, each URL got its own slug unless an
      earlier URL had already taken it, and each slug is the allocator's choice given the
      slugs of the URLs before it. */
  ghost predicate SlugsAllocated(owns: seq<string>, slugs: seq<string>) {
    |slugs| <= |owns|
    && (forall i, j :: 0 <= i < j < |slugs| ==> slugs[i] != slugs[j])
    && (forall i :: 0 <= i < |slugs| && owns[i] !in slugs[..i] ==> slugs[i] == owns[i])
    && (forall i :: 0 <= i < |slugs| ==> SlugChoice(owns[i], SetOf(slugs[..i]), slugs[i]))
  }

  lemma SlugsAllocatedStep(owns: seq<string>, slugs: seq<string>, slug: string)
    requires SlugsAllocated(owns, slugs) && |slugs| < |owns|
    requires slug !in SetOf(slugs)
    requires owns[|slugs|] !in SetOf(slugs) ==> slug == owns[|slugs|]
    requires SlugChoice(owns[|slugs|], SetOf(slugs), slug)
    ensures SlugsAllocated(owns, slugs + [slug])
  {
    var n := |slugs|;
    var s' := slugs + [slug];
    forall i, j | 0 <= i < j < |s'|
      ensures s'[i] != s'[j]
    {
      assert s'[i] == slugs[i];
      if j == n {
        assert slugs[i] in SetOf(slugs);
      }
    }
    forall i | 0 <= i < |s'|
      ensures owns[i] !in s'[..i] ==> s'[i] == owns[i]
      ensures SlugChoice(owns[i], SetOf(s'[..i]), s'[i])
    {
      if i < n {
        assert s'[..i] == slugs[..i];
      } else {
        assert s'[..i] == slugs;
      }
    }
  }

  /** The entries so far are the complete ones among the first `n` sorted URLs, in order. */
  ghost predicate Traced(entries: seq<Entry>, origin: seq<nat>, order: seq<string>, slugs: seq<string>,
                         latest: map<string, Snapshot>, complete: set<string>, n: nat)
  {
    n <= |order| && n <= |slugs| && (forall i :: 0 <= i < |order| ==> order[i] in latest)
    && |origin| == |entries| <= n
    && (forall k :: 0 <= k < |entries| ==>
          origin[k] < n && latest[order[origin[k]]].dirName in complete &&
          entries[k] == Entry(order[origin[k]], slugs[origin[k]], latest[order[origin[k]]].timestamp))
    && (forall k, l :: 0 <= k < l < |entries| ==> origin[k] < origin[l])
    && (forall i :: 0 <= i < n && latest[order[i]].dirName in complete ==> i in origin)
  }

  lemma TracedSkip(entries: seq<Entry>, origin: seq<nat>, order: seq<string>, slugs: seq<string>,
                   latest: map<string, Snapshot>, complete: set<string>, n: nat)
    requires Traced(entries, origin, order, slugs, latest, complete, n)
    requires n < |order| && n < |slugs| && latest[order[n]].dirName !in complete
    ensures Traced(entries, origin, order, slugs, latest, complete, n + 1)
  {
  }

  lemma TracedKeep(entries: seq<Entry>, origin: seq<nat>, order: seq<string>, slugs: seq<string>,
                   latest: map<string, Snapshot>, complete: set<string>, n: nat)
    requires Traced(entries, origin, order, slugs, latest, complete, n)
    requires n < |order| && n < |slugs| && latest[order[n]].dirName in complete
    ensures Traced(entries + [Entry(order[n], slugs[n], latest[order[n]].timestamp)], origin + [n],
                   order, slugs, latest, complete, n + 1)
  {
  }

  lemma TracedMoreSlugs(entries: seq<Entry>, origin: seq<nat>, order: seq<string>, slugs: seq<string>,
                        latest: map<string, Snapshot>, complete: set<string>, n: nat, slug: string)
    requires Traced(entries, origin, order, slugs, latest, complete, n)
    ensures Traced(entries, origin, order, slugs + [slug], latest, complete, n)
  {
    var s' := slugs + [slug];
    assert forall i :: 0 <= i < |slugs| ==> s'[i] == slugs[i];
  }

  /** `ensureUniqueSlug(slugifyUrl(url), usedSlugs)` for one URL of the manifest loop. */
  method AllocateSlug(url: string, used: set<string>) returns (slug: string, used': set<string>)
    ensures slug !in used && used' == used + {slug}
    ensures OwnSlug(url) !in used ==> slug == OwnSlug(url)
    ensures SlugChoice(OwnSlug(url), used, slug)
  {
    var counter;
    slug, used', counter := EnsureUniqueSlugCorrected(SlugifyUrl(url), used);
  }

  /** The manifest loop. `order` is the sorted URL list, `slugs[i]` the slug allocated to
      `order[i]` (allocated before the artifact check, so an incomplete capture still uses its
      slug), and `origin[k]` the position in `order` of `entries[k]`. `complete` holds the
      directory names with all three artifacts. */
  method BuildLatestArtifacts(latest: map<string, Snapshot>, complete: set<string>,
                              precedes: (string, string) -> bool)
    returns (entries: seq<Entry>, order: seq<string>, slugs: seq<string>, ghost origin: seq<nat>)
    requires StrictTotalOrderOn(precedes, latest.Keys)
    ensures forall u :: u in order <==> u in latest
    ensures |order| == |latest.Keys| && Ascending(order, precedes)
    ensures |slugs| == |order|
    ensures forall i, j :: 0 <= i < j < |slugs| ==> slugs[i] != slugs[j]
    ensures forall i :: 0 <= i < |order| && OwnSlug(order[i]) !in slugs[..i] ==> slugs[i] == OwnSlug(order[i])
    ensures forall i :: 0 <= i < |order| ==> SlugChoice(OwnSlug(order[i]), SetOf(slugs[..i]), slugs[i])
    ensures |origin| == |entries|
    ensures forall k :: 0 <= k < |entries| ==>
              origin[k] < |order| && entries[k].url == order[origin[k]] && entries[k].slug == slugs[origin[k]]
    ensures forall e :: e in entries ==>
              e.url in latest && e.timestamp == latest[e.url].timestamp && latest[e.url].dirName in complete
    ensures forall u :: u in latest && latest[u].dirName in complete ==> exists e :: e in entries && e.url == u
    ensures forall k, l :: 0 <= k < l < |entries| ==>
              entries[k].slug != entries[l].slug && precedes(entries[k].url, entries[l].url)
    ensures ManifestOf(latest, complete, precedes, entries, order, slugs, origin)
  {
    order := SortUrls(latest.Keys, precedes);
    ghost var owns := seq(|order|, i requires 0 <= i < |order| => OwnSlug(order[i]));
    entries, slugs, origin := CollectEntries(order, owns, latest, complete);
    TracedEntries(entries, origin, order, slugs, latest, complete, precedes);
  }

  /** The design's `<slug>`, then `<slug>-2`: when the first two URLs in order share a slug
      short enough for `-2` to fit, the first keeps it and the second gets `-2`. */
  lemma SecondOfSharedSlug(order: seq<string>, slugs: seq<string>)
    requires |order| >= 2 && |slugs| == |order|
    requires forall i :: 0 <= i < |order| ==> SlugChoice(OwnSlug(order[i]), SetOf(slugs[..i]), slugs[i])
    requires OwnSlug(order[0]) == OwnSlug(order[1]) && |OwnSlug(order[0])| + 2 <= 100
    ensures slugs[0] == OwnSlug(order[0]) && slugs[1] == OwnSlug(order[0]) + "-2"
  {
    var own := OwnSlug(order[0]);
    assert SetOf(slugs[..0]) == {};
    assert SlugChoice(own, {}, slugs[0]);
    assert SetOf(slugs[..1]) == {own};
    assert SlugChoice(own, {own}, slugs[1]);
    SecondSlugGetsTwo(own, slugs[1]);
  }

  /** Everything `BuildLatestArtifacts` promises about one result: the sorted URLs, the slug
      allocated to each, and the entries drawn from them. */
  ghost predicate ManifestOf(latest: map<string, Snapshot>, complete: set<string>, precedes: (string, string) -> bool,
                             entries: seq<Entry>, order: seq<string>, slugs: seq<string>, origin: seq<nat>) {
    && (forall u :: u in order <==> u in latest)
    && Ascending(order, precedes)
    && SlugsChosen(order, slugs)
    && EntriesFrom(latest, complete, precedes, entries, order, slugs, origin)
  }

  /** One distinct slug per URL, each chosen as `SlugChoice` states against those before it. */
  ghost predicate SlugsChosen(order: seq<string>, slugs: seq<string>) {
    && |slugs| == |order|
    && (forall i, j :: 0 <= i < j < |slugs| ==> slugs[i] != slugs[j])
    && (forall i :: 0 <= i < |order| ==> SlugChoice(OwnSlug(order[i]), SetOf(slugs[..i]), slugs[i]))
  }

  /** The entries: `origin[k]` is the position in `order` of `entries[k]`; an entry exactly for
      each URL whose latest directory is complete, with its timestamp, in URL order. */
  ghost predicate EntriesFrom(latest: map<string, Snapshot>, complete: set<string>, precedes: (string, string) -> bool,
                              entries: seq<Entry>, order: seq<string>, slugs: seq<string>, origin: seq<nat>) {
    && |origin| == |entries|
    && (forall k :: 0 <= k < |entries| ==>
          origin[k] < |order| && origin[k] < |slugs| &&
          entries[k].url == order[origin[k]] && entries[k].slug == slugs[origin[k]])
    && (forall e :: e in entries ==>
          e.url in latest && e.timestamp == latest[e.url].timestamp && latest[e.url].dirName in complete)
    && (forall u :: u in latest && latest[u].dirName in complete ==> exists e :: e in entries && e.url == u)
    && (forall k, l :: 0 <= k < l < |entries| ==> precedes(entries[k].url, entries[l].url))
  }

  lemma FirstIsLeast(a: seq<string>, precedes: (string, string) -> bool, x: string)
    requires Ascending(a, precedes) && x in a
    ensures x == a[0] || precedes(a[0], x)
  {
    var p :| 0 <= p < |a| && a[p] == x;
    assert p > 0 ==> precedes(a[0], a[p]);
  }

  /** An ascending sequence holds each element at one position only. */
  lemma AscendingInjective(a: seq<string>, precedes: (string, string) -> bool, keys: set<string>, p: nat, q: nat)
    requires StrictTotalOrderOn(precedes, keys) && (forall u :: u in a ==> u in keys)
    requires Ascending(a, precedes) && p < |a| && q < |a| && a[p] == a[q]
    ensures p == q
  {
    assert a[p] in a;
  }

  /** Two sequences with the same elements are empty together. */
  lemma SameElementsSameEmptiness(a: seq<string>, b: seq<string>)
    requires forall u :: u in a <==> u in b
    ensures |a| == 0 <==> |b| == 0
  {
    if |a| > 0 {
      assert a[0] in a;
    }
    if |b| > 0 {
      assert b[0] in b;
    }
  }

  /** Two ascending sequences over the same elements are the same sequence. */
  lemma {:induction false} AscendingUnique(a: seq<string>, b: seq<string>, precedes: (string, string) -> bool,
                                           keys: set<string>)
    requires StrictTotalOrderOn(precedes, keys)
    requires forall u :: u in a ==> u in keys
    requires forall u :: u in a <==> u in b
    requires Ascending(a, precedes) && Ascending(b, precedes)
    ensures a == b
    decreases |a|
  {
    SameElementsSameEmptiness(a, b);
    if |a| > 0 {
      assert a[0] in a && a[0] in b;
      assert b[0] in b && b[0] in a;
      FirstIsLeast(a, precedes, b[0]);
      FirstIsLeast(b, precedes, a[0]);
      assert a[0] == b[0];
      forall u
        ensures u in a[1..] ==> u in b[1..]
      {
        if u in a[1..] {
          var p :| 1 <= p < |a| && a[p] == u;
          assert precedes(a[0], u) && u in keys;
          assert u in b;
          var q :| 0 <= q < |b| && b[q] == u;
          assert b[1..][q - 1] == u;
        }
      }
      forall u
        ensures u in b[1..] ==> u in a[1..]
      {
        if u in b[1..] {
          var p :| 1 <= p < |b| && b[p] == u;
          assert precedes(b[0], u) && u in a && u in keys;
          var q :| 0 <= q < |a| && a[q] == u;
          assert a[1..][q - 1] == u;
        }
      }
      AscendingUnique(a[1..], b[1..], precedes, keys);
      assert a == [a[0]] + a[1..] && b == [b[0]] + b[1..];
    }
  }

  /** In a list of distinct slugs, each is fresh with respect to the ones before it. */
  lemma FreshAt(slugs: seq<string>, i: nat)
    requires i < |slugs| && forall a, b :: 0 <= a < b < |slugs| ==> slugs[a] != slugs[b]
    ensures slugs[i] !in SetOf(slugs[..i])
  {
    forall a | 0 <= a < i
      ensures slugs[..i][a] != slugs[i]
    {
    }
  }

  /** The slug at position `i` is fresh and is the one `SlugChoice` allows against the slugs
      before it. */
  ghost predicate ChoiceAt(order: seq<string>, slugs: seq<string>, i: nat) {
    && i < |order| && i < |slugs|
    && slugs[i] !in SetOf(slugs[..i])
    && SlugChoice(OwnSlug(order[i]), SetOf(slugs[..i]), slugs[i])
  }

  /** Position by position, the slugs of two allocations over one URL order agree. */
  lemma {:induction false} SlugsAgree(order: seq<string>, s1: seq<string>, s2: seq<string>, n: nat)
    requires |s1| == |order| && |s2| == |order| && n <= |order|
    requires forall i :: 0 <= i < |order| ==> ChoiceAt(order, s1, i)
    requires forall i :: 0 <= i < |order| ==> ChoiceAt(order, s2, i)
    ensures s1[..n] == s2[..n]
  {
    if n > 0 {
      SlugsAgree(order, s1, s2, n - 1);
      SlugsAgreeStep(order, s1, s2, n);
    }
  }

  lemma SlugsAgreeStep(order: seq<string>, s1: seq<string>, s2: seq<string>, n: nat)
    requires 0 < n <= |s1| && n <= |s2| && s1[..n - 1] == s2[..n - 1]
    requires ChoiceAt(order, s1, n - 1) && ChoiceAt(order, s2, n - 1)
    ensures s1[..n] == s2[..n]
  {
    SlugChoiceUnique(OwnSlug(order[n - 1]), SetOf(s1[..n - 1]), s1[n - 1], s2[n - 1]);
    assert s1[..n] == s1[..n - 1] + [s1[n - 1]];
    assert s2[..n] == s2[..n - 1] + [s2[n - 1]];
  }

  /** The URL column of a manifest. */
  function EntryUrls(entries: seq<Entry>): (r: seq<string>)
    ensures |r| == |entries| && forall k :: 0 <= k < |entries| ==> r[k] == entries[k].url
  {
    seq(|entries|, k requires 0 <= k < |entries| => entries[k].url)
  }

  /** The manifest is fixed by the latest records, the complete directories and the
      comparator: the build has no free choices. */
  lemma ManifestDeterministic(latest: map<string, Snapshot>, complete: set<string>, precedes: (string, string) -> bool,
                              e1: seq<Entry>, o1: seq<string>, s1: seq<string>, g1: seq<nat>,
                              e2: seq<Entry>, o2: seq<string>, s2: seq<string>, g2: seq<nat>)
    requires StrictTotalOrderOn(precedes, latest.Keys)
    requires ManifestOf(latest, complete, precedes, e1, o1, s1, g1)
    requires ManifestOf(latest, complete, precedes, e2, o2, s2, g2)
    ensures o1 == o2 && s1 == s2 && e1 == e2
  {
    AscendingUnique(o1, o2, precedes, latest.Keys);
    forall i | 0 <= i < |o1|
      ensures ChoiceAt(o1, s1, i) && ChoiceAt(o1, s2, i)
    {
      FreshAt(s1, i);
      FreshAt(s2, i);
    }
    SlugsAgree(o1, s1, s2, |o1|);
    assert s1 == s1[..|o1|] && s2 == s2[..|o1|];
    EntryUrlsAgree(latest, complete, precedes, e1, o1, s1, g1, e2, g2);
    EntriesAgree(latest, complete, precedes, e1, o1, s1, g1, e2, g2);
  }

  /** Two manifests of the same latest records list the same URLs in the same order. */
  lemma EntryUrlsAgree(latest: map<string, Snapshot>, complete: set<string>, precedes: (string, string) -> bool,
                       e1: seq<Entry>, order: seq<string>, slugs: seq<string>, g1: seq<nat>,
                       e2: seq<Entry>, g2: seq<nat>)
    requires StrictTotalOrderOn(precedes, latest.Keys)
    requires EntriesFrom(latest, complete, precedes, e1, order, slugs, g1)
    requires EntriesFrom(latest, complete, precedes, e2, order, slugs, g2)
    ensures EntryUrls(e1) == EntryUrls(e2)
  {
    EntryUrlsAreComplete(latest, complete, precedes, e1, order, slugs, g1);
    EntryUrlsAreComplete(latest, complete, precedes, e2, order, slugs, g2);
    AscendingUnique(EntryUrls(e1), EntryUrls(e2), precedes, latest.Keys);
  }

  /** The URL column holds exactly the URLs whose latest directory is complete, ascending. */
  lemma EntryUrlsAreComplete(latest: map<string, Snapshot>, complete: set<string>, precedes: (string, string) -> bool,
                             entries: seq<Entry>, order: seq<string>, slugs: seq<string>, origin: seq<nat>)
    requires EntriesFrom(latest, complete, precedes, entries, order, slugs, origin)
    ensures forall u :: u in EntryUrls(entries) <==> u in latest && latest[u].dirName in complete
    ensures Ascending(EntryUrls(entries), precedes)
  {
    var urls := EntryUrls(entries);
    forall u
      ensures u in urls <==> u in latest && latest[u].dirName in complete
    {
      if u in latest && latest[u].dirName in complete {
        var x :| x in entries && x.url == u;
      }
      if u in urls {
        var k :| 0 <= k < |urls| && urls[k] == u;
        assert entries[k] in entries;
      }
    }
  }

  /** With the URL column fixed, each entry's slug and timestamp are fixed too. */
  lemma EntriesAgree(latest: map<string, Snapshot>, complete: set<string>, precedes: (string, string) -> bool,
                     e1: seq<Entry>, order: seq<string>, slugs: seq<string>, g1: seq<nat>,
                     e2: seq<Entry>, g2: seq<nat>)
    requires StrictTotalOrderOn(precedes, latest.Keys)
    requires EntriesFrom(latest, complete, precedes, e1, order, slugs, g1)
    requires EntriesFrom(latest, complete, precedes, e2, order, slugs, g2)
    requires (forall u :: u in order ==> u in latest) && Ascending(order, precedes)
    requires EntryUrls(e1) == EntryUrls(e2)
    ensures e1 == e2
  {
    forall k | 0 <= k < |e1|
      ensures e1[k] == e2[k]
    {
      assert e1[k].url == e2[k].url;
      assert e1[k] in e1 && e2[k] in e2;
      assert order[g1[k]] == order[g2[k]] && order[g1[k]] in order;
      AscendingInjective(order, precedes, latest.Keys, g1[k], g2[k]);
    }
  }

  /** What the trace says about the entries themselves. */
  lemma TracedEntries(entries: seq<Entry>, origin: seq<nat>, order: seq<string>, slugs: seq<string>,
                      latest: map<string, Snapshot>, complete: set<string>, precedes: (string, string) -> bool)
    requires Traced(entries, origin, order, slugs, latest, complete, |order|)
    requires forall u :: u in order <==> u in latest
    requires Ascending(order, precedes) && |slugs| == |order|
    requires forall i, j :: 0 <= i < j < |slugs| ==> slugs[i] != slugs[j]
    ensures |origin| == |entries|
    ensures forall k :: 0 <= k < |entries| ==>
              origin[k] < |order| && entries[k].url == order[origin[k]] && entries[k].slug == slugs[origin[k]]
    ensures forall e :: e in entries ==>
              e.url in latest && e.timestamp == latest[e.url].timestamp && latest[e.url].dirName in complete
    ensures forall u :: u in latest && latest[u].dirName in complete ==> exists e :: e in entries && e.url == u
    ensures forall k, l :: 0 <= k < l < |entries| ==>
              entries[k].slug != entries[l].slug && precedes(entries[k].url, entries[l].url)
  {
    forall e | e in entries
      ensures e.url in latest && e.timestamp == latest[e.url].timestamp && latest[e.url].dirName in complete
    {
      var k :| 0 <= k < |entries| && entries[k] == e;
    }
    forall u | u in latest && latest[u].dirName in complete
      ensures exists e :: e in entries && e.url == u
    {
      var i :| 0 <= i < |order| && order[i] == u;
      var k :| 0 <= k < |origin| && origin[k] == i;
      assert entries[k].url == u;
    }
    forall k, l | 0 <= k < l < |entries|
      ensures entries[k].slug != entries[l].slug && precedes(entries[k].url, entries[l].url)
    {
      assert origin[k] < origin[l];
    }
  }

  /** The body of the manifest loop over the sorted URLs. */
  method CollectEntries(order: seq<string>, ghost owns: seq<string>, latest: map<string, Snapshot>,
                        complete: set<string>)
    returns (entries: seq<Entry>, slugs: seq<string>, ghost origin: seq<nat>)
    requires forall i :: 0 <= i < |order| ==> order[i] in latest
    requires |owns| == |order| && forall i :: 0 <= i < |order| ==> owns[i] == OwnSlug(order[i])
    ensures |slugs| == |order| && SlugsAllocated(owns, slugs)
    ensures Traced(entries, origin, order, slugs, latest, complete, |order|)
  {
    entries := [];
    slugs := [];
    origin := [];
    var n: nat := 0;
    while n < |order|
      invariant 0 <= n <= |order| && |slugs| == n
      invariant SlugsAllocated(owns, slugs)
      invariant Traced(entries, origin, order, slugs, latest, complete, n)
    {
      var url := order[n];
      var snapshot := latest[url];
      var slug, _ := AllocateSlug(url, SetOf(slugs));
      assert owns[n] == OwnSlug(url);
      CollectStep(entries, origin, order, owns, slugs, latest, complete, slug);
      slugs := slugs + [slug];
      if snapshot.dirName in complete {
        entries := entries + [Entry(url, slug, snapshot.timestamp)];
        origin := origin + [n];
      }
      n := n + 1;
    }
  }

  /** One turn of the manifest loop keeps both the allocation and the trace. */
  lemma CollectStep(entries: seq<Entry>, origin: seq<nat>, order: seq<string>, owns: seq<string>,
                    slugs: seq<string>, latest: map<string, Snapshot>, complete: set<string>, slug: string)
    requires |owns| == |order| && |slugs| < |order|
    requires SlugsAllocated(owns, slugs) && Traced(entries, origin, order, slugs, latest, complete, |slugs|)
    requires slug !in SetOf(slugs) && (owns[|slugs|] !in SetOf(slugs) ==> slug == owns[|slugs|])
    requires SlugChoice(owns[|slugs|], SetOf(slugs), slug)
    ensures SlugsAllocated(owns, slugs + [slug])
    ensures var n := |slugs|;
            latest[order[n]].dirName in complete ==>
              Traced(entries + [Entry(order[n], slug, latest[order[n]].timestamp)], origin + [n],
                     order, slugs + [slug], latest, complete, n + 1)
    ensures var n := |slugs|;
            latest[order[n]].dirName !in complete ==>
              Traced(entries, origin, order, slugs + [slug], latest, complete, n + 1)
  {
    var n := |slugs|;
    SlugsAllocatedStep(owns, slugs, slug);
    TracedMoreSlugs(entries, origin, order, slugs, latest, complete, n, slug);
    if latest[order[n]].dirName in complete {
      TracedKeep(entries, origin, order, slugs + [slug], latest, complete, n);
      assert (slugs + [slug])[n] == slug;
    } else {
      TracedSkip(entries, origin, order, slugs + [slug], latest, complete, n);
    }
  }

  /** A row of the `<tbody>` of `docs/index.html`: the single placeholder row of an empty
      index, or the six cells of one manifest entry (URL, timestamp and the four links). */
  datatype TableRow = PlaceholderRow(message: string) | EntryRow(entry: Entry)

  const NoSnapshotsYet: string := "No snapshots yet."

  /** `tableRows` of `writeIndexHtml`: one row per entry, in manifest order, or the placeholder. */
  function TableRows(entries: seq<Entry>): (rows: seq<TableRow>)
    ensures |entries| > 0 ==> |rows| == |entries| && forall i :: 0 <= i < |rows| ==> rows[i] == EntryRow(entries[i])
  {
    if |entries| == 0 then [PlaceholderRow(NoSnapshotsYet)]
    else seq(|entries|, i requires 0 <= i < |entries| => EntryRow(entries[i]))
  }

  /** The placeholder is shown exactly when there are no entries, and then alone. */
  lemma PlaceholderIffEmpty(entries: seq<Entry>)
    ensures TableRows(entries) == [PlaceholderRow(NoSnapshotsYet)] <==> |entries| == 0
    ensures forall row :: row in TableRows(entries) && row.PlaceholderRow? ==> |entries| == 0
  {
    if |entries| > 0 {
      assert TableRows(entries)[0].EntryRow?;
    }
  }

  /** `metaYaml.endsWith('\n') ? metaYaml : metaYaml + '\n'`. */
  function EnsureTrailingNewline(yaml: string): (r: string)
    ensures |r| > 0 && r[|r| - 1] == '\n'
    ensures yaml <= r && |r| <= |yaml| + 1
    ensures |yaml| > 0 && yaml[|yaml| - 1] == '\n' ==> r == yaml
  {
    if |yaml| > 0 && yaml[|yaml| - 1] == '\n' then yaml else yaml + "\n"
  }

  /** What one build leaves behind: the manifest (`latest/index.json`) and the table rows of
      `docs/index.html`. */
  datatype Site = Site(entries: seq<Entry>, rows: seq<TableRow>)

  /** `main`: load the archive; with no records write an empty manifest and the placeholder
      table, otherwise select the latest record per URL and build the manifest from it. */
  method Build(root: Option<seq<Dirent>>, precedes: (string, string) -> bool)
    returns (site: Site, order: seq<string>, slugs: seq<string>, ghost origin: seq<nat>)
    requires StrictTotalOrderOn(precedes, Urls(LoadSnapshots(root)))
    ensures LoadSnapshots(root) == [] ==> site == Site([], [PlaceholderRow(NoSnapshotsYet)])
    ensures LoadSnapshots(root) == [] ==> order == [] && slugs == []
    ensures LoadSnapshots(root) != [] ==>
              ManifestOf(PickLatest(LoadSnapshots(root)), CompleteDirs(SafeReadDir(root)), precedes,
                         site.entries, order, slugs, origin)
    ensures BuiltFrom(root, precedes, site, order, slugs, origin)
    ensures site.rows == TableRows(site.entries)
    ensures forall e :: e in site.entries ==>
              e.url in Urls(LoadSnapshots(root)) &&
              e.timestamp == PickLatest(LoadSnapshots(root))[e.url].timestamp &&
              PickLatest(LoadSnapshots(root))[e.url].dirName in CompleteDirs(SafeReadDir(root))
    ensures forall u :: u in Urls(LoadSnapshots(root)) &&
              PickLatest(LoadSnapshots(root))[u].dirName in CompleteDirs(SafeReadDir(root))
              ==> exists e :: e in site.entries && e.url == u
    ensures forall k, l :: 0 <= k < l < |site.entries| ==>
              site.entries[k].slug != site.entries[l].slug && precedes(site.entries[k].url, site.entries[l].url)
  {
    var snapshots := LoadSnapshots(root);
    if |snapshots| == 0 {
      site, order, slugs, origin := Site([], TableRows([])), [], [], [];
      return;
    }
    var latest := PickLatest(snapshots);
    var entries;
    entries, order, slugs, origin := BuildLatestArtifacts(latest, CompleteDirs(SafeReadDir(root)), precedes);
    site := Site(entries, TableRows(entries));
  }

  /** What `Build` promises about one result. */
  ghost predicate BuiltFrom(root: Option<seq<Dirent>>, precedes: (string, string) -> bool,
                            site: Site, order: seq<string>, slugs: seq<string>, origin: seq<nat>) {
    && site.rows == TableRows(site.entries)
    && (LoadSnapshots(root) == [] ==> site.entries == [] && order == [] && slugs == [])
    && (LoadSnapshots(root) != [] ==>
          ManifestOf(PickLatest(LoadSnapshots(root)), CompleteDirs(SafeReadDir(root)), precedes,
                     site.entries, order, slugs, origin))
  }

  /** The site is a function of the archive contents and the comparator: two builds of the
      same archive publish the same manifest, slugs and table. */
  lemma BuildDeterministic(root: Option<seq<Dirent>>, precedes: (string, string) -> bool,
                           site1: Site, o1: seq<string>, s1: seq<string>, g1: seq<nat>,
                           site2: Site, o2: seq<string>, s2: seq<string>, g2: seq<nat>)
    requires StrictTotalOrderOn(precedes, Urls(LoadSnapshots(root)))
    requires BuiltFrom(root, precedes, site1, o1, s1, g1) && BuiltFrom(root, precedes, site2, o2, s2, g2)
    ensures site1 == site2 && o1 == o2 && s1 == s2
  {
    var snapshots := LoadSnapshots(root);
    if snapshots != [] {
      assert PickLatest(snapshots).Keys == Urls(snapshots);
      ManifestDeterministic(PickLatest(snapshots), CompleteDirs(SafeReadDir(root)), precedes,
                            site1.entries, o1, s1, g1, site2.entries, o2, s2, g2);
    }
  }
}
