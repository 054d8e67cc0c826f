/** `pickLatestSnapshots` (scripts/build-index.js): one record per URL, the one with the
    greatest identifier, the later record winning a tie. */
module Selection {
  import opened JsText
  import opened Identifier

  /** A record kept by `loadSnapshots`: `{ url, timestamp, dirName }`. The source's
      `dirPath` is the archive root joined with `dirName`. */
  datatype Snapshot = Snapshot(url: string, timestamp: string, dirName: string)

  function Key(s: Snapshot): Parts {
    ParseTimestampParts(s.timestamp)
  }

  /** The comparisons of the selection loop: does `current` replace the record kept so far? */
  predicate Supersedes(current: Snapshot, existing: Snapshot) {
    var c := Key(current);
    var e := Key(existing);
    if Less(e.base, c.base) then true
    else if Less(c.base, e.base) then false
    else c.duplicate >= e.duplicate
  }

  lemma KeyLessAsymmetric(p: Parts, q: Parts)
    requires KeyLess(p, q)
    ensures !KeyLess(q, p)
  {
    LessIrreflexive(p.base);
    if Less(p.base, q.base) {
      LessAsymmetric(p.base, q.base);
    }
  }

  /** "Not older than" is transitive. */
  lemma NotOlderTransitive(a: Parts, b: Parts, c: Parts)
    requires !KeyLess(a, b) && !KeyLess(b, c)
    ensures !KeyLess(a, c)
  {
    if a == b {
    } else if b == c {
    } else {
      KeyLessTotal(a, b);
      KeyLessTotal(b, c);
      KeyLessTransitive(c, b, a);
      KeyLessAsymmetric(c, a);
    }
  }

  /** The three-way comparison of the loop is the identifier order: a record replaces the
      kept one exactly when its identifier is not smaller. */
  lemma SupersedesIffNotOlder(current: Snapshot, existing: Snapshot)
    ensures Supersedes(current, existing) <==> !KeyLess(Key(current), Key(existing))
  {
    var c := Key(current);
    var e := Key(existing);
    if c.base != e.base {
      LessTotal(c.base, e.base);
      if Less(e.base, c.base) {
        LessAsymmetric(e.base, c.base);
      }
    } else {
      LessIrreflexive(c.base);
    }
  }

  function Urls(s: seq<Snapshot>): set<string> {
    set i | 0 <= i < |s| :: s[i].url
  }

  /** One iteration of the selection loop. */
  function Step(m: map<string, Snapshot>, s: Snapshot): map<string, Snapshot> {
    if s.url !in m || Supersedes(s, m[s.url]) then m[s.url := s] else m
  }

  /** A record only ever touches the entry of its own URL. */
  lemma StepKeepsOtherUrls(m: map<string, Snapshot>, s: Snapshot, u: string)
    requires u in m && u != s.url
    ensures u in Step(m, s) && Step(m, s)[u] == m[u]
  {
    var next := m[s.url := s];
    assert next[u] == m[u];
  }

  /** The URLs among the first `n` records. */
  function UrlsBelow(s: seq<Snapshot>, n: nat): set<string>
    requires n <= |s|
  {
    set i | 0 <= i < n :: s[i].url
  }

  /** The map after the selection loop has seen the first `n` records. */
  function LatestUpTo(s: seq<Snapshot>, n: nat): map<string, Snapshot>
    requires n <= |s|
  {
    if n == 0 then map[] else Step(LatestUpTo(s, n - 1), s[n - 1])
  }

  /** Its keys are the URLs of those records and each value is one of them, filed under its
      own URL. */
  lemma {:induction false} LatestUpToShape(s: seq<Snapshot>, n: nat)
    requires n <= |s|
    ensures LatestUpTo(s, n).Keys == UrlsBelow(s, n)
    ensures forall u :: u in LatestUpTo(s, n) ==> LatestUpTo(s, n)[u].url == u && LatestUpTo(s, n)[u] in s
    decreases n
  {
    if n > 0 {
      LatestUpToShape(s, n - 1);
      assert UrlsBelow(s, n) == UrlsBelow(s, n - 1) + {s[n - 1].url};
    }
  }

  /** `pickLatestSnapshots`: the map after the loop has seen every record in order.
      Its keys are the input URLs and each value is an input record filed under its own URL. */
  function PickLatest(s: seq<Snapshot>): (r: map<string, Snapshot>)
    ensures r.Keys == Urls(s)
    ensures forall u :: u in r ==> r[u].url == u && r[u] in s
  {
    LatestUpToShape(s, |s|);
    assert UrlsBelow(s, |s|) == Urls(s);
    LatestUpTo(s, |s|)
  }

  /** Independent description of the record chosen for `u`: it has no greater
      same-URL identifier anywhere in the input, and every later same-URL record has a
      strictly smaller one (so among equal identifiers the last one is chosen). */
  ghost predicate IsLatest(s: seq<Snapshot>, u: string, j: int) {
    && 0 <= j < |s| && s[j].url == u
    && (forall i :: 0 <= i < |s| && s[i].url == u ==> !KeyLess(Key(s[j]), Key(s[i])))
    && (forall i :: j < i < |s| && s[i].url == u ==> KeyLess(Key(s[i]), Key(s[j])))
  }

  /** The URL and the ranking key of each record, position by position. */
  function UrlsAt(s: seq<Snapshot>): seq<string> {
    seq(|s|, i requires 0 <= i < |s| => s[i].url)
  }

  /** The keys of the first `n` records, built one record at a time so that a key is only
      computed where a proof asks for it. */
  function KeysUpTo(s: seq<Snapshot>, n: nat): (r: seq<Parts>)
    requires n <= |s|
    ensures |r| == n
  {
    if n == 0 then [] else KeysUpTo(s, n - 1) + [Key(s[n - 1])]
  }

  function KeysAt(s: seq<Snapshot>): seq<Parts> {
    KeysUpTo(s, |s|)
  }

  lemma {:induction false} KeyAt(s: seq<Snapshot>, n: nat, i: nat)
    requires i < n <= |s|
    ensures KeysUpTo(s, n)[i] == Key(s[i])
    decreases n
  {
    if i < n - 1 {
      KeyAt(s, n - 1, i);
    }
  }

  /** `IsLatest` over the first `n` positions of the URL and key columns. */
  ghost predicate LatestAt(urls: seq<string>, keys: seq<Parts>, n: nat, u: string, j: int)
    requires n <= |urls| == |keys|
  {
    && 0 <= j < n && urls[j] == u
    && (forall i :: 0 <= i < n && urls[i] == u ==> !KeyLess(keys[j], keys[i]))
    && (forall i :: j < i < n && urls[i] == u ==> KeyLess(keys[i], keys[j]))
  }

  /** A record of another URL leaves the choice for `u` alone. */
  lemma LatestAfterOtherUrl(urls: seq<string>, keys: seq<Parts>, n: nat, u: string, j: int)
    requires n < |urls| == |keys| && LatestAt(urls, keys, n, u, j) && urls[n] != u
    ensures LatestAt(urls, keys, n + 1, u, j)
  {
  }

  /** The first record of a URL is chosen for it. */
  lemma LatestFirstOfUrl(urls: seq<string>, keys: seq<Parts>, n: nat, u: string)
    requires n < |urls| == |keys| && urls[n] == u
    requires forall i :: 0 <= i < n ==> urls[i] != u
    ensures LatestAt(urls, keys, n + 1, u, n)
  {
    KeyLessIrreflexive(keys[n]);
  }

  /** A record not older than the chosen one replaces it. */
  lemma LatestReplaced(urls: seq<string>, keys: seq<Parts>, n: nat, u: string, j: int)
    requires n < |urls| == |keys| && urls[n] == u
    requires LatestAt(urls, keys, n, u, j) && !KeyLess(keys[n], keys[j])
    ensures LatestAt(urls, keys, n + 1, u, n)
  {
    forall i | 0 <= i < n + 1 && urls[i] == u
      ensures !KeyLess(keys[n], keys[i])
    {
      if i < n {
        NotOlderTransitive(keys[n], keys[j], keys[i]);
      } else {
        KeyLessIrreflexive(keys[n]);
      }
    }
  }

  /** A record older than the chosen one is passed over. */
  lemma LatestKept(urls: seq<string>, keys: seq<Parts>, n: nat, u: string, j: int)
    requires n < |urls| == |keys| && urls[n] == u
    requires LatestAt(urls, keys, n, u, j) && KeyLess(keys[n], keys[j])
    ensures LatestAt(urls, keys, n + 1, u, j)
  {
    KeyLessAsymmetric(keys[n], keys[j]);
  }

  /** Reference definition of the selection on the columns: the position the loop keeps
      for `u` after the first `n` records, or -1 when none of them has URL `u`. */
  function ChosenIndex(urls: seq<string>, keys: seq<Parts>, n: nat, u: string): (r: int)
    requires n <= |urls| == |keys|
    ensures -1 <= r < n
  {
    if n == 0 then -1
    else
      var c := ChosenIndex(urls, keys, n - 1, u);
      if urls[n - 1] != u then c
      else if c < 0 || !KeyLess(keys[n - 1], keys[c]) then n - 1
      else c
  }

  /** The reference position is the one `LatestAt` describes, and there is none exactly
      when the URL does not occur. */
  lemma {:induction false} ChosenIsLatest(urls: seq<string>, keys: seq<Parts>, n: nat, u: string)
    requires n <= |urls| == |keys|
    ensures ChosenIndex(urls, keys, n, u) < 0 ==> forall i :: 0 <= i < n ==> urls[i] != u
    ensures ChosenIndex(urls, keys, n, u) >= 0 ==> LatestAt(urls, keys, n, u, ChosenIndex(urls, keys, n, u))
    decreases n
  {
    if n > 0 {
      ChosenIsLatest(urls, keys, n - 1, u);
      var c := ChosenIndex(urls, keys, n - 1, u);
      if urls[n - 1] != u {
        if c >= 0 {
          LatestAfterOtherUrl(urls, keys, n - 1, u, c);
        }
      } else if c < 0 {
        LatestFirstOfUrl(urls, keys, n - 1, u);
      } else if !KeyLess(keys[n - 1], keys[c]) {
        LatestReplaced(urls, keys, n - 1, u, c);
      } else {
        LatestKept(urls, keys, n - 1, u, c);
      }
    }
  }

  /** The map built by the loop holds, for each URL, the record at the reference position. */
  lemma {:induction false} LatestUpToHoldsChosen(s: seq<Snapshot>, n: nat, u: string)
    requires n <= |s|
    ensures u in LatestUpTo(s, n) <==> ChosenIndex(UrlsAt(s), KeysAt(s), n, u) >= 0
    ensures u in LatestUpTo(s, n) ==> LatestUpTo(s, n)[u] == s[ChosenIndex(UrlsAt(s), KeysAt(s), n, u)]
    decreases n
  {
    if n > 0 {
      LatestUpToHoldsChosen(s, n - 1, u);
      var urls, keys := UrlsAt(s), KeysAt(s);
      var c := ChosenIndex(urls, keys, n - 1, u);
      var kept, x := LatestUpTo(s, n - 1), s[n - 1];
      assert LatestUpTo(s, n) == Step(kept, x);
      if x.url != u {
        assert ChosenIndex(urls, keys, n, u) == c;
        if c >= 0 {
          StepKeepsOtherUrls(kept, x, u);
        }
      } else if c < 0 {
        assert ChosenIndex(urls, keys, n, u) == n - 1;
      } else {
        SameUrlHoldsChosen(s, urls, keys, n, u, c);
      }
    }
  }

  /** A further record of `u` is compared with the kept one exactly as the reference does. */
  lemma SameUrlHoldsChosen(s: seq<Snapshot>, urls: seq<string>, keys: seq<Parts>, n: nat, u: string, c: nat)
    requires 0 < n <= |s| == |urls| == |keys| && urls[n - 1] == u && s[n - 1].url == u
    requires c == ChosenIndex(urls, keys, n - 1, u)
    requires keys == KeysAt(s)
    requires u in LatestUpTo(s, n - 1) && LatestUpTo(s, n - 1)[u] == s[c]
    ensures LatestUpTo(s, n)[u] == s[ChosenIndex(urls, keys, n, u)]
  {
    var x, kept := s[n - 1], LatestUpTo(s, n - 1);
    assert LatestUpTo(s, n) == Step(kept, x);
    assert keys[n - 1] == Key(x) && keys[c] == Key(s[c]) by {
      KeyAt(s, |s|, n - 1);
      KeyAt(s, |s|, c);
    }
    SupersedesIffNotOlder(x, s[c]);
    if Supersedes(x, s[c]) {
      assert ChosenIndex(urls, keys, n, u) == n - 1;
    } else {
      assert ChosenIndex(urls, keys, n, u) == c;
    }
  }

  /** `LatestAt` over the whole columns is `IsLatest`. */
  lemma LatestAtIsLatest(s: seq<Snapshot>, urls: seq<string>, keys: seq<Parts>, u: string, j: int)
    requires urls == UrlsAt(s) && keys == KeysAt(s) && LatestAt(urls, keys, |s|, u, j)
    ensures IsLatest(s, u, j)
  {
    forall i | 0 <= i < |s| && s[i].url == u
      ensures !KeyLess(Key(s[j]), Key(s[i]))
    {
      KeyAt(s, |s|, i);
      KeyAt(s, |s|, j);
    }
    forall i | j < i < |s| && s[i].url == u
      ensures KeyLess(Key(s[i]), Key(s[j]))
    {
      KeyAt(s, |s|, i);
      KeyAt(s, |s|, j);
    }
  }

  /** The record chosen for each URL is the one `IsLatest` describes; the lemma returns
      its position. */
  lemma PickLatestIsLatest(s: seq<Snapshot>, u: string) returns (j: nat)
    requires u in Urls(s)
    ensures IsLatest(s, u, j) && PickLatest(s)[u] == s[j]
  {
    var urls, keys := UrlsAt(s), KeysAt(s);
    assert u in PickLatest(s);
    LatestUpToHoldsChosen(s, |s|, u);
    ChosenIsLatest(urls, keys, |s|, u);
    j := ChosenIndex(urls, keys, |s|, u);
    LatestAtIsLatest(s, urls, keys, u, j);
  }

  /** Of two records of one URL, the one with the greater key is chosen in either order. */
  lemma NewerOfTwoWins(older: Snapshot, newer: Snapshot)
    requires older.url == newer.url && KeyLess(Key(older), Key(newer))
    ensures PickLatest([older, newer])[older.url] == newer
    ensures PickLatest([newer, older])[older.url] == newer
  {
    KeyLessAsymmetric(Key(older), Key(newer));
    SupersedesIffNotOlder(newer, older);
    SupersedesIffNotOlder(older, newer);
    assert LatestUpTo([older], 0) == map[];
    assert PickLatest([older]) == map[older.url := older];
    assert LatestUpTo([older, newer], 1) == map[older.url := older];
    assert LatestUpTo([newer], 0) == map[];
    assert PickLatest([newer]) == map[newer.url := newer];
    assert LatestUpTo([newer, older], 1) == map[newer.url := newer];
  }

  /** The description above pins down a single position. */
  lemma LatestIsUnique(s: seq<Snapshot>, u: string, j1: int, j2: int)
    requires IsLatest(s, u, j1) && IsLatest(s, u, j2)
    ensures j1 == j2
  {
  }

  /** Conversely, the one record that is latest for its URL is the one picked. */
  lemma LatestIsPicked(s: seq<Snapshot>, u: string, j: int)
    requires IsLatest(s, u, j)
    ensures u in PickLatest(s) && PickLatest(s)[u] == s[j]
  {
    assert s[j] in s;
    var k := PickLatestIsLatest(s, u);
    LatestIsUnique(s, u, j, k);
  }

  /** A record whose base is strictly greater than every other same-URL base is chosen,
      whatever the duplicate counters. */
  lemma GreaterBaseWins(s: seq<Snapshot>, i: int)
    requires 0 <= i < |s|
    requires forall k :: 0 <= k < |s| && k != i && s[k].url == s[i].url ==>
               Less(Key(s[k]).base, Key(s[i]).base)
    ensures s[i].url in PickLatest(s) && PickLatest(s)[s[i].url] == s[i]
  {
    var j := PickLatestIsLatest(s, s[i].url);
  }
}
