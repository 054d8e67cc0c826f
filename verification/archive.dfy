/** The archive as the index builder reads it (`safeReadDir` and `loadSnapshots` in
    scripts/build-index.js): a directory listing, in listing order, whose entries carry
    what the filesystem and `JSON.parse` would report for them. */
module Archive {
  import opened Wrappers
  import opened Selection

  /** What `JSON.parse` can return, as far as the record filter looks at it. */
  datatype Json =
    | JNull
    | JBool(b: bool)
    | JNumber(n: int)
    | JString(s: string)
    | JArray(items: seq<Json>)
    | JObject(fields: map<string, Json>)

  /** The state of `<dir>/meta.json`: absent, present but not valid JSON (or not readable),
      or parsed. */
  datatype MetaFile = MetaMissing | MetaUnreadable | MetaParsed(value: Json)

  /** One entry of `readdirSync(archiveRoot, { withFileTypes: true })`, with the presence of
      the two other artifacts `buildLatestArtifacts` checks for. */
  datatype Dirent = Dirent(name: string, isDirectory: bool, meta: MetaFile, hasHtml: bool, hasText: bool)

  /** `safeReadDir`: a missing archive root (`None`) lists as empty. */
  function SafeReadDir(root: Option<seq<Dirent>>): seq<Dirent> {
    match root
    case None => []
    case Some(listing) => listing
  }

  /** `typeof meta[key] === 'string'`, giving the string. Only an object can have the field. */
  function StringField(meta: Json, key: string): Option<string> {
    if meta.JObject? && key in meta.fields && meta.fields[key].JString? then Some(meta.fields[key].s)
    else None
  }

  /** The record one listing entry contributes: a directory whose `meta.json` parses to a
      value with a string `url` and a string `timestamp`. */
  function RecordOf(d: Dirent): Option<Snapshot> {
    if !d.isDirectory || !d.meta.MetaParsed? then None
    else
      match (StringField(d.meta.value, "url"), StringField(d.meta.value, "timestamp"))
      case (Some(url), Some(timestamp)) => Some(Snapshot(url, timestamp, d.name))
      case _ => None
  }

  function RecordsOf(d: Dirent): seq<Snapshot> {
    match RecordOf(d)
    case Some(s) => [s]
    case None => []
  }

  /** The loop of `loadSnapshots` over a listing. Every record it keeps comes from an
      entry that passes the filter. */
  function LoadFrom(listing: seq<Dirent>): (r: seq<Snapshot>)
    ensures |r| <= |listing|
    ensures forall k :: 0 <= k < |r| ==> exists i :: 0 <= i < |listing| && RecordOf(listing[i]) == Some(r[k])
    decreases |listing|
  {
    if |listing| == 0 then []
    else RecordsOf(listing[0]) + LoadFrom(listing[1..])
  }

  /** `loadSnapshots`. */
  function LoadSnapshots(root: Option<seq<Dirent>>): seq<Snapshot> {
    LoadFrom(SafeReadDir(root))
  }

  /** Loading is entry by entry, in listing order: the records of a concatenated listing are
      the records of each part, one after the other. */
  lemma {:induction false} LoadFromAppend(a: seq<Dirent>, b: seq<Dirent>)
    ensures LoadFrom(a + b) == LoadFrom(a) + LoadFrom(b)
    decreases |a|
  {
    if |a| > 0 {
      assert (a + b)[0] == a[0];
      assert (a + b)[1..] == a[1..] + b;
      LoadFromAppend(a[1..], b);
    } else {
      assert a + b == b;
    }
  }

  /** Every entry that passes the filter is loaded. */
  lemma {:induction false} LoadFromKeepsValid(listing: seq<Dirent>, i: int)
    requires 0 <= i < |listing| && RecordOf(listing[i]).Some?
    ensures RecordOf(listing[i]).value in LoadFrom(listing)
    decreases i
  {
    if i > 0 {
      LoadFromKeepsValid(listing[1..], i - 1);
    }
  }

  /** A metadata file without a string `url` or a string `timestamp` contributes nothing. */
  lemma SkipsMetaWithoutStrings(d: Dirent)
    requires d.meta.MetaParsed?
    requires StringField(d.meta.value, "url").None? || StringField(d.meta.value, "timestamp").None?
    ensures LoadFrom([d]) == []
  {
    assert [d][1..] == [];
  }

  /** Directory names whose `page.html`, `page.txt` and `meta.json` all exist. */
  function CompleteDirs(listing: seq<Dirent>): set<string> {
    set d | d in listing && d.hasHtml && d.hasText && !d.meta.MetaMissing? :: d.name
  }
}
