/** The pure decisions of a capture (scripts/snapshot.js): the URL gate, the directory name
    and the order of failure checks around the single write to the archive. */
module Capture {
  import opened Wrappers
  import opened Decimal
  import opened Identifier
  import opened TextNormalization
  import opened FiniteSets

  datatype UrlError = MissingUrl | InvalidUrl | UnsupportedProtocol

  /** `validateUrl`. `target` is the argument (`None` for `undefined`), and `protocolOf` stands
      for the WHATWG URL parser: the `protocol` of `new URL(s)`, or `None` where it throws. */
  function ValidateUrl(target: Option<string>, protocolOf: string -> Option<string>): (r: Result<(), UrlError>)
    ensures r == Err(MissingUrl) <==> target.None? || target.value == ""
    ensures r == Err(InvalidUrl) <==> target.Some? && target.value != "" && protocolOf(target.value).None?
    ensures r == Err(UnsupportedProtocol) <==>
              (target.Some? && target.value != "" && protocolOf(target.value).Some? &&
               protocolOf(target.value).value !in {"http:", "https:"})
    ensures r.Ok? <==> target.Some? && target.value != "" &&
                       protocolOf(target.value) in {Some("http:"), Some("https:")}
  {
    if target.None? || target.value == "" then Err(MissingUrl)
    else
      match protocolOf(target.value)
      case None => Err(InvalidUrl)
      case Some(protocol) =>
        if protocol == "http:" || protocol == "https:" then Ok(()) else Err(UnsupportedProtocol)
  }

  function SanitizeChar(c: char): char {
    if c == ':' || c == '.' then '-' else c
  }

  /** `toISOString().replace(/[:.]/g, '-')`. */
  function SanitizeIso(iso: string): (r: string)
    ensures |r| == |iso|
    ensures forall i :: 0 <= i < |r| ==> r[i] == SanitizeChar(iso[i])
    ensures forall i :: 0 <= i < |r| ==> r[i] != ':' && r[i] != '.'
    decreases |iso|
  {
    if |iso| == 0 then [] else [SanitizeChar(iso[0])] + SanitizeIso(iso[1..])
  }

  lemma {:induction false} SanitizeIsoIdempotent(iso: string)
    ensures SanitizeIso(SanitizeIso(iso)) == SanitizeIso(iso)
    decreases |iso|
  {
    if |iso| > 0 {
      SanitizeIsoIdempotent(iso[1..]);
    }
  }

  /** `getTimestamp`: a non-empty override wins; otherwise the sanitised clock string
      `clock` (the value of `new Date().toISOString()`). */
  function GetTimestamp(override: Option<string>, clock: string): (r: string)
    ensures override.Some? && override.value != "" ==> r == override.value
    ensures override.None? || override.value == "" ==>
              |r| == |clock| && forall i :: 0 <= i < |r| ==> r[i] == SanitizeChar(clock[i])
  {
    if override.Some? && override.value != "" then override.value else SanitizeIso(clock)
  }

  /** The directory `ensureUniqueDir` settles on: `base` when free, otherwise `base-dupk` for
      the least k >= 1 whose name is free. */
  ghost predicate FirstFree(existing: set<string>, base: string, name: string) {
    && name !in existing
    && (base !in existing ==> name == base)
    && (base in existing ==>
          exists k :: k >= 1 && name == DupName(base, k) &&
                      forall j :: 1 <= j < k ==> DupName(base, j) in existing)
  }

  lemma DupNameInjective(base: string, j: nat, k: nat)
    ensures DupName(base, j) == DupName(base, k) ==> j == k
  {
    if DupName(base, j) == DupName(base, k) {
      var p := |base| + 4;
      assert ToDecimal(j) == DupName(base, j)[p..];
      assert ToDecimal(k) == DupName(base, k)[p..];
      ToDecimalInjective(j, k);
    }
  }

  lemma DupNameIsLonger(base: string, k: nat)
    ensures DupName(base, k) != base
  {
    assert |DupName(base, k)| > |base|;
  }

  /** The names probed so far: the base and the duplicates below `counter`. */
  ghost predicate ProbedBelow(probed: set<string>, base: string, counter: nat) {
    forall x :: x in probed ==> x == base || exists j :: 1 <= j < counter && x == DupName(base, j)
  }

  lemma NextNotProbed(probed: set<string>, base: string, counter: nat)
    requires ProbedBelow(probed, base, counter) && counter >= 1
    ensures DupName(base, counter) !in probed
  {
    forall x | x in probed
      ensures x != DupName(base, counter)
    {
      DupNameIsLonger(base, counter);
      if x != base {
        var j :| 1 <= j < counter && x == DupName(base, j);
        DupNameInjective(base, j, counter);
      }
    }
  }

  /** Every duplicate name below counter `k` is taken. */
  ghost predicate EarlierDupsTaken(existing: set<string>, base: string, k: nat) {
    forall j :: 1 <= j < k ==> DupName(base, j) in existing
  }

  lemma EarlierDupsTakenStep(existing: set<string>, base: string, k: nat, name: string)
    requires EarlierDupsTaken(existing, base, k) && name in existing
    requires k >= 1 ==> name == DupName(base, k)
    ensures EarlierDupsTaken(existing, base, k + 1)
  {
  }

  /** The state of the probing loop of `ensureUniqueDir` after `counter` increments:
      `name` is the next name to try and every name tried so far was taken. */
  ghost predicate Probing(existing: set<string>, base: string, probed: set<string>, name: string, counter: nat) {
    && probed <= existing
    && (counter == 0 ==> name == base && probed == {})
    && (counter >= 1 ==> name == DupName(base, counter) && base in existing)
    && EarlierDupsTaken(existing, base, counter)
    && ProbedBelow(probed, base, counter + 1) && name !in probed
  }

  /** One more turn of the probing loop: the tried name joins the probed ones, which
      brings the loop closer to its end. */
  lemma ProbingStep(existing: set<string>, base: string, probed: set<string>, name: string, counter: nat)
    requires Probing(existing, base, probed, name, counter) && name in existing
    ensures Probing(existing, base, probed + {name}, DupName(base, counter + 1), counter + 1)
    ensures |existing - (probed + {name})| < |existing - probed|
  {
    ShrinkUnprobed(existing, probed, name);
    EarlierDupsTakenStep(existing, base, counter, name);
    var probed' := probed + {name};
    forall x | x in probed'
      ensures x == base || exists j :: 1 <= j < counter + 1 + 1 && x == DupName(base, j)
    {
      if x != name {
        assert x in probed;
      } else if counter >= 1 {
        assert 1 <= counter < counter + 2 && x == DupName(base, counter);
      }
    }
    NextNotProbed(probed', base, counter + 1);
  }

  /** `ensureUniqueDir` over the set of names already in the archive root. `counter` is the
      final value of `duplicateCounter`. */
  method EnsureUniqueDir(existing: set<string>, base: string) returns (name: string, ghost counter: nat)
    ensures name !in existing
    ensures counter == 0 <==> base !in existing
    ensures counter == 0 ==> name == base
    ensures counter >= 1 ==> name == DupName(base, counter)
    ensures forall j :: 1 <= j < counter ==> DupName(base, j) in existing
    ensures FirstFree(existing, base, name)
  {
    name := base;
    var duplicateCounter: nat := 0;
    ghost var probed: set<string> := {};
    while name in existing
      invariant Probing(existing, base, probed, name, duplicateCounter)
      decreases |existing - probed|
    {
      ProbingStep(existing, base, probed, name, duplicateCounter);
      probed := probed + {name};
      duplicateCounter := duplicateCounter + 1;
      name := DupName(base, duplicateCounter);
    }
    counter := duplicateCounter;
    assert EarlierDupsTaken(existing, base, counter);
  }

  /** The directory name is determined by the archive contents and the base. */
  lemma FirstFreeUnique(existing: set<string>, base: string, n1: string, n2: string)
    requires FirstFree(existing, base, n1) && FirstFree(existing, base, n2)
    ensures n1 == n2
  {
    if base in existing {
      var k1 :| k1 >= 1 && n1 == DupName(base, k1) && forall j :: 1 <= j < k1 ==> DupName(base, j) in existing;
      var k2 :| k2 >= 1 && n2 == DupName(base, k2) && forall j :: 1 <= j < k2 ==> DupName(base, j) in existing;
      assert !(k1 < k2);
      assert !(k2 < k1);
    }
  }

  /** The response gate: `status < 200 || status >= 400` fails. */
  predicate StatusAccepted(status: int) {
    !(status < 200 || status >= 400)
  }

  /** What the browser reports for one capture; launching, page creation and the hook are
      folded into `LaunchFailed`. `ExtractionThrew` is a response with `status` after which
      waiting for the page to settle, reading its HTML or evaluating the user agent or the
      text threw. */
  datatype Navigation =
    | LaunchFailed
    | NavigationThrew
    | NoResponse
    | ExtractionThrew(status: int)
    | Responded(status: int, html: string, userAgent: string, innerText: string)

  datatype SnapshotError =
    | UrlRejected(reason: UrlError)
    | BrowserFailed
    | NavigationFailed
    | NoResponseReceived
    | BadStatus(status: int)
    | ExtractionFailed

  /** The JSON object written to `meta.json`. */
  datatype Metadata = Metadata(url: string, timestamp: string, status: int, userAgent: string,
                               githubRunId: Option<string>)

  /** The three files of one capture directory. */
  datatype Captured = Captured(dirName: string, html: string, text: string, meta: Metadata)

  /** `takeSnapshot`. `existing` is the set of names in the archive root; `after` is that set
      once the capture has finished. `runId` is `GITHUB_RUN_ID`. */
  method TakeSnapshot(target: Option<string>, protocolOf: string -> Option<string>,
                      timestampOverride: Option<string>, clock: string, existing: set<string>,
                      navigation: Navigation, runId: Option<string>)
    returns (result: Result<Captured, SnapshotError>, after: set<string>)
    ensures ValidateUrl(target, protocolOf).Err? ==> result == Err(UrlRejected(ValidateUrl(target, protocolOf).error))
    ensures ValidateUrl(target, protocolOf).Ok? ==>
              match navigation
              case LaunchFailed => result == Err(BrowserFailed)
              case NavigationThrew => result == Err(NavigationFailed)
              case NoResponse => result == Err(NoResponseReceived)
              case ExtractionThrew(status) =>
                result == if StatusAccepted(status) then Err(ExtractionFailed) else Err(BadStatus(status))
              case Responded(status, _, _, _) =>
                (StatusAccepted(status) <==> result.Ok?)
                && (!StatusAccepted(status) ==> result == Err(BadStatus(status)))
    ensures result.Ok? <==> ValidateUrl(target, protocolOf).Ok? && navigation.Responded? &&
                            200 <= navigation.status < 400
    ensures result.Err? ==> after == existing
    ensures result.Ok? ==>
              var c := result.value;
              && after == existing + {c.dirName}
              && FirstFree(existing, GetTimestamp(timestampOverride, clock), c.dirName)
              && c.meta.timestamp == c.dirName
              && c.meta.url == target.value
              && c.meta.status == navigation.status
              && c.html == navigation.html
              && c.text == NormalizeText(navigation.innerText)
              && c.meta.userAgent == navigation.userAgent
              && c.meta.githubRunId == (if runId.Some? && runId.value != "" then runId else None)
  {
    after := existing;
    var validation := ValidateUrl(target, protocolOf);
    if validation.Err? {
      return Err(UrlRejected(validation.error)), after;
    }
    var timestampBase := GetTimestamp(timestampOverride, clock);
    var dirName, _ := EnsureUniqueDir(existing, timestampBase);
    match navigation
    case LaunchFailed =>
      result := Err(BrowserFailed);
    case NavigationThrew =>
      result := Err(NavigationFailed);
    case NoResponse =>
      result := Err(NoResponseReceived);
    case ExtractionThrew(status) =>
      if status < 200 || status >= 400 {
        result := Err(BadStatus(status));
      } else {
        result := Err(ExtractionFailed);
      }
    case Responded(status, html, userAgent, innerText) =>
      if status < 200 || status >= 400 {
        result := Err(BadStatus(status));
      } else {
        var text := NormalizeText(innerText);
        after := existing + {dirName};
        var githubRunId := if runId.Some? && runId.value != "" then runId else None;
        result := Ok(Captured(dirName, html, text, Metadata(target.value, dirName, status, userAgent, githubRunId)));
      }
  }

  /** Captures that succeed one after another, each seeing the directories of the earlier
      ones, with the same timestamp override: `base`, then `base-dup1`, then `base-dup2`. */
  method RepeatedCaptures(url: string, protocolOf: string -> Option<string>, base: string,
                          html: string, userAgent: string, innerText: string)
    returns (first: Captured, second: Captured, third: Captured)
    requires url != "" && protocolOf(url) in {Some("http:"), Some("https:")}
    requires base != ""
    ensures first.dirName == base
    ensures second.dirName == DupName(base, 1)
    ensures third.dirName == DupName(base, 2)
  {
    var nav := Responded(200, html, userAgent, innerText);
    var r1, a1 := TakeSnapshot(Some(url), protocolOf, Some(base), "", {}, nav, None);
    first := r1.value;
    var r2, a2 := TakeSnapshot(Some(url), protocolOf, Some(base), "", a1, nav, None);
    second := r2.value;
    SecondName(base);
    FirstFreeUnique(a1, base, second.dirName, DupName(base, 1));
    var r3, a3 := TakeSnapshot(Some(url), protocolOf, Some(base), "", a2, nav, None);
    third := r3.value;
    ThirdName(base);
    FirstFreeUnique(a2, base, third.dirName, DupName(base, 2));
  }

  /** With only the base taken, the next directory is `base-dup1`. */
  lemma SecondName(base: string)
    ensures FirstFree({base}, base, DupName(base, 1))
  {
    DupNameIsLonger(base, 1);
  }

  /** With the base and `base-dup1` taken, the next directory is `base-dup2`. */
  lemma ThirdName(base: string)
    ensures FirstFree({base, DupName(base, 1)}, base, DupName(base, 2))
  {
    DupNameIsLonger(base, 2);
    DupNameInjective(base, 1, 2);
    assert forall j :: 1 <= j < 2 ==> DupName(base, j) in {base, DupName(base, 1)};
  }
}
