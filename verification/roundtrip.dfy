/** The identifier format shared by the two scripts: the directory name a capture allocates
    (scripts/snapshot.js) is stored as `meta.timestamp` and parsed back by the index builder
    (scripts/build-index.js). */
module RoundTrip {
  import opened JsText
  import opened Identifier
  import opened Selection
  import opened Capture

  /** No suffix of `t` has the form `-dup<digits>`. */
  predicate HasNoDupSuffix(t: string) {
    forall j :: 0 <= j <= |t| ==> !IsDupSuffix(t[j..])
  }

  /** The name of the k-th capture with base `base`: the base itself, then `base-dupk`. */
  function CaptureName(base: string, k: nat): string {
    if k == 0 then base else DupName(base, k)
  }

  lemma ParsePlainName(t: string)
    requires HasNoDupSuffix(t)
    ensures ParseTimestampParts(t) == Parts(t, 0)
  {
  }

  /** Every capture name of a plain base parses back to that base and its counter. */
  lemma ParseCaptureName(base: string, k: nat)
    requires NoLineTerminator(base) && HasNoDupSuffix(base)
    ensures ParseTimestampParts(CaptureName(base, k)) == Parts(base, k)
  {
    if k == 0 {
      ParsePlainName(base);
    } else {
      ParseDupName(base, k);
    }
  }

  /** The name a capture settles on, read back by the index builder, gives the base and the
      final value of the duplicate counter: zero exactly for the base itself, and every
      duplicate name below the counter was already taken. */
  lemma CapturedNameParsesBack(existing: set<string>, base: string, name: string)
    requires FirstFree(existing, base, name)
    requires NoLineTerminator(base) && HasNoDupSuffix(base)
    ensures ParseTimestampParts(name).base == base
    ensures name == base <==> ParseTimestampParts(name).duplicate == 0
    ensures name == CaptureName(base, ParseTimestampParts(name).duplicate)
    ensures forall j :: 1 <= j < ParseTimestampParts(name).duplicate ==> DupName(base, j) in existing
  {
    if base in existing {
      var k :| k >= 1 && name == DupName(base, k) && forall j :: 1 <= j < k ==> DupName(base, j) in existing;
      ParseCaptureName(base, k);
      DupNameIsLonger(base, k);
    } else {
      ParseCaptureName(base, 0);
    }
  }

  /** Of two captures of one URL with the same base, the index shows the one allocated later,
      in whichever order the archive lists them. */
  lemma LaterCaptureSelected(url: string, base: string, j: nat, k: nat, dir1: string, dir2: string)
    requires NoLineTerminator(base) && HasNoDupSuffix(base) && j < k
    ensures var earlier := Snapshot(url, CaptureName(base, j), dir1);
            var later := Snapshot(url, CaptureName(base, k), dir2);
            && PickLatest([earlier, later])[url] == later
            && PickLatest([later, earlier])[url] == later
  {
    var earlier := Snapshot(url, CaptureName(base, j), dir1);
    var later := Snapshot(url, CaptureName(base, k), dir2);
    ParseCaptureName(base, j);
    ParseCaptureName(base, k);
    NewerOfTwoWins(earlier, later);
  }
}
