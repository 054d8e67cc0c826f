/** The on-disk snapshot identifier `base[-dupN]`: how the capture side builds it
    (scripts/snapshot.js) and how the index builder splits it (scripts/build-index.js). */
module Identifier {
  import opened Wrappers
  import opened Decimal
  import opened JsText

  /** What `parseTimestampParts` returns: `{ base, duplicate }`. */
  datatype Parts = Parts(base: string, duplicate: nat)

  /** `${baseName}-dup${duplicateCounter}`, the name `ensureUniqueDir` tries for a counter. */
  function DupName(base: string, k: nat): string {
    base + "-dup" + ToDecimal(k)
  }

  /** `x` is exactly what the tail `-dup(\d+)$` of the identifier regex consumes. */
  predicate IsDupSuffix(x: string) {
    |x| >= 5 && x[..4] == "-dup" && AllDigits(x[4..])
  }

  /** The regex `^(.*?)(?:-dup(\d+))?$` tried with the lazy group 1 holding `t[..i]`:
      first the rest of the pattern (the optional suffix, then the bare end anchor),
      then one more character for `.*?`, which cannot take a line terminator. */
  function LazyMatch(t: string, i: nat): (r: Option<Parts>)
    requires i <= |t|
    ensures r.Some? ==> i <= |r.value.base| && r.value.base <= t
    ensures r.Some? && r.value.base == t ==> r.value.duplicate == 0
    ensures r.Some? && r.value.base != t ==>
              IsDupSuffix(t[|r.value.base|..]) && r.value.duplicate == ParseDigits(t[|r.value.base| + 4..])
    decreases |t| - i
  {
    if IsDupSuffix(t[i..]) then Some(Parts(t[..i], ParseDigits(t[i + 4..])))
    else if i == |t| then Some(Parts(t, 0))
    else if IsLineTerminator(t[i]) then None
    else LazyMatch(t, i + 1)
  }

  /** `parseTimestampParts`: the regex match when there is one, otherwise `{ base: t, duplicate: 0 }`.
      The result always splits `t` into a prefix and an optional `-dup<digits>` tail. */
  function ParseTimestampParts(t: string): (r: Parts)
    ensures r.base <= t
    ensures r.base == t ==> r.duplicate == 0
    ensures r.base != t ==> IsDupSuffix(t[|r.base|..]) && r.duplicate == ParseDigits(t[|r.base| + 4..])
  {
    match LazyMatch(t, 0)
    case Some(p) => p
    case None => Parts(t, 0)
  }

  lemma DupSuffixHasNoLineTerminator(x: string)
    requires IsDupSuffix(x)
    ensures NoLineTerminator(x)
  {
    forall i | 0 <= i < |x|
      ensures !IsLineTerminator(x[i])
    {
      if i < 4 {
        assert x[i] == x[..4][i];
      } else {
        assert x[i] == x[4..][i - 4];
      }
    }
  }

  /** A `-dup<digits>` tail contains a single hyphen, so no tail starts before another one. */
  lemma NoEarlierDupSuffix(t: string, i: nat, j: nat)
    requires i < j <= |t| && IsDupSuffix(t[j..])
    ensures !IsDupSuffix(t[i..])
  {
    var x := t[i..];
    assert t[j..][0] == '-';
    assert x[j - i] == '-';
    if j - i < 4 {
      assert x[j - i] != "-dup"[j - i];
    } else if |x| >= 5 {
      assert x[4..][j - i - 4] == '-';
    }
  }

  /** The match succeeds from position `i` exactly when no line terminator follows it. */
  lemma {:induction false} LazyMatchSucceedsIff(t: string, i: nat)
    requires i <= |t|
    ensures LazyMatch(t, i).Some? <==> NoLineTerminator(t[i..])
    decreases |t| - i
  {
    if IsDupSuffix(t[i..]) {
      DupSuffixHasNoLineTerminator(t[i..]);
    } else if i < |t| {
      assert t[i..][0] == t[i];
      if !IsLineTerminator(t[i]) {
        LazyMatchSucceedsIff(t, i + 1);
        assert t[i..] == [t[i]] + t[i + 1..];
      }
    }
  }

  /** The regex of `parseTimestampParts` fails (and its fallback runs) exactly on
      identifiers that contain a line terminator. */
  lemma RegexMatchesIffNoLineTerminator(t: string)
    ensures LazyMatch(t, 0).Some? <==> NoLineTerminator(t)
  {
    LazyMatchSucceedsIff(t, 0);
    assert t[0..] == t;
  }

  lemma {:induction false} LazyMatchReachesSuffix(t: string, i: nat, j: nat)
    requires i <= j <= |t|
    requires NoLineTerminator(t) && IsDupSuffix(t[j..])
    ensures LazyMatch(t, i) == Some(Parts(t[..j], ParseDigits(t[j + 4..])))
    decreases j - i
  {
    if i < j {
      NoEarlierDupSuffix(t, i, j);
      LazyMatchReachesSuffix(t, i + 1, j);
    }
  }

  /** An identifier without line terminators that ends in `-dup<digits>` splits at that tail. */
  lemma ParseSplitsAtDupSuffix(t: string, j: nat)
    requires j <= |t| && NoLineTerminator(t) && IsDupSuffix(t[j..])
    ensures ParseTimestampParts(t) == Parts(t[..j], ParseDigits(t[j + 4..]))
  {
    LazyMatchReachesSuffix(t, 0, j);
  }

  /** Round trip: a duplicate name built by the capture side parses back to its base and counter. */
  lemma ParseDupName(b: string, k: nat)
    requires NoLineTerminator(b)
    ensures ParseTimestampParts(DupName(b, k)) == Parts(b, k)
  {
    var t := DupName(b, k);
    var d := ToDecimal(k);
    assert t[|b|..] == "-dup" + d;
    assert t[|b|..][..4] == "-dup" && t[|b|..][4..] == d;
    assert t[..|b|] == b && t[|b| + 4..] == d;
    forall i | 0 <= i < |t|
      ensures !IsLineTerminator(t[i])
    {
      if i >= |b| {
        DupSuffixHasNoLineTerminator(t[|b|..]);
        assert t[i] == t[|b|..][i - |b|];
      }
    }
    ParseSplitsAtDupSuffix(t, |b|);
    ParseToDecimal(k);
  }

  /** The order the index builder ranks identifiers by: base first (JavaScript string
      order), then the duplicate counter. */
  predicate KeyLess(p: Parts, q: Parts) {
    Less(p.base, q.base) || (p.base == q.base && p.duplicate < q.duplicate)
  }

  lemma KeyLessIrreflexive(p: Parts)
    ensures !KeyLess(p, p)
  {
    LessIrreflexive(p.base);
  }

  lemma KeyLessTransitive(p: Parts, q: Parts, r: Parts)
    requires KeyLess(p, q) && KeyLess(q, r)
    ensures KeyLess(p, r)
  {
    if Less(p.base, q.base) && Less(q.base, r.base) {
      LessTransitive(p.base, q.base, r.base);
    }
  }

  lemma KeyLessTotal(p: Parts, q: Parts)
    requires p != q
    ensures KeyLess(p, q) || KeyLess(q, p)
  {
    if p.base != q.base {
      LessTotal(p.base, q.base);
    }
  }
}
