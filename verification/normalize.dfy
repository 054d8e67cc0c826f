/** The text clean-up of a capture (scripts/snapshot.js:127), regex by regex as written:
    `text.replace(/\s+\n/g, '\n').replace(/\n{3,}/g, '\n\n').trim()`. */
module TextNormalization {
  import opened Wrappers
  import opened JsText

  /** Length of the longest prefix of `\s` characters. */
  function SpaceRun(s: string): (r: nat)
    ensures r <= |s|
    ensures forall i :: 0 <= i < r ==> IsSpace(s[i])
    ensures r < |s| ==> !IsSpace(s[r])
    decreases |s|
  {
    if |s| > 0 && IsSpace(s[0]) then 1 + SpaceRun(s[1..]) else 0
  }

  /** The last newline among the first `n` characters. */
  function LastNewline(s: string, n: nat): (r: Option<nat>)
    requires n <= |s|
    ensures r.Some? ==> r.value < n && s[r.value] == '\n' && forall i :: r.value < i < n ==> s[i] != '\n'
    ensures r.None? <==> forall i :: 0 <= i < n ==> s[i] != '\n'
    decreases n
  {
    if n == 0 then None
    else if s[n - 1] == '\n' then Some(n - 1)
    else LastNewline(s, n - 1)
  }

  /** The length of the match of `\s+\n` at the start of `s`, if it matches there. The
      greedy `\s+` takes the whole whitespace run and backs off to its last newline, which
      must leave at least one character for `\s+`. */
  function MatchAtStart(s: string): (r: Option<nat>)
    ensures r.None? <==> forall i :: 1 <= i < SpaceRun(s) ==> s[i] != '\n'
    ensures r.Some? ==> r.value <= SpaceRun(s) && forall i :: r.value <= i < SpaceRun(s) ==> s[i] != '\n'
    ensures r.Some? ==> 2 <= r.value <= |s| && s[r.value - 1] == '\n'
    ensures r.Some? ==> forall i :: 0 <= i < r.value ==> IsSpace(s[i])
    ensures r.Some? ==> !NoSpaceBeforeNewline(s)
  {
    match LastNewline(s, SpaceRun(s))
    case Some(q) =>
      if q >= 1 then
        assert s[q] == '\n' && IsSpace(s[q - 1]);
        Some(q + 1)
      else None
    case None => None
  }

  /** `replace(/\s+\n/g, '\n')`: scan left to right, replacing each match and copying every
      character where no match starts. */
  function ReplaceSpaceNewlines(s: string): (r: string)
    ensures |r| <= |s|
    decreases |s|
  {
    if |s| == 0 then []
    else
      match MatchAtStart(s)
      case Some(m) => "\n" + ReplaceSpaceNewlines(s[m..])
      case None => [s[0]] + ReplaceSpaceNewlines(s[1..])
  }

  /** Length of the longest prefix of newlines. */
  function NewlineRun(s: string): (r: nat)
    ensures r <= |s|
    ensures forall i :: 0 <= i < r ==> s[i] == '\n'
    ensures r < |s| ==> s[r] != '\n'
    decreases |s|
  {
    if |s| > 0 && s[0] == '\n' then 1 + NewlineRun(s[1..]) else 0
  }

  /** `replace(/\n{3,}/g, '\n\n')`. */
  function CollapseNewlineRuns(s: string): (r: string)
    ensures |r| <= |s|
    decreases |s|
  {
    if |s| == 0 then []
    else if NewlineRun(s) >= 3 then "\n\n" + CollapseNewlineRuns(s[NewlineRun(s)..])
    else [s[0]] + CollapseNewlineRuns(s[1..])
  }

  /** Trailing half of `trim()`: drops the longest suffix of whitespace. */
  function TrimEnd(s: string): (r: string)
    ensures |r| <= |s| && r == s[..|r|]
    ensures forall i :: |r| <= i < |s| ==> IsSpace(s[i])
    ensures |r| > 0 ==> !IsSpace(r[|r| - 1])
    decreases |s|
  {
    if |s| > 0 && IsSpace(s[|s| - 1]) then TrimEnd(s[..|s| - 1]) else s
  }

  /** `String.prototype.trim`, which strips the same characters `\s` matches. */
  function Trim(s: string): (r: string)
    ensures |r| == 0 <==> forall i :: 0 <= i < |s| ==> IsSpace(s[i])
    ensures SpaceRun(s) + |r| <= |s| && r == s[SpaceRun(s)..SpaceRun(s) + |r|]
    ensures forall i :: SpaceRun(s) + |r| <= i < |s| ==> IsSpace(s[i])
    ensures |r| > 0 ==> !IsSpace(r[0]) && !IsSpace(r[|r| - 1])
  {
    TrimEndOfTail(s, SpaceRun(s));
    TrimEmptyIffBlank(s);
    TrimEnd(s[SpaceRun(s)..])
  }

  /** Trimming the end of the tail from `k` leaves a slice of `s` followed by whitespace. */
  lemma TrimEndOfTail(s: string, k: nat)
    requires k <= |s|
    ensures var r := TrimEnd(s[k..]);
            k + |r| <= |s| && r == s[k..k + |r|] && forall i :: k + |r| <= i < |s| ==> IsSpace(s[i])
  {
    var t := s[k..];
    var r := TrimEnd(t);
    assert t[..|r|] == s[k..k + |r|];
    forall i | k + |r| <= i < |s|
      ensures IsSpace(s[i])
    {
      assert t[i - k] == s[i];
    }
  }

  /** Nothing is left exactly when every character is whitespace; otherwise what is left
      starts with the first visible character. */
  lemma TrimEmptyIffBlank(s: string)
    ensures var r := TrimEnd(s[SpaceRun(s)..]);
            && (|r| == 0 <==> forall i :: 0 <= i < |s| ==> IsSpace(s[i]))
            && (|r| > 0 ==> !IsSpace(r[0]))
  {
    var k := SpaceRun(s);
    var r := TrimEnd(s[k..]);
    if k < |s| {
      assert !IsSpace(s[k]);
      assert s[k..][0] == s[k];
      assert |r| > 0 ==> r[0] == s[k..][0];
    } else {
      assert s[k..] == [];
    }
  }

  /** The whole clean-up of line 127. */
  function NormalizeText(text: string): string {
    Trim(CollapseNewlineRuns(ReplaceSpaceNewlines(text)))
  }

  predicate NoSpaceBeforeNewline(s: string) {
    forall i :: 0 < i < |s| && s[i] == '\n' ==> !IsSpace(s[i - 1])
  }

  predicate NoNewlineTriple(s: string) {
    forall i :: 2 <= i < |s| ==> !(s[i - 2] == '\n' && s[i - 1] == '\n' && s[i] == '\n')
  }

  lemma NoSpaceBeforeNewlineNoTriple(s: string)
    requires NoSpaceBeforeNewline(s)
    ensures NoNewlineTriple(s)
  {
    forall i | 2 <= i < |s|
      ensures !(s[i - 2] == '\n' && s[i - 1] == '\n' && s[i] == '\n')
    {
      if s[i] == '\n' {
        assert !IsSpace(s[i - 1]);
      }
    }
  }

  /** The characters other than whitespace, in order. */
  function Visible(s: string): string
    decreases |s|
  {
    if |s| == 0 then [] else (if IsSpace(s[0]) then [] else [s[0]]) + Visible(s[1..])
  }

  lemma {:induction false} VisibleAppend(a: string, b: string)
    ensures Visible(a + b) == Visible(a) + Visible(b)
    decreases |a|
  {
    if |a| > 0 {
      assert (a + b)[0] == a[0];
      assert (a + b)[1..] == a[1..] + b;
      VisibleAppend(a[1..], b);
    } else {
      assert a + b == b;
    }
  }

  lemma {:induction false} VisibleOfSpaces(s: string)
    requires forall i :: 0 <= i < |s| ==> IsSpace(s[i])
    ensures Visible(s) == []
    decreases |s|
  {
    if |s| > 0 {
      VisibleOfSpaces(s[1..]);
    }
  }

  lemma VisibleSplit(s: string, k: nat)
    requires k <= |s|
    ensures Visible(s) == Visible(s[..k]) + Visible(s[k..])
  {
    assert s == s[..k] + s[k..];
    VisibleAppend(s[..k], s[k..]);
  }

  lemma {:induction false} SpaceRunDrop(s: string, k: nat)
    requires k <= SpaceRun(s)
    ensures SpaceRun(s[k..]) == SpaceRun(s) - k
    decreases k
  {
    if k > 0 {
      SpaceRunDrop(s[1..], k - 1);
      assert s[1..][k - 1..] == s[k..];
    }
  }

  /** Where no match starts at a whitespace character, none starts at the next one either,
      and the next character is not a newline. */
  lemma NoMatchAfterUnmatchedSpace(s: string)
    requires |s| >= 2 && IsSpace(s[0]) && MatchAtStart(s).None?
    ensures s[1] != '\n' && MatchAtStart(s[1..]).None?
  {
    var run := SpaceRun(s);
    assert forall i :: 1 <= i < run ==> s[i] != '\n';
    assert SpaceRun(s[1..]) == run - 1;
    assert forall i :: 0 <= i < run - 1 ==> s[1..][i] == s[i + 1];
    assert LastNewline(s[1..], run - 1).None?;
  }

  /** The greedy match ends at the last newline of its whitespace run, so what follows is
      no newline and no further match. */
  lemma NoMatchAfterMatch(s: string, m: nat)
    requires MatchAtStart(s) == Some(m) && m < |s|
    ensures s[m] != '\n' && MatchAtStart(s[m..]).None?
  {
    var run := SpaceRun(s);
    assert LastNewline(s, run) == Some(m - 1);
    SpaceRunDrop(s, m);
    assert forall i :: 0 <= i < run - m ==> s[m..][i] == s[m + i];
    assert LastNewline(s[m..], run - m).None?;
  }

  lemma ReplaceHead(s: string)
    requires |s| > 0
    ensures |ReplaceSpaceNewlines(s)| > 0
    ensures ReplaceSpaceNewlines(s)[0] == if MatchAtStart(s).Some? then '\n' else s[0]
  {
  }

  lemma ConsNoSpaceBeforeNewline(c: char, t: string)
    requires NoSpaceBeforeNewline(t)
    requires |t| > 0 && t[0] == '\n' ==> !IsSpace(c)
    ensures NoSpaceBeforeNewline([c] + t)
  {
    var r := [c] + t;
    forall i | 0 < i < |r| && r[i] == '\n'
      ensures !IsSpace(r[i - 1])
    {
      assert r[i] == t[i - 1];
      if i > 1 {
        assert r[i - 1] == t[i - 2];
      }
    }
  }

  /** After the first regex no whitespace character stands directly before a newline. */
  lemma {:induction false} ReplaceLeavesNoSpaceBeforeNewline(s: string)
    ensures NoSpaceBeforeNewline(ReplaceSpaceNewlines(s))
    decreases |s|
  {
    if |s| > 0 {
      match MatchAtStart(s)
      case Some(m) =>
        ReplaceLeavesNoSpaceBeforeNewline(s[m..]);
        if m < |s| {
          NoMatchAfterMatch(s, m);
          ReplaceHead(s[m..]);
        }
        ConsNoSpaceBeforeNewline('\n', ReplaceSpaceNewlines(s[m..]));
      case None =>
        ReplaceLeavesNoSpaceBeforeNewline(s[1..]);
        if |s| >= 2 {
          ReplaceHead(s[1..]);
          if IsSpace(s[0]) {
            NoMatchAfterUnmatchedSpace(s);
          }
        }
        ConsNoSpaceBeforeNewline(s[0], ReplaceSpaceNewlines(s[1..]));
    }
  }

  lemma DropKeepsNoSpaceBeforeNewline(s: string, k: nat)
    requires NoSpaceBeforeNewline(s) && k <= |s|
    ensures NoSpaceBeforeNewline(s[k..])
  {
    assert forall i :: 0 <= i < |s| - k ==> s[k..][i] == s[k + i];
  }

  /** On text without whitespace before a newline, `\n{3,}` never matches. */
  lemma {:induction false} CollapseIsIdentity(s: string)
    requires NoSpaceBeforeNewline(s)
    ensures CollapseNewlineRuns(s) == s
    decreases |s|
  {
    if |s| > 0 {
      assert NewlineRun(s) < 2;
      DropKeepsNoSpaceBeforeNewline(s, 1);
      CollapseIsIdentity(s[1..]);
      assert [s[0]] + s[1..] == s;
    }
  }

  /** On text without whitespace before a newline, `\s+\n` never matches. */
  lemma {:induction false} ReplaceIsIdentity(s: string)
    requires NoSpaceBeforeNewline(s)
    ensures ReplaceSpaceNewlines(s) == s
    decreases |s|
  {
    if |s| > 0 {
      assert MatchAtStart(s).None?;
      DropKeepsNoSpaceBeforeNewline(s, 1);
      ReplaceIsIdentity(s[1..]);
      assert [s[0]] + s[1..] == s;
    }
  }

  lemma SliceKeepsNoSpaceBeforeNewline(s: string, i: nat, j: nat)
    requires NoSpaceBeforeNewline(s) && i <= j <= |s|
    ensures NoSpaceBeforeNewline(s[i..j])
  {
    assert forall k :: 0 <= k < j - i ==> s[i..j][k] == s[i + k];
  }

  lemma TrimKeepsNoSpaceBeforeNewline(s: string)
    requires NoSpaceBeforeNewline(s)
    ensures NoSpaceBeforeNewline(Trim(s))
  {
    var t := s[SpaceRun(s)..];
    SliceKeepsNoSpaceBeforeNewline(s, SpaceRun(s), |s|);
    assert t == s[SpaceRun(s)..|s|];
    SliceKeepsNoSpaceBeforeNewline(t, 0, |TrimEnd(t)|);
    assert TrimEnd(t) == t[0..|TrimEnd(t)|];
  }

  /** The shape of the stored text: no whitespace at either end, none directly before a
      newline, hence never two (let alone three) newlines in a row. */
  lemma NormalizedShape(text: string)
    ensures var r := NormalizeText(text);
      && (|r| > 0 ==> !IsSpace(r[0]) && !IsSpace(r[|r| - 1]))
      && NoSpaceBeforeNewline(r)
      && NoNewlineTriple(r)
  {
    var s1 := ReplaceSpaceNewlines(text);
    ReplaceLeavesNoSpaceBeforeNewline(text);
    CollapseIsIdentity(s1);
    TrimKeepsNoSpaceBeforeNewline(s1);
    NoSpaceBeforeNewlineNoTriple(NormalizeText(text));
  }

  /** The `\n{3,}` step is inert: the clean-up equals the first regex followed by `trim()`. */
  lemma CollapseStepIsInert(text: string)
    ensures NormalizeText(text) == Trim(ReplaceSpaceNewlines(text))
  {
    ReplaceLeavesNoSpaceBeforeNewline(text);
    CollapseIsIdentity(ReplaceSpaceNewlines(text));
  }

  lemma {:induction false} ReplaceKeepsVisible(s: string)
    ensures Visible(ReplaceSpaceNewlines(s)) == Visible(s)
    decreases |s|
  {
    if |s| > 0 {
      match MatchAtStart(s)
      case Some(m) =>
        ReplaceKeepsVisible(s[m..]);
        VisibleAppend("\n", ReplaceSpaceNewlines(s[m..]));
        VisibleSplit(s, m);
        VisibleOfSpaces(s[..m]);
        VisibleOfSpaces("\n");
      case None =>
        ReplaceKeepsVisible(s[1..]);
        VisibleAppend([s[0]], ReplaceSpaceNewlines(s[1..]));
        VisibleSplit(s, 1);
    }
  }

  lemma SpaceRunKeepsVisible(s: string)
    ensures Visible(s[SpaceRun(s)..]) == Visible(s)
  {
    var k := SpaceRun(s);
    VisibleSplit(s, k);
    VisibleOfSpaces(s[..k]);
  }

  lemma TrimEndKeepsVisible(s: string)
    ensures Visible(TrimEnd(s)) == Visible(s)
  {
    var k := |TrimEnd(s)|;
    VisibleSplit(s, k);
    VisibleOfSpaces(s[k..]);
    assert s[..k] == TrimEnd(s);
  }

  lemma TrimKeepsVisible(s: string)
    ensures Visible(Trim(s)) == Visible(s)
  {
    SpaceRunKeepsVisible(s);
    TrimEndKeepsVisible(s[SpaceRun(s)..]);
  }

  /** Only whitespace changes: the non-whitespace characters are kept, in order. */
  lemma NormalizeKeepsVisible(text: string)
    ensures Visible(NormalizeText(text)) == Visible(text)
  {
    ReplaceKeepsVisible(text);
    ReplaceLeavesNoSpaceBeforeNewline(text);
    CollapseIsIdentity(ReplaceSpaceNewlines(text));
    TrimKeepsVisible(ReplaceSpaceNewlines(text));
  }

  /** Cleaning cleaned text changes nothing. */
  lemma NormalizeIdempotent(text: string)
    ensures NormalizeText(NormalizeText(text)) == NormalizeText(text)
  {
    var r := NormalizeText(text);
    NormalizedShape(text);
    ReplaceIsIdentity(r);
    CollapseIsIdentity(r);
    TrimIsIdentity(r);
  }

  /** Text that neither starts nor ends with whitespace is what `trim()` leaves alone. */
  lemma TrimIsIdentity(s: string)
    requires |s| > 0 ==> !IsSpace(s[0]) && !IsSpace(s[|s| - 1])
    ensures Trim(s) == s
  {
    assert |s| > 0 ==> SpaceRun(s) == 0;
    assert s[SpaceRun(s)..] == s;
    assert TrimEnd(s) == s;
  }
}
