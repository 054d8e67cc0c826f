/** `ensureUniqueSlug` (scripts/build-index.js): how a slug is made unique among the slugs
    already handed out in one index build, as the source writes it and as it evidently
    meant it. */
module SlugAllocation {
  import opened Decimal
  import opened JsText
  import opened FiniteSets
  import Slug

  /** `baseSlug || 'snapshot'`. */
  function SlugBase(baseSlug: string): (b: string)
    ensures |b| > 0
  {
    if baseSlug == "" then "snapshot" else baseSlug
  }

  /** The candidate for a counter: `${base}-${counter}`.slice(0, 100). */
  function Candidate(base: string, k: nat): string {
    Take(base + "-" + ToDecimal(k), 100)
  }

  /** What the loop of `ensureUniqueSlug` comes to: a slug and the grown set, or no end at all. */
  datatype Allocation = Assigned(slug: string, used: set<string>) | NeverEnds

  /** Every candidate the loop can ever produce is already taken, so the loop cannot end. */
  ghost predicate AllCandidatesUsed(base: string, used: set<string>) {
    forall k :: k >= 2 ==> Candidate(base, k) in used
  }

  /** Counters `2..ProbeBound(base)` already produce every candidate there is. */
  function ProbeBound(base: string): nat {
    if |base| >= 99 then 2 else Pow10(99 - |base|)
  }

  lemma {:induction false} ShortDecimalLength(n: nat, m: nat)
    requires m >= 1 && n < Pow10(m)
    ensures |ToDecimal(n)| <= m
    decreases n
  {
    if n >= 10 {
      assert Pow10(0) == 1;
      assert Pow10(m) == 10 * Pow10(m - 1);
      assert n / 10 < Pow10(m - 1);
      ShortDecimalLength(n / 10, m - 1);
    }
  }

  /** The first `m` digits of a counter are the digits of some counter below 10^m. */
  lemma {:induction false} LeadingDigits(k: nat, m: nat)
    requires k >= 1 && m >= 1
    ensures exists j :: 1 <= j < Pow10(m) && Take(ToDecimal(k), m) == ToDecimal(j)
                        && (j == k || |ToDecimal(k)| > m)
    decreases k
  {
    if |ToDecimal(k)| <= m {
      ShortDecimalBound(k, m);
      assert Take(ToDecimal(k), m) == ToDecimal(k);
    } else {
      var high := ToDecimal(k / 10);
      assert ToDecimal(k) == high + [DigitChar(k % 10)];
      TakeOfLongPrefix(high, [DigitChar(k % 10)], m);
      LeadingDigits(k / 10, m);
    }
  }

  /** A base of 99 characters or more leaves no room for digits: every candidate is the first. */
  lemma LongBaseCandidatesRepeat(base: string, k: nat)
    requires k >= 2 && |base| >= 99
    ensures Candidate(base, 2) == Candidate(base, k)
  {
    var head := base + "-";
    TakeOfLongPrefix(head, ToDecimal(k), 100);
    TakeOfLongPrefix(head, ToDecimal(2), 100);
  }

  /** Below 99 characters the base survives whole and only the counter's digits are cut. */
  lemma ShortBaseCandidate(base: string, k: nat)
    requires |base| < 99
    ensures Candidate(base, k) == base + "-" + Take(ToDecimal(k), 99 - |base|)
  {
    TakeAfterShortPrefix(base + "-", ToDecimal(k), 100);
  }

  /** A counter whose kept digits spell a smaller counter repeats that counter's candidate. */
  lemma RepeatsShorterCounter(base: string, k: nat, j: nat)
    requires |base| < 99 && |ToDecimal(j)| <= 99 - |base|
    requires Take(ToDecimal(k), 99 - |base|) == ToDecimal(j)
    ensures Candidate(base, j) == Candidate(base, k)
  {
    ShortBaseCandidate(base, k);
    ShortBaseCandidate(base, j);
  }

  /** Only a single kept digit can cut a longer counter down to "1", and then 10 gives it too. */
  lemma RepeatsTen(base: string, k: nat)
    requires |base| < 99 && |ToDecimal(k)| > 99 - |base|
    requires Take(ToDecimal(k), 99 - |base|) == ToDecimal(1)
    ensures |base| == 98 && Candidate(base, 10) == Candidate(base, k)
  {
    assert ToDecimal(1) == "1";
    assert |Take(ToDecimal(k), 99 - |base|)| == 99 - |base|;
    assert ToDecimal(10) == "10";
    ShortBaseCandidate(base, k);
    ShortBaseCandidate(base, 10);
  }

  /** A shorter base keeps the leading `99 - |base|` digits, which some smaller counter has. */
  lemma ShortBaseCandidatesRepeat(base: string, k: nat)
    requires k >= 2 && |base| < 99
    ensures exists j :: 2 <= j <= Pow10(99 - |base|) && Candidate(base, j) == Candidate(base, k)
  {
    var j := RepeatedCounter(base, k);
  }

  /** The smaller counter whose candidate a counter repeats. */
  lemma RepeatedCounter(base: string, k: nat) returns (r: nat)
    requires k >= 2 && |base| < 99
    ensures 2 <= r <= Pow10(99 - |base|) && Candidate(base, r) == Candidate(base, k)
  {
    var m := 99 - |base|;
    LeadingDigits(k, m);
    var j :| 1 <= j < Pow10(m) && Take(ToDecimal(k), m) == ToDecimal(j) && (j == k || |ToDecimal(k)| > m);
    if j >= 2 {
      ShortDecimalLength(j, m);
      RepeatsShorterCounter(base, k, j);
      r := j;
    } else {
      RepeatsTen(base, k);
      assert Pow10(1) == 10;
      r := 10;
    }
  }

  /** Re-truncation makes the candidates repeat: each one already came up for a counter
      no greater than `ProbeBound(base)`. */
  lemma CandidatesRepeat(base: string, k: nat)
    requires k >= 2
    ensures exists j :: 2 <= j <= ProbeBound(base) && Candidate(base, j) == Candidate(base, k)
  {
    if |base| >= 99 {
      LongBaseCandidatesRepeat(base, k);
    } else {
      ShortBaseCandidatesRepeat(base, k);
    }
  }

  /** Every candidate below counter `k` is taken. */
  ghost predicate EarlierCandidatesTaken(base: string, used: set<string>, k: nat) {
    forall j :: 2 <= j < k ==> Candidate(base, j) in used
  }

  /** The probing loop of `ensureUniqueSlug` for counters 2, 3, ...: it reports the first
      free candidate, or that there is none, after trying the counters up to
      `ProbeBound(base)`, past which the candidates only repeat. */
  method ProbeCandidates(base: string, used: set<string>) returns (found: bool, slug: string, k: nat)
    ensures found ==> k >= 2 && slug == Candidate(base, k) && slug !in used
    ensures found ==> EarlierCandidatesTaken(base, used, k)
    ensures !found <==> AllCandidatesUsed(base, used)
  {
    var bound := ProbeBound(base);
    k := 2;
    while k <= bound
      invariant 2 <= k <= bound + 1
      invariant EarlierCandidatesTaken(base, used, k)
      decreases bound + 1 - k
    {
      slug := Candidate(base, k);
      if slug !in used {
        return true, slug, k;
      }
      k := k + 1;
    }
    forall k' | k' >= 2
      ensures Candidate(base, k') in used
    {
      CandidatesRepeat(base, k');
    }
    return false, "", k;
  }

  /** `ensureUniqueSlug` as written: the base when it is free, otherwise the first free
      candidate for counters 2, 3, ...; when every candidate is taken the source loops
      forever, which is reported as `NeverEnds`. */
  method EnsureUniqueSlug(baseSlug: string, used: set<string>) returns (result: Allocation)
    ensures SlugBase(baseSlug) !in used ==>
              result == Assigned(SlugBase(baseSlug), used + {SlugBase(baseSlug)})
    ensures result.Assigned? ==> result.slug !in used && result.used == used + {result.slug}
    ensures result.Assigned? && SlugBase(baseSlug) in used ==>
              exists k :: k >= 2 && result.slug == Candidate(SlugBase(baseSlug), k)
                          && EarlierCandidatesTaken(SlugBase(baseSlug), used, k)
    ensures result.NeverEnds? <==>
              SlugBase(baseSlug) in used && AllCandidatesUsed(SlugBase(baseSlug), used)
  {
    var base := SlugBase(baseSlug);
    if base !in used {
      return Assigned(base, used + {base});
    }
    var found, slug, k := ProbeCandidates(base, used);
    if found {
      return Assigned(slug, used + {slug});
    }
    return NeverEnds;
  }

  /** Only one counter names the first free candidate. */
  lemma FirstFreeCandidateUnique(base: string, used: set<string>, k1: nat, k2: nat)
    requires k1 >= 2 && Candidate(base, k1) !in used && EarlierCandidatesTaken(base, used, k1)
    requires k2 >= 2 && Candidate(base, k2) !in used && EarlierCandidatesTaken(base, used, k2)
    ensures k1 == k2
  {
    assert k1 < k2 ==> Candidate(base, k1) in used;
    assert k2 < k1 ==> Candidate(base, k2) in used;
  }

  /** A used base of 100 characters: every candidate is cut back to the base itself. */
  lemma FullLengthBaseNeverResolves(base: string, used: set<string>)
    requires |base| == 100 && base in used
    ensures AllCandidatesUsed(base, used)
  {
    forall k: nat | k >= 2
      ensures Candidate(base, k) in used
    {
      assert base + "-" + ToDecimal(k) == base + ("-" + ToDecimal(k));
      TakeOfLongPrefix(base, "-" + ToDecimal(k), 100);
    }
  }

  /** A 100-character run from `[a-z0-9]` followed by `/c` slugifies to the run alone. */
  lemma LongPathSlug(x: string, c: char)
    requires |x| == 100 && forall i :: 0 <= i < |x| ==> Slug.IsSlugAlnum(x[i])
    requires Slug.IsSlugAlnum(c)
    ensures Slug.SlugifyUrl("https://" + (x + ("/" + [c]))) == x
  {
    Slug.UntruncatedSlugOfPath(x, c);
    assert (x + ("-" + [c]))[..100] == x;
  }

  /** Two URLs whose first 100 slug characters agree get the same slug, so the second of
      them sends `ensureUniqueSlug` into its endless loop. */
  lemma LongUrlsShareSlug(x: string)
    requires |x| == 100 && forall i :: 0 <= i < |x| ==> Slug.IsSlugAlnum(x[i])
    ensures Slug.SlugifyUrl("https://" + x + "/1") == x
    ensures Slug.SlugifyUrl("https://" + x + "/2") == x
  {
    LongPathSlug(x, '1');
    LongPathSlug(x, '2');
    AppendAssociative("https://", x, "/1");
    assert "/1" == "/" + ['1'];
    AppendAssociative("https://", x, "/2");
    assert "/2" == "/" + ['2'];
  }

  lemma Pigeonhole(f: nat -> string, n: nat, s: set<string>)
    requires forall i, j :: 0 <= i < j < n ==> f(i) != f(j)
    requires forall i :: 0 <= i < n ==> f(i) in s
    ensures n <= |s|
    decreases n
  {
    if n > 0 {
      Pigeonhole(f, n - 1, s - {f(n - 1)});
    }
  }

  lemma UntruncatedCandidate(base: string, k: nat, bound: nat)
    requires k <= bound && |base| + 1 + |ToDecimal(bound)| <= 100
    ensures Candidate(base, k) == base + "-" + ToDecimal(k)
  {
    DecimalLengthMonotone(k, bound);
  }

  lemma CandidateInjective(base: string, i: nat, j: nat, bound: nat)
    requires i <= bound && j <= bound && |base| + 1 + |ToDecimal(bound)| <= 100
    requires Candidate(base, i) == Candidate(base, j)
    ensures i == j
  {
    UntruncatedCandidate(base, i, bound);
    UntruncatedCandidate(base, j, bound);
    var p := |base| + 1;
    assert Candidate(base, i)[p..] == ToDecimal(i);
    assert Candidate(base, j)[p..] == ToDecimal(j);
    ToDecimalInjective(i, j);
  }

  /** The loop of `ensureUniqueSlug` does end when no candidate it could need is cut short. */
  lemma ShortBaseAlwaysResolves(base: string, used: set<string>)
    requires |base| + 1 + |ToDecimal(|used| + 2)| <= 100
    ensures !AllCandidatesUsed(base, used)
  {
    var bound := |used| + 2;
    var f := (i: nat) => Candidate(base, i + 2);
    forall i, j | 0 <= i < j < |used| + 1
      ensures f(i) != f(j)
    {
      if f(i) == f(j) {
        CandidateInjective(base, i + 2, j + 2, bound);
      }
    }
    if AllCandidatesUsed(base, used) {
      Pigeonhole(f, |used| + 1, used);
    }
  }

  /** The evidently intended candidate: the base cut short enough that `-<counter>` fits. */
  function CorrectedCandidate(base: string, k: nat): string {
    var suffix := "-" + ToDecimal(k);
    Take(base, if |suffix| >= 100 then 0 else 100 - |suffix|) + suffix
  }

  /** The trailing digits of a string. */
  function DigitsTail(s: string): (r: string)
    ensures AllDigits(r)
    decreases |s|
  {
    if |s| > 0 && IsDigit(s[|s| - 1]) then DigitsTail(s[..|s| - 1]) + [s[|s| - 1]] else []
  }

  lemma {:induction false} DigitsTailAfterHyphen(p: string, d: string)
    requires AllDigits(d)
    ensures DigitsTail(p + "-" + d) == d
    decreases |d|
  {
    var s := p + "-" + d;
    if |d| > 0 {
      var init := d[..|d| - 1];
      assert s[..|s| - 1] == p + "-" + init;
      DigitsTailAfterHyphen(p, init);
      assert init + [d[|d| - 1]] == d;
    } else {
      assert s[|s| - 1] == '-';
    }
  }

  /** The counter a corrected candidate was built from can be read back from it. */
  lemma CorrectedCandidateCounter(base: string, k: nat)
    ensures ParseDigits(DigitsTail(CorrectedCandidate(base, k))) == k
  {
    var suffix := "-" + ToDecimal(k);
    var head := Take(base, if |suffix| >= 100 then 0 else 100 - |suffix|);
    assert CorrectedCandidate(base, k) == head + "-" + ToDecimal(k);
    DigitsTailAfterHyphen(head, ToDecimal(k));
    ParseToDecimal(k);
  }

  /** While no truncation happens, the corrected candidate is the one the source builds. */
  lemma CandidatesAgree(base: string, k: nat)
    requires |base| + 1 + |ToDecimal(k)| <= 100
    ensures Candidate(base, k) == CorrectedCandidate(base, k)
  {
    assert base + "-" + ToDecimal(k) == base + ("-" + ToDecimal(k));
  }

  lemma CorrectedCandidateLength(base: string, k: nat)
    requires |base| <= 100 && |ToDecimal(k)| <= 99
    ensures |CorrectedCandidate(base, k)| <= 100
  {
  }

  /** The probing loop of the corrected allocator, entered once the base itself is taken:
      it stops at the first free candidate, after fewer probes than there are used slugs. */
  method ProbeCorrected(base: string, used: set<string>) returns (slug: string, k: nat)
    ensures 2 <= k <= |used| + 2 && slug == CorrectedCandidate(base, k) && slug !in used
    ensures EarlierCorrectedTaken(base, used, k)
  {
    k := 2;
    ghost var probed: set<string> := {};
    slug := CorrectedCandidate(base, k);
    while slug in used
      invariant k >= 2 && slug == CorrectedCandidate(base, k)
      invariant probed <= used && |probed| == k - 2
      invariant forall x :: x in probed ==> ParseDigits(DigitsTail(x)) < k
      invariant EarlierCorrectedTaken(base, used, k)
      decreases |used - probed|
    {
      EarlierCorrectedTakenStep(base, used, k);
      CorrectedCandidateCounter(base, k);
      ShrinkUnprobed(used, probed, slug);
      probed := probed + {slug};
      k := k + 1;
      slug := CorrectedCandidate(base, k);
    }
    SubsetSize(probed, used);
  }

  /** `ensureUniqueSlug` as evidently intended: wherever the source's loop ends it returns
      what the source returns; where every re-truncated candidate is taken it falls back to
      candidates whose base is cut short enough for `-<counter>` to fit, so it always ends,
      with a fresh slug that, for a base of at most 100 characters, is itself at most 100
      characters long. `counter` is the counter of the slug returned (0 for the base). */
  method EnsureUniqueSlugCorrected(baseSlug: string, used: set<string>)
    returns (slug: string, newUsed: set<string>, counter: nat)
    ensures slug !in used && newUsed == used + {slug}
    ensures SlugBase(baseSlug) !in used ==> slug == SlugBase(baseSlug) && counter == 0
    ensures SlugBase(baseSlug) in used && !AllCandidatesUsed(SlugBase(baseSlug), used) ==>
              counter >= 2 && slug == Candidate(SlugBase(baseSlug), counter)
    ensures SlugBase(baseSlug) in used && !AllCandidatesUsed(SlugBase(baseSlug), used) ==>
              EarlierCandidatesTaken(SlugBase(baseSlug), used, counter)
    ensures SlugBase(baseSlug) in used && AllCandidatesUsed(SlugBase(baseSlug), used) ==>
              counter >= 2 && slug == CorrectedCandidate(SlugBase(baseSlug), counter)
    ensures SlugBase(baseSlug) in used && AllCandidatesUsed(SlugBase(baseSlug), used) ==>
              EarlierCorrectedTaken(SlugBase(baseSlug), used, counter)
    ensures |SlugBase(baseSlug)| <= 100 && |ToDecimal(|used| + 2)| <= 99 ==> |slug| <= 100
  {
    var base := SlugBase(baseSlug);
    if base !in used {
      return base, used + {base}, 0;
    }
    var found;
    found, slug, counter := ProbeCandidates(base, used);
    if !found {
      slug, counter := ProbeCorrected(base, used);
      if |base| <= 100 && |ToDecimal(|used| + 2)| <= 99 {
        DecimalLengthMonotone(counter, |used| + 2);
        CorrectedCandidateLength(base, counter);
      }
    }
    newUsed := used + {slug};
  }

  /** The slug the allocator settles on for `base` given the slugs already `used`: the base
      when it is free, else the first free candidate of the source, else (where the source
      never ends) the first free corrected candidate. */
  ghost predicate SlugChoice(base: string, used: set<string>, slug: string) {
    || (base !in used && slug == base)
    || (base in used && !AllCandidatesUsed(base, used) &&
        exists k :: k >= 2 && slug == Candidate(base, k) && EarlierCandidatesTaken(base, used, k))
    || (base in used && AllCandidatesUsed(base, used) &&
        exists k :: k >= 2 && slug == CorrectedCandidate(base, k) && EarlierCorrectedTaken(base, used, k))
  }

  /** When the base alone is taken and `-2` fits, the second URL gets `<base>-2`. */
  lemma SecondSlugGetsTwo(base: string, slug: string)
    requires |base| + 2 <= 100
    requires SlugChoice(base, {base}, slug)
    ensures slug == base + "-2"
  {
    assert ToDecimal(2) == "2";
    assert Candidate(base, 2) == base + "-2" by {
      CandidatesAgree(base, 2);
    }
    assert Candidate(base, 2) !in {base};
    assert !AllCandidatesUsed(base, {base});
    var k :| k >= 2 && slug == Candidate(base, k) && EarlierCandidatesTaken(base, {base}, k);
    assert k == 2;
  }

  /** With a 99-character base the first candidate is cut to `base-`, and that is what a
      second URL with this base gets, exactly as the source's loop returns it. */
  lemma SecondSlugCutToHyphen(base: string, slug: string)
    requires |base| == 99
    requires SlugChoice(base, {base}, slug)
    ensures slug == base + "-"
  {
    assert ToDecimal(2) == "2";
    assert Candidate(base, 2) == base + "-" by {
      assert (base + "-" + "2")[..100] == base + "-";
    }
    assert Candidate(base, 2) !in {base};
    assert !AllCandidatesUsed(base, {base});
    var k :| k >= 2 && slug == Candidate(base, k) && EarlierCandidatesTaken(base, {base}, k);
    assert k == 2;
  }

  /** The slug `SlugChoice` allows is unique among the fresh ones: allocation is a function
      of the base and the slugs already used. */
  lemma SlugChoiceUnique(base: string, used: set<string>, s1: string, s2: string)
    requires SlugChoice(base, used, s1) && s1 !in used
    requires SlugChoice(base, used, s2) && s2 !in used
    ensures s1 == s2
  {
    if base in used && !AllCandidatesUsed(base, used) {
      var k1: nat :| k1 >= 2 && s1 == Candidate(base, k1) && EarlierCandidatesTaken(base, used, k1);
      var k2: nat :| k2 >= 2 && s2 == Candidate(base, k2) && EarlierCandidatesTaken(base, used, k2);
      FirstFreeCandidateUnique(base, used, k1, k2);
    } else if base in used {
      var k1: nat :| k1 >= 2 && s1 == CorrectedCandidate(base, k1) && EarlierCorrectedTaken(base, used, k1);
      var k2: nat :| k2 >= 2 && s2 == CorrectedCandidate(base, k2) && EarlierCorrectedTaken(base, used, k2);
      assert k1 < k2 ==> CorrectedCandidate(base, k1) in used;
      assert k2 < k1 ==> CorrectedCandidate(base, k2) in used;
    }
  }

  /** Every corrected candidate below counter `k` is taken. */
  ghost predicate EarlierCorrectedTaken(base: string, used: set<string>, k: nat) {
    forall j :: 2 <= j < k ==> CorrectedCandidate(base, j) in used
  }

  lemma EarlierCorrectedTakenStep(base: string, used: set<string>, k: nat)
    requires EarlierCorrectedTaken(base, used, k) && CorrectedCandidate(base, k) in used
    ensures EarlierCorrectedTaken(base, used, k + 1)
  {
  }
}
