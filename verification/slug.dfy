/** `slugifyUrl` (scripts/build-index.js): scheme stripped, lower-cased, every run of
    characters outside `[a-z0-9]` turned into one hyphen, outer hyphens trimmed, and
    then cut to 100 characters. */
module Slug {
  import opened JsText

  /** The class `[a-z0-9]` (case-sensitive). */
  predicate IsSlugAlnum(c: char) {
    'a' <= c <= 'z' || '0' <= c <= '9'
  }

  predicate IsSlugChar(c: char) {
    IsSlugAlnum(c) || c == '-'
  }

  predicate AllSlugChars(s: string) {
    forall i :: 0 <= i < |s| ==> IsSlugChar(s[i])
  }

  predicate NoDoubleHyphen(s: string) {
    forall i :: 0 < i < |s| ==> !(s[i - 1] == '-' && s[i] == '-')
  }

  function AsciiLower(c: char): char {
    if 'A' <= c <= 'Z' then (c as int + 32) as char else c
  }

  /** `s` starts with the lower-case ASCII `p` under the regex `i` flag without `u`,
      which folds ASCII letters only. */
  predicate StartsWithIgnoringCase(s: string, p: string) {
    |p| <= |s| && forall i :: 0 <= i < |p| ==> AsciiLower(s[i]) == p[i]
  }

  /** `u.replace(/^https?:\/\//i, '')`. */
  function StripScheme(u: string): string {
    if StartsWithIgnoringCase(u, "https://") then u[8..]
    else if StartsWithIgnoringCase(u, "http://") then u[7..]
    else u
  }

  /** `toLowerCase` on one character, as far as the slug can tell: ASCII capitals, and
      the only two characters outside ASCII whose lower case contains an ASCII letter
      (KELVIN SIGN and LATIN CAPITAL LETTER I WITH DOT ABOVE). Every other character is
      outside `[a-z0-9]` both before and after lower-casing, so it is kept as it is. */
  function LowerChar(c: char): string {
    if 'A' <= c <= 'Z' then [AsciiLower(c)]
    else if c == '\U{212A}' then "k"
    else if c == '\U{0130}' then "i\U{0307}"
    else [c]
  }

  /** `toLowerCase`. */
  function Lower(s: string): string
    decreases |s|
  {
    if |s| == 0 then [] else LowerChar(s[0]) + Lower(s[1..])
  }

  /** Drops the leading characters outside `[a-z0-9]`: the rest of one regex run. */
  function SkipNonAlnum(s: string): (r: string)
    ensures |r| <= |s|
    ensures |r| > 0 ==> IsSlugAlnum(r[0])
    decreases |s|
  {
    if |s| > 0 && !IsSlugAlnum(s[0]) then SkipNonAlnum(s[1..]) else s
  }

  /** `.replace(/[^a-z0-9]+/g, '-')`: each maximal run outside `[a-z0-9]` becomes one hyphen. */
  function Collapse(s: string): (r: string)
    ensures AllSlugChars(r) && NoDoubleHyphen(r)
    ensures |s| > 0 && IsSlugAlnum(s[0]) ==> |r| > 0 && r[0] == s[0]
    decreases |s|
  {
    if |s| == 0 then []
    else if IsSlugAlnum(s[0]) then [s[0]] + Collapse(s[1..])
    else "-" + Collapse(SkipNonAlnum(s[1..]))
  }

  /** Each character outside `[a-z0-9]` replaced by a hyphen, one for one. */
  function Mask(s: string): (r: string)
    ensures |r| == |s|
    decreases |s|
  {
    if |s| == 0 then [] else [if IsSlugAlnum(s[0]) then s[0] else '-'] + Mask(s[1..])
  }

  /** Drops every hyphen that directly follows another hyphen. */
  function Squeeze(s: string): string
    decreases |s|
  {
    if |s| <= 1 then s
    else if s[0] == '-' && s[1] == '-' then Squeeze(s[1..])
    else [s[0]] + Squeeze(s[1..])
  }

  /** A hyphen followed by the mask of `t`: the masked run it starts is squeezed into it. */
  lemma {:induction false} SqueezeHyphenRun(t: string)
    ensures Squeeze("-" + Mask(t)) == "-" + Squeeze(Mask(SkipNonAlnum(t)))
    decreases |t|
  {
    if |t| > 0 {
      if IsSlugAlnum(t[0]) {
        assert ("-" + Mask(t))[1..] == Mask(t);
      } else {
        assert "-" + Mask(t) == "-" + ("-" + Mask(t[1..]));
        assert ("-" + ("-" + Mask(t[1..])))[1..] == "-" + Mask(t[1..]);
        SqueezeHyphenRun(t[1..]);
      }
    }
  }

  /** The run replacement, as a reference: mask character by character, then squeeze.
      Hence a hyphen stands exactly where a run outside `[a-z0-9]` was, one per run. */
  lemma {:induction false} CollapseIsSqueezedMask(s: string)
    ensures Collapse(s) == Squeeze(Mask(s))
    decreases |s|
  {
    if |s| > 0 {
      if IsSlugAlnum(s[0]) {
        CollapseIsSqueezedMask(s[1..]);
        var m := Mask(s[1..]);
        assert Mask(s) == [s[0]] + m;
        if |m| > 0 {
          assert ([s[0]] + m)[1..] == m;
        }
      } else {
        CollapseIsSqueezedMask(SkipNonAlnum(s[1..]));
        SqueezeHyphenRun(s[1..]);
        assert Mask(s) == "-" + Mask(s[1..]);
      }
    }
  }

  /** The `^-+` half of `.replace(/^-+|-+$/g, '')`. */
  function TrimLeadingHyphens(s: string): (r: string)
    ensures |r| > 0 ==> r[0] != '-'
    ensures AllSlugChars(s) ==> AllSlugChars(r)
    ensures NoDoubleHyphen(s) ==> NoDoubleHyphen(r)
    ensures |s| > 0 && s[|s| - 1] != '-' ==> |r| > 0 && r[|r| - 1] == s[|s| - 1]
    decreases |s|
  {
    if |s| > 0 && s[0] == '-' then TrimLeadingHyphens(s[1..]) else s
  }

  /** The `-+$` half of `.replace(/^-+|-+$/g, '')`. */
  function TrimTrailingHyphens(s: string): (r: string)
    ensures |r| > 0 ==> r[|r| - 1] != '-'
    ensures AllSlugChars(s) ==> AllSlugChars(r)
    ensures NoDoubleHyphen(s) ==> NoDoubleHyphen(r)
    ensures |s| > 0 && s[0] != '-' ==> |r| > 0 && r[0] == s[0]
    decreases |s|
  {
    if |s| > 0 && s[|s| - 1] == '-' then TrimTrailingHyphens(s[..|s| - 1]) else s
  }

  /** Everything `slugifyUrl` does before the final `.slice(0, 100)`. */
  function UntruncatedSlug(u: string): (r: string)
    ensures AllSlugChars(r) && NoDoubleHyphen(r)
    ensures |r| > 0 ==> r[0] != '-' && r[|r| - 1] != '-'
  {
    TrimLeadingHyphens(TrimTrailingHyphens(Collapse(Lower(StripScheme(u)))))
  }

  /** `slugifyUrl`: at most 100 characters from `[a-z0-9-]`, no two hyphens in a row,
      never a leading hyphen. (A trailing one is possible: see `SlugCanEndWithHyphen`.) */
  function SlugifyUrl(u: string): (r: string)
    ensures |r| <= 100
    ensures AllSlugChars(r)
    ensures NoDoubleHyphen(r)
    ensures |r| > 0 ==> r[0] != '-'
  {
    Take(UntruncatedSlug(u), 100)
  }

  /** The letters and digits of a string, in order. */
  function Alnums(s: string): string
    decreases |s|
  {
    if |s| == 0 then [] else (if IsSlugAlnum(s[0]) then [s[0]] else []) + Alnums(s[1..])
  }

  lemma {:induction false} AlnumsAppend(a: string, b: string)
    ensures Alnums(a + b) == Alnums(a) + Alnums(b)
    decreases |a|
  {
    if |a| > 0 {
      assert (a + b)[0] == a[0];
      assert (a + b)[1..] == a[1..] + b;
      AlnumsAppend(a[1..], b);
    } else {
      assert a + b == b;
    }
  }

  lemma {:induction false} AlnumsSkip(s: string)
    ensures Alnums(SkipNonAlnum(s)) == Alnums(s)
    decreases |s|
  {
    if |s| > 0 && !IsSlugAlnum(s[0]) {
      AlnumsSkip(s[1..]);
    }
  }

  lemma {:induction false} AlnumsCollapse(s: string)
    ensures Alnums(Collapse(s)) == Alnums(s)
    decreases |s|
  {
    if |s| > 0 {
      if IsSlugAlnum(s[0]) {
        AlnumsAppend([s[0]], Collapse(s[1..]));
        AlnumsCollapse(s[1..]);
      } else {
        AlnumsAppend("-", Collapse(SkipNonAlnum(s[1..])));
        AlnumsCollapse(SkipNonAlnum(s[1..]));
        AlnumsSkip(s[1..]);
      }
    }
  }

  lemma {:induction false} AlnumsTrimLeading(s: string)
    ensures Alnums(TrimLeadingHyphens(s)) == Alnums(s)
    decreases |s|
  {
    if |s| > 0 && s[0] == '-' {
      AlnumsTrimLeading(s[1..]);
    }
  }

  lemma {:induction false} AlnumsTrimTrailing(s: string)
    ensures Alnums(TrimTrailingHyphens(s)) == Alnums(s)
    decreases |s|
  {
    if |s| > 0 && s[|s| - 1] == '-' {
      var init := s[..|s| - 1];
      assert s == init + "-";
      AlnumsAppend(init, "-");
      AlnumsTrimTrailing(init);
    }
  }

  lemma AlnumsUntruncated(u: string)
    ensures Alnums(UntruncatedSlug(u)) == Alnums(Lower(StripScheme(u)))
  {
    var lowered := Lower(StripScheme(u));
    var collapsed := Collapse(lowered);
    AlnumsCollapse(lowered);
    AlnumsTrimTrailing(collapsed);
    AlnumsTrimLeading(TrimTrailingHyphens(collapsed));
  }

  lemma AlnumsTake(s: string, n: nat)
    ensures Alnums(Take(s, n)) <= Alnums(s)
  {
    var t := Take(s, n);
    assert s == t + s[|t|..];
    AlnumsAppend(t, s[|t|..]);
  }

  /** No letter or digit of the scheme-less, lower-cased URL is lost or reordered: the slug's
      letters and digits are a prefix of the URL's, and all of them when nothing is cut off,
      in which case the slug also never ends with a hyphen. */
  lemma SlugKeepsLettersAndDigits(u: string)
    ensures Alnums(SlugifyUrl(u)) <= Alnums(Lower(StripScheme(u)))
    ensures |UntruncatedSlug(u)| <= 100 ==>
              SlugifyUrl(u) == UntruncatedSlug(u)
              && Alnums(SlugifyUrl(u)) == Alnums(Lower(StripScheme(u)))
              && (|SlugifyUrl(u)| > 0 ==> SlugifyUrl(u)[|SlugifyUrl(u)| - 1] != '-')
  {
    AlnumsUntruncated(u);
    AlnumsTake(UntruncatedSlug(u), 100);
  }

  /** Characters `toLowerCase` leaves as they are. */
  predicate KeptByLower(c: char) {
    !('A' <= c <= 'Z') && c != '\U{212A}' && c != '\U{0130}'
  }

  lemma {:induction false} LowerOfKept(s: string)
    requires forall i :: 0 <= i < |s| ==> KeptByLower(s[i])
    ensures Lower(s) == s
    decreases |s|
  {
    if |s| > 0 {
      LowerOfKept(s[1..]);
      assert LowerChar(s[0]) == [s[0]];
    }
  }

  lemma {:induction false} CollapseAlnumPrefix(x: string, y: string)
    requires forall i :: 0 <= i < |x| ==> IsSlugAlnum(x[i])
    ensures Collapse(x + y) == x + Collapse(y)
    decreases |x|
  {
    if |x| > 0 {
      assert (x + y)[0] == x[0];
      assert (x + y)[1..] == x[1..] + y;
      CollapseAlnumPrefix(x[1..], y);
      assert [x[0]] + x[1..] == x;
    } else {
      assert x + y == y;
    }
  }

  lemma StripHttps(rest: string)
    ensures StripScheme("https://" + rest) == rest
  {
    assert StartsWithIgnoringCase("https://" + rest, "https://");
  }

  lemma LowerOfPath(x: string, c: char)
    requires forall i :: 0 <= i < |x| ==> IsSlugAlnum(x[i])
    requires IsSlugAlnum(c)
    ensures Lower(x + ("/" + [c])) == x + ("/" + [c])
  {
    var t := x + ("/" + [c]);
    forall i | 0 <= i < |t|
      ensures KeptByLower(t[i])
    {
      if i < |x| {
        assert t[i] == x[i];
      } else if i == |x| {
        assert t[i] == '/';
      } else {
        assert t[i] == c;
      }
    }
    LowerOfKept(t);
  }

  lemma CollapseOfPath(x: string, c: char)
    requires forall i :: 0 <= i < |x| ==> IsSlugAlnum(x[i])
    requires IsSlugAlnum(c)
    ensures Collapse(x + ("/" + [c])) == x + ("-" + [c])
  {
    var tail := "/" + [c];
    CollapseAlnumPrefix(x, tail);
    assert tail[0] == '/' && tail[1..] == [c];
    assert SkipNonAlnum([c]) == [c];
    assert Collapse([c]) == [c] by { assert [c][1..] == []; }
    assert Collapse(tail) == "-" + Collapse(SkipNonAlnum([c]));
  }

  /** Hyphen trimming leaves a string alone that neither starts nor ends with a hyphen. */
  lemma TrimsKeep(s: string)
    requires |s| > 0 && s[0] != '-' && s[|s| - 1] != '-'
    ensures TrimLeadingHyphens(TrimTrailingHyphens(s)) == s
  {
    assert TrimTrailingHyphens(s) == s;
  }

  /** A run of letters and digits, a slash, one more letter or digit. */
  lemma UntruncatedSlugOfPath(x: string, c: char)
    requires |x| > 0
    requires forall i :: 0 <= i < |x| ==> IsSlugAlnum(x[i])
    requires IsSlugAlnum(c)
    ensures UntruncatedSlug("https://" + (x + ("/" + [c]))) == x + ("-" + [c])
  {
    var collapsed := x + ("-" + [c]);
    StripHttps(x + ("/" + [c]));
    LowerOfPath(x, c);
    CollapseOfPath(x, c);
    assert collapsed[0] == x[0] && collapsed[|collapsed| - 1] == c;
    TrimsKeep(collapsed);
  }

  /** Trimming happens before truncation, so a slug can end with a hyphen: 99 letters or
      digits followed by `/a` keep the hyphen that stood for `/`. */
  lemma SlugCanEndWithHyphen(x: string)
    requires |x| == 99 && forall i :: 0 <= i < |x| ==> IsSlugAlnum(x[i])
    ensures SlugifyUrl("https://" + x + "/a") == x + "-"
  {
    UntruncatedSlugOfPath(x, 'a');
    assert "https://" + (x + ("/" + ['a'])) == "https://" + x + "/a";
    assert (x + ("-" + ['a']))[..100] == x + "-";
  }
}
