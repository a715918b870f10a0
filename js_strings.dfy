/**
 * The JavaScript string operations the manifest generator and the image
 * loader rely on: `includes`, `indexOf`, `replace` with a string pattern,
 * `endsWith`, the decimal form a template literal gives a non-negative
 * integer, and the search done by the regular expression `splash-(\d+)x(\d+)`.
 * Strings are sequences of UTF-16 code units, modelled as `seq<char>`.
 */
module JsStrings {
  import opened Wrappers

  /** `sub` occurs in `s` starting at position `i`. */
  predicate IsAt(s: string, sub: string, i: nat)
  {
    i + |sub| <= |s| && s[i..i + |sub|] == sub
  }

  /** `s.indexOf(sub, from)`: the first position at or after `from` where `sub` occurs. */
  function IndexFrom(s: string, sub: string, from: nat): (r: Option<nat>)
    requires from <= |s|
    ensures r.Some? ==> from <= r.value && IsAt(s, sub, r.value)
    ensures r.Some? ==> forall k :: from <= k < r.value ==> !IsAt(s, sub, k)
    ensures r.None? ==> forall k :: from <= k ==> !IsAt(s, sub, k)
    decreases |s| - from
  {
    if from + |sub| > |s| then None
    else if s[from..from + |sub|] == sub then Some(from)
    else IndexFrom(s, sub, from + 1)
  }

  /** `s.indexOf(sub)`, with `None` for -1. */
  function IndexOf(s: string, sub: string): Option<nat>
  {
    IndexFrom(s, sub, 0)
  }

  /** `s.includes(sub)`. */
  predicate Includes(s: string, sub: string)
  {
    IndexOf(s, sub).Some?
  }

  /** `includes` holds exactly when the substring occurs somewhere. */
  lemma IncludesIff(s: string, sub: string)
    ensures Includes(s, sub) <==> exists k :: IsAt(s, sub, k)
  {
    if Includes(s, sub) {
      assert IsAt(s, sub, IndexOf(s, sub).value);
    }
  }

  /** `s.replace(pat, rep)` with a string pattern: only the first occurrence is replaced. */
  function ReplaceFirst(s: string, pat: string, rep: string): string
  {
    match IndexOf(s, pat)
    case None => s
    case Some(k) => s[..k] + rep + s[k + |pat|..]
  }

  /** What `replace` does: nothing without an occurrence, otherwise it rewrites the leftmost one. */
  lemma ReplaceFirstSpec(s: string, pat: string, rep: string)
    ensures !Includes(s, pat) ==> ReplaceFirst(s, pat, rep) == s
    ensures Includes(s, pat) ==>
              exists k: nat :: IsAt(s, pat, k) && (forall j: nat :: j < k ==> !IsAt(s, pat, j))
                          && ReplaceFirst(s, pat, rep) == s[..k] + rep + s[k + |pat|..]
  {
    if Includes(s, pat) {
      var k := IndexOf(s, pat).value;
      assert IsAt(s, pat, k);
    }
  }

  /** `path.replace('./', '')`, as applied to every image path placed in a manifest. */
  function StripDotSlash(path: string): string
  {
    ReplaceFirst(path, "./", "")
  }

  /** A relative path `./rest` loses its leading `./` and nothing else. */
  lemma StripLeadingDotSlash(rest: string)
    ensures StripDotSlash("./" + rest) == rest
  {
    var s := "./" + rest;
    assert IsAt(s, "./", 0) by {
      assert s[0..2] == "./";
    }
    assert IndexOf(s, "./") == Some(0);
    assert s[2..] == rest;
  }

  /** `s.endsWith(suffix)`. */
  predicate EndsWith(s: string, suffix: string)
  {
    |suffix| <= |s| && s[|s| - |suffix|..] == suffix
  }

  predicate IsDigit(c: char)
  {
    '0' <= c <= '9'
  }

  predicate AllDigits(s: string)
  {
    forall k :: 0 <= k < |s| ==> IsDigit(s[k])
  }

  /** The character of a decimal digit. */
  function DigitChar(d: nat): (c: char)
    requires d < 10
    ensures IsDigit(c)
  {
    ['0', '1', '2', '3', '4', '5', '6', '7', '8', '9'][d]
  }

  /** The value of a decimal digit character. */
  function DigitValue(c: char): (d: nat)
    requires IsDigit(c)
    ensures d < 10
  {
    (c as int) - ('0' as int)
  }

  /** A digit character read back is the digit written. */
  lemma DigitRoundTrip(d: nat)
    requires d < 10
    ensures DigitValue(DigitChar(d)) == d
  {
  }

  /**
   * The string a template literal such as `${size}` gives a non-negative
   * integer: its decimal digits, most significant first, without leading zeros.
   */
  function NatToString(n: nat): (s: string)
    ensures |s| >= 1 && AllDigits(s)
    ensures |s| > 1 ==> s[0] != '0'
  {
    if n < 10 then [DigitChar(n)] else NatToString(n / 10) + [DigitChar(n % 10)]
  }

  /** The value of a string of decimal digits. */
  function ParseDigits(s: string): nat
    requires AllDigits(s)
  {
    if |s| == 0 then 0 else 10 * ParseDigits(s[..|s| - 1]) + DigitValue(s[|s| - 1])
  }

  /** Reading back the decimal form of `n` gives `n`. */
  lemma {:induction false} NatToStringRoundTrip(n: nat)
    ensures ParseDigits(NatToString(n)) == n
  {
    var s := NatToString(n);
    if n < 10 {
      DigitRoundTrip(n);
      assert s[..0] == [];
    } else {
      NatToStringRoundTrip(n / 10);
      DigitRoundTrip(n % 10);
      assert s[..|s| - 1] == NatToString(n / 10);
    }
  }

  /** Different numbers have different decimal forms. */
  lemma NatToStringInjective(a: nat, b: nat)
    ensures NatToString(a) == NatToString(b) ==> a == b
  {
    NatToStringRoundTrip(a);
    NatToStringRoundTrip(b);
  }

  /** Length of the run of digits that starts at position `i`. */
  function DigitRun(s: string, i: nat): (len: nat)
    requires i <= |s|
    ensures i + len <= |s|
    ensures forall k :: i <= k < i + len ==> IsDigit(s[k])
    ensures i + len < |s| ==> !IsDigit(s[i + len])
    decreases |s| - i
  {
    if i < |s| && IsDigit(s[i]) then 1 + DigitRun(s, i + 1) else 0
  }

  const SplashPrefix: string := "splash-"

  /**
   * `splash-(\d+)x(\d+)` tried at position `p`. The first `\d+` is greedy and
   * must be followed by the non-digit `x`, so it takes the whole run of digits;
   * the second takes the whole run after the `x`. The result holds the two groups.
   */
  function SplashAt(s: string, p: nat): Option<(string, string)>
  {
    if !IsAt(s, SplashPrefix, p) then None
    else
      var ws := p + |SplashPrefix|;
      var wl := DigitRun(s, ws);
      if wl == 0 || ws + wl == |s| || s[ws + wl] != 'x' then None
      else
        var hs := ws + wl + 1;
        var hl := DigitRun(s, hs);
        if hl == 0 then None else Some((s[ws..ws + wl], s[hs..hs + hl]))
  }

  /** The regular expression search from position `from` on: the leftmost position where it matches. */
  function SplashFrom(s: string, from: nat): (r: Option<(nat, (string, string))>)
    ensures r.Some? ==> from <= r.value.0 && SplashAt(s, r.value.0) == Some(r.value.1)
    ensures r.Some? ==> forall q :: from <= q < r.value.0 ==> SplashAt(s, q).None?
    ensures r.None? ==> forall q :: from <= q ==> SplashAt(s, q).None?
    decreases |s| - from
  {
    if from + |SplashPrefix| > |s| then None
    else if SplashAt(s, from).Some? then Some((from, SplashAt(s, from).value))
    else SplashFrom(s, from + 1)
  }

  /** `s.match(/splash-(\d+)x(\d+)/)`: the two captured groups of the leftmost match, if any. */
  function MatchSplash(s: string): Option<(string, string)>
  {
    match SplashFrom(s, 0)
    case None => None
    case Some((_, groups)) => Some(groups)
  }

  /**
   * A match consists of `splash-`, a maximal run of digits, `x` and a maximal
   * run of digits, found at the leftmost position where the pattern matches.
   */
  lemma MatchSplashSpec(s: string)
    ensures MatchSplash(s).Some? ==>
              var (w, h) := MatchSplash(s).value;
              |w| >= 1 && |h| >= 1 && AllDigits(w) && AllDigits(h)
              && exists p: nat :: IsAt(s, SplashPrefix + w + "x" + h, p)
                                  && (p + |SplashPrefix + w + "x" + h| < |s| ==> !IsDigit(s[p + |SplashPrefix + w + "x" + h|]))
                                  && forall q: nat :: q < p ==> SplashAt(s, q).None?
    ensures MatchSplash(s).None? ==> forall q :: SplashAt(s, q).None?
  {
    if MatchSplash(s).Some? {
      var p := SplashFrom(s, 0).value.0;
      var (w, h) := MatchSplash(s).value;
      var ws := p + |SplashPrefix|;
      var hs := ws + |w| + 1;
      assert s[p..ws] == SplashPrefix;
      assert s[ws..ws + |w|] == w;
      assert s[ws + |w|] == 'x';
      assert s[hs..hs + |h|] == h;
      assert s[p..hs + |h|] == SplashPrefix + w + "x" + h;
      assert IsAt(s, SplashPrefix + w + "x" + h, p);
    }
  }

  /** A path the regular expression matches always contains `splash-`. */
  lemma MatchSplashIncludesPrefix(s: string)
    ensures MatchSplash(s).Some? ==> Includes(s, SplashPrefix)
  {
    if MatchSplash(s).Some? {
      var p := SplashFrom(s, 0).value.0;
      assert IsAt(s, SplashPrefix, p);
      IncludesIff(s, SplashPrefix);
    }
  }
}
