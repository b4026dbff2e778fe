/** Text operations the pipeline applies to every cell it reads: Python's
    `str.strip()`, an upper-case conversion and the ordering `sorted` and
    `sort_values` use on strings. */
module Text {

  /** The characters for which Python's `str.isspace()` holds, i.e. those
      `str.strip()` removes: the ASCII controls TAB..CR and FS..US, the space,
      NEL, NBSP and the Unicode space separators. */
  predicate IsSpace(c: char) {
    || c == ' '
    || ('\t' <= c <= '\r')
    || ('\U{1C}' <= c <= '\U{1F}')
    || c == '\U{85}' || c == '\U{A0}' || c == '\U{1680}'
    || ('\U{2000}' <= c <= '\U{200A}')
    || c == '\U{2028}' || c == '\U{2029}' || c == '\U{202F}'
    || c == '\U{205F}' || c == '\U{3000}'
  }

  predicate AllSpace(s: string) {
    forall i :: 0 <= i < |s| ==> IsSpace(s[i])
  }

  /** A string with no whitespace at either end. */
  predicate Stripped(s: string) {
    s == [] || (!IsSpace(s[0]) && !IsSpace(s[|s| - 1]))
  }

  /** Length of the longest prefix of `s` whose characters all satisfy `p`. */
  function LeadRun(s: string, p: char -> bool): (n: nat)
    ensures n <= |s|
    ensures forall i :: 0 <= i < n ==> p(s[i])
    ensures n == |s| || !p(s[n])
  {
    if |s| > 0 && p(s[0]) then 1 + LeadRun(s[1..], p) else 0
  }

  /** Length of the longest suffix of `s` whose characters all satisfy `p`. */
  function TrailRun(s: string, p: char -> bool): (n: nat)
    ensures n <= |s|
    ensures forall i :: |s| - n <= i < |s| ==> p(s[i])
    ensures n == |s| || !p(s[|s| - n - 1])
  {
    if |s| > 0 && p(s[|s| - 1]) then 1 + TrailRun(s[..|s| - 1], p) else 0
  }

  /** `s` without its leading and trailing runs of `p`-characters. */
  function Trim(s: string, p: char -> bool): (r: string)
    ensures r == [] || (!p(r[0]) && !p(r[|r| - 1]))
    ensures |r| <= |s|
  {
    var a := LeadRun(s, p);
    if a == |s| then [] else s[a..|s| - TrailRun(s, p)]
  }

  /** `Trim` removes `p`-characters and nothing else: the result is the slice
      of `s` between two runs of them, and it is empty exactly when every
      character of `s` satisfies `p`. */
  lemma TrimRemovesOnly(s: string, p: char -> bool)
    ensures (forall i :: 0 <= i < |s| ==> p(s[i])) <==> Trim(s, p) == []
    ensures LeadRun(s, p) + |Trim(s, p)| <= |s|
    ensures Trim(s, p) == s[LeadRun(s, p)..LeadRun(s, p) + |Trim(s, p)|]
    ensures forall i :: 0 <= i < LeadRun(s, p) ==> p(s[i])
    ensures forall i :: LeadRun(s, p) + |Trim(s, p)| <= i < |s| ==> p(s[i])
  {
    TrimEmpty(s, p);
    TrimSlice(s, p);
  }

  lemma TrimEmpty(s: string, p: char -> bool)
    ensures (forall i :: 0 <= i < |s| ==> p(s[i])) <==> Trim(s, p) == []
  {
    if LeadRun(s, p) < |s| {
      assert !p(s[LeadRun(s, p)]);
    }
  }

  lemma TrimSlice(s: string, p: char -> bool)
    ensures LeadRun(s, p) + |Trim(s, p)| <= |s|
    ensures Trim(s, p) == s[LeadRun(s, p)..LeadRun(s, p) + |Trim(s, p)|]
    ensures forall i :: LeadRun(s, p) + |Trim(s, p)| <= i < |s| ==> p(s[i])
  {
  }

  /** Python's `s.strip()`: `s` without its leading and trailing whitespace. */
  function Strip(s: string): (r: string)
    ensures Stripped(r)
    ensures |r| <= |s|
  {
    Trim(s, IsSpace)
  }

  /** `Strip` removes whitespace and nothing else: the result is the slice of
      `s` between an all-whitespace prefix and an all-whitespace suffix, and
      it is empty exactly when `s` is all whitespace. */
  lemma StripRemovesOnlySpace(s: string)
    ensures AllSpace(s) <==> Strip(s) == []
    ensures LeadRun(s, IsSpace) + |Strip(s)| <= |s|
    ensures Strip(s) == s[LeadRun(s, IsSpace)..LeadRun(s, IsSpace) + |Strip(s)|]
    ensures forall i :: 0 <= i < LeadRun(s, IsSpace) ==> IsSpace(s[i])
    ensures forall i :: LeadRun(s, IsSpace) + |Strip(s)| <= i < |s| ==> IsSpace(s[i])
  {
    TrimRemovesOnly(s, IsSpace);
  }

  /** Stripping a string that has no surrounding whitespace leaves it alone. */
  lemma {:induction false} StripKeepsStripped(s: string)
    requires Stripped(s)
    ensures Strip(s) == s
  {
    if s != [] {
      assert LeadRun(s, IsSpace) == 0;
      StripRemovesOnlySpace(s);
    }
  }

  /** `strip` is idempotent: cleaning an already-cleaned cell changes nothing. */
  lemma StripIdempotent(s: string)
    ensures Strip(Strip(s)) == Strip(s)
  {
    StripKeepsStripped(Strip(s));
  }

  /** ASCII upper-casing of one character. */
  function UpperChar(c: char): char {
    if 'a' <= c <= 'z' then (c as int - 32) as char else c
  }

  /** Upper-case conversion, character by character (ASCII letters only). */
  function Upper(s: string): (r: string)
    ensures |r| == |s|
  {
    seq(|s|, i requires 0 <= i < |s| => UpperChar(s[i]))
  }

  /** Python's `<` on strings: lexicographic by code point, a proper prefix
      coming first. */
  predicate Less(a: string, b: string)
    decreases |a|
  {
    |b| > 0 && (|a| == 0 || a[0] < b[0] || (a[0] == b[0] && Less(a[1..], b[1..])))
  }

  lemma {:induction false} LessIrreflexive(a: string)
    ensures !Less(a, a)
    decreases |a|
  {
    if |a| > 0 {
      LessIrreflexive(a[1..]);
    }
  }

  lemma {:induction false} LessTransitive(a: string, b: string, c: string)
    requires Less(a, b) && Less(b, c)
    ensures Less(a, c)
    decreases |a|
  {
    if |a| > 0 && a[0] == b[0] && b[0] == c[0] {
      LessTransitive(a[1..], b[1..], c[1..]);
    }
  }

  lemma {:induction false} LessTotal(a: string, b: string)
    ensures a == b || Less(a, b) || Less(b, a)
    decreases |a|
  {
    if |a| > 0 && |b| > 0 && a[0] == b[0] {
      LessTotal(a[1..], b[1..]);
      if a[1..] == b[1..] {
        assert a == [a[0]] + a[1..] && b == [b[0]] + b[1..];
      }
    }
  }
}
