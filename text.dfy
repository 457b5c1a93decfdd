/**
 * The few Python string operations the manifest builder relies on:
 * `str.isspace`, `str.lower` (ASCII letters only), `str.strip`,
 * `sep.join`, literal substring search and `PurePath.suffix`.
 */
module Text {
  import opened Wrappers

  /** The no-break space, U+00A0. */
  const NBSP: char := '\U{A0}'

  /** The characters Python's `str.isspace`, `str.split()` and `str.strip()` treat as whitespace. */
  predicate IsSpace(c: char) {
    if c <= ' ' then '\t' <= c <= '\r' || '\U{1C}' <= c
    else if c < '\U{85}' then false
    else
      || c == '\U{85}' || c == NBSP || c == '\U{1680}'
      || ('\U{2000}' <= c <= '\U{200A}')
      || c == '\U{2028}' || c == '\U{2029}' || c == '\U{202F}' || c == '\U{205F}' || c == '\U{3000}'
  }

  predicate IsUpper(c: char) {
    'A' <= c <= 'Z'
  }

  /** `c.lower()` restricted to ASCII letters; every other character is kept. */
  function LowerChar(c: char): (d: char)
    ensures !IsUpper(d)
    ensures IsSpace(d) <==> IsSpace(c)
    ensures d == ' ' <==> c == ' '
    ensures !IsUpper(c) ==> d == c
  {
    if IsUpper(c) then (c as int - 'A' as int + 'a' as int) as char else c
  }

  /** `s.lower()` restricted to ASCII letters. */
  function Lower(s: string): string
  {
    if s == [] then [] else [LowerChar(s[0])] + Lower(s[1..])
  }

  /** `Lower` works character by character. */
  lemma {:induction false} LowerAt(s: string)
    ensures |Lower(s)| == |s|
    ensures forall k :: 0 <= k < |s| ==> Lower(s)[k] == LowerChar(s[k])
  {
    if s != [] {
      LowerAt(s[1..]);
    }
  }

  /** A string lower-cases to `t` when it does so character by character. */
  lemma LowerMatches(s: string, t: string)
    requires |s| == |t| && forall k :: 0 <= k < |s| ==> LowerChar(s[k]) == t[k]
    ensures Lower(s) == t
  {
    LowerAt(s);
  }

  /** Lower-casing works piece by piece. */
  lemma LowerAppend(x: string, y: string)
    ensures Lower(x + y) == Lower(x) + Lower(y)
  {
    LowerAt(x);
    LowerAt(y);
    LowerMatches(x + y, Lower(x) + Lower(y));
  }

  /** The number of whitespace characters at the start of `s`. */
  function LeadingSpaces(s: string): (n: nat)
    ensures n <= |s|
    ensures forall k :: 0 <= k < n ==> IsSpace(s[k])
    ensures n < |s| ==> !IsSpace(s[n])
  {
    if s == [] || !IsSpace(s[0]) then 0 else 1 + LeadingSpaces(s[1..])
  }

  /** The index at which the whitespace at the end of `s` begins. */
  function TrailingStart(s: string): (n: nat)
    ensures n <= |s|
    ensures forall k :: n <= k < |s| ==> IsSpace(s[k])
    ensures 0 < n ==> !IsSpace(s[n - 1])
  {
    if s == [] || !IsSpace(s[|s| - 1]) then |s| else TrailingStart(s[..|s| - 1])
  }

  /** Python's `s.strip()`: `s` without its leading and trailing whitespace. */
  function Strip(s: string): (r: string)
    ensures |r| <= |s|
    ensures r == [] || (!IsSpace(r[0]) && !IsSpace(r[|r| - 1]))
  {
    var t := s[LeadingSpaces(s)..];
    t[..TrailingStart(t)]
  }

  /**
   * The stripped text is a piece of `s` surrounded only by whitespace, and it is
   * empty exactly when `s` is all whitespace.
   */
  lemma StripSpec(s: string)
    ensures Strip(s) == [] <==> forall k :: 0 <= k < |s| ==> IsSpace(s[k])
    ensures exists i :: StrippedAt(s, Strip(s), i)
  {
    var i := LeadingSpaces(s);
    var t := s[i..];
    var r := Strip(s);
    assert r == s[i..i + |r|];
    assert forall k :: i + |r| <= k < |s| ==> s[k] == t[k - i];
    assert StrippedAt(s, r, i);
  }

  /** `r` is the piece of `s` that starts at `i`, and only whitespace surrounds it. */
  predicate StrippedAt(s: string, r: string, i: int) {
    && 0 <= i <= |s| - |r| && r == s[i..i + |r|]
    && (forall k :: 0 <= k < i ==> IsSpace(s[k]))
    && (forall k :: i + |r| <= k < |s| ==> IsSpace(s[k]))
  }

  /** Stripping removes exactly the whitespace around a piece that starts and ends with other characters. */
  lemma StripSurrounded(pre: string, w: string, post: string)
    requires forall k :: 0 <= k < |pre| ==> IsSpace(pre[k])
    requires forall k :: 0 <= k < |post| ==> IsSpace(post[k])
    requires w != [] && !IsSpace(w[0]) && !IsSpace(w[|w| - 1])
    ensures Strip(pre + w + post) == w
  {
    var s := pre + w + post;
    var n := LeadingSpaces(s);
    assert s[|pre|] == w[0];
    assert forall k :: 0 <= k < |pre| ==> s[k] == pre[k];
    assert n == |pre|;
    var t := w + post;
    assert s[n..] == t;
    var m := TrailingStart(t);
    assert t[|w| - 1] == w[|w| - 1];
    assert forall k :: |w| <= k < |t| ==> t[k] == post[k - |w|];
    assert m == |w|;
    assert t[..m] == w;
  }

  /** Stripping twice is stripping once. */
  lemma StripIdempotent(s: string)
    ensures Strip(Strip(s)) == Strip(s)
  {
    var r := Strip(s);
    if r != [] {
      assert LeadingSpaces(r) == 0;
      assert r[0..] == r;
      assert TrailingStart(r) == |r|;
    }
  }

  /** Python's `sep.join(parts)`. */
  function JoinWith(sep: string, parts: seq<string>): string
  {
    if parts == [] then ""
    else if |parts| == 1 then parts[0]
    else parts[0] + sep + JoinWith(sep, parts[1..])
  }

  /** Joining a first part with a non-empty rest puts one separator between them. */
  lemma JoinWithCons(sep: string, first: string, rest: seq<string>)
    requires rest != []
    ensures JoinWith(sep, [first] + rest) == first + sep + JoinWith(sep, rest)
  {
    assert ([first] + rest)[1..] == rest;
  }

  /** Whether `pat` occurs in `s` as a contiguous run of characters. */
  predicate Contains(s: string, pat: string)
    decreases |s|
  {
    (|pat| <= |s| && s[..|pat|] == pat) || (s != [] && Contains(s[1..], pat))
  }

  /** `pat` occurs in `s` starting at index `i`. */
  predicate OccursAt(s: string, pat: string, i: int) {
    0 <= i <= |s| - |pat| && s[i..i + |pat|] == pat
  }

  /** `Contains` is `re.search` of an escaped literal: some position where `pat` occurs. */
  lemma {:induction false} ContainsAt(s: string, pat: string)
    ensures Contains(s, pat) <==> exists i :: OccursAt(s, pat, i)
    decreases |s|
  {
    if |pat| <= |s| && s[..|pat|] == pat {
      assert OccursAt(s, pat, 0);
    } else if s == [] {
    } else {
      ContainsAt(s[1..], pat);
      if Contains(s[1..], pat) {
        var i :| OccursAt(s[1..], pat, i);
        assert s[i + 1..i + 1 + |pat|] == s[1..][i..i + |pat|];
        assert OccursAt(s, pat, i + 1);
      }
      if exists i :: OccursAt(s, pat, i) {
        var i :| OccursAt(s, pat, i);
        assert i != 0;
        assert s[1..][i - 1..i - 1 + |pat|] == s[i..i + |pat|];
        assert OccursAt(s[1..], pat, i - 1);
      }
    }
  }

  /** Python's `s.rfind(c)`, with `None` for -1. */
  function LastIndexOf(s: string, c: char): (r: Option<nat>)
    ensures r.Some? ==> r.value < |s|
  {
    if s == [] then None
    else if s[|s| - 1] == c then Some(|s| - 1)
    else LastIndexOf(s[..|s| - 1], c)
  }

  /** The index found holds `c` and no later index does; `None` means `c` does not occur. */
  lemma {:induction false} LastIndexOfSpec(s: string, c: char)
    ensures var r := LastIndexOf(s, c);
            r.Some? ==> s[r.value] == c && forall k :: r.value < k < |s| ==> s[k] != c
    ensures LastIndexOf(s, c).None? ==> forall k :: 0 <= k < |s| ==> s[k] != c
  {
    if s != [] && s[|s| - 1] != c {
      LastIndexOfSpec(s[..|s| - 1], c);
    }
  }

  /**
   * `PurePath(name).suffix`: from the last dot to the end, provided that dot
   * is neither the first nor the last character of the name; otherwise "".
   */
  function Suffix(name: string): string
  {
    match LastIndexOf(name, '.')
    case Some(i) => if 0 < i < |name| - 1 then name[i..] else ""
    case None => ""
  }

  /**
   * A non-empty suffix is a dot followed by at least one dot-free character, it
   * ends the name and leaves a non-empty stem; the suffix is empty exactly when
   * the name has no dot after its first character and before its last one, or
   * a later dot follows every such dot.
   */
  lemma SuffixSpec(name: string)
    ensures var r := Suffix(name);
            r != [] ==> && 2 <= |r| < |name| && r[0] == '.' && r == name[|name| - |r|..]
                        && forall k :: 1 <= k < |r| ==> r[k] != '.'
    ensures Suffix(name) == [] <==>
              forall i :: 0 < i < |name| - 1 && name[i] == '.' ==>
                exists k :: i < k < |name| && name[k] == '.'
  {
    var r := Suffix(name);
    LastIndexOfSpec(name, '.');
    match LastIndexOf(name, '.')
    case Some(i) =>
      if 0 < i < |name| - 1 {
        assert r == name[i..];
        assert forall k :: 1 <= k < |r| ==> r[k] == name[i + k];
      } else {
        forall j | 0 < j < |name| - 1 && name[j] == '.'
          ensures exists k :: j < k < |name| && name[k] == '.'
        {
          assert j < i;
        }
      }
    case None =>
  }
}
