/**
 * The ECMAScript string built-ins the scraper relies on, stated over
 * `seq<char>`, that is over Unicode characters rather than UTF-16 code units
 * (so positions differ from ECMAScript's past a character outside the Basic
 * Multilingual Plane): `trim`, `indexOf` with a string argument, `startsWith`
 * (which is Dafny's prefix relation `p <= s`) and `replace` with a string
 * pattern, which replaces only the first occurrence.
 */
module JsString {

  /** The characters `String.prototype.trim` removes: WhiteSpace (TAB, VT,
      FF, ZWNBSP and every space separator of category Zs) and
      LineTerminator (LF, CR, LS, PS). */
  predicate IsTrimmable(c: char) {
    c == '\t' || c == '\U{000B}' || c == '\U{000C}' || c == '\U{FEFF}'
    || c == '\n' || c == '\r' || c == '\U{2028}' || c == '\U{2029}'
    || c == ' ' || c == '\U{00A0}' || c == '\U{1680}'
    || ('\U{2000}' <= c <= '\U{200A}')
    || c == '\U{202F}' || c == '\U{205F}' || c == '\U{3000}'
  }

  predicate AllTrimmable(s: string) {
    forall i :: 0 <= i < |s| ==> IsTrimmable(s[i])
  }

  /** A string with nothing left to trim at either end. */
  predicate IsTrimmed(s: string) {
    s == [] || (!IsTrimmable(s[0]) && !IsTrimmable(s[|s| - 1]))
  }

  /** The first index at or after `i` that does not hold a trimmable
      character (`|s|` if there is none). */
  function SkipLeading(s: string, i: nat): (k: nat)
    requires i <= |s|
    ensures i <= k <= |s|
    ensures forall j :: i <= j < k ==> IsTrimmable(s[j])
    ensures k < |s| ==> !IsTrimmable(s[k])
    decreases |s| - i
  {
    if i == |s| || !IsTrimmable(s[i]) then i else SkipLeading(s, i + 1)
  }

  /** The end of `s[lo..hi]` once its trailing trimmable characters are
      dropped. */
  function SkipTrailing(s: string, lo: nat, hi: nat): (e: nat)
    requires lo <= hi <= |s|
    ensures lo <= e <= hi
    ensures forall j :: e <= j < hi ==> IsTrimmable(s[j])
    ensures e > lo ==> !IsTrimmable(s[e - 1])
    decreases hi
  {
    if hi == lo || !IsTrimmable(s[hi - 1]) then hi else SkipTrailing(s, lo, hi - 1)
  }

  /** `s.trim()`: the slice of `s` left when the leading and the trailing
      trimmable characters are dropped. It has nothing left to trim, and
      everything cut off on either side is trimmable. */
  function Trim(s: string): (r: string)
    ensures IsTrimmed(r)
    ensures var k := SkipLeading(s, 0);
            k + |r| <= |s| && r == s[k..k + |r|]
            && AllTrimmable(s[..k]) && AllTrimmable(s[k + |r|..])
  {
    var k := SkipLeading(s, 0);
    var e := SkipTrailing(s, k, |s|);
    assert forall j :: 0 <= j < |s[e..]| ==> s[e..][j] == s[e + j];
    s[k..e]
  }

  lemma {:induction false} SkipLeadingAt(s: string, i: nat, p: nat)
    requires i <= p <= |s|
    requires forall j :: i <= j < p ==> IsTrimmable(s[j])
    requires p < |s| ==> !IsTrimmable(s[p])
    ensures SkipLeading(s, i) == p
    decreases p - i
  {
    if i < p {
      SkipLeadingAt(s, i + 1, p);
    }
  }

  lemma {:induction false} SkipTrailingAt(s: string, lo: nat, hi: nat, p: nat)
    requires lo <= p <= hi <= |s|
    requires forall j :: p <= j < hi ==> IsTrimmable(s[j])
    requires p > lo ==> !IsTrimmable(s[p - 1])
    ensures SkipTrailing(s, lo, hi) == p
    decreases hi - p
  {
    if p < hi {
      SkipTrailingAt(s, lo, hi - 1, p);
    }
  }

  /** Trimming is determined by the characters involved: whatever trimmable
      padding surrounds a trimmed string, `trim` gives that string back. */
  lemma TrimOfPadded(pre: string, mid: string, post: string)
    requires AllTrimmable(pre) && AllTrimmable(post)
    requires IsTrimmed(mid)
    ensures Trim(pre + mid + post) == mid
  {
    var s := pre + mid + post;
    var a, b := |pre|, |pre| + |mid|;
    assert forall j :: 0 <= j < a ==> s[j] == pre[j];
    assert forall j :: a <= j < b ==> s[j] == mid[j - a];
    assert forall j :: b <= j < |s| ==> s[j] == post[j - b];
    if mid == [] {
      SkipLeadingAt(s, 0, |s|);
      SkipTrailingAt(s, |s|, |s|, |s|);
    } else {
      SkipLeadingAt(s, 0, a);
      SkipTrailingAt(s, a, |s|, b);
    }
    assert s[a..b] == mid;
  }

  /** A string with nothing to trim is its own trim. */
  lemma TrimOfTrimmed(s: string)
    requires IsTrimmed(s)
    ensures Trim(s) == s
  {
    TrimOfPadded([], s, []);
    assert [] + s + [] == s;
  }

  /** Trimming is idempotent. */
  lemma TrimIdempotent(s: string)
    ensures Trim(Trim(s)) == Trim(s)
  {
    TrimOfTrimmed(Trim(s));
  }

  /** `pat` occurs in `s` starting at index `i`. */
  predicate OccursAt(s: string, pat: string, i: int) {
    0 <= i && i + |pat| <= |s| && s[i..i + |pat|] == pat
  }

  /** The search behind `s.indexOf(pat)`, started at index `from`. */
  function IndexOfFrom(s: string, pat: string, from: nat): (r: int)
    requires from <= |s|
    ensures r == -1 || (from <= r && OccursAt(s, pat, r))
    ensures forall j :: from <= j < (if r == -1 then |s| + 1 else r) ==> !OccursAt(s, pat, j)
    decreases |s| - from
  {
    if OccursAt(s, pat, from) then from
    else if from == |s| then -1
    else IndexOfFrom(s, pat, from + 1)
  }

  /** `s.indexOf(pat)`: the leftmost occurrence, or -1 when there is none.
      As in ECMAScript, the empty pattern is found at index 0. */
  function IndexOf(s: string, pat: string): (r: int)
    ensures r == -1 <==> forall j :: 0 <= j <= |s| ==> !OccursAt(s, pat, j)
    ensures r != -1 ==> OccursAt(s, pat, r) && forall j :: 0 <= j < r ==> !OccursAt(s, pat, j)
  {
    IndexOfFrom(s, pat, 0)
  }

  /** `s.replace(pat, rep)` for a string `pat`: only the leftmost occurrence
      is replaced. The replacement is inserted literally (the `$` patterns of
      GetSubstitution are not interpreted). Its meaning is stated by the two
      lemmas below. */
  function ReplaceFirst(s: string, pat: string, rep: string): string
  {
    var i := IndexOf(s, pat);
    if i == -1 then s else s[..i] + rep + s[i + |pat|..]
  }

  /** A string without an occurrence of the pattern is returned as it is. */
  lemma ReplaceFirstAbsent(s: string, pat: string, rep: string)
    requires forall j :: 0 <= j <= |s| ==> !OccursAt(s, pat, j)
    ensures ReplaceFirst(s, pat, rep) == s
  {
  }

  /** The leftmost occurrence, at `i`, is the one replaced; the text before
      and after it is kept. */
  lemma ReplaceFirstAt(s: string, pat: string, rep: string, i: int)
    requires OccursAt(s, pat, i)
    requires forall j :: 0 <= j < i ==> !OccursAt(s, pat, j)
    ensures ReplaceFirst(s, pat, rep) == s[..i] + rep + s[i + |pat|..]
  {
    assert IndexOf(s, pat) == i;
  }
}
