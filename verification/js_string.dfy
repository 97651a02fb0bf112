/** The few JavaScript string built-ins the report renderer relies on:
    the `\s` character class, `String.prototype.trim`, `split` on a single
    character, `indexOf` / `includes` on a substring. */
module JsString {

  datatype Option<T> = None | Some(value: T)

  /** ECMAScript WhiteSpace and LineTerminator code points: the set that both
      the regular-expression class `\s` and `trim` use. */
  predicate IsSpace(c: char) {
    || c == '\t' || c == '\n' || c == '\U{000B}' || c == '\U{000C}' || c == '\r'
    || c == ' ' || c == '\U{00A0}' || c == '\U{1680}' || ('\U{2000}' <= c <= '\U{200A}')
    || c == '\U{2028}' || c == '\U{2029}' || c == '\U{202F}' || c == '\U{205F}'
    || c == '\U{3000}' || c == '\U{FEFF}'
  }

  /** LineTerminator code points: the ones a regular-expression `.` does not match. */
  predicate IsLineTerminator(c: char) {
    c == '\n' || c == '\r' || c == '\U{2028}' || c == '\U{2029}'
  }

  /** The class `\d`: ASCII digits only. */
  predicate IsDigit(c: char) {
    '0' <= c <= '9'
  }

  /** Index of the first `c` at or after `from`, or `|s|` when there is none. */
  function FirstFrom(s: string, c: char, from: nat): (k: nat)
    requires from <= |s|
    ensures from <= k <= |s|
    ensures forall j :: from <= j < k ==> s[j] != c
    ensures k < |s| ==> s[k] == c
    decreases |s| - from
  {
    if from == |s| || s[from] == c then from else FirstFrom(s, c, from + 1)
  }

  /** End of the maximal run of `c` that starts at `from`. */
  function RunEnd(s: string, c: char, from: nat): (k: nat)
    requires from <= |s|
    ensures from <= k <= |s|
    ensures forall j :: from <= j < k ==> s[j] == c
    ensures k < |s| ==> s[k] != c
    decreases |s| - from
  {
    if from == |s| || s[from] != c then from else RunEnd(s, c, from + 1)
  }

  /** End of the maximal run of white space that starts at `from` (a greedy `\s*`). */
  function SpaceEnd(s: string, from: nat): (k: nat)
    requires from <= |s|
    ensures from <= k <= |s|
    ensures forall j :: from <= j < k ==> IsSpace(s[j])
    ensures k < |s| ==> !IsSpace(s[k])
    decreases |s| - from
  {
    if from == |s| || !IsSpace(s[from]) then from else SpaceEnd(s, from + 1)
  }

  /** End of the maximal run of digits that starts at `from` (a greedy `\d*`). */
  function DigitEnd(s: string, from: nat): (k: nat)
    requires from <= |s|
    ensures from <= k <= |s|
    ensures forall j :: from <= j < k ==> IsDigit(s[j])
    ensures k < |s| ==> !IsDigit(s[k])
    decreases |s| - from
  {
    if from == |s| || !IsDigit(s[from]) then from else DigitEnd(s, from + 1)
  }

  /** Start of the white-space run that ends `s[lo..hi]`. */
  function TrailingStart(s: string, lo: nat, hi: nat): (k: nat)
    requires lo <= hi <= |s|
    ensures lo <= k <= hi
    ensures forall j :: k <= j < hi ==> IsSpace(s[j])
    ensures k > lo ==> !IsSpace(s[k - 1])
    decreases hi
  {
    if hi == lo || !IsSpace(s[hi - 1]) then hi else TrailingStart(s, lo, hi - 1)
  }

  /** `String.prototype.trim`: `s` without its leading and trailing white space. */
  function Trim(s: string): (t: string)
    ensures var i := SpaceEnd(s, 0);
      && i + |t| <= |s| && t == s[i..i + |t|]
      && (forall j :: 0 <= j < i ==> IsSpace(s[j]))
      && (forall j :: i + |t| <= j < |s| ==> IsSpace(s[j]))
    ensures t != [] ==> !IsSpace(t[0]) && !IsSpace(t[|t| - 1])
    ensures t == [] <==> forall j :: 0 <= j < |s| ==> IsSpace(s[j])
  {
    var i := SpaceEnd(s, 0);
    var k := TrailingStart(s, i, |s|);
    s[i..k]
  }

  /** The pieces of `s` between separators `c` glued back together. */
  function Join(parts: seq<string>, c: char): string {
    if |parts| == 0 then ""
    else if |parts| == 1 then parts[0]
    else parts[0] + [c] + Join(parts[1..], c)
  }

  /** `s.split(c)` for a one-character separator: never empty, one more piece
      than there are separators, and no piece holds the separator. */
  function Split(s: string, c: char): (parts: seq<string>)
    ensures |parts| >= 1
    ensures forall i :: 0 <= i < |parts| ==> c !in parts[i]
    ensures Join(parts, c) == s
    decreases |s|
  {
    var k := FirstFrom(s, c, 0);
    if k == |s| then
      assert s[..k] == s;
      [s]
    else
      var rest := Split(s[k + 1..], c);
      assert s == s[..k] + [c] + s[k + 1..];
      [s[..k]] + rest
  }

  /** `sep` occurs in `s` at position `k`. */
  predicate OccursAt(s: string, sep: string, k: nat) {
    k + |sep| <= |s| && s[k..k + |sep|] == sep
  }

  /** `s.includes(sep)`. */
  predicate Contains(s: string, sep: string) {
    exists k :: 0 <= k <= |s| && OccursAt(s, sep, k)
  }

  /** `s.indexOf(sep, from)`: the first occurrence at or after `from`, if any. */
  function IndexOf(s: string, sep: string, from: nat): (r: Option<nat>)
    requires from <= |s|
    ensures r.Some? ==> from <= r.value && OccursAt(s, sep, r.value)
    ensures forall k :: from <= k <= |s| && (r.None? || k < r.value) ==> !OccursAt(s, sep, k)
    decreases |s| - from
  {
    if OccursAt(s, sep, from) then Some(from)
    else if from == |s| then None
    else IndexOf(s, sep, from + 1)
  }

  /** `includes` is decided by a search from the start. */
  lemma IndexOfDecidesContains(s: string, sep: string)
    ensures IndexOf(s, sep, 0).Some? <==> Contains(s, sep)
  {
    if Contains(s, sep) {
      var k :| 0 <= k <= |s| && OccursAt(s, sep, k);
      assert IndexOf(s, sep, 0).Some?;
    }
  }

  /** `piece` starts where the first `sep` of `s` ends and stops at the end of
      `s` or at the next `sep`: no `sep` begins inside it, one begins right
      after it unless it reaches the end. This pins `piece` down. */
  predicate FollowsFirst(s: string, sep: string, piece: string) {
    && IndexOf(s, sep, 0).Some?
    && var e := IndexOf(s, sep, 0).value + |sep|;
    && e + |piece| <= |s| && s[e..e + |piece|] == piece
    && (forall k :: e <= k < e + |piece| ==> !OccursAt(s, sep, k))
    && (e + |piece| == |s| || OccursAt(s, sep, e + |piece|))
  }

  /** `s.split(sep)[1]` when `sep` occurs in `s`: what follows the first
      occurrence, up to the next occurrence that starts after it ends. */
  function AfterFirst(s: string, sep: string): (piece: string)
    requires sep != []
    requires Contains(s, sep)
    ensures FollowsFirst(s, sep, piece)
    ensures !Contains(piece, sep)
  {
    IndexOfDecidesContains(s, sep);
    var e := IndexOf(s, sep, 0).value + |sep|;
    var stop := IndexOf(s, sep, e);
    if stop.Some? then
      SliceBeforeNextHasNoSep(s, sep, e, stop.value);
      s[e..stop.value]
    else
      SliceBeforeNextHasNoSep(s, sep, e, |s|);
      s[e..]
  }

  /** At most one piece follows the first `sep` in the sense of FollowsFirst,
      so AfterFirst is `split(sep)[1]` and nothing else. */
  lemma FollowsFirstUnique(s: string, sep: string, a: string, b: string)
    requires FollowsFirst(s, sep, a) && FollowsFirst(s, sep, b)
    ensures a == b
  {
  }

  /** A slice that starts at `e` and stops at the first occurrence at or after
      `e` (or at the end) does not itself contain `sep`. */
  lemma SliceBeforeNextHasNoSep(s: string, sep: string, e: nat, stop: nat)
    requires sep != []
    requires e <= stop <= |s|
    requires forall k :: e <= k <= |s| && k < stop ==> !OccursAt(s, sep, k)
    ensures !Contains(s[e..stop], sep)
  {
    var piece := s[e..stop];
    if Contains(piece, sep) {
      var j :| 0 <= j <= |piece| && OccursAt(piece, sep, j);
      assert e + j < stop;
      var inS, inPiece := s[e + j..e + j + |sep|], piece[j..j + |sep|];
      assert forall i :: 0 <= i < |sep| ==> inS[i] == inPiece[i];
      assert inS == inPiece;
      assert OccursAt(s, sep, e + j);
      assert false;
    }
  }
}
