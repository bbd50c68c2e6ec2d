/**
 * Character classes and string searches that stand in for the regular
 * expressions and `str` methods used by the Newick scanners. Python's `\w`
 * and `\d` are approximated by their ASCII members.
 */
module Text {
  import opened Wrappers

  /** The structural characters of the class `[,;:\(\)]`. */
  predicate IsReserved(c: char) {
    c == ',' || c == ';' || c == ':' || c == '(' || c == ')'
  }

  predicate IsDigit(c: char) {
    '0' <= c <= '9'
  }

  /** ASCII approximation of Python's `\w`. */
  predicate IsWord(c: char) {
    'a' <= c <= 'z' || 'A' <= c <= 'Z' || IsDigit(c) || c == '_'
  }

  /** The class `[\d\.]` of edge-length characters. */
  predicate IsLengthChar(c: char) {
    IsDigit(c) || c == '.'
  }

  /** Python's `str.isspace`, restricted to the Latin-1 range. */
  predicate IsSpace(c: char) {
    c == ' ' || '\t' <= c <= '\r' || '\U{1c}' <= c <= '\U{1f}' || c == '\U{85}' || c == '\U{a0}'
  }

  predicate AllDigits(s: string) {
    forall k :: 0 <= k < |s| ==> IsDigit(s[k])
  }

  predicate AllWord(s: string) {
    forall k :: 0 <= k < |s| ==> IsWord(s[k])
  }

  /** `s` occurs in `t` as one contiguous run of characters. */
  ghost predicate IsSliceOf(s: string, t: string) {
    exists i, j :: 0 <= i <= j <= |t| && s == t[i..j]
  }

  /** Python's `s[i-1]`: at offset 0 it reads the last character. */
  function Before(s: string, i: nat): char
    requires 0 < |s| && i <= |s|
  {
    if i == 0 then s[|s| - 1] else s[i - 1]
  }

  /** Python's `s[a:b]` for non-negative bounds: out-of-range bounds are clamped. */
  function Slice(s: string, a: nat, b: nat): (r: string)
    ensures a <= b <= |s| ==> r == s[a..b]
    ensures b <= a ==> r == ""
  {
    var hi := if b <= |s| then b else |s|;
    var lo := if a <= hi then a else hi;
    s[lo..hi]
  }

  /** `re.search('[,;:\(\)]', s, i)`: the first reserved character at or after `i`. */
  function FindReserved(s: string, i: nat): (r: Option<nat>)
    requires i <= |s|
    ensures r.Some? ==> i <= r.value < |s| && IsReserved(s[r.value])
    ensures forall k :: i <= k < (if r.Some? then r.value else |s|) ==> !IsReserved(s[k])
    decreases |s| - i
  {
    if i == |s| then None
    else if IsReserved(s[i]) then Some(i)
    else FindReserved(s, i + 1)
  }

  /** `s.index(c, i)`: the first `c` at or after `i`, or None where Python raises ValueError. */
  function FindChar(s: string, c: char, i: nat): (r: Option<nat>)
    requires i <= |s|
    ensures r.Some? ==> i <= r.value < |s| && s[r.value] == c
    ensures forall k :: i <= k < (if r.Some? then r.value else |s|) ==> s[k] != c
    decreases |s| - i
  {
    if i == |s| then None
    else if s[i] == c then Some(i)
    else FindChar(s, c, i + 1)
  }

  /** The first offset at or after `i` that holds neither a digit nor a `.`, if any. */
  function LengthEnd(s: string, i: nat): (r: Option<nat>)
    requires i <= |s|
    ensures r.Some? ==> i <= r.value < |s| && !IsLengthChar(s[r.value])
    ensures forall k :: i <= k < (if r.Some? then r.value else |s|) ==> IsLengthChar(s[k])
    decreases |s| - i
  {
    if i == |s| then None
    else if !IsLengthChar(s[i]) then Some(i)
    else LengthEnd(s, i + 1)
  }

  /** `p` occurs in `s` at offset `k`. */
  predicate OccursAt(s: string, p: string, k: nat) {
    k + |p| <= |s| && s[k..k + |p|] == p
  }

  /** `s.find(p, i)`: the first occurrence of `p` at or after `i`. */
  function IndexOf(s: string, p: string, i: nat): (r: Option<nat>)
    requires i <= |s|
    ensures r.Some? ==> i <= r.value && OccursAt(s, p, r.value)
    ensures forall k :: i <= k < (if r.Some? then r.value else |s| + 1) ==> !OccursAt(s, p, k)
    decreases |s| - i
  {
    if OccursAt(s, p, i) then Some(i)
    else if i == |s| then None
    else IndexOf(s, p, i + 1)
  }

  /** The end of the run of digits that starts at `i`. */
  function DigitsEnd(s: string, i: nat): (e: nat)
    requires i <= |s|
    ensures i <= e <= |s|
    ensures forall k :: i <= k < e ==> IsDigit(s[k])
    ensures e < |s| ==> !IsDigit(s[e])
    decreases |s| - i
  {
    if i == |s| || !IsDigit(s[i]) then i else DigitsEnd(s, i + 1)
  }

  /** A run of digits from `i` to `j` that nothing extends is the one `DigitsEnd` finds. */
  lemma {:induction false} DigitsRun(s: string, i: nat, j: nat)
    requires i <= j <= |s| && AllDigits(s[i..j]) && (j == |s| || !IsDigit(s[j]))
    ensures DigitsEnd(s, i) == j
    decreases j - i
  {
    if i < j {
      assert s[i] == s[i..j][0];
      assert s[i + 1..j] == s[i..j][1..];
      DigitsRun(s, i + 1, j);
    }
  }

  /** Python's `sep.join(xs)` for a one-character separator. */
  function Join(xs: seq<string>, sep: char): string
  {
    if xs == [] then ""
    else if |xs| == 1 then xs[0]
    else xs[0] + [sep] + Join(xs[1..], sep)
  }

  /** Python's `s.split(sep)` for a one-character separator. */
  function Split(s: string, sep: char): (r: seq<string>)
    ensures |r| >= 1
    ensures forall k :: 0 <= k < |r| ==> sep !in r[k]
    decreases |s|
  {
    match FindChar(s, sep, 0)
    case None => [s]
    case Some(k) => [s[..k]] + Split(s[k + 1..], sep)
  }

  /** Splitting a joined list gives the list back when no element holds the separator. */
  lemma {:induction false} SplitJoin(xs: seq<string>, sep: char)
    requires |xs| >= 1
    requires forall k :: 0 <= k < |xs| ==> sep !in xs[k]
    ensures Split(Join(xs, sep), sep) == xs
    decreases |xs|
  {
    if |xs| > 1 {
      var s := Join(xs, sep);
      var rest := Join(xs[1..], sep);
      assert s == xs[0] + [sep] + rest;
      assert s[|xs[0]|] == sep;
      forall k | 0 <= k < |xs[0]| ensures s[k] != sep {
        assert s[k] == xs[0][k];
      }
      assert FindChar(s, sep, 0) == Some(|xs[0]|);
      assert s[..|xs[0]|] == xs[0];
      assert s[|xs[0]| + 1..] == rest;
      SplitJoin(xs[1..], sep);
    }
  }

  /** Joining the pieces of a split gives the text back. */
  lemma {:induction false} JoinSplit(s: string, sep: char)
    ensures Join(Split(s, sep), sep) == s
    decreases |s|
  {
    match FindChar(s, sep, 0)
    case None =>
    case Some(k) =>
      JoinSplit(s[k + 1..], sep);
      var tail := Split(s[k + 1..], sep);
      assert Split(s, sep) == [s[..k]] + tail;
      assert Join([s[..k]] + tail, sep) == s[..k] + [sep] + Join(tail, sep);
      assert s == s[..k] + [s[k]] + s[k + 1..];
  }

  function CountChar(s: string, c: char): nat
  {
    if s == [] then 0 else (if s[0] == c then 1 else 0) + CountChar(s[1..], c)
  }

  /**
   * The decimal literals accepted as edge lengths: an optional sign, then
   * digits with at most one `.` and at least one digit (`1`, `1.`, `.5`).
   * Python's `float` also accepts exponents, `inf`, `nan`, underscores and
   * surrounding blanks; those are not part of this model.
   */
  predicate IsDecimal(t: string) {
    var body := if |t| > 0 && (t[0] == '+' || t[0] == '-') then t[1..] else t;
    && (forall k :: 0 <= k < |body| ==> IsLengthChar(body[k]))
    && CountChar(body, '.') <= 1
    && (exists k :: 0 <= k < |body| && IsDigit(body[k]))
  }

  /** A decimal literal whose value is zero, so that Python treats it as false. */
  predicate IsZeroDecimal(t: string) {
    IsDecimal(t) && forall k :: 0 <= k < |t| ==> !('1' <= t[k] <= '9')
  }
}
