/**
 * `trim_tree` of build_oz_tree.py: the clean-up a OneZoom tree file gets
 * before its tokens are expanded. A leading `[...]` comment is dropped,
 * then surrounding whitespace, then one trailing `;`.
 */
module BuildOzTree {
  import opened Wrappers
  import opened Text

  /**
   * Where the tree proper starts: after the first `]` when the text holds a
   * `[`, else at 0. None where `str.index` raises ValueError, a `[` with no `]`.
   */
  function CommentEnd(tree: string): (r: Option<nat>)
    ensures r.Some? ==> r.value <= |tree|
    ensures r.None? <==> '[' in tree && ']' !in tree
    ensures '[' !in tree ==> r == Some(0)
    ensures '[' in tree && r.Some? ==>
      0 < r.value && tree[r.value - 1] == ']' && forall k :: 0 <= k < r.value - 1 ==> tree[k] != ']'
  {
    if '[' in tree then
      match FindChar(tree, ']', 0)
      case None => None
      case Some(k) => Some(k + 1)
    else Some(0)
  }

  /** The first offset at or after `i` that is not whitespace, or the end. */
  function SpaceEnd(s: string, i: nat): (e: nat)
    requires i <= |s|
    ensures i <= e <= |s|
    ensures forall k :: i <= k < e ==> IsSpace(s[k])
    ensures e < |s| ==> !IsSpace(s[e])
    decreases |s| - i
  {
    if i == |s| || !IsSpace(s[i]) then i else SpaceEnd(s, i + 1)
  }

  /** The offset just past the last character before `j` and at or after `lo` that is not whitespace, or `lo`. */
  function SpaceStart(s: string, lo: nat, j: nat): (b: nat)
    requires lo <= j <= |s|
    ensures lo <= b <= j
    ensures forall k :: b <= k < j ==> IsSpace(s[k])
    ensures b > lo ==> !IsSpace(s[b - 1])
    decreases j
  {
    if j == lo || !IsSpace(s[j - 1]) then j else SpaceStart(s, lo, j - 1)
  }

  /** The bounds of the text between the leading and the trailing whitespace of `s`. */
  function StripBounds(s: string): (b: (nat, nat))
    ensures b.0 <= b.1 <= |s|
    ensures forall k :: 0 <= k < b.0 ==> IsSpace(s[k])
    ensures forall k :: b.1 <= k < |s| ==> IsSpace(s[k])
    ensures b.0 < b.1 ==> !IsSpace(s[b.0]) && !IsSpace(s[b.1 - 1])
    ensures b.0 == b.1 ==> b.0 == |s|
  {
    var i := SpaceEnd(s, 0);
    (i, SpaceStart(s, i, |s|))
  }

  /**
   * Python's `s.strip()`: the text between the leading and the trailing
   * whitespace, which is empty when `s` is all whitespace.
   */
  function Strip(s: string): (r: string)
    ensures |r| > 0 ==> !IsSpace(r[0]) && !IsSpace(r[|r| - 1])
    ensures r == [] <==> forall k :: 0 <= k < |s| ==> IsSpace(s[k])
  {
    var b := StripBounds(s);
    s[b.0..b.1]
  }

  /**
   * `trim_tree` (build_oz_tree.py:64-76): the comment, the surrounding
   * whitespace and one trailing `;` removed. Text with `[` and no `]` fails
   * as `str.index` does; text that strips to nothing fails as `tree[-1]` does.
   */
  function TrimTree(tree: string): (r: Result<string>)
    ensures r.Err? ==> r.error == RuntimeFailure(|tree|)
    ensures r.Ok? ==> IsSliceOf(r.value, tree)
    ensures r.Ok? && |r.value| > 0 ==> !IsSpace(r.value[0])
  {
    match CommentEnd(tree)
    case None => Err(RuntimeFailure(|tree|))
    case Some(c) =>
      var body := Strip(tree[c..]);
      if body == [] then Err(RuntimeFailure(|tree|))
      else
        TrimmedSlice(tree, c, body);
        if body[|body| - 1] == ';' then Ok(body[..|body| - 1]) else Ok(body)
  }

  /** What is left after the comment, stripped, is a slice of the text, and so is that slice without its last character. */
  lemma TrimmedSlice(tree: string, c: nat, body: string)
    requires c <= |tree| && body == Strip(tree[c..]) && |body| > 0
    ensures IsSliceOf(body, tree) && IsSliceOf(body[..|body| - 1], tree)
  {
    var b := StripBounds(tree[c..]);
    assert body == tree[c + b.0..c + b.1];
    assert body[..|body| - 1] == tree[c + b.0..c + b.1 - 1];
  }

  /** Text that fails to trim is text with an unclosed `[`, or text that is all whitespace after its comment. */
  lemma TrimTreeFails(tree: string)
    ensures TrimTree(tree).Err? <==>
      || ('[' in tree && ']' !in tree)
      || (CommentEnd(tree).Some? && forall k :: CommentEnd(tree).value <= k < |tree| ==> IsSpace(tree[k]))
  {
    match CommentEnd(tree)
    case None =>
    case Some(c) =>
      var rest := tree[c..];
      assert (forall k :: 0 <= k < |rest| ==> IsSpace(rest[k])) <==> (forall k :: c <= k < |tree| ==> IsSpace(tree[k])) by {
        if forall k :: 0 <= k < |rest| ==> IsSpace(rest[k]) {
          forall k | c <= k < |tree| ensures IsSpace(tree[k]) {
            assert tree[k] == rest[k - c];
          }
        }
      }
  }

  /** Text with nothing to trim comes back unchanged. */
  lemma TrimTreeUnchanged(tree: string)
    requires '[' !in tree && |tree| > 0
    requires !IsSpace(tree[0]) && !IsSpace(tree[|tree| - 1]) && tree[|tree| - 1] != ';'
    ensures TrimTree(tree) == Ok(tree)
  {
    assert tree[0..] == tree;
    StripUnchanged(tree);
  }

  /** Text that neither starts nor ends with whitespace is its own `strip`. */
  lemma StripUnchanged(s: string)
    requires |s| > 0 && !IsSpace(s[0]) && !IsSpace(s[|s| - 1])
    ensures Strip(s) == s
  {
    assert StripBounds(s) == (0, |s|);
    assert s[0..|s|] == s;
  }

  /** Only one trailing `;` goes: `A;;` becomes `A;` (build_oz_tree.py:73-74). */
  lemma TrimTreeOneSemicolon(a: string)
    requires '[' !in a && (a == [] || !IsSpace(a[0]))
    ensures TrimTree(a + ";;") == Ok(a + ";")
  {
    var tree := a + ";;";
    assert tree[|tree| - 1] == ';' && !IsSpace(tree[|tree| - 1]);
    if a == [] {
      assert tree[0] == ';';
    } else {
      assert tree[0] == a[0];
    }
    assert !IsSpace(tree[0]);
    assert '[' !in tree by {
      forall k | 0 <= k < |tree| ensures tree[k] != '[' {
        if k < |a| {
          assert tree[k] == a[k];
        }
      }
    }
    assert tree[0..] == tree;
    StripUnchanged(tree);
    assert tree[..|tree| - 1] == a + ";";
  }

  /** A leading comment is dropped, whatever it holds besides `]` (build_oz_tree.py:66-67). */
  lemma TrimTreeDropsComment(comment: string, tree: string)
    requires ']' !in comment && '[' !in tree
    ensures TrimTree("[" + comment + "]" + tree).Ok? <==> TrimTree(tree).Ok?
    ensures TrimTree(tree).Ok? ==> TrimTree("[" + comment + "]" + tree).value == TrimTree(tree).value
  {
    var full := "[" + comment + "]" + tree;
    assert full[0] == '[' && '[' in full;
    assert full[|comment| + 1] == ']';
    forall k | 0 <= k < |comment| + 1 ensures full[k] != ']' {
      if k > 0 {
        assert full[k] == comment[k - 1];
      }
    }
    assert CommentEnd(full) == Some(|comment| + 2);
    assert full[|comment| + 2..] == tree;
    assert CommentEnd(tree) == Some(0) && tree[0..] == tree;
    SameBody(full, |comment| + 2, tree);
  }

  /** Two texts whose comments end where the same text starts trim alike. */
  lemma SameBody(full: string, n: nat, tree: string)
    requires CommentEnd(full) == Some(n) && full[n..] == tree
    requires CommentEnd(tree) == Some(0) && tree[0..] == tree
    ensures TrimTree(full).Ok? <==> TrimTree(tree).Ok?
    ensures TrimTree(tree).Ok? ==> TrimTree(full).value == TrimTree(tree).value
  {
    var body := Strip(tree);
    assert Strip(full[n..]) == body && Strip(tree[0..]) == body;
  }
}
