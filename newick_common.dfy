/**
 * Pieces of scanning and result assembly that old/extract_trees.py,
 * extract_trees.py and enumerate_nodes.py write out identically: lexing a
 * quoted or unquoted label, splitting `name_ottNNN`, the excluded-range rule,
 * the sorted range list, the splice loop that builds a node's text, and the
 * pending-node list of the extraction engine.
 */
module NewickCommon {
  import opened Wrappers
  import opened Text

  const OttMarker: string := "_ott"

  /**
   * A lexed label: its text, or None where an unquoted label found no
   * reserved character after it; `next` is the offset just past the label.
   */
  datatype Label = Label(text: Option<string>, next: nat)

  /**
   * The label at offset `i`: a quoted label runs to the next `'` and may hold
   * any character; an unquoted one runs to the next reserved character. Reading
   * at the end of the text, or a quote that is never closed, is a Python error.
   */
  function LexLabel(tree: string, i: nat): (r: Result<Label>)
    requires i <= |tree|
    ensures i == |tree| ==> r == Err(RuntimeFailure(i))
    ensures i < |tree| && tree[i] == '\'' ==>
      (r.Ok? <==> FindChar(tree, '\'', i + 1).Some?)
    ensures r.Ok? && tree[i] == '\'' ==>
      && i + 2 <= r.value.next <= |tree|
      && tree[r.value.next - 1] == '\''
      && r.value.text == Some(tree[i + 1..r.value.next - 1])
      && (forall k :: i + 1 <= k < r.value.next - 1 ==> tree[k] != '\'')
    ensures i < |tree| && tree[i] != '\'' ==>
      && r.Ok?
      && (r.value.text.Some? ==>
            && i <= r.value.next < |tree|
            && IsReserved(tree[r.value.next])
            && r.value.text.value == tree[i..r.value.next]
            && (forall k :: i <= k < r.value.next ==> !IsReserved(tree[k])))
      && (r.value.text.None? ==>
            && r.value.next == i
            && (forall k :: i <= k < |tree| ==> !IsReserved(tree[k])))
    ensures r.Ok? ==> i <= r.value.next <= |tree|
    ensures r.Err? ==> r.error == RuntimeFailure(i) && UnreadableAt(tree, i)
  {
    if i == |tree| then Err(RuntimeFailure(i))
    else if tree[i] == '\'' then
      match FindChar(tree, '\'', i + 1)
      case None => Err(RuntimeFailure(i))
      case Some(q) => Ok(Label(Some(tree[i + 1..q]), q + 1))
    else
      match FindReserved(tree, i)
      case None => Ok(Label(None, i))
      case Some(m) => Ok(Label(Some(tree[i..m]), m))
  }

  /** Reading a label at `i` fails: it is the end of the text, or a quote that is never closed. */
  predicate UnreadableAt(tree: string, i: nat) {
    i == |tree| || (i < |tree| && tree[i] == '\'' && FindChar(tree, '\'', i + 1).None?)
  }

  /** A lexed node: its raw label, its edge length text if a `:` follows, and the offset after both. */
  datatype NodeText = NodeText(taxon: Option<string>, edge: Option<string>, next: nat)

  /**
   * `name_ottNNN` split at the FIRST `_ott`: the name before it and the whole
   * remainder after it as the ott id (the source does not check for digits).
   */
  function SplitOtt(lab: string): (r: (string, Option<string>))
    ensures r.1.Some? ==> lab == r.0 + OttMarker + r.1.value
    ensures r.1.None? ==> r.0 == lab
    ensures r.1.None? <==> forall k: nat :: !OccursAt(lab, OttMarker, k)
    ensures forall k :: 0 <= k < |r.0| ==> !OccursAt(lab, OttMarker, k)
  {
    match IndexOf(lab, OttMarker, 0)
    case None => (lab, None)
    case Some(k) =>
      assert lab == lab[..k] + OttMarker + lab[k + 4..];
      (lab[..k], Some(lab[k + 4..]))
  }

  /**
   * `target_taxa.remove(taxon if taxon in target_taxa else ott_id)` guarded by
   * the membership test: one entry goes, the plain name in preference.
   */
  function Consume(targets: set<string>, name: string, ott: Option<string>): (r: (bool, set<string>))
    ensures r.0 <==> name in targets || (ott.Some? && ott.value in targets)
    ensures name in targets ==> r.1 == targets - {name}
    ensures name !in targets && r.0 ==> r.1 == targets - {ott.value}
    ensures !r.0 ==> r.1 == targets
    ensures r.0 ==> r.1 < targets && |r.1| == |targets| - 1
  {
    if name in targets then (true, targets - {name})
    else if ott.Some? && ott.value in targets then (true, targets - {ott.value})
    else (false, targets)
  }

  /** A half-open source range to leave out; `lo` is -1 where Python's `tree[-1]` read a comma. */
  datatype Range = Range(lo: int, hi: nat)

  /**
   * The range of an excluded node spanning [start, end): it takes the
   * preceding comma if there is one, else the following comma, else neither.
   */
  function ExcludedRange(tree: string, start: nat, end: nat): (r: Range)
    requires start <= end < |tree|
    ensures r.lo <= start && end <= r.hi && (r.hi - r.lo) - (end - start) <= 1
    ensures r.lo < start <==> Before(tree, start) == ','
    ensures end < r.hi <==> Before(tree, start) != ',' && tree[end] == ','
  {
    if Before(tree, start) == ',' then Range(start - 1, end)
    else if tree[end] == ',' then Range(start, end + 1)
    else Range(start, end)
  }

  predicate SortedByStart(rs: seq<Range>) {
    forall i, j :: 0 <= i < j < |rs| ==> rs[i].lo <= rs[j].lo
  }

  /** How many ranges of a sorted list start no later than `r`: they form a prefix. */
  function InsertPosition(rs: seq<Range>, r: Range): (k: nat)
    requires SortedByStart(rs)
    ensures k <= |rs|
    ensures forall j :: 0 <= j < k ==> rs[j].lo <= r.lo
    ensures forall j :: k <= j < |rs| ==> rs[j].lo > r.lo
  {
    if rs == [] || rs[|rs| - 1].lo <= r.lo then |rs|
    else InsertPosition(rs[..|rs| - 1], r)
  }

  /**
   * `excluded_ranges.append(r); excluded_ranges.sort(key=start)`: Python's
   * sort is stable, so on a sorted list the new range lands after every range
   * that starts no later than it and before every range that starts later.
   */
  function InsertByStart(rs: seq<Range>, r: Range): (out: seq<Range>)
    requires SortedByStart(rs)
    ensures SortedByStart(out)
    ensures multiset(out) == multiset(rs) + multiset{r}
    ensures out == rs[..InsertPosition(rs, r)] + [r] + rs[InsertPosition(rs, r)..]
  {
    var k := InsertPosition(rs, r);
    assert rs == rs[..k] + rs[k..];
    rs[..k] + [r] + rs[k..]
  }

  /** Every range that starts strictly inside [start, end) also ends inside it. */
  predicate CutsBounded(ranges: seq<Range>, start: nat, end: nat) {
    forall x :: x in ranges && start < x.lo < end ==> x.hi <= end
  }

  /**
   * `tree_string += string_to_append(a, b)`: the slice tree[a:b], without its
   * first character when that is a comma and the text so far ends with `(`.
   */
  function AppendPiece(tree: string, acc: string, a: nat, b: nat): string
    requires a < |tree|
  {
    var from := if |acc| > 0 && acc[|acc| - 1] == '(' && tree[a] == ',' then a + 1 else a;
    acc + Slice(tree, from, b)
  }

  /** Whether the splice loop cuts out `x`, given that it has cut up to `prev`. */
  predicate Cuts(x: Range, start: nat, end: nat, prev: nat) {
    start < x.lo < end && x.hi > prev
  }

  /** The rest of the splice loop over `ranges`, having built `acc` and cut up to `prev`. */
  function SpliceFrom(tree: string, start: nat, end: nat, ranges: seq<Range>, acc: string, prev: nat): string
    requires start <= prev <= end < |tree|
    requires CutsBounded(ranges, start, end)
    decreases |ranges|
  {
    if ranges == [] then AppendPiece(tree, acc, prev, end)
    else
      var x := ranges[0];
      assert forall y :: y in ranges[1..] ==> y in ranges;
      if Cuts(x, start, end, prev) then
        SpliceFrom(tree, start, end, ranges[1..], AppendPiece(tree, acc, prev, x.lo as nat), x.hi)
      else
        SpliceFrom(tree, start, end, ranges[1..], acc, prev)
  }

  /**
   * The text of a matched node that keeps its source form: tree[start:end] with
   * every cut range spliced out, built piece by piece as the source does.
   */
  method Splice(tree: string, start: nat, end: nat, ranges: seq<Range>) returns (s: string)
    requires start <= end < |tree|
    requires CutsBounded(ranges, start, end)
    ensures s == SpliceFrom(tree, start, end, ranges, "", start)
  {
    s := "";
    var prev := start;
    for i := 0 to |ranges|
      invariant start <= prev <= end
      invariant CutsBounded(ranges[i..], start, end)
      invariant SpliceFrom(tree, start, end, ranges[i..], s, prev) == SpliceFrom(tree, start, end, ranges, "", start)
    {
      var x := ranges[i];
      assert ranges[i..][0] == x && ranges[i..][1..] == ranges[i + 1..];
      if x.lo > start && x.lo < end && x.hi > prev {
        s := AppendPiece(tree, s, prev, x.lo as nat);
        prev := x.hi;
      }
    }
    s := AppendPiece(tree, s, prev, end);
  }

  /** With no range starting inside the slice the splice is the slice itself. */
  lemma {:induction false} SpliceUncut(tree: string, start: nat, end: nat, ranges: seq<Range>, acc: string, prev: nat)
    requires start <= prev <= end < |tree|
    requires forall k :: 0 <= k < |ranges| ==> !(start < ranges[k].lo < end)
    ensures SpliceFrom(tree, start, end, ranges, acc, prev) == AppendPiece(tree, acc, prev, end)
    decreases |ranges|
  {
    if ranges != [] {
      forall k | 0 <= k < |ranges[1..]| ensures !(start < ranges[1..][k].lo < end) {
        assert ranges[1..][k] == ranges[k + 1];
      }
      SpliceUncut(tree, start, end, ranges[1..], acc, prev);
    }
  }

  /** An expanded match with nothing excluded inside it is exactly its source slice. */
  lemma SpliceIsSlice(tree: string, start: nat, end: nat, ranges: seq<Range>)
    requires start <= end < |tree|
    requires forall k :: 0 <= k < |ranges| ==> !(start < ranges[k].lo < end)
    ensures CutsBounded(ranges, start, end)
    ensures SpliceFrom(tree, start, end, ranges, "", start) == tree[start..end]
  {
    SpliceUncut(tree, start, end, ranges, "", start);
  }

  /** With an empty range list the splice is a piece of the tree text. */
  lemma SpliceUncutIsSlice(tree: string, start: nat, end: nat, ranges: seq<Range>)
    requires start <= end < |tree|
    requires CutsBounded(ranges, start, end)
    ensures ranges == [] ==> IsSliceOf(SpliceFrom(tree, start, end, ranges, "", start), tree)
  {
    if ranges == [] {
      SpliceIsSlice(tree, start, end, ranges);
      assert SpliceFrom(tree, start, end, ranges, "", start) == tree[start..end];
    }
  }

  /** `s` holds no `(` directly followed by `,`. */
  predicate NoOpenComma(s: string) {
    forall k :: 0 <= k < |s| - 1 ==> !(s[k] == '(' && s[k + 1] == ',')
  }

  /** `s` holds no two adjacent commas. */
  predicate NoDoubleComma(s: string) {
    forall k :: 0 <= k < |s| - 1 ==> !(s[k] == ',' && s[k + 1] == ',')
  }

  lemma NoOpenCommaInside(tree: string, start: nat, end: nat, a: nat, b: nat)
    requires start <= a <= b <= end <= |tree|
    requires NoOpenComma(tree[start..end])
    ensures NoOpenComma(tree[a..b])
  {
    forall k | 0 <= k < |tree[a..b]| - 1 ensures !(tree[a..b][k] == '(' && tree[a..b][k + 1] == ',') {
      assert tree[a..b][k] == tree[start..end][a - start + k];
      assert tree[a..b][k + 1] == tree[start..end][a - start + k + 1];
    }
  }

  /** A comma inside a slice with no `,,` is not followed by another. */
  lemma CommaNotDoubled(tree: string, start: nat, end: nat, a: nat)
    requires start <= a && a + 1 < end <= |tree| && tree[a] == ','
    requires NoDoubleComma(tree[start..end])
    ensures tree[a + 1] != ','
  {
    assert tree[start..end][a - start] == tree[a];
    assert tree[start..end][a - start + 1] == tree[a + 1];
  }

  /** Appending one piece of the slice never creates a `(,` at the join. */
  lemma AppendPieceNoOpenComma(tree: string, start: nat, end: nat, acc: string, a: nat, b: nat)
    requires start <= a <= end < |tree| && b <= end
    requires NoOpenComma(tree[start..end]) && NoDoubleComma(tree[start..end])
    requires NoOpenComma(acc)
    ensures NoOpenComma(AppendPiece(tree, acc, a, b))
  {
    var from := if |acc| > 0 && acc[|acc| - 1] == '(' && tree[a] == ',' then a + 1 else a;
    var piece := Slice(tree, from, b);
    if from < b {
      NoOpenCommaInside(tree, start, end, from, b);
      assert piece == tree[from..b];
      var s := acc + piece;
      assert AppendPiece(tree, acc, a, b) == s;
      if from == a + 1 {
        CommaNotDoubled(tree, start, end, a);
      }
      forall k | 0 <= k < |s| - 1 ensures !(s[k] == '(' && s[k + 1] == ',') {
        if k + 1 < |acc| {
          assert s[k] == acc[k] && s[k + 1] == acc[k + 1];
        } else if k + 1 == |acc| {
          assert s[k] == acc[k] && s[k + 1] == tree[from];
        } else {
          assert s[k] == piece[k - |acc|] && s[k + 1] == piece[k - |acc| + 1];
        }
      }
    } else {
      assert piece == [];
      assert AppendPiece(tree, acc, a, b) == acc;
    }
  }

  lemma {:induction false} SpliceFromNoOpenComma(tree: string, start: nat, end: nat, ranges: seq<Range>, acc: string, prev: nat)
    requires start <= prev <= end < |tree|
    requires CutsBounded(ranges, start, end)
    requires NoOpenComma(tree[start..end]) && NoDoubleComma(tree[start..end])
    requires NoOpenComma(acc)
    ensures NoOpenComma(SpliceFrom(tree, start, end, ranges, acc, prev))
    decreases |ranges|
  {
    if ranges == [] {
      AppendPieceNoOpenComma(tree, start, end, acc, prev, end);
    } else {
      var x := ranges[0];
      assert forall y :: y in ranges[1..] ==> y in ranges;
      if Cuts(x, start, end, prev) {
        AppendPieceNoOpenComma(tree, start, end, acc, prev, x.lo as nat);
        SpliceFromNoOpenComma(tree, start, end, ranges[1..], AppendPiece(tree, acc, prev, x.lo as nat), x.hi);
      } else {
        SpliceFromNoOpenComma(tree, start, end, ranges[1..], acc, prev);
      }
    }
  }

  /**
   * Splicing never leaves a `(,` behind: when the source slice has neither
   * `(,` nor `,,`, neither does the spliced text have `(,`.
   */
  lemma SpliceNoOpenComma(tree: string, start: nat, end: nat, ranges: seq<Range>)
    requires start <= end < |tree|
    requires CutsBounded(ranges, start, end)
    requires NoOpenComma(tree[start..end]) && NoDoubleComma(tree[start..end])
    ensures NoOpenComma(SpliceFrom(tree, start, end, ranges, "", start))
  {
    SpliceFromNoOpenComma(tree, start, end, ranges, "", start);
  }

  /**
   * One pending result of the extraction engine: `depth` is the number of open
   * parentheses it belongs under, lowered as its ancestors close.
   */
  datatype Pending = Pending(name: Option<string>, ott: Option<string>, treeString: string, depth: nat)

  /** `[n for n in nodes if n["depth"] > d]`. */
  function Deeper(nodes: seq<Pending>, d: nat): (r: seq<Pending>)
    ensures forall n :: n in r <==> n in nodes && n.depth > d
    ensures |r| <= |nodes|
  {
    if nodes == [] then []
    else (if nodes[0].depth > d then [nodes[0]] else []) + Deeper(nodes[1..], d)
  }

  /** The in-place `node["depth"] -= 1` on every node deeper than `d`. */
  function Lift(nodes: seq<Pending>, d: nat): (r: seq<Pending>)
    ensures |r| == |nodes|
    ensures forall k :: 0 <= k < |r| ==>
      r[k] == if nodes[k].depth > d then nodes[k].(depth := nodes[k].depth - 1) else nodes[k]
  {
    seq(|nodes|, k requires 0 <= k < |nodes| =>
      if nodes[k].depth > d then nodes[k].(depth := nodes[k].depth - 1) else nodes[k])
  }

  /** `[n for n in nodes if n not in xs]`, with Python's equality of dicts. */
  function Without(nodes: seq<Pending>, xs: seq<Pending>): (r: seq<Pending>)
    ensures forall n :: n in r <==> n in nodes && n !in xs
  {
    if nodes == [] then []
    else (if nodes[0] in xs then [] else [nodes[0]]) + Without(nodes[1..], xs)
  }

  lemma WithoutNothing(nodes: seq<Pending>)
    ensures Without(nodes, []) == nodes
  {
    if nodes != [] {
      WithoutNothing(nodes[1..]);
      assert nodes == [nodes[0]] + nodes[1..];
    }
  }

  /** Every pending node sits at most `d` parentheses deep. */
  predicate DepthsAtMost(nodes: seq<Pending>, d: nat) {
    forall k :: 0 <= k < |nodes| ==> nodes[k].depth <= d
  }

  /** When nothing is deeper than d+1, the nodes deeper than d are exactly at d+1. */
  lemma DeeperAtDepth(nodes: seq<Pending>, d: nat)
    requires DepthsAtMost(nodes, d + 1)
    ensures forall c :: c in Deeper(nodes, d) ==> c.depth == d + 1
  {
    forall c | c in Deeper(nodes, d) ensures c.depth == d + 1 {
      var k :| 0 <= k < |nodes| && nodes[k] == c;
    }
  }

  lemma LiftLowers(nodes: seq<Pending>, d: nat)
    requires DepthsAtMost(nodes, d + 1)
    ensures DepthsAtMost(Lift(nodes, d), d)
  {
  }

  lemma {:induction false} WithoutKeeps(nodes: seq<Pending>, xs: seq<Pending>, d: nat)
    requires DepthsAtMost(nodes, d)
    ensures DepthsAtMost(Without(nodes, xs), d)
    decreases |nodes|
  {
    if nodes != [] {
      WithoutKeeps(nodes[1..], xs, d);
    }
  }

  function TreeStrings(nodes: seq<Pending>): (r: seq<string>)
    ensures |r| == |nodes|
    ensures forall k :: 0 <= k < |r| ==> r[k] == nodes[k].treeString
  {
    seq(|nodes|, k requires 0 <= k < |nodes| => nodes[k].treeString)
  }

  /** `f"({','.join(children)}){full_name}"`: the children as siblings under this node's label. */
  function Wrap(children: seq<Pending>, fullName: string): string
  {
    "(" + Join(TreeStrings(children), ',') + ")" + fullName
  }

  /** `node['ott'] or node['name']` for a label's name and ott id: a non-empty ott id, else the name. */
  function LabelKey(l: (string, Option<string>)): (k: string)
    ensures k == l.0 || (l.1 == Some(k) && k != "")
    ensures l.1.None? || l.1 == Some("") ==> k == l.0
  {
    if l.1.Some? && l.1.value != "" then l.1.value else l.0
  }

  /** The key of a pending node, from its name and ott id. */
  function Key(n: Pending): string
    requires n.name.Some?
  {
    LabelKey((n.name.value, n.ott))
  }

  /**
   * `{node['ott'] or node['name']: node['tree_string'] for node in nodes}`:
   * one entry per key, where a later node overwrites an earlier one.
   */
  function SeparateMap(nodes: seq<Pending>): (m: map<string, string>)
    requires forall k :: 0 <= k < |nodes| ==> nodes[k].name.Some?
    ensures |m| <= |nodes|
    ensures m == map[] <==> nodes == []
    decreases |nodes|
  {
    if nodes == [] then map[]
    else
      var m0 := SeparateMap(nodes[..|nodes| - 1]);
      var m := m0[Key(nodes[|nodes| - 1]) := nodes[|nodes| - 1].treeString];
      assert |m| <= |m0| + 1 by {
        assert m.Keys == m0.Keys + {Key(nodes[|nodes| - 1])};
      }
      m
  }

  /** Every value of the map is the text of a node with that key. */
  lemma {:induction false} SeparateMapValues(nodes: seq<Pending>)
    requires forall k :: 0 <= k < |nodes| ==> nodes[k].name.Some?
    ensures forall key :: key in SeparateMap(nodes) ==>
      exists k :: 0 <= k < |nodes| && Key(nodes[k]) == key && SeparateMap(nodes)[key] == nodes[k].treeString
    decreases |nodes|
  {
    if nodes != [] {
      var init := nodes[..|nodes| - 1];
      SeparateMapValues(init);
      var m := SeparateMap(nodes);
      forall key | key in m ensures exists k :: 0 <= k < |nodes| && Key(nodes[k]) == key && m[key] == nodes[k].treeString {
        if key != Key(nodes[|nodes| - 1]) {
          assert key in SeparateMap(init) && m[key] == SeparateMap(init)[key];
          var k :| 0 <= k < |init| && Key(init[k]) == key && SeparateMap(init)[key] == init[k].treeString;
          assert init[k] == nodes[k];
        }
      }
    }
  }

  /** When every node's text is a piece of the tree text, so is every value of the map. */
  lemma SeparateMapSlices(nodes: seq<Pending>, tree: string)
    requires forall k :: 0 <= k < |nodes| ==> nodes[k].name.Some?
    requires AllSlices(nodes, tree)
    ensures forall key :: key in SeparateMap(nodes) ==> IsSliceOf(SeparateMap(nodes)[key], tree)
  {
    SeparateMapValues(nodes);
    var m := SeparateMap(nodes);
    forall key | key in m ensures IsSliceOf(m[key], tree) {
      var k :| 0 <= k < |nodes| && Key(nodes[k]) == key && m[key] == nodes[k].treeString;
      assert IsSliceOf(nodes[k].treeString, tree);
    }
  }

  /** Every node's key is in the map, and a node no later node shares its key with keeps its text there. */
  lemma {:induction false} SeparateMapLastWins(nodes: seq<Pending>)
    requires forall k :: 0 <= k < |nodes| ==> nodes[k].name.Some?
    ensures var m := SeparateMap(nodes);
      && (forall k :: 0 <= k < |nodes| ==> Key(nodes[k]) in m)
      && (forall j :: 0 <= j < |nodes| && (forall i :: j < i < |nodes| ==> Key(nodes[i]) != Key(nodes[j])) ==>
            m[Key(nodes[j])] == nodes[j].treeString)
    decreases |nodes|
  {
    if nodes != [] {
      var init := nodes[..|nodes| - 1];
      SeparateMapLastWins(init);
      var m := SeparateMap(nodes);
      forall k | 0 <= k < |nodes| ensures Key(nodes[k]) in m {
        if k < |init| {
          assert init[k] == nodes[k];
        }
      }
      forall j | 0 <= j < |nodes| && (forall i :: j < i < |nodes| ==> Key(nodes[i]) != Key(nodes[j]))
        ensures m[Key(nodes[j])] == nodes[j].treeString
      {
        if j < |init| {
          assert Key(nodes[|init|]) != Key(nodes[j]);
          assert forall i :: j < i < |init| ==> init[i] == nodes[i];
          assert init[j] == nodes[j];
        }
      }
    }
  }

  /** What an extraction returns: one tree in merge mode, a tree per key in separate mode. */
  datatype Output = Merged(tree: Option<string>) | Separate(trees: map<string, string>)

  /** The output together with the targets never found (the source logs these). */
  datatype Extraction = Extraction(output: Output, notFound: set<string>)

  /** Every pending node's text is a contiguous piece of the tree text. */
  ghost predicate AllSlices(nodes: seq<Pending>, tree: string) {
    forall k :: 0 <= k < |nodes| ==> IsSliceOf(nodes[k].treeString, tree)
  }

  /** A label's effect on the search: its name and ott id, whether it matched, and the updated state. */
  datatype Matched = Matched(name: Option<string>, ott: Option<string>, found: bool, remaining: set<string>, ranges: seq<Range>)

  /** The name and ott id a label carries: a non-empty label split at `_ott`; an empty or missing one carries none. */
  function Carried(taxon: Option<string>): Option<(string, Option<string>)>
  {
    if taxon.Some? && taxon.value != "" then Some(SplitOtt(taxon.value)) else None
  }

  /** The label names `t`, as its name or as its ott id. */
  predicate Carries(l: Option<(string, Option<string>)>, t: string) {
    l.Some? && (l.value.0 == t || l.value.1 == Some(t))
  }

  /** The label names a member of `ts`, as its name or as its ott id. */
  predicate Hits(l: Option<(string, Option<string>)>, ts: set<string>) {
    l.Some? && (l.value.0 in ts || (l.value.1.Some? && l.value.1.value in ts))
  }

  /** The targets still sought after a label: the one it names goes, the plain name in preference. */
  function Consumed(remaining: set<string>, l: Option<(string, Option<string>)>): (r: set<string>)
    ensures r <= remaining && |remaining| - |r| <= 1
    ensures r != remaining <==> Hits(l, remaining)
    ensures forall t :: t in remaining && t !in r ==> Carries(l, t)
  {
    if l.None? then remaining else Consume(remaining, l.value.0, l.value.1).1
  }

  /**
   * The targets still sought after reading `labels` in order, each label
   * consuming the target it names from what is sought at that point.
   */
  function Sought(targets: set<string>, labels: seq<Option<(string, Option<string>)>>): (r: set<string>)
    ensures r <= targets
    ensures |targets| - |r| <= |labels|
    decreases |labels|
  {
    if labels == [] then targets
    else
      var before := Sought(targets, labels[..|labels| - 1]);
      var l := labels[|labels| - 1];
      assert Consumed(before, l) <= before && |before| - |Consumed(before, l)| <= 1 by {
        if l.Some? {
          var _ := Consume(before, l.value.0, l.value.1);
        }
      }
      Consumed(before, l)
  }

  /** Reading one more label consumes from what the labels before it left. */
  lemma SoughtStep(targets: set<string>, labels: seq<Option<(string, Option<string>)>>, l: Option<(string, Option<string>)>)
    ensures Sought(targets, labels + [l]) == Consumed(Sought(targets, labels), l)
  {
    assert (labels + [l])[..|labels|] == labels;
  }

  /**
   * The labels the lenient loop reads along `(X,X_ottT);` (none at the `(`
   * and at the comma) with targets `X` and `T`: `X` takes the target `X`, and
   * then `X_ottT`, whose name is no longer sought, takes `T` by its ott id,
   * so nothing is left unfound.
   */
  lemma SoughtByOtt()
    ensures Sought({"X", "T"}, [None, Some(("X", None)), None, Some(("X", Some("T")))]) == {}
  {
    var l1, l3 := Some(("X", None)), Some(("X", Some("T")));
    SoughtStep({"X", "T"}, [], None);
    SoughtStep({"X", "T"}, [None], l1);
    SoughtStep({"X", "T"}, [None, l1], None);
    SoughtStep({"X", "T"}, [None, l1, None], l3);
    assert Consumed({"X", "T"}, l1) == {"T"};
    assert Consumed({"T"}, l3) == {};
  }

  /**
   * A label read while `t` was sought, with `t` still sought in `remaining`:
   * the label's name is not `t`, and a label whose ott id is `t` has a name
   * that is a target no longer in `remaining`. This does not say when that
   * name was found; `Sought` does.
   */
  predicate Passed(l: Option<(string, Option<string>)>, t: string, targets: set<string>, remaining: set<string>) {
    l.None? || (l.value.0 != t && (l.value.1 == Some(t) ==> l.value.0 in targets && l.value.0 !in remaining))
  }

  /**
   * The search after reading `labels` in order, `remaining` being the targets
   * still sought: every found target is named by one of the labels, and every
   * target still sought was passed by all of them.
   */
  ghost predicate Accounted(targets: set<string>, remaining: set<string>, labels: seq<Option<(string, Option<string>)>>) {
    && remaining <= targets
    && (forall t :: t in targets && t !in remaining ==> exists k :: 0 <= k < |labels| && Carries(labels[k], t))
    && (forall t, k :: t in remaining && 0 <= k < |labels| ==> Passed(labels[k], t, targets, remaining))
  }

  /**
   * Reading one more label keeps the search accounted for, and a label that
   * names a target still sought names a found one afterwards.
   */
  lemma {:induction false} AccountedStep(targets: set<string>, remaining: set<string>, labels: seq<Option<(string, Option<string>)>>,
                      l: Option<(string, Option<string>)>)
    requires Accounted(targets, remaining, labels)
    ensures Accounted(targets, Consumed(remaining, l), labels + [l])
    ensures Hits(l, remaining) ==> Hits(l, targets - Consumed(remaining, l))
  {
    var rest := Consumed(remaining, l);
    var labels' := labels + [l];
    assert rest <= remaining;
    forall t | t in targets && t !in rest ensures exists k :: 0 <= k < |labels'| && Carries(labels'[k], t) {
      if t in remaining {
        assert Carries(labels'[|labels|], t);
      } else {
        var k :| 0 <= k < |labels| && Carries(labels[k], t);
        assert labels'[k] == labels[k];
      }
    }
    forall t, k | t in rest && 0 <= k < |labels'| ensures Passed(labels'[k], t, targets, rest) {
      if k < |labels| {
        assert labels'[k] == labels[k];
        assert Passed(labels[k], t, targets, remaining);
      }
    }
  }

  /**
   * A non-empty label is split at `_ott`; a match on the name or the ott id
   * removes one target, and an excluded name or ott id records the node's
   * range in the sorted range list. An empty or missing label does neither.
   */
  function MatchLabel(tree: string, taxon: Option<string>, nodeStart: nat, end: nat,
                      remaining: set<string>, excluded: set<string>, ranges: seq<Range>): (m: Matched)
    requires nodeStart <= end <= |tree|
    requires taxon.Some? && taxon.value != "" ==> end < |tree|
    requires SortedByStart(ranges)
    requires CutsBounded(ranges, nodeStart, end)
    requires forall x :: x in ranges ==> x.hi <= end || (x.hi == end + 1 && end < |tree| && tree[end] == ',')
    ensures taxon.None? || taxon.value == "" ==> m == Matched(taxon, None, false, remaining, ranges)
    ensures taxon.Some? && taxon.value != "" ==>
      && m.name == Some(SplitOtt(taxon.value).0)
      && m.ott == SplitOtt(taxon.value).1
      && (m.found <==> m.name.value in remaining || (m.ott.Some? && m.ott.value in remaining))
      && (m.ranges != ranges <==> m.name.value in excluded || (m.ott.Some? && m.ott.value in excluded))
    ensures m.found ==> m.name.Some? && m.remaining < remaining && |m.remaining| == |remaining| - 1
    ensures !m.found ==> m.remaining == remaining
    ensures SortedByStart(m.ranges)
    ensures CutsBounded(m.ranges, nodeStart, end)
    ensures forall x :: x in m.ranges ==> x.hi <= end || (x.hi == end + 1 && end < |tree| && tree[end] == ',')
    ensures excluded == {} ==> m.ranges == ranges
    ensures m.found == Hits(Carried(taxon), remaining) && m.remaining == Consumed(remaining, Carried(taxon))
  {
    if taxon.None? || taxon.value == "" then Matched(taxon, None, false, remaining, ranges)
    else
      var (name, ott) := SplitOtt(taxon.value);
      var (found, rest) := Consume(remaining, name, ott);
      if name in excluded || (ott.Some? && ott.value in excluded) then
        var x := ExcludedRange(tree, nodeStart, end);
        var rs := InsertByStart(ranges, x);
        assert forall y :: y in rs ==> y in ranges || y == x;
        Matched(Some(name), ott, found, rest, rs)
      else
        Matched(Some(name), ott, found, rest, ranges)
  }

  /**
   * The pending list after a label, at stack depth `depth`. At a `)` or a
   * match the pending nodes one level deeper are this node's children and move
   * up a level (none in separate mode); a match, or two or more children,
   * becomes one new pending node that replaces its children. A match that is
   * expanded or childless keeps `spliced`, its source slice with the excluded
   * ranges cut out; otherwise the node wraps its children under `fullName`, its
   * own label text. Any other node leaves the pending list as it is.
   */
  function Settled(nodes: seq<Pending>, depth: nat, found: bool, closed: bool, separateTrees: bool, expand: bool,
                   name: Option<string>, ott: Option<string>, spliced: string, fullName: string): seq<Pending>
  {
    if !(found || closed) then nodes
    else
      var children := if separateTrees then [] else Deeper(nodes, depth);
      var lifted := Lift(children, depth);
      var base := if separateTrees then nodes else Lift(nodes, depth);
      if found || |children| > 1 then
        var treeString := if found && (expand || children == []) then spliced else Wrap(lifted, fullName);
        Without(base, lifted) + [Pending(name, ott, treeString, depth)]
      else base
  }

  /**
   * `Settled` computed as the source does: the children are checked to sit
   * exactly one level deeper (the source's `assert`), and the splice loop runs
   * only for an expanded or childless match. Settling keeps every pending node
   * within the stack, never empties a pending list, and, while it neither
   * bubbles nor wraps, adds one node per match, which with no excluded ranges
   * is a piece of the tree text.
   */
  method Settle(tree: string, nodes: seq<Pending>, depth: nat, found: bool, closed: bool, separateTrees: bool, expand: bool,
                nodeStart: nat, fullNameStart: nat, end: nat, ranges: seq<Range>, name: Option<string>, ott: Option<string>)
    returns (out: seq<Pending>)
    requires nodeStart <= end <= |tree| && fullNameStart <= end && (found ==> end < |tree|)
    requires CutsBounded(ranges, nodeStart, end)
    requires !separateTrees ==> DepthsAtMost(nodes, depth + (if closed then 1 else 0))
    ensures out == Settled(nodes, depth, found, closed, separateTrees, expand, name, ott,
                           if found then SpliceFrom(tree, nodeStart, end, ranges, "", nodeStart) else "",
                           tree[fullNameStart..end])
    ensures !separateTrees ==> DepthsAtMost(out, depth)
    ensures nodes != [] || found ==> out != []
    ensures nodes == [] && !found ==> out == []
    ensures separateTrees || (|nodes| <= 1 && (found ==> nodes == [])) ==>
      && |out| == |nodes| + (if found then 1 else 0)
      && (ranges == [] && AllSlices(nodes, tree) ==> AllSlices(out, tree))
      && ((forall k :: 0 <= k < |nodes| ==> nodes[k].name.Some?) && (found ==> name.Some?) ==>
            forall k :: 0 <= k < |out| ==> out[k].name.Some?)
  {
    out := nodes;
    if found || closed {
      var children := if separateTrees then [] else Deeper(nodes, depth);
      if !separateTrees && closed {
        DeeperAtDepth(nodes, depth);
      }
      // The source asserts this: deeper nodes were bubbled up when their own parent closed.
      assert closed ==> forall c :: c in children ==> c.depth == depth + 1;
      var lifted := Lift(children, depth);
      if !separateTrees {
        out := Lift(nodes, depth);
      }
      if found || |children| > 1 {
        var treeString: string;
        if found && (expand || children == []) {
          treeString := Splice(tree, nodeStart, end, ranges);
        } else {
          treeString := Wrap(lifted, tree[fullNameStart..end]);
        }
        out := Without(out, lifted) + [Pending(name, ott, treeString, depth)];
      }
    }
    ghost var spliced := if found then SpliceFrom(tree, nodeStart, end, ranges, "", nodeStart) else "";
    ghost var fullName := tree[fullNameStart..end];
    SettledDepths(nodes, depth, found, closed, separateTrees, expand, name, ott, spliced, fullName);
    SettledNonEmpty(nodes, depth, found, closed, separateTrees, expand, name, ott, spliced, fullName);
    SettledUnmerged(tree, nodes, depth, found, closed, separateTrees, expand, name, ott, spliced, fullName);
    if found {
      SpliceUncutIsSlice(tree, nodeStart, end, ranges);
    }
  }

  /** Settling keeps every pending node within the stack: nothing is ever more than one level too deep. */
  lemma SettledDepths(nodes: seq<Pending>, depth: nat, found: bool, closed: bool, separateTrees: bool, expand: bool,
                      name: Option<string>, ott: Option<string>, spliced: string, fullName: string)
    ensures !separateTrees && DepthsAtMost(nodes, depth + (if closed then 1 else 0)) ==>
      DepthsAtMost(Settled(nodes, depth, found, closed, separateTrees, expand, name, ott, spliced, fullName), depth)
  {
    if !separateTrees && DepthsAtMost(nodes, depth + (if closed then 1 else 0)) && (found || closed) {
      var children := Deeper(nodes, depth);
      var lifted := Lift(children, depth);
      LiftLowers(nodes, depth);
      if found || |children| > 1 {
        WithoutKeeps(Lift(nodes, depth), lifted, depth);
      }
    }
  }

  /** A match always leaves a pending node, and a non-empty pending list never empties. */
  lemma SettledNonEmpty(nodes: seq<Pending>, depth: nat, found: bool, closed: bool, separateTrees: bool, expand: bool,
                        name: Option<string>, ott: Option<string>, spliced: string, fullName: string)
    ensures nodes != [] || found ==> Settled(nodes, depth, found, closed, separateTrees, expand, name, ott, spliced, fullName) != []
    ensures nodes == [] && !found ==> Settled(nodes, depth, found, closed, separateTrees, expand, name, ott, spliced, fullName) == []
  {
  }

  /** Separate mode never bubbles: a match appends its spliced slice and nothing else changes. */
  lemma SettledSeparate(nodes: seq<Pending>, depth: nat, found: bool, closed: bool, separateTrees: bool, expand: bool,
                        name: Option<string>, ott: Option<string>, spliced: string, fullName: string)
    ensures separateTrees ==>
      Settled(nodes, depth, found, closed, separateTrees, expand, name, ott, spliced, fullName)
        == nodes + if found then [Pending(name, ott, spliced, depth)] else []
  {
    if separateTrees && found {
      WithoutNothing(nodes);
    }
  }

  /**
   * In merge mode, while at most one node is pending: a `)` only lifts it, and
   * a first match becomes the only pending node, holding its spliced slice.
   */
  lemma SettledFirst(nodes: seq<Pending>, depth: nat, found: bool, closed: bool, separateTrees: bool, expand: bool,
                     name: Option<string>, ott: Option<string>, spliced: string, fullName: string)
    ensures !separateTrees && |nodes| <= 1 && (found ==> nodes == []) ==>
      var out := Settled(nodes, depth, found, closed, separateTrees, expand, name, ott, spliced, fullName);
      && (found ==> out == [Pending(name, ott, spliced, depth)])
      && (!found ==> |out| == |nodes| && forall k :: 0 <= k < |out| ==> out[k].treeString == nodes[k].treeString)
  {
    if !separateTrees && |nodes| <= 1 && !found && closed {
      assert |Deeper(nodes, depth)| <= 1;
    }
  }

  /**
   * While settling neither bubbles nor wraps (separate mode, or merge mode
   * before a second match), each match adds one node, and if the new node's
   * slice and every pending text are pieces of the tree text, so is every
   * text afterwards.
   */
  lemma SettledUnmerged(tree: string, nodes: seq<Pending>, depth: nat, found: bool, closed: bool, separateTrees: bool,
                        expand: bool, name: Option<string>, ott: Option<string>, spliced: string, fullName: string)
    ensures var out := Settled(nodes, depth, found, closed, separateTrees, expand, name, ott, spliced, fullName);
      (separateTrees || (|nodes| <= 1 && (found ==> nodes == []))) ==>
        && |out| == |nodes| + (if found then 1 else 0)
        && (AllSlices(nodes, tree) && (found ==> IsSliceOf(spliced, tree)) ==> AllSlices(out, tree))
        && ((forall k :: 0 <= k < |nodes| ==> nodes[k].name.Some?) && (found ==> name.Some?) ==>
              forall k :: 0 <= k < |out| ==> out[k].name.Some?)
  {
    var out := Settled(nodes, depth, found, closed, separateTrees, expand, name, ott, spliced, fullName);
    if separateTrees {
      SettledSeparate(nodes, depth, found, closed, separateTrees, expand, name, ott, spliced, fullName);
      if found {
        assert forall k :: 0 <= k < |nodes| ==> out[k] == nodes[k];
        assert out[|nodes|] == Pending(name, ott, spliced, depth);
      } else {
        assert out == nodes;
      }
    } else if |nodes| <= 1 && (found ==> nodes == []) {
      SettledFirst(nodes, depth, found, closed, separateTrees, expand, name, ott, spliced, fullName);
    }
  }

  /**
   * The pending list after a label that neither bubbles nor wraps: every
   * earlier text stays in place (every earlier node, in separate mode), and a
   * match appends one node holding `text` under the label's name and ott id.
   */
  predicate Grown(nodes: seq<Pending>, out: seq<Pending>, found: bool, text: string,
                  l: Option<(string, Option<string>)>, separateTrees: bool) {
    && |out| == |nodes| + (if found then 1 else 0)
    && (forall k :: 0 <= k < |nodes| ==> out[k].treeString == nodes[k].treeString && (separateTrees ==> out[k] == nodes[k]))
    && (found ==> l.Some? && out[|nodes|].treeString == text && out[|nodes|].name == Some(l.value.0) && out[|nodes|].ott == l.value.1)
  }

  /** In separate mode, and in merge mode before a second match, settling grows the pending list by the match alone. */
  lemma SettledGrows(nodes: seq<Pending>, depth: nat, found: bool, closed: bool, separateTrees: bool, expand: bool,
                     name: Option<string>, ott: Option<string>, spliced: string, fullName: string,
                     l: Option<(string, Option<string>)>)
    requires separateTrees || (|nodes| <= 1 && (found ==> nodes == []))
    requires found ==> l.Some? && name == Some(l.value.0) && ott == l.value.1
    ensures Grown(nodes, Settled(nodes, depth, found, closed, separateTrees, expand, name, ott, spliced, fullName),
                  found, spliced, l, separateTrees)
  {
    if separateTrees {
      SettledSeparate(nodes, depth, found, closed, separateTrees, expand, name, ott, spliced, fullName);
    } else {
      SettledFirst(nodes, depth, found, closed, separateTrees, expand, name, ott, spliced, fullName);
    }
  }

  /** With nothing excluded and nothing merged, settling a visited node grows the pending list by its source text. */
  lemma {:induction false} VisitGrows(tree: string, nodes: seq<Pending>, out: seq<Pending>, depth: nat, closed: bool,
                                      separateTrees: bool, expand: bool, v: Visited, l: Option<(string, Option<string>)>)
    requires v.nodeStart <= v.end <= |tree| && v.fullNameStart <= v.end && v.m.ranges == [] && (v.m.found ==> v.end < |tree|)
    requires separateTrees || (|nodes| <= 1 && (v.m.found ==> nodes == []))
    requires v.m.found ==> l.Some? && v.m.name == Some(l.value.0) && v.m.ott == l.value.1
    requires out == Settled(nodes, depth, v.m.found, closed, separateTrees, expand, v.m.name, v.m.ott,
                            if v.m.found then SpliceFrom(tree, v.nodeStart, v.end, v.m.ranges, "", v.nodeStart) else "",
                            tree[v.fullNameStart..v.end])
    ensures Grown(nodes, out, v.m.found, tree[v.nodeStart..v.end], l, separateTrees)
  {
    if v.m.found {
      SpliceIsSlice(tree, v.nodeStart, v.end, v.m.ranges);
    }
    SettledGrows(nodes, depth, v.m.found, closed, separateTrees, expand, v.m.name, v.m.ott,
                 if v.m.found then SpliceFrom(tree, v.nodeStart, v.end, v.m.ranges, "", v.nodeStart) else "",
                 tree[v.fullNameStart..v.end], l);
  }

  /**
   * With `labels` and `spans` the label and the source text of each pass of
   * a scan, the pass `origin[i]` produced pending node `i`: its label names a
   * found target, the node holds that pass's text and, in separate mode, the
   * label's name and ott id.
   */
  predicate Origins(nodes: seq<Pending>, labels: seq<Option<(string, Option<string>)>>, spans: seq<string>,
                    found: set<string>, origin: seq<nat>, separateTrees: bool) {
    && |origin| == |nodes|
    && forall i :: 0 <= i < |origin| ==>
         && origin[i] < |labels| && origin[i] < |spans|
         && Hits(labels[origin[i]], found)
         && nodes[i].treeString == spans[origin[i]]
         && (separateTrees ==> nodes[i].name == Some(labels[origin[i]].value.0) && nodes[i].ott == labels[origin[i]].value.1)
  }

  /** One more pass keeps the origins, and a match it appends has this pass as its origin. */
  lemma {:induction false} OriginsStep(nodes: seq<Pending>, out: seq<Pending>, labels: seq<Option<(string, Option<string>)>>,
                                       spans: seq<string>, found: set<string>, found': set<string>, origin: seq<nat>,
                                       l: Option<(string, Option<string>)>, span: string, hit: bool, separateTrees: bool)
    requires Origins(nodes, labels, spans, found, origin, separateTrees) && |labels| == |spans|
    requires found <= found'
    requires Grown(nodes, out, hit, span, l, separateTrees)
    requires hit ==> Hits(l, found')
    ensures Origins(out, labels + [l], spans + [span], found', if hit then origin + [|labels|] else origin, separateTrees)
  {
    var labels', spans' := labels + [l], spans + [span];
    var origin' := if hit then origin + [|labels|] else origin;
    forall i | 0 <= i < |origin'|
      ensures && origin'[i] < |labels'| && origin'[i] < |spans'|
              && Hits(labels'[origin'[i]], found')
              && out[i].treeString == spans'[origin'[i]]
              && (separateTrees ==> out[i].name == Some(labels'[origin'[i]].value.0) && out[i].ott == labels'[origin'[i]].value.1)
    {
      if i < |origin| {
        assert labels'[origin[i]] == labels[origin[i]] && spans'[origin[i]] == spans[origin[i]];
      }
    }
  }

  /** In separate mode every tree of the map is the text of a pass whose label names a found target, under that label's key. */
  lemma {:induction false} SeparateOrigins(nodes: seq<Pending>, labels: seq<Option<(string, Option<string>)>>, spans: seq<string>,
                                           found: set<string>, origin: seq<nat>)
    requires forall k :: 0 <= k < |nodes| ==> nodes[k].name.Some?
    requires Origins(nodes, labels, spans, found, origin, true)
    ensures forall key :: key in SeparateMap(nodes) ==>
      exists k :: 0 <= k < |labels| && k < |spans| && Hits(labels[k], found)
        && LabelKey(labels[k].value) == key && SeparateMap(nodes)[key] == spans[k]
  {
    SeparateMapValues(nodes);
    forall key | key in SeparateMap(nodes)
      ensures exists k :: 0 <= k < |labels| && k < |spans| && Hits(labels[k], found)
                            && LabelKey(labels[k].value) == key && SeparateMap(nodes)[key] == spans[k]
    {
      var j :| 0 <= j < |nodes| && Key(nodes[j]) == key && SeparateMap(nodes)[key] == nodes[j].treeString;
      var k := origin[j];
      assert Hits(labels[k], found) && LabelKey(labels[k].value) == key;
    }
  }

  /**
   * At a `)` with two or more pending children and no match, the children
   * are replaced by one node that wraps them, lifted a level, under the label.
   */
  lemma SettledWraps(nodes: seq<Pending>, depth: nat, expand: bool,
                     name: Option<string>, ott: Option<string>, spliced: string, fullName: string)
    requires |Deeper(nodes, depth)| > 1
    ensures Settled(nodes, depth, false, true, false, expand, name, ott, spliced, fullName)
      == Without(Lift(nodes, depth), Lift(Deeper(nodes, depth), depth))
        + [Pending(name, ott, Wrap(Lift(Deeper(nodes, depth), depth), fullName), depth)]
  {
  }

  /** A match that is expanded or has no children keeps its spliced source slice. */
  lemma SettledKeepsSlice(nodes: seq<Pending>, depth: nat, closed: bool, separateTrees: bool, expand: bool,
                          name: Option<string>, ott: Option<string>, spliced: string, fullName: string)
    requires expand || separateTrees || Deeper(nodes, depth) == []
    ensures var out := Settled(nodes, depth, true, closed, separateTrees, expand, name, ott, spliced, fullName);
      out != [] && out[|out| - 1] == Pending(name, ott, spliced, depth)
  {
  }

  /**
   * A match that is not expanded and has pending children replaces them by
   * one node that wraps them, lifted a level, under its own label text.
   */
  lemma SettledWrapsMatch(nodes: seq<Pending>, depth: nat, closed: bool, expand: bool,
                          name: Option<string>, ott: Option<string>, spliced: string, fullName: string)
    requires !expand && Deeper(nodes, depth) != []
    ensures Settled(nodes, depth, true, closed, false, expand, name, ott, spliced, fullName)
      == Without(Lift(nodes, depth), Lift(Deeper(nodes, depth), depth))
        + [Pending(name, ott, Wrap(Lift(Deeper(nodes, depth), depth), fullName), depth)]
  {
  }

  /** Every pending node carries a name, so that it has a key. */
  predicate Named(nodes: seq<Pending>) {
    forall k :: 0 <= k < |nodes| ==> nodes[k].name.Some?
  }

  /**
   * The pending list after the visit `v`, as `Settle` computes it: `Settled`
   * with the node's source slice, the excluded ranges spliced out, for a match
   * and its label text for a wrapping node.
   */
  function SettledAfter(tree: string, separateTrees: bool, expand: bool, nodes: seq<Pending>, v: Visited): (r: seq<Pending>)
    requires v.nodeStart <= v.end <= |tree| && v.fullNameStart <= v.end && (v.m.found ==> v.end < |tree|)
    requires CutsBounded(v.m.ranges, v.nodeStart, v.end)
    ensures !v.m.found && !v.closed ==> r == nodes
    ensures v.m.found ==> |r| > 0 && r[|r| - 1].name == v.m.name && r[|r| - 1].depth == |v.stack|
  {
    Settled(nodes, |v.stack|, v.m.found, v.closed, separateTrees, expand, v.m.name, v.m.ott,
            if v.m.found then SpliceFrom(tree, v.nodeStart, v.end, v.m.ranges, "", v.nodeStart) else "",
            tree[v.fullNameStart..v.end])
  }

  /** In separate mode a visit keeps every pending node named when a match carries a name. */
  lemma SettledAfterNamed(tree: string, separateTrees: bool, expand: bool, nodes: seq<Pending>, v: Visited)
    requires v.nodeStart <= v.end <= |tree| && v.fullNameStart <= v.end && (v.m.found ==> v.end < |tree|)
    requires CutsBounded(v.m.ranges, v.nodeStart, v.end)
    ensures separateTrees && Named(nodes) && (v.m.found ==> v.m.name.Some?) ==>
      Named(SettledAfter(tree, separateTrees, expand, nodes, v))
  {
    SettledSeparate(nodes, |v.stack|, v.m.found, v.closed, separateTrees, expand, v.m.name, v.m.ott,
                    if v.m.found then SpliceFrom(tree, v.nodeStart, v.end, v.m.ranges, "", v.nodeStart) else "",
                    tree[v.fullNameStart..v.end]);
  }

  /** The scan state: offset, open-parenthesis offsets, pending nodes, excluded ranges, targets not yet found. */
  datatype Scan = Scan(index: nat, stack: seq<nat>, nodes: seq<Pending>, ranges: seq<Range>, remaining: set<string>)

  /** A `)` or label position after lexing and matching: what the settling step needs. */
  datatype Visited = Visited(closed: bool, nodeStart: nat, fullNameStart: nat, end: nat, stack: seq<nat>, m: Matched)

  /** A text that opens with the one-letter label `A` followed by a comma, a `;` or a `)`. */
  predicate OpensWithA(tree: string) {
    |tree| >= 2 && tree[0] == 'A' && (tree[1] == ',' || tree[1] == ';' || tree[1] == ')')
  }

  /** The label `A` read at the top of the text is the target `A`, with no ott id. */
  lemma MatchesA(tree: string)
    requires |tree| >= 2
    ensures MatchLabel(tree, Some("A"), 0, 1, {"A"}, {}, []) == Matched(Some("A"), None, true, {}, [])
  {
    assert !OccursAt("A", OttMarker, 0) && !OccursAt("A", OttMarker, 1);
    assert SplitOtt("A") == ("A", None);
  }

  /** Settling the match `A` with nothing pending leaves the one node `A`, its own source text. */
  lemma SettlesA(tree: string)
    requires OpensWithA(tree)
    ensures SettledAfter(tree, false, false, [], Visited(false, 0, 0, 1, [], Matched(Some("A"), None, true, {}, [])))
            == [Pending(Some("A"), None, "A", 0)]
  {
    SpliceIsSlice(tree, 0, 1, []);
    assert tree[0..1] == "A";
  }

  /** The text of the ott-accounting example: two leaves, the second carrying the first's name and an ott id. */
  const OttPair: string := "(X,X_ottT);"

  /** In `OttPair`, the label `X` at offset 1 is the target `X`, which leaves `T` sought. */
  lemma MatchesX()
    ensures MatchLabel(OttPair, Some("X"), 1, 2, {"X", "T"}, {}, []) == Matched(Some("X"), None, true, {"T"}, [])
  {
    assert !OccursAt("X", OttMarker, 0) && !OccursAt("X", OttMarker, 1);
    assert SplitOtt("X") == ("X", None);
  }

  /** In `OttPair`, the label `X_ottT` at offset 3 splits into the name `X` and the ott id `T`, and takes `T` by its ott id. */
  lemma MatchesXott()
    ensures MatchLabel(OttPair, Some("X_ottT"), 3, 9, {"T"}, {}, []) == Matched(Some("X"), Some("T"), true, {}, [])
  {
    assert "X_ottT"[0..4][0] != OttMarker[0];
    assert "X_ottT"[1..5] == OttMarker;
    assert IndexOf("X_ottT", OttMarker, 0) == Some(1);
    assert "X_ottT"[..1] == "X" && "X_ottT"[1 + 4..] == "T";
    assert SplitOtt("X_ottT") == ("X", Some("T"));
  }

  /** Settling the match `X` with nothing pending leaves one node one level deep, whose text is `X`. */
  lemma SettlesX()
    ensures SettledAfter(OttPair, false, false, [], Visited(false, 1, 1, 2, [0], Matched(Some("X"), None, true, {"T"}, [])))
            == [Pending(Some("X"), None, "X", 1)]
  {
    SpliceIsSlice(OttPair, 1, 2, []);
    assert OttPair[1..2] == "X";
  }

  /** Settling the match `X_ottT` beside the pending `X` appends a second node at the same depth, whose text is `X_ottT`. */
  lemma SettlesXott()
    ensures SettledAfter(OttPair, false, false, [Pending(Some("X"), None, "X", 1)],
                         Visited(false, 3, 3, 9, [0], Matched(Some("X"), Some("T"), true, {}, [])))
            == [Pending(Some("X"), None, "X", 1), Pending(Some("X"), Some("T"), "X_ottT", 1)]
  {
    SpliceIsSlice(OttPair, 3, 9, []);
    assert OttPair[3..9] == "X_ottT";
    assert Deeper([Pending(Some("X"), None, "X", 1)], 1) == [];
    WithoutNothing(Lift([Pending(Some("X"), None, "X", 1)], 1));
  }

  /** Both leaves of `OttPair`, lifted to the top level, are the children of its `)`, and nothing else is pending beside them. */
  lemma PairChildren(x: Pending, y: Pending)
    requires x.depth == 1 && y.depth == 1
    ensures Deeper([x, y], 0) == [x, y]
    ensures Lift([x, y], 0) == [x.(depth := 0), y.(depth := 0)]
    ensures Without([x.(depth := 0), y.(depth := 0)], [x.(depth := 0), y.(depth := 0)]) == []
  {
    assert Deeper([y], 0) == [y];
    var l := [x.(depth := 0), y.(depth := 0)];
    assert l[1..] == [y.(depth := 0)];
    assert Without([y.(depth := 0)], l) == [] by {
      assert [y.(depth := 0)][1..] == [];
    }
  }

  /** A `)` with no match over two leaves one level deeper wraps them, lifted, into one node at the top level. */
  lemma SettledPair(x: Pending, y: Pending, name: Option<string>, ott: Option<string>, spliced: string, fullName: string)
    requires x.depth == 1 && y.depth == 1
    ensures Settled([x, y], 0, false, true, false, false, name, ott, spliced, fullName)
            == [Pending(name, ott, Wrap([x.(depth := 0), y.(depth := 0)], fullName), 0)]
  {
    PairChildren(x, y);
  }

  /** Two texts joined are the first, the separator and the second. */
  lemma JoinPair(a: string, b: string, sep: char)
    ensures Join([a, b], sep) == a + [sep] + b
  {
    assert [a, b][1..] == [b];
  }

  /** The leaves `X` and `X_ottT` wrapped under an empty label are the text `(X,X_ottT)`. */
  lemma PairText(x: Pending, y: Pending)
    requires x.treeString == "X" && y.treeString == "X_ottT"
    ensures Wrap([x, y], "") == "(X,X_ottT)"
  {
    assert TreeStrings([x, y]) == ["X", "X_ottT"];
    JoinPair("X", "X_ottT", ',');
    assert "X" + [','] + "X_ottT" == "X,X_ottT";
    assert "(" + "X,X_ottT" + ")" + "" == "(X,X_ottT)";
  }

  /** At the `)` of `OttPair`, with no label after it, the two pending leaves are wrapped into the one node `(X,X_ottT)`. */
  lemma WrapsPair()
    ensures SettledAfter(OttPair, false, false, [Pending(Some("X"), None, "X", 1), Pending(Some("X"), Some("T"), "X_ottT", 1)],
                         Visited(true, 10, 10, 10, [], Matched(Some(""), None, false, {}, [])))
            == [Pending(Some(""), None, "(X,X_ottT)", 0)]
  {
    var x, y := Pending(Some("X"), None, "X", 1), Pending(Some("X"), Some("T"), "X_ottT", 1);
    assert OttPair[10..10] == "";
    SettledPair(x, y, Some(""), None, "", "");
    PairText(x.(depth := 0), y.(depth := 0));
  }
}
