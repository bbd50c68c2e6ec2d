/**
 * The lenient extractor of extract_trees.py: the same one-pass minimal
 * subtree extraction as the strict one, without syntax checks. After a
 * non-empty label a `:` and the digits and dots after it are skipped; after
 * an empty label nothing is, so a length that follows an anonymous `)` is
 * stepped over one `:` at a time and its digits are then lexed as a label of
 * their own.
 */
module ExtractTrees {
  import opened Wrappers
  import opened Text
  import opened NewickCommon

  /**
   * The ways the source fails on some text: a Python error (reading a label
   * at the end of the text or at a quote that is never closed, or popping an
   * empty stack just after a `)`), or a loop that never ends, at an unquoted
   * character with no reserved character after it.
   */
  predicate FailureAt(tree: string, f: Failure) {
    match f
    case RuntimeFailure(at) => UnreadableAt(tree, at) || (0 < at <= |tree| && tree[at - 1] == ')')
    case Diverges(at) =>
      && at < |tree| && tree[at] != '\'' && tree[at] != '(' && tree[at] != ')'
      && (forall k :: at <= k < |tree| ==> !IsReserved(tree[k]))
    case _ => false
  }

  /**
   * The inner loop after `label:` (extract_trees.py:82-83): the offset of the
   * first character from `i` on that is neither a digit nor a dot; running
   * off the end is an index error.
   */
  method SkipLength(tree: string, i: nat) returns (r: Result<nat>)
    requires i <= |tree|
    ensures r.Ok? ==>
      && i <= r.value < |tree| && !IsLengthChar(tree[r.value])
      && (forall k :: i <= k < r.value ==> IsLengthChar(tree[k]))
    ensures r.Err? ==> r.error == RuntimeFailure(|tree|) && forall k :: i <= k < |tree| ==> IsLengthChar(tree[k])
    ensures r.Ok? <==> LengthEnd(tree, i).Some?
    ensures r.Ok? ==> r.value == LengthEnd(tree, i).value
  {
    var k := i;
    while k < |tree| && IsLengthChar(tree[k])
      invariant i <= k <= |tree|
      invariant forall j :: i <= j < k ==> IsLengthChar(tree[j])
      invariant LengthEnd(tree, k) == LengthEnd(tree, i)
      decreases |tree| - k
    {
      k := k + 1;
    }
    if k == |tree| {
      return Err(RuntimeFailure(k));
    }
    return Ok(k);
  }

  /**
   * The label at offset `i` (extract_trees.py:55-83), and after a non-empty
   * one its `:` and length; the label text is what `LexLabel` reads. An
   * offset that does not move rests on a reserved character, or on an
   * unquoted one with no reserved character after it.
   */
  function NodeAt(tree: string, i: nat): (r: Result<Label>)
    requires i <= |tree|
    ensures i < |tree| && IsReserved(tree[i]) ==> r == Ok(Label(Some(""), i))
    ensures r.Err? ==> FailureAt(tree, r.error)
    ensures r.Ok? ==> LexLabel(tree, i).Ok? && r.value.text == LexLabel(tree, i).value.text
    ensures r.Ok? ==> i <= r.value.next <= |tree|
    ensures r.Ok? ==> var j := LexLabel(tree, i).value.next;
      if r.value.text.Some? && r.value.text.value != "" then
        && i < j < |tree|
        && (tree[j] != ':' ==> r.value.next == j)
        && (tree[j] == ':' ==>
              && j < r.value.next < |tree| && !IsLengthChar(tree[r.value.next])
              && (forall k :: j < k < r.value.next ==> IsLengthChar(tree[k])))
      else r.value.next == j
    ensures r.Ok? && r.value.next == i && i < |tree| && !IsReserved(tree[i]) ==>
      tree[i] != '\'' && forall k :: i <= k < |tree| ==> !IsReserved(tree[k])
  {
    match LexLabel(tree, i)
    case Err(e) => Err(e)
    case Ok(lab) =>
      if lab.text.Some? && lab.text.value != "" then
        if lab.next == |tree| then Err(RuntimeFailure(lab.next))
        else if tree[lab.next] == ':' then
          match LengthEnd(tree, lab.next + 1)
          case None => Err(RuntimeFailure(|tree|))
          case Some(k) => Ok(Label(lab.text, k))
        else Ok(lab)
      else Ok(lab)
  }

  /** The label and length at offset `i`, read as `NodeAt` says. */
  method LexNode(tree: string, i: nat) returns (r: Result<Label>)
    requires i <= |tree|
    ensures r == NodeAt(tree, i)
  {
    var lab := LexLabel(tree, i);
    if lab.Err? {
      return Err(lab.error);
    }
    var next := lab.value.next;
    if lab.value.text.Some? && lab.value.text.value != "" {
      if next == |tree| {
        return Err(RuntimeFailure(next));
      }
      if tree[next] == ':' {
        var skipped := SkipLength(tree, next + 1);
        if skipped.Err? {
          return Err(skipped.error);
        }
        next := skipped.value;
      }
    }
    return Ok(Label(lab.value.text, next));
  }

  /** A scan position: the offset, the offsets of the `(` still open, and the targets still sought. */
  datatype Pos = Pos(index: nat, stack: seq<nat>, remaining: set<string>)

  /** The loop body runs at `p`: it is inside the text, not at `;`, and every open `(` lies behind it. */
  predicate Steps(tree: string, p: Pos) {
    && p.index < |tree| && tree[p.index] != ';'
    && forall k :: 0 <= k < |p.stack| ==> p.stack[k] < p.index
  }

  /** Where the label of the node at `p` starts: after a `)`, else at `p`. */
  function LabelStart(tree: string, p: Pos): (i: nat)
    requires p.index < |tree|
    ensures p.index <= i <= |tree|
  {
    if tree[p.index] == ')' then p.index + 1 else p.index
  }

  /** The stack after the pass at `p`: a `)` pops its `(`. */
  function Popped(tree: string, p: Pos): (r: seq<nat>)
    requires p.index < |tree|
    ensures r <= p.stack
    ensures |r| == |p.stack| - 1 <==> tree[p.index] == ')' && p.stack != []
    ensures |r| == |p.stack| <==> !(tree[p.index] == ')' && p.stack != [])
  {
    if tree[p.index] == ')' && p.stack != [] then p.stack[..|p.stack| - 1] else p.stack
  }

  /** Where the node read at `p` starts: at the `(` a `)` closes when expanded, else at its label. */
  function NodeStart(tree: string, p: Pos, expand: bool): (i: nat)
    requires p.index < |tree|
    ensures i != LabelStart(tree, p) ==> expand && tree[p.index] == ')' && p.stack != [] && i == p.stack[|p.stack| - 1]
    ensures !expand ==> i == LabelStart(tree, p)
  {
    if tree[p.index] == ')' && p.stack != [] && expand then p.stack[|p.stack| - 1] else LabelStart(tree, p)
  }

  /** The pop at a `)`, which fails on an empty stack, then the label and length of the node read at `p`. */
  function Lex(tree: string, p: Pos): (r: Result<Label>)
    requires Steps(tree, p)
    ensures r.Ok? ==> LabelStart(tree, p) <= r.value.next <= |tree|
    ensures tree[p.index] == ')' && p.stack == [] ==> r == Err(RuntimeFailure(p.index + 1))
    ensures r.Err? ==> FailureAt(tree, r.error)
  {
    if tree[p.index] == ')' && p.stack == [] then Err(RuntimeFailure(p.index + 1))
    else NodeAt(tree, LabelStart(tree, p))
  }

  /**
   * Where a pass from offset `from` that read a node ending at `end` leaves
   * the scan (extract_trees.py:102-149): at `end` after a `)` or a match;
   * otherwise one past a `,` or `:` at `end`, or at `end` if the label moved
   * the offset. Reading at the end of the text fails, and a pass that moves
   * nothing never ends.
   */
  function Resume(tree: string, from: nat, closed: bool, found: bool, end: nat, stack: seq<nat>,
                  remaining: set<string>): (r: Result<Pos>)
    requires end <= |tree|
    ensures r.Ok? ==> r.value.stack == stack && r.value.remaining == remaining
    ensures r.Ok? ==> r.value.index == end || (end < |tree| && r.value.index == end + 1 && (tree[end] == ',' || tree[end] == ':'))
    ensures r.Ok? && !found && !closed && from <= end ==> from < r.value.index
    ensures r.Err? ==> !found && !closed && (r.error == RuntimeFailure(|tree|) || r.error == Diverges(from))
  {
    if found || closed then Ok(Pos(end, stack, remaining))
    else if end == |tree| then Err(RuntimeFailure(end))
    else if tree[end] == ',' || tree[end] == ':' then Ok(Pos(end + 1, stack, remaining))
    else if end == from then Err(Diverges(end))
    else Ok(Pos(end, stack, remaining))
  }

  /**
   * The position after one pass of the loop body at `p`: past a `(`, which is
   * pushed, or past the node read there as `Resume` says, with its label
   * consumed from the targets still sought. A pass moves forward and keeps
   * every open `(` behind the offset; it fails only as `FailureAt` allows.
   */
  function Advance(tree: string, p: Pos): (r: Result<Pos>)
    requires Steps(tree, p)
    ensures r.Ok? ==> p.index < r.value.index <= |tree| && forall k :: 0 <= k < |r.value.stack| ==> r.value.stack[k] < r.value.index
    ensures r.Err? ==> tree[p.index] != '(' && FailureAt(tree, r.error)
  {
    if tree[p.index] == '(' then Ok(Pos(p.index + 1, p.stack + [p.index], p.remaining))
    else
      match Lex(tree, p)
      case Err(e) => Err(e)
      case Ok(n) =>
        var l := Carried(n.text);
        Resume(tree, p.index, tree[p.index] == ')', Hits(l, p.remaining), n.next, Popped(tree, p), Consumed(p.remaining, l))
  }

  /** The name and ott id of the label read at `p`; none at `(`, where the pass fails, or for an empty label. */
  function LabelAt(tree: string, p: Pos): Option<(string, Option<string>)>
    requires Steps(tree, p)
  {
    if tree[p.index] == '(' then None
    else
      match Lex(tree, p)
      case Err(_) => None
      case Ok(n) => Carried(n.text)
  }

  /** The source text of the node read at `p`, from where it starts to the end of its label and length. */
  function SpanAt(tree: string, p: Pos, expand: bool): string
    requires Steps(tree, p)
  {
    if tree[p.index] == '(' then ""
    else
      match Lex(tree, p)
      case Err(_) => ""
      case Ok(n) => tree[NodeStart(tree, p, expand)..n.next]
  }

  /** `trace` starts at the top of the text with every target sought, and each position in it is reached from the one before by one pass. */
  ghost predicate Walk(tree: string, targets: set<string>, trace: seq<Pos>)
    decreases |trace|
  {
    && |trace| > 0
    && if |trace| == 1 then trace[0] == Pos(0, [], targets)
       else
         var p := trace[|trace| - 2];
         Walk(tree, targets, trace[..|trace| - 1]) && Steps(tree, p) && Advance(tree, p) == Ok(trace[|trace| - 1])
  }

  /** How a scan along `trace` ends in an error: off the end, or in a pass that fails. */
  ghost predicate Failed(tree: string, trace: seq<Pos>, f: Failure)
    requires |trace| > 0
  {
    var last := trace[|trace| - 1];
    || (last.index == |tree| && f == RuntimeFailure(|tree|))
    || (Steps(tree, last) && Advance(tree, last) == Err(f))
  }

  /** `labels` and `spans` hold the label and the source text of the node read at each position of `trace` but the last. */
  ghost predicate Reads(tree: string, expand: bool, trace: seq<Pos>, labels: seq<Option<(string, Option<string>)>>,
                        spans: seq<string>)
    decreases |labels|
  {
    && |labels| == |trace| - 1 && |spans| == |labels|
    && (|labels| > 0 ==>
          var k := |labels| - 1;
          && Reads(tree, expand, trace[..k + 1], labels[..k], spans[..k])
          && Steps(tree, trace[k]) && labels[k] == LabelAt(tree, trace[k]) && spans[k] == SpanAt(tree, trace[k], expand))
  }

  /**
   * The ghost record of a scan: the positions passed, the label and text read
   * at each, the search accounted for by those labels and, while nothing is
   * excluded and nothing merged, the pass that produced each pending node.
   */
  ghost predicate Traced(tree: string, targets: set<string>, excluded: set<string>, expand: bool, separateTrees: bool,
                         s: Scan, matches: nat, trace: seq<Pos>, labels: seq<Option<(string, Option<string>)>>,
                         spans: seq<string>, origin: seq<nat>) {
    && Walk(tree, targets, trace) && trace[|trace| - 1] == Pos(s.index, s.stack, s.remaining)
    && Reads(tree, expand, trace, labels, spans)
    && Accounted(targets, s.remaining, labels) && s.remaining == Sought(targets, labels)
    && (excluded == {} && (separateTrees || matches <= 1) ==>
          Origins(s.nodes, labels, spans, targets - s.remaining, origin, separateTrees))
  }

  /**
   * What holds between two steps of the scan, `matches` being the number of
   * matches so far. As in the strict extractor, except that the offset may
   * rest on the comma after a node, which an excluded range may already
   * cover.
   */
  ghost predicate Inv(tree: string, targets: set<string>, excluded: set<string>, separateTrees: bool, s: Scan, matches: nat) {
    && s.index <= |tree|
    && s.remaining <= targets && |s.remaining| + matches == |targets|
    && (forall k :: 0 <= k < |s.stack| ==> s.stack[k] < s.index)
    && (!separateTrees ==> DepthsAtMost(s.nodes, |s.stack|))
    && (s.nodes == [] <==> s.remaining == targets)
    && ((separateTrees || matches <= 1) ==> |s.nodes| == matches)
    && (separateTrees ==> forall k :: 0 <= k < |s.nodes| ==> s.nodes[k].name.Some?)
    && (excluded == {} && (separateTrees || matches <= 1) ==> AllSlices(s.nodes, tree))
    && (excluded == {} ==> s.ranges == [])
    && SortedByStart(s.ranges)
    && (forall x :: x in s.ranges ==> x.hi <= s.index || (x.hi == s.index + 1 && s.index < |tree| && tree[s.index] == ','))
  }

  /**
   * What a successful head leaves: whether it closed a `(`, where the node,
   * its label and its length end, the stack after the pop, and the match; a
   * `)` or a match moves the offset, a match ends before the end of the text,
   * every open `(` lies behind the offset, the exclusion cuts stay ordered and
   * inside the node, and a match removes exactly one target.
   */
  predicate Headed(tree: string, excluded: set<string>, s: Scan, v: Visited) {
    && s.index <= v.end <= |tree| && v.nodeStart <= v.end && v.fullNameStart <= v.end
    && s.index < |tree| && v.closed == (tree[s.index] == ')')
    && (v.closed || v.m.found ==> s.index < v.end)
    && (v.m.found ==> v.end < |tree|)
    && |v.stack| + (if v.closed then 1 else 0) == |s.stack|
    && (forall k :: 0 <= k < |v.stack| ==> v.stack[k] < s.index)
    && SortedByStart(v.m.ranges)
    && CutsBounded(v.m.ranges, v.nodeStart, v.end)
    && (forall x :: x in v.m.ranges ==> x.hi <= v.end || (x.hi == v.end + 1 && v.end < |tree| && tree[v.end] == ','))
    && (excluded == {} ==> v.m.ranges == s.ranges)
    && (v.m.found ==> v.m.name.Some? && v.m.remaining < s.remaining && |v.m.remaining| == |s.remaining| - 1)
    && (!v.m.found ==> v.m.remaining == s.remaining)
  }

  /**
   * The straight-line head of the loop body at any character but `;` and `(`
   * (extract_trees.py:39-100): pop the stack at `)`, lex the label and
   * length, then match and exclude. At a `,` or `:` it reads an empty label
   * and matches nothing.
   */
  method Head(tree: string, excluded: set<string>, expand: bool, s: Scan) returns (r: Result<Visited>)
    requires s.index < |tree| && tree[s.index] != ';' && tree[s.index] != '('
    requires forall k :: 0 <= k < |s.stack| ==> s.stack[k] < s.index
    requires SortedByStart(s.ranges)
    requires forall x :: x in s.ranges ==> x.hi <= s.index || (x.hi == s.index + 1 && tree[s.index] == ',')
    ensures r.Err? ==> FailureAt(tree, r.error)
    ensures tree[s.index] == ',' || tree[s.index] == ':' ==>
      && r.Ok? && r.value.end == s.index && r.value.stack == s.stack
      && !r.value.m.found && r.value.m.remaining == s.remaining && r.value.m.ranges == s.ranges
    ensures r.Ok? ==> Headed(tree, excluded, s, r.value)
    ensures r.Err? ==> Lex(tree, Pos(s.index, s.stack, s.remaining)) == Err(r.error)
    ensures r.Ok? ==> Lex(tree, Pos(s.index, s.stack, s.remaining)).Ok?
    ensures r.Ok? ==>
      var p, n, v := Pos(s.index, s.stack, s.remaining), Lex(tree, Pos(s.index, s.stack, s.remaining)).value, r.value;
      && v.nodeStart == NodeStart(tree, p, expand) && v.fullNameStart == LabelStart(tree, p)
      && v.end == n.next && v.stack == Popped(tree, p)
      && v.m == MatchLabel(tree, n.text, v.nodeStart, v.end, s.remaining, excluded, s.ranges)
    ensures r.Ok? ==> r.value == Heading(tree, excluded, expand, s, Lex(tree, Pos(s.index, s.stack, s.remaining)).value)
  {
    var closed := tree[s.index] == ')';
    var index, nodeStart, stack := s.index, s.index, s.stack;
    if closed {
      index := index + 1;
      if stack == [] {
        return Err(RuntimeFailure(index));
      }
      nodeStart := if expand then stack[|stack| - 1] else index;
      stack := stack[..|stack| - 1];
    }
    var lexed := LexNode(tree, index);
    if lexed.Err? {
      return Err(lexed.error);
    }
    var end := lexed.value.next;
    var m := MatchLabel(tree, lexed.value.text, nodeStart, end, s.remaining, excluded, s.ranges);
    r := Ok(Visited(closed, nodeStart, index, end, stack, m));
  }

  /** A successful head, seen as part of a pass: where the pass goes, the label it reads and the text it spans. */
  lemma HeadPass(tree: string, excluded: set<string>, expand: bool, s: Scan, v: Visited)
    requires Steps(tree, Pos(s.index, s.stack, s.remaining)) && tree[s.index] != '('
    requires SortedByStart(s.ranges)
    requires forall x :: x in s.ranges ==> x.hi <= s.index || (x.hi == s.index + 1 && tree[s.index] == ',')
    requires Lex(tree, Pos(s.index, s.stack, s.remaining)).Ok?
    requires var p, n := Pos(s.index, s.stack, s.remaining), Lex(tree, Pos(s.index, s.stack, s.remaining)).value;
      && v.nodeStart == NodeStart(tree, p, expand) && v.fullNameStart == LabelStart(tree, p)
      && v.end == n.next && v.stack == Popped(tree, p)
      && v.m == MatchLabel(tree, n.text, v.nodeStart, v.end, s.remaining, excluded, s.ranges)
    ensures v.nodeStart <= v.end <= |tree|
    ensures Advance(tree, Pos(s.index, s.stack, s.remaining))
            == Resume(tree, s.index, tree[s.index] == ')', v.m.found, v.end, v.stack, v.m.remaining)
    ensures v.m.found == Hits(LabelAt(tree, Pos(s.index, s.stack, s.remaining)), s.remaining)
    ensures v.m.remaining == Consumed(s.remaining, LabelAt(tree, Pos(s.index, s.stack, s.remaining)))
    ensures LabelAt(tree, Pos(s.index, s.stack, s.remaining)).Some? ==>
      && v.m.name == Some(LabelAt(tree, Pos(s.index, s.stack, s.remaining)).value.0)
      && v.m.ott == LabelAt(tree, Pos(s.index, s.stack, s.remaining)).value.1
    ensures SpanAt(tree, Pos(s.index, s.stack, s.remaining), expand) == tree[v.nodeStart..v.end]
  {
  }

  /** The invariant carried across one visit, from the facts about each part of the new state. */
  lemma InvStep(tree: string, targets: set<string>, excluded: set<string>, separateTrees: bool,
                s: Scan, matches: nat, v: Visited, nodes: seq<Pending>, index: nat, matches': nat)
    requires Inv(tree, targets, excluded, separateTrees, s, matches)
    requires s.index < index <= |tree| && (index == v.end || (index == v.end + 1 && v.end < |tree|))
    requires |v.stack| + (if v.closed then 1 else 0) == |s.stack|
    requires forall k :: 0 <= k < |v.stack| ==> v.stack[k] < s.index
    requires SortedByStart(v.m.ranges)
    requires forall x :: x in v.m.ranges ==> x.hi <= v.end || (x.hi == v.end + 1 && v.end < |tree| && tree[v.end] == ',')
    requires excluded == {} ==> v.m.ranges == s.ranges
    requires v.m.found ==> v.m.remaining < s.remaining && |v.m.remaining| == |s.remaining| - 1
    requires !v.m.found ==> v.m.remaining == s.remaining
    requires matches' == if v.m.found then matches + 1 else matches
    requires !separateTrees ==> DepthsAtMost(nodes, |v.stack|)
    requires s.nodes != [] || v.m.found ==> nodes != []
    requires !v.m.found && s.nodes == [] ==> nodes == []
    requires (separateTrees || (|s.nodes| <= 1 && (v.m.found ==> s.nodes == []))) ==>
      && |nodes| == |s.nodes| + (if v.m.found then 1 else 0)
      && (excluded == {} && AllSlices(s.nodes, tree) ==> AllSlices(nodes, tree))
      && (separateTrees && (forall k :: 0 <= k < |s.nodes| ==> s.nodes[k].name.Some?) ==>
            forall k :: 0 <= k < |nodes| ==> nodes[k].name.Some?)
    ensures Inv(tree, targets, excluded, separateTrees, Scan(index, v.stack, nodes, v.m.ranges, v.m.remaining), matches')
  {
  }

  /**
   * A pass from `s` to `s2` as the record sees it: it advances one position
   * and, while nothing is excluded or merged, the pending list grows by the
   * node's source text.
   */
  ghost predicate Stepped(tree: string, excluded: set<string>, expand: bool, separateTrees: bool, s: Scan, s2: Scan) {
    var p := Pos(s.index, s.stack, s.remaining);
    && Steps(tree, p)
    && Advance(tree, p) == Ok(Pos(s2.index, s2.stack, s2.remaining))
    && s2.remaining == Consumed(s.remaining, LabelAt(tree, p))
    && (excluded == {} && (separateTrees || (|s.nodes| <= 1 && (Hits(LabelAt(tree, p), s.remaining) ==> s.nodes == []))) ==>
          Grown(s.nodes, s2.nodes, Hits(LabelAt(tree, p), s.remaining), SpanAt(tree, p, expand), LabelAt(tree, p), separateTrees))
  }

  /**
   * One pass of the loop body at any character but `;` and `(`
   * (extract_trees.py:39-149). A `)` or a match settles the pending nodes and
   * leaves the offset after the node; any other position steps over one `,`
   * or `:` and changes nothing else, so the `:` of a length after an anonymous
   * `)` is stepped over here and its digits are lexed on the next pass. A
   * position that neither settles nor moves is a loop that never ends.
   */
  method Visit(tree: string, targets: set<string>, excluded: set<string>, expand: bool, separateTrees: bool,
               s: Scan, ghost matches: nat)
    returns (r: Result<Scan>, ghost matches': nat)
    requires Inv(tree, targets, excluded, separateTrees, s, matches)
    requires s.index < |tree| && tree[s.index] != ';' && tree[s.index] != '('
    requires separateTrees ==> expand
    ensures r.Ok? ==> Inv(tree, targets, excluded, separateTrees, r.value, matches') && r.value.index > s.index
    ensures r.Err? ==> FailureAt(tree, r.error)
    ensures r.Err? ==> Advance(tree, Pos(s.index, s.stack, s.remaining)) == Err(r.error)
    ensures r.Ok? ==> Stepped(tree, excluded, expand, separateTrees, s, r.value)
    ensures tree[s.index] == ',' || tree[s.index] == ':' ==> r == Ok(s.(index := s.index + 1))
    ensures r == Next(tree, excluded, expand, separateTrees, s)
  {
    var h := Head(tree, excluded, expand, s);
    if h.Err? {
      return Err(h.error), matches;
    }
    r, matches' := VisitHeaded(tree, targets, excluded, expand, separateTrees, s, matches, h.value);
  }

  /** A visit past a head that succeeded: the pending nodes settled, and the scan resumed, as `Concluded` says. */
  method VisitHeaded(tree: string, targets: set<string>, excluded: set<string>, expand: bool, separateTrees: bool,
                     s: Scan, ghost matches: nat, v: Visited)
    returns (r: Result<Scan>, ghost matches': nat)
    requires Inv(tree, targets, excluded, separateTrees, s, matches)
    requires s.index < |tree| && tree[s.index] != ';' && tree[s.index] != '('
    requires separateTrees ==> expand
    requires Lex(tree, Pos(s.index, s.stack, s.remaining)).Ok? && Headed(tree, excluded, s, v)
    requires v == Heading(tree, excluded, expand, s, Lex(tree, Pos(s.index, s.stack, s.remaining)).value)
    ensures r.Ok? ==> Inv(tree, targets, excluded, separateTrees, r.value, matches') && r.value.index > s.index
    ensures r.Err? ==> FailureAt(tree, r.error)
    ensures r.Err? ==> Advance(tree, Pos(s.index, s.stack, s.remaining)) == Err(r.error)
    ensures r.Ok? ==> Stepped(tree, excluded, expand, separateTrees, s, r.value)
    ensures tree[s.index] == ',' || tree[s.index] == ':' ==> r == Ok(s.(index := s.index + 1))
    ensures r == Next(tree, excluded, expand, separateTrees, s)
  {
    HeadPass(tree, excluded, expand, s, v);
    r, matches' := Conclude(tree, targets, excluded, expand, separateTrees, s, matches, v, LabelAt(tree, Pos(s.index, s.stack, s.remaining)));
  }

  /**
   * The rest of a visit after its head (extract_trees.py:102-149): settle the
   * pending nodes after a `)` or a match, or else step over a `,` or `:`.
   */
  method Conclude(tree: string, targets: set<string>, excluded: set<string>, expand: bool, separateTrees: bool,
                  s: Scan, ghost matches: nat, v: Visited, ghost l: Option<(string, Option<string>)>)
    returns (r: Result<Scan>, ghost matches': nat)
    requires Inv(tree, targets, excluded, separateTrees, s, matches)
    requires Headed(tree, excluded, s, v)
    requires v.m.found ==> l.Some? && v.m.name == Some(l.value.0) && v.m.ott == l.value.1
    requires separateTrees ==> expand
    ensures r.Ok? ==> Inv(tree, targets, excluded, separateTrees, r.value, matches') && r.value.index > s.index
    ensures r.Ok? ==> Resume(tree, s.index, v.closed, v.m.found, v.end, v.stack, v.m.remaining)
                      == Ok(Pos(r.value.index, r.value.stack, r.value.remaining))
    ensures r.Err? ==> Resume(tree, s.index, v.closed, v.m.found, v.end, v.stack, v.m.remaining) == Err(r.error)
    ensures r.Ok? ==> r.value.ranges == v.m.ranges
    ensures r.Ok? && !v.m.found && !v.closed ==> r.value.nodes == s.nodes
    ensures r.Ok? && excluded == {} && (separateTrees || (|s.nodes| <= 1 && (v.m.found ==> s.nodes == [])))
      ==> Grown(s.nodes, r.value.nodes, v.m.found, tree[v.nodeStart..v.end], l, separateTrees)
    ensures r == Concluded(tree, separateTrees, expand, s, v)
  {
    var closed, nodeStart, fullNameStart, index, stack, m := v.closed, v.nodeStart, v.fullNameStart, v.end, v.stack, v.m;
    var nodes, ranges, remaining := s.nodes, m.ranges, m.remaining;
    matches' := if m.found then matches + 1 else matches;
    if m.found || closed {
      nodes := Settle(tree, nodes, |stack|, m.found, closed, separateTrees, expand,
                      nodeStart, fullNameStart, index, ranges, m.name, m.ott);
      if excluded == {} && (separateTrees || (|s.nodes| <= 1 && (m.found ==> s.nodes == []))) {
        VisitGrows(tree, s.nodes, nodes, |stack|, closed, separateTrees, expand, v, l);
      }
    } else if index == |tree| {
      return Err(RuntimeFailure(index)), matches;
    } else if tree[index] == ',' || tree[index] == ':' {
      index := index + 1;
    } else if index == s.index {
      return Err(Diverges(index)), matches;
    }
    InvStep(tree, targets, excluded, separateTrees, s, matches, v, nodes, index, matches');
    r := Ok(Scan(index, stack, nodes, ranges, remaining));
  }

  /**
   * A scan state the loop can run from: the offset in the text, every open
   * `(` behind it, and every excluded range behind it or ending just past the
   * comma it rests on.
   */
  predicate Ready(tree: string, s: Scan) {
    && s.index <= |tree|
    && (forall k :: 0 <= k < |s.stack| ==> s.stack[k] < s.index)
    && SortedByStart(s.ranges)
    && (forall x :: x in s.ranges ==> x.hi <= s.index || (x.hi == s.index + 1 && s.index < |tree| && tree[s.index] == ','))
  }

  /**
   * The head of a visit at `s`, from the label `Lex` reads there: the node
   * starts at the `(` a `)` closes when expanded and at its label otherwise,
   * and its label is matched against the targets and the exclusions.
   */
  function Heading(tree: string, excluded: set<string>, expand: bool, s: Scan, n: Label): (v: Visited)
    requires Ready(tree, s) && s.index < |tree| && tree[s.index] != ';' && tree[s.index] != '('
    requires Lex(tree, Pos(s.index, s.stack, s.remaining)) == Ok(n)
    ensures Headed(tree, excluded, s, v)
  {
    var p := Pos(s.index, s.stack, s.remaining);
    var nodeStart := NodeStart(tree, p, expand);
    Visited(tree[s.index] == ')', nodeStart, LabelStart(tree, p), n.next, Popped(tree, p),
            MatchLabel(tree, n.text, nodeStart, n.next, s.remaining, excluded, s.ranges))
  }

  /** The scan after the visit `v`: the pending nodes settled, and the offset where `Resume` leaves it, or its failure. */
  function Concluded(tree: string, separateTrees: bool, expand: bool, s: Scan, v: Visited): (r: Result<Scan>)
    requires v.nodeStart <= v.end <= |tree| && v.fullNameStart <= v.end && (v.m.found ==> v.end < |tree|)
    requires CutsBounded(v.m.ranges, v.nodeStart, v.end)
    ensures r.Ok? ==> v.end <= r.value.index <= v.end + 1
    ensures r.Ok? ==> r.value.stack == v.stack && r.value.ranges == v.m.ranges && r.value.remaining == v.m.remaining
    ensures r.Ok? && v.m.found ==> |r.value.nodes| > 0 && r.value.nodes[|r.value.nodes| - 1].name == v.m.name
    ensures r.Err? ==> !v.m.found && !v.closed
  {
    match Resume(tree, s.index, v.closed, v.m.found, v.end, v.stack, v.m.remaining)
    case Err(e) => Err(e)
    case Ok(p) => Ok(Scan(p.index, p.stack, SettledAfter(tree, separateTrees, expand, s.nodes, v), v.m.ranges, p.remaining))
  }

  /** The visit to the node `Lex` reads at `s` moves forward to a state the loop can run from, or fails as `FailureAt` allows. */
  lemma ConcludedReady(tree: string, excluded: set<string>, separateTrees: bool, expand: bool, s: Scan, n: Label, v: Visited)
    requires Ready(tree, s) && s.index < |tree| && tree[s.index] != ';' && tree[s.index] != '('
    requires Lex(tree, Pos(s.index, s.stack, s.remaining)) == Ok(n) && v == Heading(tree, excluded, expand, s, n)
    ensures Concluded(tree, separateTrees, expand, s, v).Ok? ==>
      Ready(tree, Concluded(tree, separateTrees, expand, s, v).value) && s.index < Concluded(tree, separateTrees, expand, s, v).value.index
    ensures Concluded(tree, separateTrees, expand, s, v).Err? ==> FailureAt(tree, Concluded(tree, separateTrees, expand, s, v).error)
  {
  }

  /**
   * One pass of the loop body as a function of the scan state: past a `(`,
   * which is pushed, or the visit to the node `Lex` reads there. A pass moves
   * forward to a state the loop can run from and fails only as `FailureAt`
   * allows.
   */
  function Next(tree: string, excluded: set<string>, expand: bool, separateTrees: bool, s: Scan): (r: Result<Scan>)
    requires Ready(tree, s) && s.index < |tree| && tree[s.index] != ';'
    ensures r.Ok? ==> Ready(tree, r.value) && s.index < r.value.index
    ensures r.Err? ==> FailureAt(tree, r.error)
  {
    if tree[s.index] == '(' then Ok(s.(index := s.index + 1, stack := s.stack + [s.index]))
    else
      match Lex(tree, Pos(s.index, s.stack, s.remaining))
      case Err(e) => Err(e)
      case Ok(n) =>
        var v := Heading(tree, excluded, expand, s, n);
        ConcludedReady(tree, excluded, separateTrees, expand, s, n, v);
        Concluded(tree, separateTrees, expand, s, v)
  }

  /** A pass at any character but `(` is the visit `Heading` and `Concluded` describe for the node `Lex` reads. */
  lemma NextVisit(tree: string, excluded: set<string>, expand: bool, separateTrees: bool, s: Scan, n: Label)
    requires Ready(tree, s) && s.index < |tree| && tree[s.index] != ';' && tree[s.index] != '('
    requires Lex(tree, Pos(s.index, s.stack, s.remaining)) == Ok(n)
    ensures Next(tree, excluded, expand, separateTrees, s) == Concluded(tree, separateTrees, expand, s, Heading(tree, excluded, expand, s, n))
  {
  }

  /** A pass over a `(` pushes its offset and changes nothing else. */
  lemma NextOpen(tree: string, excluded: set<string>, expand: bool, separateTrees: bool, s: Scan)
    requires Ready(tree, s) && s.index < |tree| && tree[s.index] == '('
    ensures Next(tree, excluded, expand, separateTrees, s) == Ok(s.(index := s.index + 1, stack := s.stack + [s.index]))
  {
  }

  /** A pass over a `(` keeps the invariant of the loop. */
  lemma InvOpen(tree: string, targets: set<string>, excluded: set<string>, separateTrees: bool, s: Scan, matches: nat)
    requires Inv(tree, targets, excluded, separateTrees, s, matches) && s.index < |tree| && tree[s.index] == '('
    ensures Inv(tree, targets, excluded, separateTrees, s.(index := s.index + 1, stack := s.stack + [s.index]), matches)
  {
  }

  /** A pass over a `(` extends the record: it reads no label, spans no text and leaves the pending nodes as they were. */
  lemma {:induction false} TracedOpen(tree: string, targets: set<string>, excluded: set<string>, expand: bool, separateTrees: bool,
                                      s: Scan, matches: nat, trace: seq<Pos>, labels: seq<Option<(string, Option<string>)>>,
                                      spans: seq<string>, origin: seq<nat>)
    requires Traced(tree, targets, excluded, expand, separateTrees, s, matches, trace, labels, spans, origin)
    requires Inv(tree, targets, excluded, separateTrees, s, matches)
    requires s.index < |tree| && tree[s.index] == '('
    ensures Traced(tree, targets, excluded, expand, separateTrees, s.(stack := s.stack + [s.index], index := s.index + 1), matches,
                   trace + [Pos(s.index + 1, s.stack + [s.index], s.remaining)], labels + [None], spans + [""], origin)
  {
    var s' := s.(stack := s.stack + [s.index], index := s.index + 1);
    var p := Pos(s.index, s.stack, s.remaining);
    OpenPass(tree, p, expand);
    assert Grown(s.nodes, s'.nodes, false, "", None, separateTrees);
    var trace', labels', spans', origin' :=
      TracedStep(tree, targets, excluded, expand, separateTrees, s, matches, trace, labels, spans, origin, s', matches);
  }

  /** A pass at `(` pushes its offset and reads nothing. */
  lemma {:induction false} OpenPass(tree: string, p: Pos, expand: bool)
    requires p.index < |tree| && tree[p.index] == '(' && forall k :: 0 <= k < |p.stack| ==> p.stack[k] < p.index
    ensures Steps(tree, p) && Advance(tree, p) == Ok(Pos(p.index + 1, p.stack + [p.index], p.remaining))
    ensures LabelAt(tree, p) == None && SpanAt(tree, p, expand) == ""
  {
  }

  /** One more pass extends a walk. */
  lemma {:induction false} WalkStep(tree: string, targets: set<string>, trace: seq<Pos>, p: Pos)
    requires Walk(tree, targets, trace) && Steps(tree, trace[|trace| - 1]) && Advance(tree, trace[|trace| - 1]) == Ok(p)
    ensures Walk(tree, targets, trace + [p])
  {
    assert (trace + [p])[..|trace|] == trace;
  }

  /** One more pass extends the record of what was read. */
  lemma {:induction false} ReadsStep(tree: string, expand: bool, trace: seq<Pos>, labels: seq<Option<(string, Option<string>)>>,
                                     spans: seq<string>, p: Pos)
    requires Reads(tree, expand, trace, labels, spans) && Steps(tree, trace[|trace| - 1])
    ensures Reads(tree, expand, trace + [p], labels + [LabelAt(tree, trace[|trace| - 1])],
                  spans + [SpanAt(tree, trace[|trace| - 1], expand)])
  {
    var trace', labels', spans' := trace + [p], labels + [LabelAt(tree, trace[|trace| - 1])],
                                   spans + [SpanAt(tree, trace[|trace| - 1], expand)];
    assert trace'[..|labels| + 1] == trace && labels'[..|labels|] == labels && spans'[..|labels|] == spans;
  }

  /**
   * One pass extends the record: the label read joins the search and, while
   * nothing is excluded or merged, a match that adds a pending node records
   * this pass as its origin.
   */
  lemma {:induction false} TracedStep(tree: string, targets: set<string>, excluded: set<string>, expand: bool, separateTrees: bool,
                                      s: Scan, matches: nat, trace: seq<Pos>, labels: seq<Option<(string, Option<string>)>>,
                                      spans: seq<string>, origin: seq<nat>, s': Scan, matches': nat)
    returns (trace': seq<Pos>, labels': seq<Option<(string, Option<string>)>>, spans': seq<string>, origin': seq<nat>)
    requires Traced(tree, targets, excluded, expand, separateTrees, s, matches, trace, labels, spans, origin)
    requires |s.remaining| + matches == |targets| && |s'.remaining| + matches' == |targets|
    requires (separateTrees || matches <= 1) ==> |s.nodes| == matches
    requires Stepped(tree, excluded, expand, separateTrees, s, s')
    ensures var p := Pos(s.index, s.stack, s.remaining);
      && trace' == trace + [Pos(s'.index, s'.stack, s'.remaining)]
      && labels' == labels + [LabelAt(tree, p)] && spans' == spans + [SpanAt(tree, p, expand)]
      && origin' == if Hits(LabelAt(tree, p), s.remaining) then origin + [|labels|] else origin
    ensures Traced(tree, targets, excluded, expand, separateTrees, s', matches', trace', labels', spans', origin')
  {
    var p := Pos(s.index, s.stack, s.remaining);
    var l := LabelAt(tree, p);
    var hit := Hits(l, s.remaining);
    trace', labels', spans' := trace + [Pos(s'.index, s'.stack, s'.remaining)], labels + [l], spans + [SpanAt(tree, p, expand)];
    origin' := if hit then origin + [|labels|] else origin;
    WalkStep(tree, targets, trace, Pos(s'.index, s'.stack, s'.remaining));
    ReadsStep(tree, expand, trace, labels, spans, Pos(s'.index, s'.stack, s'.remaining));
    AccountedStep(targets, s.remaining, labels, l);
    SoughtStep(targets, labels, l);
    assert hit ==> |s'.remaining| == |s.remaining| - 1;
    assert !hit ==> s'.remaining == s.remaining;
    if excluded == {} && (separateTrees || matches' <= 1) {
      OriginsStep(s.nodes, s'.nodes, labels, spans, targets - s.remaining, targets - s'.remaining, origin,
                  l, SpanAt(tree, p, expand), hit, separateTrees);
    }
  }

  /**
   * One pass of the loop body at a position that is not `;`: past a `(`, or a
   * visit to the node there, with the ghost record extended by the pass.
   */
  method Pass(tree: string, targets: set<string>, excluded: set<string>, expand: bool, separateTrees: bool,
              s: Scan, ghost matches: nat, ghost trace: seq<Pos>, ghost labels: seq<Option<(string, Option<string>)>>,
              ghost spans: seq<string>, ghost origin: seq<nat>)
    returns (r: Result<Scan>, ghost matches': nat, ghost trace': seq<Pos>, ghost labels': seq<Option<(string, Option<string>)>>,
             ghost spans': seq<string>, ghost origin': seq<nat>)
    requires Inv(tree, targets, excluded, separateTrees, s, matches)
    requires Traced(tree, targets, excluded, expand, separateTrees, s, matches, trace, labels, spans, origin)
    requires s.index < |tree| && tree[s.index] != ';'
    requires separateTrees ==> expand
    ensures r.Ok? ==> Inv(tree, targets, excluded, separateTrees, r.value, matches') && r.value.index > s.index
    ensures r.Ok? ==> Traced(tree, targets, excluded, expand, separateTrees, r.value, matches', trace', labels', spans', origin')
    ensures r.Err? ==> FailureAt(tree, r.error)
    ensures r.Err? ==> Steps(tree, Pos(s.index, s.stack, s.remaining)) && Advance(tree, Pos(s.index, s.stack, s.remaining)) == Err(r.error)
    ensures r.Err? ==> trace' == trace && labels' == labels && spans' == spans
    ensures r == Next(tree, excluded, expand, separateTrees, s)
  {
    if tree[s.index] == '(' {
      r, trace', labels', spans' := OpenScan(tree, targets, excluded, expand, separateTrees, s, matches, trace, labels, spans, origin);
      return r, matches, trace', labels', spans', origin;
    }
    r, matches', trace', labels', spans', origin' := VisitPass(tree, targets, excluded, expand, separateTrees, s, matches, trace, labels, spans, origin);
  }

  /** One pass of the loop body at a `(` (extract_trees.py:34-37): its offset is pushed, with the ghost record extended by the pass. */
  method OpenScan(tree: string, targets: set<string>, excluded: set<string>, expand: bool, separateTrees: bool,
                  s: Scan, ghost matches: nat, ghost trace: seq<Pos>, ghost labels: seq<Option<(string, Option<string>)>>,
                  ghost spans: seq<string>, ghost origin: seq<nat>)
    returns (r: Result<Scan>, ghost trace': seq<Pos>, ghost labels': seq<Option<(string, Option<string>)>>, ghost spans': seq<string>)
    requires Inv(tree, targets, excluded, separateTrees, s, matches)
    requires Traced(tree, targets, excluded, expand, separateTrees, s, matches, trace, labels, spans, origin)
    requires s.index < |tree| && tree[s.index] == '('
    ensures r == Ok(s.(stack := s.stack + [s.index], index := s.index + 1))
    ensures Inv(tree, targets, excluded, separateTrees, r.value, matches)
    ensures Traced(tree, targets, excluded, expand, separateTrees, r.value, matches, trace', labels', spans', origin)
    ensures r == Next(tree, excluded, expand, separateTrees, s)
  {
    NextOpen(tree, excluded, expand, separateTrees, s);
    InvOpen(tree, targets, excluded, separateTrees, s, matches);
    TracedOpen(tree, targets, excluded, expand, separateTrees, s, matches, trace, labels, spans, origin);
    r := Ok(s.(stack := s.stack + [s.index], index := s.index + 1));
    return r, trace + [Pos(s.index + 1, s.stack + [s.index], s.remaining)], labels + [None], spans + [""];
  }

  /** One pass of the loop body at any character but `;` and `(`, with the ghost record extended by the pass. */
  method VisitPass(tree: string, targets: set<string>, excluded: set<string>, expand: bool, separateTrees: bool,
                   s: Scan, ghost matches: nat, ghost trace: seq<Pos>, ghost labels: seq<Option<(string, Option<string>)>>,
                   ghost spans: seq<string>, ghost origin: seq<nat>)
    returns (r: Result<Scan>, ghost matches': nat, ghost trace': seq<Pos>, ghost labels': seq<Option<(string, Option<string>)>>,
             ghost spans': seq<string>, ghost origin': seq<nat>)
    requires Inv(tree, targets, excluded, separateTrees, s, matches)
    requires Traced(tree, targets, excluded, expand, separateTrees, s, matches, trace, labels, spans, origin)
    requires s.index < |tree| && tree[s.index] != ';' && tree[s.index] != '('
    requires separateTrees ==> expand
    ensures r.Ok? ==> Inv(tree, targets, excluded, separateTrees, r.value, matches') && r.value.index > s.index
    ensures r.Ok? ==> Traced(tree, targets, excluded, expand, separateTrees, r.value, matches', trace', labels', spans', origin')
    ensures r.Err? ==> FailureAt(tree, r.error)
    ensures r.Err? ==> Steps(tree, Pos(s.index, s.stack, s.remaining)) && Advance(tree, Pos(s.index, s.stack, s.remaining)) == Err(r.error)
    ensures r.Err? ==> trace' == trace && labels' == labels && spans' == spans
    ensures r == Next(tree, excluded, expand, separateTrees, s)
  {
    var next;
    next, matches' := Visit(tree, targets, excluded, expand, separateTrees, s, matches);
    if next.Err? {
      return next, matches', trace, labels, spans, origin;
    }
    trace', labels', spans', origin' :=
      TracedStep(tree, targets, excluded, expand, separateTrees, s, matches, trace, labels, spans, origin, next.value, matches');
    r := next;
  }

  /** The search is over: no target is sought and, in merge mode, at most one node is pending. */
  function Done(separateTrees: bool, s: Scan): (b: bool)
    ensures b <==> !(s.remaining != {} || (|s.nodes| >= 2 && !separateTrees))
  {
    s.remaining == {} && (separateTrees || |s.nodes| < 2)
  }

  /**
   * The loop of `extract` as a function of the scan state
   * (extract_trees.py:30-149): it stops once the search is over, else fails at
   * the end of the text, stops at a `;`, or goes on after one pass, failing
   * where the pass fails.
   */
  function Loop(tree: string, excluded: set<string>, expand: bool, separateTrees: bool, s: Scan): (r: Result<Scan>)
    requires Ready(tree, s)
    ensures r.Ok? ==> s.index <= r.value.index
    ensures r.Ok? ==> Done(separateTrees, r.value) || (r.value.index < |tree| && tree[r.value.index] == ';')
    ensures r.Err? ==> FailureAt(tree, r.error) || r.error == RuntimeFailure(|tree|)
    decreases |tree| - s.index, 1
  {
    if Done(separateTrees, s) then Ok(s)
    else if s.index == |tree| then Err(RuntimeFailure(s.index))
    else if tree[s.index] == ';' then Ok(s)
    else Continue(tree, excluded, expand, separateTrees, s)
  }

  /** The loop after one pass at `s`: it fails where the pass fails, and runs on from the state the pass leaves. */
  function Continue(tree: string, excluded: set<string>, expand: bool, separateTrees: bool, s: Scan): (r: Result<Scan>)
    requires Ready(tree, s) && s.index < |tree| && tree[s.index] != ';'
    ensures r.Ok? ==> s.index < r.value.index
    ensures r.Ok? ==> Done(separateTrees, r.value) || (r.value.index < |tree| && tree[r.value.index] == ';')
    ensures r.Err? ==> FailureAt(tree, r.error) || r.error == RuntimeFailure(|tree|)
    decreases |tree| - s.index, 0
  {
    match Next(tree, excluded, expand, separateTrees, s)
    case Err(e) => Err(e)
    case Ok(s2) => Loop(tree, excluded, expand, separateTrees, s2)
  }

  /** A pass never adds a target back, and in separate mode it keeps every pending node named. */
  lemma NextKeeps(tree: string, excluded: set<string>, expand: bool, separateTrees: bool, s: Scan)
    requires Ready(tree, s) && s.index < |tree| && tree[s.index] != ';'
    ensures Next(tree, excluded, expand, separateTrees, s).Ok? ==>
      Next(tree, excluded, expand, separateTrees, s).value.remaining <= s.remaining
    ensures separateTrees && Named(s.nodes) && Next(tree, excluded, expand, separateTrees, s).Ok? ==>
      Named(Next(tree, excluded, expand, separateTrees, s).value.nodes)
  {
    if tree[s.index] != '(' && Lex(tree, Pos(s.index, s.stack, s.remaining)).Ok? {
      var v := Heading(tree, excluded, expand, s, Lex(tree, Pos(s.index, s.stack, s.remaining)).value);
      SettledAfterNamed(tree, separateTrees, expand, s.nodes, v);
    }
  }

  /**
   * Where `Loop` stops: in a state the loop can run from, no earlier than it
   * started and with no target added back, once the search is over or at a
   * `;`, and at once when the search is already over. It fails only as
   * `FailureAt` allows or at the end of the text, and in separate mode every
   * pending node it leaves is named.
   */
  lemma {:induction false} LoopResult(tree: string, excluded: set<string>, expand: bool, separateTrees: bool, s: Scan)
    requires Ready(tree, s)
    ensures Loop(tree, excluded, expand, separateTrees, s).Ok? ==>
      && Ready(tree, Loop(tree, excluded, expand, separateTrees, s).value)
      && s.index <= Loop(tree, excluded, expand, separateTrees, s).value.index
      && Loop(tree, excluded, expand, separateTrees, s).value.remaining <= s.remaining
    ensures Loop(tree, excluded, expand, separateTrees, s).Ok? ==>
      || Done(separateTrees, Loop(tree, excluded, expand, separateTrees, s).value)
      || (Loop(tree, excluded, expand, separateTrees, s).value.index < |tree|
          && tree[Loop(tree, excluded, expand, separateTrees, s).value.index] == ';')
    ensures Done(separateTrees, s) ==> Loop(tree, excluded, expand, separateTrees, s) == Ok(s)
    ensures Loop(tree, excluded, expand, separateTrees, s).Err? ==> FailureAt(tree, Loop(tree, excluded, expand, separateTrees, s).error) || Loop(tree, excluded, expand, separateTrees, s).error == RuntimeFailure(|tree|)
    ensures separateTrees && Named(s.nodes) && Loop(tree, excluded, expand, separateTrees, s).Ok? ==>
      Named(Loop(tree, excluded, expand, separateTrees, s).value.nodes)
    decreases |tree| - s.index
  {
    if !Done(separateTrees, s) && s.index < |tree| && tree[s.index] != ';' {
      assert Loop(tree, excluded, expand, separateTrees, s) == Continue(tree, excluded, expand, separateTrees, s);
      NextKeeps(tree, excluded, expand, separateTrees, s);
      var next := Next(tree, excluded, expand, separateTrees, s);
      if next.Ok? {
        LoopResult(tree, excluded, expand, separateTrees, next.value);
      }
    }
  }

  /** `Loop` stops where the search is over and where it reaches a `;`. */
  lemma LoopStops(tree: string, excluded: set<string>, expand: bool, separateTrees: bool, s: Scan)
    requires Ready(tree, s)
    requires Done(separateTrees, s) || (s.index < |tree| && tree[s.index] == ';')
    ensures Loop(tree, excluded, expand, separateTrees, s) == Ok(s)
  {
  }

  /** `Loop` fails at the end of the text while the search goes on. */
  lemma LoopEnds(tree: string, excluded: set<string>, expand: bool, separateTrees: bool, s: Scan)
    requires Ready(tree, s) && !Done(separateTrees, s) && s.index == |tree|
    ensures Loop(tree, excluded, expand, separateTrees, s) == Err(RuntimeFailure(s.index))
  {
  }

  /** Elsewhere `Loop` fails where the pass fails, or goes on from where it leaves the scan. */
  lemma LoopGoes(tree: string, excluded: set<string>, expand: bool, separateTrees: bool, s: Scan, next: Result<Scan>)
    requires Ready(tree, s) && !Done(separateTrees, s)
    requires s.index < |tree| && tree[s.index] != ';'
    requires next == Next(tree, excluded, expand, separateTrees, s)
    ensures next.Err? ==> Loop(tree, excluded, expand, separateTrees, s) == Err(next.error)
    ensures next.Ok? ==> Loop(tree, excluded, expand, separateTrees, s) == Loop(tree, excluded, expand, separateTrees, next.value)
  {
    assert Loop(tree, excluded, expand, separateTrees, s) == Continue(tree, excluded, expand, separateTrees, s);
  }

  /** A pass that ends the search is the last one: `Loop` returns the state it leaves. */
  lemma LoopLast(tree: string, excluded: set<string>, expand: bool, separateTrees: bool, s: Scan, t: Scan)
    requires Ready(tree, s) && !Done(separateTrees, s) && s.index < |tree| && tree[s.index] != ';'
    requires Next(tree, excluded, expand, separateTrees, s) == Ok(t) && Done(separateTrees, t)
    ensures Loop(tree, excluded, expand, separateTrees, s) == Ok(t)
  {
    LoopGoes(tree, excluded, expand, separateTrees, s, Ok(t));
    LoopStops(tree, excluded, expand, separateTrees, t);
  }

  /**
   * One round of the loop while the search goes on: a failure at the end of
   * the text, or a pass. `Loop` from the new state is `Loop` from the old one,
   * and a failure is where `Loop` fails.
   */
  method Round(tree: string, targets: set<string>, excluded: set<string>, expand: bool, separateTrees: bool,
               s: Scan, ghost matches: nat, ghost trace: seq<Pos>, ghost labels: seq<Option<(string, Option<string>)>>,
               ghost spans: seq<string>, ghost origin: seq<nat>)
    returns (r: Result<Scan>, ghost matches': nat, ghost trace': seq<Pos>, ghost labels': seq<Option<(string, Option<string>)>>,
             ghost spans': seq<string>, ghost origin': seq<nat>)
    requires Inv(tree, targets, excluded, separateTrees, s, matches)
    requires Traced(tree, targets, excluded, expand, separateTrees, s, matches, trace, labels, spans, origin)
    requires (s.index < |tree| ==> tree[s.index] != ';') && !Done(separateTrees, s)
    requires separateTrees ==> expand
    ensures r.Ok? ==> Inv(tree, targets, excluded, separateTrees, r.value, matches') && r.value.index > s.index
    ensures r.Ok? ==> Traced(tree, targets, excluded, expand, separateTrees, r.value, matches', trace', labels', spans', origin')
    ensures r.Ok? ==> Loop(tree, excluded, expand, separateTrees, s) == Loop(tree, excluded, expand, separateTrees, r.value)
    ensures r.Err? ==> Walk(tree, targets, trace') && Reads(tree, expand, trace', labels', spans')
    ensures r.Err? ==> FailureAt(tree, r.error) && Failed(tree, trace', r.error)
    ensures r.Err? ==> Loop(tree, excluded, expand, separateTrees, s) == Err(r.error)
  {
    if s.index == |tree| {
      LoopEnds(tree, excluded, expand, separateTrees, s);
      return Err(RuntimeFailure(s.index)), matches, trace, labels, spans, origin;
    }
    r, matches', trace', labels', spans', origin' :=
      Pass(tree, targets, excluded, expand, separateTrees, s, matches, trace, labels, spans, origin);
    LoopGoes(tree, excluded, expand, separateTrees, s, r);
  }

  /** The loop starts in a state that keeps its invariant, with one position traced and nothing read. */
  lemma Begun(tree: string, targets: set<string>, excluded: set<string>, expand: bool, separateTrees: bool)
    ensures Inv(tree, targets, excluded, separateTrees, Scan(0, [], [], [], targets), 0)
    ensures Traced(tree, targets, excluded, expand, separateTrees, Scan(0, [], [], [], targets), 0, [Pos(0, [], targets)], [], [], [])
  {
  }

  /**
   * The loop of `extract` (extract_trees.py:30-149): passes over the text
   * until every target is found and the matches are merged, or up to a `;`.
   * It ends in an error where a pass fails or the text ends first.
   */
  method Search(tree: string, targets: set<string>, excluded: set<string>, expand: bool, separateTrees: bool)
    returns (r: Result<Scan>, ghost matches: nat, ghost trace: seq<Pos>, ghost labels: seq<Option<(string, Option<string>)>>,
             ghost spans: seq<string>, ghost origin: seq<nat>)
    requires separateTrees ==> expand
    ensures Walk(tree, targets, trace) && Reads(tree, expand, trace, labels, spans)
    ensures r.Ok? ==> Inv(tree, targets, excluded, separateTrees, r.value, matches)
    ensures r.Ok? ==> Traced(tree, targets, excluded, expand, separateTrees, r.value, matches, trace, labels, spans, origin)
    ensures r.Ok? ==>
      || (r.value.remaining == {} && (|r.value.nodes| >= 2 ==> separateTrees))
      || (r.value.index < |tree| && tree[r.value.index] == ';')
    ensures r.Err? ==> FailureAt(tree, r.error) && Failed(tree, trace, r.error)
    ensures r == Loop(tree, excluded, expand, separateTrees, Scan(0, [], [], [], targets))
  {
    ghost var init := Scan(0, [], [], [], targets);
    Begun(tree, targets, excluded, expand, separateTrees);
    var scan := Scan(0, [], [], [], targets);
    matches, origin := 0, [];
    trace, labels, spans := [Pos(0, [], targets)], [], [];
    while scan.remaining != {} || (|scan.nodes| >= 2 && !separateTrees)
      invariant Inv(tree, targets, excluded, separateTrees, scan, matches)
      invariant Traced(tree, targets, excluded, expand, separateTrees, scan, matches, trace, labels, spans, origin)
      invariant Loop(tree, excluded, expand, separateTrees, scan) == Loop(tree, excluded, expand, separateTrees, init)
      decreases |tree| - scan.index
    {
      if scan.index < |tree| && tree[scan.index] == ';' {
        break;
      }
      var next;
      next, matches, trace, labels, spans, origin :=
        Round(tree, targets, excluded, expand, separateTrees, scan, matches, trace, labels, spans, origin);
      if next.Err? {
        return Err(next.error), matches, trace, labels, spans, origin;
      }
      scan := next.value;
    }
    LoopStops(tree, excluded, expand, separateTrees, scan);
    r := Ok(scan);
  }

  /**
   * `extract` as a function of its arguments (extract_trees.py:14-160): the
   * loop from the top of the text with every target sought, then in separate
   * mode the map from key to tree and in merge mode the first pending node's
   * text.
   */
  function Extracted(tree: string, targets: set<string>, excluded: set<string>, expandTaxa: bool, separateTrees: bool)
    : (r: Result<Extraction>)
    ensures r.Ok? ==> r.value.notFound <= targets && (r.value.output.Separate? <==> separateTrees)
    ensures r.Ok? && r.value.notFound != {} ==> ';' in tree
    ensures r.Err? ==> FailureAt(tree, r.error) || r.error == RuntimeFailure(|tree|)
  {
    var expand := expandTaxa || separateTrees;
    var init := Scan(0, [], [], [], targets);
    LoopResult(tree, excluded, expand, separateTrees, init);
    match Loop(tree, excluded, expand, separateTrees, init)
    case Err(e) => Err(e)
    case Ok(s) =>
      if separateTrees then Ok(Extraction(Separate(SeparateMap(s.nodes)), s.remaining))
      else Ok(Extraction(Merged(if s.nodes == [] then None else Some(s.nodes[0].treeString)), s.remaining))
  }

  /**
   * `extract(newick_tree, target_taxa, excluded_taxa, expand_taxa,
   * separate_trees)` of extract_trees.py. Targets and exclusions are matched
   * against a label's name before `_ott` and against its ott id; the caller's
   * target set is a value and stays as it was. `trace` is the positions the
   * scan passes and `labels` the label read at each. The result is `Extracted`,
   * the same function of the arguments. An error is the error of the last pass
   * or reading past the end. A success leaves unfound exactly `Sought(targets,
   * labels)`: what is left once each label read, in turn, has consumed the
   * target it names, and unless every target was found it stops at a `;`. With
   * nothing excluded, a single merged match and every separate tree are the
   * source text of a visited node whose label names a found target.
   */
  method Extract(tree: string, targets: set<string>, excluded: set<string>, expandTaxa: bool, separateTrees: bool)
    returns (r: Result<Extraction>, ghost trace: seq<Pos>, ghost labels: seq<Option<(string, Option<string>)>>,
             ghost spans: seq<string>)
    ensures Walk(tree, targets, trace) && Reads(tree, expandTaxa || separateTrees, trace, labels, spans)
    ensures r.Err? ==> Failed(tree, trace, r.error)
    ensures r.Ok? ==> Accounted(targets, r.value.notFound, labels)
    ensures r.Ok? && r.value.notFound != {} ==>
      trace[|trace| - 1].index < |tree| && tree[trace[|trace| - 1].index] == ';'
    ensures r.Ok? && r.value.output.Merged? && excluded == {} && |targets| - |r.value.notFound| == 1 ==>
      exists k :: 0 <= k < |labels| && k < |spans| && Hits(labels[k], targets - r.value.notFound)
        && r.value.output.tree == Some(spans[k])
    ensures r.Ok? && r.value.output.Separate? && excluded == {} ==>
      forall key :: key in r.value.output.trees ==>
        exists k :: 0 <= k < |labels| && k < |spans| && Hits(labels[k], targets - r.value.notFound)
          && LabelKey(labels[k].value) == key && r.value.output.trees[key] == spans[k]
    ensures r.Ok? ==> r.value.notFound <= targets
    ensures r.Ok? && r.value.notFound != {} ==> ';' in tree
    ensures r.Ok? ==> (r.value.output.Separate? <==> separateTrees)
    ensures r.Ok? && r.value.output.Merged? ==> (r.value.output.tree.None? <==> r.value.notFound == targets)
    ensures r.Ok? && r.value.output.Separate? ==>
      && (r.value.output.trees == map[] <==> r.value.notFound == targets)
      && |r.value.output.trees| <= |targets| - |r.value.notFound|
    ensures r.Ok? && r.value.output.Separate? && excluded == {} ==>
      forall k :: k in r.value.output.trees ==> IsSliceOf(r.value.output.trees[k], tree)
    ensures r.Ok? && r.value.output.Merged? && r.value.output.tree.Some? && excluded == {} ==>
      (|targets| - |r.value.notFound| == 1 ==> IsSliceOf(r.value.output.tree.value, tree))
    ensures r.Err? ==> FailureAt(tree, r.error)
    ensures r == Extracted(tree, targets, excluded, expandTaxa, separateTrees)
    ensures r.Ok? ==> r.value.notFound == Sought(targets, labels)
  {
    var expand := expandTaxa || separateTrees;
    var searched;
    ghost var matches, origin;
    searched, matches, trace, labels, spans, origin := Search(tree, targets, excluded, expand, separateTrees);
    LoopResult(tree, excluded, expand, separateTrees, Scan(0, [], [], [], targets));
    if searched.Err? {
      return Err(searched.error), trace, labels, spans;
    }
    var nodes, remaining := searched.value.nodes, searched.value.remaining;
    if separateTrees {
      var trees := SeparateMap(nodes);
      if excluded == {} {
        SeparateMapSlices(nodes, tree);
        SeparateOrigins(nodes, labels, spans, targets - remaining, origin);
      }
      return Ok(Extraction(Separate(trees), remaining)), trace, labels, spans;
    }
    return Ok(Extraction(Merged(if |nodes| > 0 then Some(nodes[0].treeString) else None), remaining)), trace, labels, spans;
  }

  /** The node read at the top of a text that `OpensWithA` is the label `A`, ending at offset 1. */
  lemma LexesA(tree: string)
    requires OpensWithA(tree)
    ensures Lex(tree, Pos(0, [], {"A"})) == Ok(Label(Some("A"), 1))
  {
    assert FindReserved(tree, 0) == Some(1);
    assert tree[0..1] == "A";
    assert LexLabel(tree, 0) == Ok(Label(Some("A"), 1));
  }

  /** The first pass over a text that `OpensWithA`, with target `A`, finds it and stops at the character after it. */
  lemma FindsA(tree: string)
    requires OpensWithA(tree)
    ensures Next(tree, {}, false, false, Scan(0, [], [], [], {"A"}))
            == Ok(Scan(1, [], [Pending(Some("A"), None, "A", 0)], [], {}))
  {
    LexesA(tree);
    MatchesA(tree);
    SettlesA(tree);
  }

  /**
   * On `A,)` with target `A` the search stops as soon as `A` is found: the
   * stray `)` after it is never read, and the one match is the tree.
   */
  lemma StopsAfterLastTarget()
    ensures Extracted("A,)", {"A"}, {}, false, false) == Ok(Extraction(Merged(Some("A")), {}))
  {
    FindsA("A,)");
    LoopGoes("A,)", {}, false, false, Scan(0, [], [], [], {"A"}), Ok(Scan(1, [], [Pending(Some("A"), None, "A", 0)], [], {})));
    LoopStops("A,)", {}, false, false, Scan(1, [], [Pending(Some("A"), None, "A", 0)], [], {}));
  }

  /** In `OttPair`, the node read at offset 1 is the label `X`, ending at the comma. */
  lemma LexesX()
    ensures Lex(OttPair, Pos(1, [0], {"X", "T"})) == Ok(Label(Some("X"), 2))
  {
    assert FindReserved(OttPair, 1) == Some(2);
    assert OttPair[1..2] == "X";
    assert LexLabel(OttPair, 1) == Ok(Label(Some("X"), 2));
  }

  /** In `OttPair`, the node read at offset 3 is the label `X_ottT`, ending at the `)`. */
  lemma LexesXott()
    ensures Lex(OttPair, Pos(3, [0], {"T"})) == Ok(Label(Some("X_ottT"), 9))
  {
    assert FindReserved(OttPair, 3) == Some(9);
    assert OttPair[3..9] == "X_ottT";
    assert LexLabel(OttPair, 3) == Ok(Label(Some("X_ottT"), 9));
  }

  /** The pass at offset 1 of `OttPair` finds `X`, leaves it pending one level deep, and resumes at the comma. */
  lemma FindsX()
    ensures Next(OttPair, {}, false, false, Scan(1, [0], [], [], {"X", "T"}))
            == Ok(Scan(2, [0], [Pending(Some("X"), None, "X", 1)], [], {"T"}))
  {
    LexesX();
    NextVisit(OttPair, {}, false, false, Scan(1, [0], [], [], {"X", "T"}), Label(Some("X"), 2));
    MatchesX();
    SettlesX();
  }

  /** The pass at the comma of `OttPair` moves past it and changes nothing else. */
  lemma StepsComma()
    ensures Next(OttPair, {}, false, false, Scan(2, [0], [Pending(Some("X"), None, "X", 1)], [], {"T"}))
            == Ok(Scan(3, [0], [Pending(Some("X"), None, "X", 1)], [], {"T"}))
  {
    var s := Scan(2, [0], [Pending(Some("X"), None, "X", 1)], [], {"T"});
    var v := Visited(false, 2, 2, 2, [0], Matched(Some(""), None, false, {"T"}, []));
    assert Lex(OttPair, Pos(2, [0], {"T"})) == Ok(Label(Some(""), 2));
    NextVisit(OttPair, {}, false, false, s, Label(Some(""), 2));
    assert Heading(OttPair, {}, false, s, Label(Some(""), 2)) == v;
    assert Concluded(OttPair, false, false, s, v) == Ok(Scan(3, [0], [Pending(Some("X"), None, "X", 1)], [], {"T"}));
  }

  /** The head of the pass at offset 3 of `OttPair`: the label `X_ottT`, a node that is not expanded, matched by its ott id. */
  lemma HeadsXott()
    ensures Lex(OttPair, Pos(3, [0], {"T"})) == Ok(Label(Some("X_ottT"), 9))
    ensures Heading(OttPair, {}, false, Scan(3, [0], [Pending(Some("X"), None, "X", 1)], [], {"T"}), Label(Some("X_ottT"), 9))
            == Visited(false, 3, 3, 9, [0], Matched(Some("X"), Some("T"), true, {}, []))
  {
    LexesXott();
    MatchesXott();
  }

  /** Settling the head of `HeadsXott` appends `X_ottT` and resumes at the `)`. */
  lemma ConcludesXott()
    ensures Concluded(OttPair, false, false, Scan(3, [0], [Pending(Some("X"), None, "X", 1)], [], {"T"}),
                      Visited(false, 3, 3, 9, [0], Matched(Some("X"), Some("T"), true, {}, [])))
            == Ok(Scan(9, [0], [Pending(Some("X"), None, "X", 1), Pending(Some("X"), Some("T"), "X_ottT", 1)], [], {}))
  {
    SettlesXott();
  }

  /** The pass at offset 3 of `OttPair` finds `T` through the ott id of `X_ottT`, and resumes at the `)`. */
  lemma FindsXott()
    ensures Next(OttPair, {}, false, false, Scan(3, [0], [Pending(Some("X"), None, "X", 1)], [], {"T"}))
            == Ok(Scan(9, [0], [Pending(Some("X"), None, "X", 1), Pending(Some("X"), Some("T"), "X_ottT", 1)], [], {}))
  {
    HeadsXott();
    NextVisit(OttPair, {}, false, false, Scan(3, [0], [Pending(Some("X"), None, "X", 1)], [], {"T"}), Label(Some("X_ottT"), 9));
    ConcludesXott();
  }

  /** The pass at the `)` of `OttPair` pops the stack and merges the two pending leaves into `(X,X_ottT)`. */
  lemma ClosesPair()
    ensures Next(OttPair, {}, false, false, Scan(9, [0], [Pending(Some("X"), None, "X", 1), Pending(Some("X"), Some("T"), "X_ottT", 1)], [], {}))
            == Ok(Scan(10, [], [Pending(Some(""), None, "(X,X_ottT)", 0)], [], {}))
  {
    var s := Scan(9, [0], [Pending(Some("X"), None, "X", 1), Pending(Some("X"), Some("T"), "X_ottT", 1)], [], {});
    var v := Visited(true, 10, 10, 10, [], Matched(Some(""), None, false, {}, []));
    assert Lex(OttPair, Pos(9, [0], {})) == Ok(Label(Some(""), 10));
    NextVisit(OttPair, {}, false, false, s, Label(Some(""), 10));
    assert Heading(OttPair, {}, false, s, Label(Some(""), 10)) == v;
    WrapsPair();
    assert Concluded(OttPair, false, false, s, v) == Ok(Scan(10, [], [Pending(Some(""), None, "(X,X_ottT)", 0)], [], {}));
  }

  /** From the `)` of `OttPair` the loop merges the two leaves and stops, every target found and one node pending. */
  lemma PairLoopAtClose()
    ensures Loop(OttPair, {}, false, false, Scan(9, [0], [Pending(Some("X"), None, "X", 1), Pending(Some("X"), Some("T"), "X_ottT", 1)], [], {}))
            == Ok(Scan(10, [], [Pending(Some(""), None, "(X,X_ottT)", 0)], [], {}))
  {
    var s := Scan(9, [0], [Pending(Some("X"), None, "X", 1), Pending(Some("X"), Some("T"), "X_ottT", 1)], [], {});
    var t := Scan(10, [], [Pending(Some(""), None, "(X,X_ottT)", 0)], [], {});
    ClosesPair();
    LoopLast(OttPair, {}, false, false, s, t);
  }

  /** From offset 3 of `OttPair`, with `T` still sought, the loop runs to the same end. */
  lemma PairLoopAtOtt()
    ensures Loop(OttPair, {}, false, false, Scan(3, [0], [Pending(Some("X"), None, "X", 1)], [], {"T"}))
            == Ok(Scan(10, [], [Pending(Some(""), None, "(X,X_ottT)", 0)], [], {}))
  {
    var s, t := Scan(3, [0], [Pending(Some("X"), None, "X", 1)], [], {"T"}), Scan(9, [0], [Pending(Some("X"), None, "X", 1), Pending(Some("X"), Some("T"), "X_ottT", 1)], [], {});
    FindsXott();
    LoopGoes(OttPair, {}, false, false, s, Ok(t));
    PairLoopAtClose();
  }

  /** From the comma of `OttPair`, with `T` still sought, the loop runs to the same end. */
  lemma PairLoopAtComma()
    ensures Loop(OttPair, {}, false, false, Scan(2, [0], [Pending(Some("X"), None, "X", 1)], [], {"T"}))
            == Ok(Scan(10, [], [Pending(Some(""), None, "(X,X_ottT)", 0)], [], {}))
  {
    StepsComma();
    LoopGoes(OttPair, {}, false, false, Scan(2, [0], [Pending(Some("X"), None, "X", 1)], [], {"T"}), Ok(Scan(3, [0], [Pending(Some("X"), None, "X", 1)], [], {"T"})));
    PairLoopAtOtt();
  }

  /** From the top of `OttPair`, with both targets sought, the loop runs to the same end. */
  lemma PairLoop()
    ensures Loop(OttPair, {}, false, false, Scan(0, [], [], [], {"X", "T"}))
            == Ok(Scan(10, [], [Pending(Some(""), None, "(X,X_ottT)", 0)], [], {}))
  {
    var s0 := Scan(0, [], [], [], {"X", "T"});
    NextOpen(OttPair, {}, false, false, s0);
    assert [] + [0] == [0];
    LoopGoes(OttPair, {}, false, false, s0, Ok(Scan(1, [0], [], [], {"X", "T"})));
    FindsX();
    LoopGoes(OttPair, {}, false, false, Scan(1, [0], [], [], {"X", "T"}), Ok(Scan(2, [0], [Pending(Some("X"), None, "X", 1)], [], {"T"})));
    PairLoopAtComma();
  }

  /**
   * On `(X,X_ottT);` with targets `X` and `T`, `X` takes the target `X`, and
   * `X_ottT`, whose name is then no longer sought, takes `T` by its ott id:
   * every target is found, and the two leaves are merged under their `)`.
   */
  lemma AccountsByOtt()
    ensures Extracted(OttPair, {"X", "T"}, {}, false, false) == Ok(Extraction(Merged(Some("(X,X_ottT)")), {}))
  {
    PairLoop();
  }
}
