/**
 * The strict extractor of old/extract_trees.py: one pass over a Newick text
 * that keeps the minimal subtree joining the target taxa, rejects malformed
 * text with a syntax error, splices out excluded clades, and either merges
 * the matches into one tree or returns one tree per match.
 */
module OldExtractTrees {
  import opened Wrappers
  import opened Text
  import opened NewickCommon

  /** The syntax errors, each at the offset the source reports, and the Python failures. */
  predicate SyntaxErrorAt(tree: string, f: Failure) {
    match f
    case UnexpectedComma(at) => at < |tree| && tree[at] == ')' && Before(tree, at) == ','
    case UnmatchedClosedBrace(at) => 0 < at <= |tree| && tree[at - 1] == ')'
    case MissingEdgeLength(at) =>
      && 0 < at <= |tree| && tree[at - 1] == ':'
      && ((at < |tree| && IsReserved(tree[at])) || (forall k :: at <= k < |tree| ==> !IsReserved(tree[k])))
    case MissingLabel(at) =>
      && at < |tree| && tree[at] != ':'
      && (IsReserved(tree[at])
          || (forall k :: at <= k < |tree| ==> !IsReserved(tree[k]))
          || (2 <= at && tree[at - 2] == '\'' && tree[at - 1] == '\''))
    case RuntimeFailure(at) => UnreadableAt(tree, at)
    case InternalAssertion => false
    case InvalidEdgeLength(_) => false
    case Diverges(_) => false
  }

  /**
   * The label and edge length at offset `i`: a `:` must be followed by a
   * non-empty length, and a node that does not follow `)` needs a non-empty
   * label or a length. Reading past the end is a Python failure.
   */
  function LexNode(tree: string, i: nat, closed: bool): (r: Result<NodeText>)
    requires i <= |tree|
    ensures r.Ok? ==> i <= r.value.next < |tree|
    ensures r.Ok? && !closed ==> i < r.value.next
    ensures r.Ok? && !closed ==> (r.value.taxon.Some? && r.value.taxon.value != "") || r.value.edge.Some?
    ensures r.Ok? && r.value.edge.Some? ==>
      && r.value.edge.value != ""
      && i < r.value.next - |r.value.edge.value|
      && tree[r.value.next - |r.value.edge.value| - 1] == ':'
      && r.value.edge.value == tree[r.value.next - |r.value.edge.value|..r.value.next]
      && IsReserved(tree[r.value.next])
      && (forall k :: r.value.next - |r.value.edge.value| <= k < r.value.next ==> !IsReserved(tree[k]))
    ensures r.Ok? && r.value.edge.None? ==> tree[r.value.next] != ':'
    ensures r.Ok? ==> LexLabel(tree, i).Ok? && r.value.taxon == LexLabel(tree, i).value.text
    ensures r.Err? ==> SyntaxErrorAt(tree, r.error)
  {
    match LexLabel(tree, i)
    case Err(e) => Err(e)
    case Ok(lab) =>
      var j := lab.next;
      if j == |tree| then Err(RuntimeFailure(j))
      else if tree[j] == ':' then
        match FindReserved(tree, j + 1)
        case None => Err(MissingEdgeLength(j + 1))
        case Some(m) =>
          if m == j + 1 then Err(MissingEdgeLength(j + 1))
          else Ok(NodeText(lab.text, Some(tree[j + 1..m]), m))
      else if !closed && (lab.text.None? || lab.text.value == "") then Err(MissingLabel(j))
      else Ok(NodeText(lab.text, None, j))
  }

  /** Where a node's text starts, where its label starts, and the stack after a `)` is popped. */
  datatype Opened = Opened(nodeStart: nat, labelStart: nat, stack: seq<nat>)

  /**
   * At a `)`: it may not follow a comma and must close an open `(`, which is
   * popped and starts the node when it is expanded; elsewhere the node starts
   * at its label.
   */
  function Open(tree: string, index: nat, stack: seq<nat>, expand: bool): (r: Result<Opened>)
    requires index < |tree|
    requires forall k :: 0 <= k < |stack| ==> stack[k] < index
    ensures tree[index] != ')' ==> r == Ok(Opened(index, index, stack))
    ensures tree[index] == ')' && Before(tree, index) == ',' ==> r == Err(UnexpectedComma(index))
    ensures tree[index] == ')' && Before(tree, index) != ',' && stack == [] ==> r == Err(UnmatchedClosedBrace(index + 1))
    ensures tree[index] == ')' && r.Ok? ==>
      && stack != []
      && r.value.labelStart == index + 1
      && r.value.stack == stack[..|stack| - 1]
      && r.value.nodeStart == (if expand then stack[|stack| - 1] else index + 1)
    ensures r.Ok? ==> r.value.nodeStart <= r.value.labelStart <= |tree|
    ensures r.Ok? ==> forall k :: 0 <= k < |r.value.stack| ==> r.value.stack[k] < r.value.labelStart
    ensures r.Err? ==> SyntaxErrorAt(tree, r.error)
  {
    if tree[index] != ')' then Ok(Opened(index, index, stack))
    else if Before(tree, index) == ',' then Err(UnexpectedComma(index))
    else if stack == [] then Err(UnmatchedClosedBrace(index + 1))
    else Ok(Opened(if expand then stack[|stack| - 1] else index + 1, index + 1, stack[..|stack| - 1]))
  }

  /** A scan position: the offset and the offsets of the `(` still open. */
  datatype Pos = Pos(index: nat, stack: seq<nat>)

  /** The loop body runs at `p`: it is inside the text, not at `;`, and every open `(` lies behind it. */
  predicate Steps(tree: string, p: Pos) {
    && p.index < |tree| && tree[p.index] != ';'
    && forall k :: 0 <= k < |p.stack| ==> p.stack[k] < p.index
  }

  /** The `)` checks and pop, then the label and length, of the node read at `p`. */
  function Lex(tree: string, p: Pos): (r: Result<(Opened, NodeText)>)
    requires Steps(tree, p)
    ensures r.Ok? ==> p.index <= r.value.0.labelStart <= r.value.1.next < |tree|
    ensures r.Ok? && tree[p.index] == ')' ==> p.stack != [] && r.value.0.stack == p.stack[..|p.stack| - 1]
    ensures r.Ok? && tree[p.index] != ')' ==> r.value.0.stack == p.stack
    ensures r.Err? ==> SyntaxErrorAt(tree, r.error)
  {
    match Open(tree, p.index, p.stack, true)
    case Err(e) => Err(e)
    case Ok(o) =>
      match LexNode(tree, o.labelStart, tree[p.index] == ')')
      case Err(e) => Err(e)
      case Ok(n) => Ok((o, n))
  }

  /**
   * The position after one pass of the loop body at `p`: past a `(`, which is
   * pushed, or past the node read there and a comma after it. A pass moves
   * forward and keeps every open `(` behind the offset; it fails only with a
   * syntax error or a Python failure.
   */
  function Advance(tree: string, p: Pos): (r: Result<Pos>)
    requires Steps(tree, p)
    ensures r.Ok? ==> p.index < r.value.index <= |tree| && forall k :: 0 <= k < |r.value.stack| ==> r.value.stack[k] < r.value.index
    ensures r.Err? ==> tree[p.index] != '(' && SyntaxErrorAt(tree, r.error)
  {
    if tree[p.index] == '(' then Ok(Pos(p.index + 1, p.stack + [p.index]))
    else
      match Lex(tree, p)
      case Err(e) => Err(e)
      case Ok(on) => Ok(Pos(if tree[on.1.next] == ',' then on.1.next + 1 else on.1.next, on.0.stack))
  }

  /** The name and ott id of the label read at `p`; none at `(`, where the pass fails, or for an empty label. */
  function LabelAt(tree: string, p: Pos): Option<(string, Option<string>)>
    requires Steps(tree, p)
  {
    if tree[p.index] == '(' then None
    else
      match Lex(tree, p)
      case Err(_) => None
      case Ok(on) => Carried(on.1.taxon)
  }

  /** The source text of the node read at `p`: from its `(` when expanded, else from its label, to the end of its length. */
  function SpanAt(tree: string, p: Pos, expand: bool): string
    requires Steps(tree, p)
  {
    if tree[p.index] == '(' then ""
    else
      match Lex(tree, p)
      case Err(_) => ""
      case Ok(on) => tree[if expand then on.0.nodeStart else on.0.labelStart..on.1.next]
  }

  /** `trace` starts at the top of the text, and each position in it is reached from the one before by one pass. */
  ghost predicate Walk(tree: string, trace: seq<Pos>)
    decreases |trace|
  {
    && |trace| > 0
    && if |trace| == 1 then trace[0] == Pos(0, [])
       else
         var p := trace[|trace| - 2];
         Walk(tree, trace[..|trace| - 1]) && Steps(tree, p) && Advance(tree, p) == Ok(trace[|trace| - 1])
  }

  /** How a scan along `trace` ends in an error: off the end, in a pass that fails, or at the final `assert`. */
  ghost predicate Failed(tree: string, trace: seq<Pos>, f: Failure, separateTrees: bool)
    requires |trace| > 0
  {
    var last := trace[|trace| - 1];
    || (last.index == |tree| && f == RuntimeFailure(|tree|))
    || (Steps(tree, last) && Advance(tree, last) == Err(f))
    || (f == InternalAssertion && !separateTrees && last.index < |tree| && tree[last.index] == ';')
  }

  /** `labels` and `spans` hold the label and the source text of the node read at each position of `trace` but the last. */
  ghost predicate Reads(tree: string, expand: bool, trace: seq<Pos>, labels: seq<Option<(string, Option<string>)>>,
                        spans: seq<string>)
    decreases |labels|
  {
    && |labels| == |trace| - 1 && |spans| == |labels|
    && (|labels| > 0 ==>
          var k := |labels| - 1;
          && Reads(tree, expand, trace[..k + 1], labels[..k], spans[..k])
          && Steps(tree, trace[k]) && labels[k] == LabelAt(tree, trace[k]) && spans[k] == SpanAt(tree, trace[k], expand))
  }

  /**
   * The ghost record of a scan: the positions passed, the label and text read
   * at each, the search accounted for by those labels and, while nothing is
   * excluded and nothing merged, the pass that produced each pending node.
   */
  ghost predicate Traced(tree: string, targets: set<string>, excluded: set<string>, expand: bool, separateTrees: bool,
                         s: Scan, matches: nat, trace: seq<Pos>, labels: seq<Option<(string, Option<string>)>>,
                         spans: seq<string>, origin: seq<nat>) {
    && Walk(tree, trace) && trace[|trace| - 1] == Pos(s.index, s.stack)
    && Reads(tree, expand, trace, labels, spans)
    && Accounted(targets, s.remaining, labels) && s.remaining == Sought(targets, labels)
    && (excluded == {} && (separateTrees || matches <= 1) ==>
          Origins(s.nodes, labels, spans, targets - s.remaining, origin, separateTrees))
  }

  /**
   * What holds between two steps of the scan, `matches` being the number of
   * matches so far: each removed one target; pending nodes sit no deeper than
   * the stack; the pending list is empty exactly while nothing matched, and
   * holds one node per match in separate mode and until the second match;
   * with no exclusions those nodes are source slices; the range list is sorted
   * and lies behind the offset.
   */
  ghost predicate Inv(tree: string, targets: set<string>, excluded: set<string>, separateTrees: bool, s: Scan, matches: nat) {
    && s.index <= |tree|
    && s.remaining <= targets && |s.remaining| + matches == |targets|
    && (forall k :: 0 <= k < |s.stack| ==> s.stack[k] < s.index)
    && (!separateTrees ==> DepthsAtMost(s.nodes, |s.stack|))
    && (s.nodes == [] <==> s.remaining == targets)
    && ((separateTrees || matches <= 1) ==> |s.nodes| == matches)
    && (separateTrees ==> forall k :: 0 <= k < |s.nodes| ==> s.nodes[k].name.Some?)
    && (excluded == {} && (separateTrees || matches <= 1) ==> AllSlices(s.nodes, tree))
    && (excluded == {} ==> s.ranges == [])
    && SortedByStart(s.ranges)
    && (forall x :: x in s.ranges ==> x.hi <= s.index)
  }

  /**
   * What a successful head leaves: whether it closed a `(`, where the node, its
   * label and its length end, the stack after the pop, and the match; the
   * node ends before the end of the text, every open `(` lies behind its end,
   * the exclusion cuts stay ordered and inside the node, and a match removes
   * exactly one target.
   */
  predicate Headed(tree: string, excluded: set<string>, s: Scan, v: Visited) {
    && s.index < v.end < |tree| && v.nodeStart <= v.end && v.fullNameStart <= v.end
    && v.closed == (tree[s.index] == ')')
    && |v.stack| + (if v.closed then 1 else 0) == |s.stack|
    && (forall k :: 0 <= k < |v.stack| ==> v.stack[k] < v.end)
    && SortedByStart(v.m.ranges)
    && CutsBounded(v.m.ranges, v.nodeStart, v.end)
    && (forall x :: x in v.m.ranges ==> x.hi <= v.end || (x.hi == v.end + 1 && tree[v.end] == ','))
    && (excluded == {} ==> v.m.ranges == s.ranges)
    && (v.m.found ==> v.m.name.Some? && v.m.remaining < s.remaining && |v.m.remaining| == |s.remaining| - 1)
    && (!v.m.found ==> v.m.remaining == s.remaining)
  }

  /**
   * The straight-line head of the loop body at a `)` or a label
   * (old/extract_trees.py:43-117): the `)` checks and pop, the label and
   * length, then matching and exclusion.
   */
  method Head(tree: string, excluded: set<string>, expand: bool, s: Scan) returns (r: Result<Visited>)
    requires s.index < |tree| && tree[s.index] != ';'
    requires forall k :: 0 <= k < |s.stack| ==> s.stack[k] < s.index
    requires SortedByStart(s.ranges)
    requires forall x :: x in s.ranges ==> x.hi <= s.index
    ensures r.Err? ==> SyntaxErrorAt(tree, r.error)
    ensures r.Ok? ==> Headed(tree, excluded, s, r.value)
    ensures r.Err? ==> Lex(tree, Pos(s.index, s.stack)) == Err(r.error)
    ensures r.Ok? ==> Lex(tree, Pos(s.index, s.stack)).Ok?
    ensures r.Ok? ==>
      var o, n, v := Lex(tree, Pos(s.index, s.stack)).value.0, Lex(tree, Pos(s.index, s.stack)).value.1, r.value;
      && v.nodeStart == (if expand then o.nodeStart else o.labelStart)
      && v.fullNameStart == o.labelStart && v.end == n.next && v.stack == o.stack
      && v.m == MatchLabel(tree, n.taxon, v.nodeStart, v.end, s.remaining, excluded, s.ranges)
    ensures r.Ok? ==> r.value == Heading(tree, excluded, expand, s, Lex(tree, Pos(s.index, s.stack)).value)
  {
    var o := Open(tree, s.index, s.stack, expand);
    if o.Err? {
      return Err(o.error);
    }
    var closed := tree[s.index] == ')';
    var lexed := LexNode(tree, o.value.labelStart, closed);
    if lexed.Err? {
      return Err(lexed.error);
    }
    var m := MatchLabel(tree, lexed.value.taxon, o.value.nodeStart, lexed.value.next, s.remaining, excluded, s.ranges);
    r := Ok(Visited(closed, o.value.nodeStart, o.value.labelStart, lexed.value.next, o.value.stack, m));
  }

  /** A successful head, seen as part of a pass: where the pass ends, the label it reads and the text it spans. */
  lemma HeadPass(tree: string, excluded: set<string>, expand: bool, s: Scan, v: Visited)
    requires Steps(tree, Pos(s.index, s.stack)) && tree[s.index] != '('
    requires SortedByStart(s.ranges) && forall x :: x in s.ranges ==> x.hi <= s.index
    requires Lex(tree, Pos(s.index, s.stack)).Ok?
    requires var o, n := Lex(tree, Pos(s.index, s.stack)).value.0, Lex(tree, Pos(s.index, s.stack)).value.1;
      && v.nodeStart == (if expand then o.nodeStart else o.labelStart)
      && v.fullNameStart == o.labelStart && v.end == n.next && v.stack == o.stack
      && v.m == MatchLabel(tree, n.taxon, v.nodeStart, v.end, s.remaining, excluded, s.ranges)
    ensures v.nodeStart <= v.end < |tree|
    ensures Advance(tree, Pos(s.index, s.stack)) == Ok(Pos(if tree[v.end] == ',' then v.end + 1 else v.end, v.stack))
    ensures v.m.remaining == Consumed(s.remaining, LabelAt(tree, Pos(s.index, s.stack)))
    ensures v.m.found == Hits(LabelAt(tree, Pos(s.index, s.stack)), s.remaining)
    ensures LabelAt(tree, Pos(s.index, s.stack)).Some? ==>
      v.m.name == Some(LabelAt(tree, Pos(s.index, s.stack)).value.0) && v.m.ott == LabelAt(tree, Pos(s.index, s.stack)).value.1
    ensures SpanAt(tree, Pos(s.index, s.stack), expand) == tree[v.nodeStart..v.end]
  {
  }

  /** The invariant carried across one visit, from the facts about each part of the new state. */
  lemma InvStep(tree: string, targets: set<string>, excluded: set<string>, separateTrees: bool,
                s: Scan, matches: nat, v: Visited, nodes: seq<Pending>, index: nat, matches': nat)
    requires Inv(tree, targets, excluded, separateTrees, s, matches)
    requires s.index < v.end < |tree| && (index == if tree[v.end] == ',' then v.end + 1 else v.end)
    requires |v.stack| + (if v.closed then 1 else 0) == |s.stack|
    requires forall k :: 0 <= k < |v.stack| ==> v.stack[k] < v.end
    requires SortedByStart(v.m.ranges)
    requires forall x :: x in v.m.ranges ==> x.hi <= v.end || (x.hi == v.end + 1 && tree[v.end] == ',')
    requires excluded == {} ==> v.m.ranges == s.ranges
    requires v.m.found ==> v.m.remaining < s.remaining && |v.m.remaining| == |s.remaining| - 1
    requires !v.m.found ==> v.m.remaining == s.remaining
    requires matches' == if v.m.found then matches + 1 else matches
    requires !separateTrees ==> DepthsAtMost(nodes, |v.stack|)
    requires s.nodes != [] || v.m.found ==> nodes != []
    requires !v.m.found && s.nodes == [] ==> nodes == []
    requires (separateTrees || (|s.nodes| <= 1 && (v.m.found ==> s.nodes == []))) ==>
      && |nodes| == |s.nodes| + (if v.m.found then 1 else 0)
      && (excluded == {} && AllSlices(s.nodes, tree) ==> AllSlices(nodes, tree))
      && (separateTrees && (forall k :: 0 <= k < |s.nodes| ==> s.nodes[k].name.Some?) ==>
            forall k :: 0 <= k < |nodes| ==> nodes[k].name.Some?)
    ensures Inv(tree, targets, excluded, separateTrees, Scan(index, v.stack, nodes, v.m.ranges, v.m.remaining), matches')
  {
  }

  /**
   * A pass from `s` to `s2` as the record sees it: it advances one position,
   * the label read there is consumed from the search and, while nothing is
   * excluded or merged, the pending list grows by the node's source text.
   */
  ghost predicate Stepped(tree: string, excluded: set<string>, expand: bool, separateTrees: bool, s: Scan, s2: Scan) {
    var p := Pos(s.index, s.stack);
    && Steps(tree, p)
    && Advance(tree, p) == Ok(Pos(s2.index, s2.stack))
    && s2.remaining == Consumed(s.remaining, LabelAt(tree, p))
    && (excluded == {} && (separateTrees || (|s.nodes| <= 1 && (Hits(LabelAt(tree, p), s.remaining) ==> s.nodes == []))) ==>
          Grown(s.nodes, s2.nodes, Hits(LabelAt(tree, p), s.remaining), SpanAt(tree, p, expand), LabelAt(tree, p), separateTrees))
  }

  /**
   * One pass of the loop body at a `)` or a label (old/extract_trees.py:43-167):
   * pop the stack at a `)`, lex the label and length, match and exclude, settle
   * the pending nodes, and step over a following comma.
   */
  method Visit(tree: string, targets: set<string>, excluded: set<string>, expand: bool, separateTrees: bool,
               s: Scan, ghost matches: nat)
    returns (r: Result<Scan>, ghost matches': nat)
    requires Inv(tree, targets, excluded, separateTrees, s, matches)
    requires s.index < |tree| && tree[s.index] != ';' && tree[s.index] != '('
    requires separateTrees ==> expand
    ensures r.Ok? ==> Inv(tree, targets, excluded, separateTrees, r.value, matches') && r.value.index > s.index
    ensures r.Err? ==> SyntaxErrorAt(tree, r.error)
    ensures r.Err? ==> Advance(tree, Pos(s.index, s.stack)) == Err(r.error)
    ensures r.Ok? ==> Stepped(tree, excluded, expand, separateTrees, s, r.value)
    ensures r == Next(tree, excluded, expand, separateTrees, s)
  {
    var h := Head(tree, excluded, expand, s);
    if h.Err? {
      return Err(h.error), matches;
    }
    var next;
    next, matches' := VisitHeaded(tree, targets, excluded, expand, separateTrees, s, matches, h.value);
    r := Ok(next);
  }

  /** A visit past a head that succeeded: the pending nodes settled as `Concluded` says. */
  method VisitHeaded(tree: string, targets: set<string>, excluded: set<string>, expand: bool, separateTrees: bool,
                     s: Scan, ghost matches: nat, v: Visited)
    returns (r: Scan, ghost matches': nat)
    requires Inv(tree, targets, excluded, separateTrees, s, matches)
    requires s.index < |tree| && tree[s.index] != ';' && tree[s.index] != '('
    requires separateTrees ==> expand
    requires Lex(tree, Pos(s.index, s.stack)).Ok? && Headed(tree, excluded, s, v)
    requires v == Heading(tree, excluded, expand, s, Lex(tree, Pos(s.index, s.stack)).value)
    ensures Inv(tree, targets, excluded, separateTrees, r, matches') && r.index > s.index
    ensures Stepped(tree, excluded, expand, separateTrees, s, r)
    ensures Ok(r) == Next(tree, excluded, expand, separateTrees, s)
  {
    HeadPass(tree, excluded, expand, s, v);
    r, matches' := Conclude(tree, targets, excluded, expand, separateTrees, s, matches, v, LabelAt(tree, Pos(s.index, s.stack)));
  }

  /**
   * The rest of a visit after its head (old/extract_trees.py:119-167): settle
   * the pending nodes and step over a following comma.
   */
  method Conclude(tree: string, targets: set<string>, excluded: set<string>, expand: bool, separateTrees: bool,
                  s: Scan, ghost matches: nat, v: Visited, ghost l: Option<(string, Option<string>)>)
    returns (r: Scan, ghost matches': nat)
    requires Inv(tree, targets, excluded, separateTrees, s, matches)
    requires Headed(tree, excluded, s, v)
    requires v.m.found ==> l.Some? && v.m.name == Some(l.value.0) && v.m.ott == l.value.1
    requires separateTrees ==> expand
    ensures Inv(tree, targets, excluded, separateTrees, r, matches')
    ensures r.index == (if tree[v.end] == ',' then v.end + 1 else v.end) && r.stack == v.stack
    ensures r.remaining == v.m.remaining
    ensures excluded == {} && (separateTrees || (|s.nodes| <= 1 && (v.m.found ==> s.nodes == [])))
      ==> Grown(s.nodes, r.nodes, v.m.found, tree[v.nodeStart..v.end], l, separateTrees)
    ensures r == Concluded(tree, separateTrees, expand, s, v)
  {
    var closed, nodeStart, fullNameStart, index, stack, m := v.closed, v.nodeStart, v.fullNameStart, v.end, v.stack, v.m;
    var nodes, ranges, remaining := s.nodes, m.ranges, m.remaining;
    matches' := if m.found then matches + 1 else matches;
    nodes := Settle(tree, nodes, |stack|, m.found, closed, separateTrees, expand,
                    nodeStart, fullNameStart, index, ranges, m.name, m.ott);
    if excluded == {} && (separateTrees || (|s.nodes| <= 1 && (m.found ==> s.nodes == []))) {
      VisitGrows(tree, s.nodes, nodes, |stack|, closed, separateTrees, expand, v, l);
    }
    index := if tree[index] == ',' then index + 1 else index;
    InvStep(tree, targets, excluded, separateTrees, s, matches, v, nodes, index, matches');
    r := Scan(index, stack, nodes, ranges, remaining);
  }

  /** A scan state the loop can run from: the offset in the text, every open `(` and every excluded range behind it. */
  predicate Ready(tree: string, s: Scan) {
    && s.index <= |tree|
    && (forall k :: 0 <= k < |s.stack| ==> s.stack[k] < s.index)
    && SortedByStart(s.ranges)
    && (forall x :: x in s.ranges ==> x.hi <= s.index)
  }

  /**
   * The head of a visit at `s`, from the node `Lex` reads there: the node
   * starts at its `(` when expanded and at its label otherwise, and its label
   * is matched against the targets and the exclusions.
   */
  function Heading(tree: string, excluded: set<string>, expand: bool, s: Scan, on: (Opened, NodeText)): (v: Visited)
    requires Ready(tree, s) && s.index < |tree| && tree[s.index] != ';'
    requires Lex(tree, Pos(s.index, s.stack)) == Ok(on)
    ensures Headed(tree, excluded, s, v)
  {
    var nodeStart := if expand then on.0.nodeStart else on.0.labelStart;
    Visited(tree[s.index] == ')', nodeStart, on.0.labelStart, on.1.next, on.0.stack,
            MatchLabel(tree, on.1.taxon, nodeStart, on.1.next, s.remaining, excluded, s.ranges))
  }

  /** The scan after the visit `v`: the pending nodes settled, the offset past the node and a comma after it. */
  function Concluded(tree: string, separateTrees: bool, expand: bool, s: Scan, v: Visited): (r: Scan)
    requires v.nodeStart <= v.end < |tree| && v.fullNameStart <= v.end
    requires CutsBounded(v.m.ranges, v.nodeStart, v.end)
    ensures v.end <= r.index <= v.end + 1 && (r.index == v.end + 1 <==> tree[v.end] == ',')
    ensures r.stack == v.stack && r.ranges == v.m.ranges && r.remaining == v.m.remaining
    ensures v.m.found ==> |r.nodes| > 0 && r.nodes[|r.nodes| - 1].name == v.m.name
  {
    Scan(if tree[v.end] == ',' then v.end + 1 else v.end, v.stack,
         SettledAfter(tree, separateTrees, expand, s.nodes, v), v.m.ranges, v.m.remaining)
  }

  /**
   * One pass of the loop body as a function of the scan state: past a `(`,
   * which is pushed, or the visit to the node `Lex` reads there. A pass moves
   * forward to a state the loop can run from and fails only with a syntax
   * error or a Python failure.
   */
  function Next(tree: string, excluded: set<string>, expand: bool, separateTrees: bool, s: Scan): (r: Result<Scan>)
    requires Ready(tree, s) && s.index < |tree| && tree[s.index] != ';'
    ensures r.Ok? ==> Ready(tree, r.value) && s.index < r.value.index
    ensures r.Err? ==> SyntaxErrorAt(tree, r.error)
  {
    if tree[s.index] == '(' then Ok(s.(index := s.index + 1, stack := s.stack + [s.index]))
    else
      match Lex(tree, Pos(s.index, s.stack))
      case Err(e) => Err(e)
      case Ok(on) =>
        var v := Heading(tree, excluded, expand, s, on);
        Ok(Concluded(tree, separateTrees, expand, s, v))
  }

  /** A pass at any character but `(` is the visit `Heading` and `Concluded` describe for the node `Lex` reads. */
  lemma NextVisit(tree: string, excluded: set<string>, expand: bool, separateTrees: bool, s: Scan, on: (Opened, NodeText))
    requires Ready(tree, s) && s.index < |tree| && tree[s.index] != ';' && tree[s.index] != '('
    requires Lex(tree, Pos(s.index, s.stack)) == Ok(on)
    ensures Next(tree, excluded, expand, separateTrees, s)
            == Ok(Concluded(tree, separateTrees, expand, s, Heading(tree, excluded, expand, s, on)))
  {
  }

  /** A pass over a `(` pushes its offset and changes nothing else. */
  lemma NextOpen(tree: string, excluded: set<string>, expand: bool, separateTrees: bool, s: Scan)
    requires Ready(tree, s) && s.index < |tree| && tree[s.index] == '('
    ensures Next(tree, excluded, expand, separateTrees, s) == Ok(s.(index := s.index + 1, stack := s.stack + [s.index]))
  {
  }

  /** A pass over a `(` keeps the invariant of the loop. */
  lemma InvOpen(tree: string, targets: set<string>, excluded: set<string>, separateTrees: bool, s: Scan, matches: nat)
    requires Inv(tree, targets, excluded, separateTrees, s, matches) && s.index < |tree| && tree[s.index] == '('
    ensures Inv(tree, targets, excluded, separateTrees, s.(index := s.index + 1, stack := s.stack + [s.index]), matches)
  {
  }

  /** A pass over a `(` extends the record: it reads no label, spans no text and leaves the pending nodes as they were. */
  lemma {:induction false} TracedOpen(tree: string, targets: set<string>, excluded: set<string>, expand: bool, separateTrees: bool,
                                      s: Scan, matches: nat, trace: seq<Pos>, labels: seq<Option<(string, Option<string>)>>,
                                      spans: seq<string>, origin: seq<nat>)
    requires Traced(tree, targets, excluded, expand, separateTrees, s, matches, trace, labels, spans, origin)
    requires Inv(tree, targets, excluded, separateTrees, s, matches)
    requires s.index < |tree| && tree[s.index] == '('
    ensures Traced(tree, targets, excluded, expand, separateTrees, s.(stack := s.stack + [s.index], index := s.index + 1), matches,
                   trace + [Pos(s.index + 1, s.stack + [s.index])], labels + [None], spans + [""], origin)
  {
    var s' := s.(stack := s.stack + [s.index], index := s.index + 1);
    var p := Pos(s.index, s.stack);
    OpenPass(tree, p, expand);
    assert Grown(s.nodes, s'.nodes, false, "", None, separateTrees);
    var trace', labels', spans', origin' :=
      TracedStep(tree, targets, excluded, expand, separateTrees, s, matches, trace, labels, spans, origin, s', matches);
  }

  /** A pass at `(` pushes its offset and reads nothing. */
  lemma {:induction false} OpenPass(tree: string, p: Pos, expand: bool)
    requires p.index < |tree| && tree[p.index] == '(' && forall k :: 0 <= k < |p.stack| ==> p.stack[k] < p.index
    ensures Steps(tree, p) && Advance(tree, p) == Ok(Pos(p.index + 1, p.stack + [p.index]))
    ensures LabelAt(tree, p) == None && SpanAt(tree, p, expand) == ""
  {
  }

  /** One more pass extends a walk. */
  lemma {:induction false} WalkStep(tree: string, trace: seq<Pos>, p: Pos)
    requires Walk(tree, trace) && Steps(tree, trace[|trace| - 1]) && Advance(tree, trace[|trace| - 1]) == Ok(p)
    ensures Walk(tree, trace + [p])
  {
    assert (trace + [p])[..|trace|] == trace;
  }

  /** One more pass extends the record of what was read. */
  lemma {:induction false} ReadsStep(tree: string, expand: bool, trace: seq<Pos>, labels: seq<Option<(string, Option<string>)>>,
                                     spans: seq<string>, p: Pos)
    requires Reads(tree, expand, trace, labels, spans) && Steps(tree, trace[|trace| - 1])
    ensures Reads(tree, expand, trace + [p], labels + [LabelAt(tree, trace[|trace| - 1])],
                  spans + [SpanAt(tree, trace[|trace| - 1], expand)])
  {
    var trace', labels', spans' := trace + [p], labels + [LabelAt(tree, trace[|trace| - 1])],
                                   spans + [SpanAt(tree, trace[|trace| - 1], expand)];
    assert trace'[..|labels| + 1] == trace && labels'[..|labels|] == labels && spans'[..|labels|] == spans;
  }

  /**
   * One pass extends the record: the label read joins the search and, while
   * nothing is excluded or merged, a match that adds a pending node records
   * this pass as its origin. A pass over a `(` reads no label and leaves the
   * pending nodes as they were.
   */
  lemma {:induction false} TracedStep(tree: string, targets: set<string>, excluded: set<string>, expand: bool, separateTrees: bool,
                                      s: Scan, matches: nat, trace: seq<Pos>, labels: seq<Option<(string, Option<string>)>>,
                                      spans: seq<string>, origin: seq<nat>, s': Scan, matches': nat)
    returns (trace': seq<Pos>, labels': seq<Option<(string, Option<string>)>>, spans': seq<string>, origin': seq<nat>)
    requires Traced(tree, targets, excluded, expand, separateTrees, s, matches, trace, labels, spans, origin)
    requires |s.remaining| + matches == |targets| && |s'.remaining| + matches' == |targets|
    requires (separateTrees || matches <= 1) ==> |s.nodes| == matches
    requires Stepped(tree, excluded, expand, separateTrees, s, s')
    ensures var p := Pos(s.index, s.stack);
      && trace' == trace + [Pos(s'.index, s'.stack)]
      && labels' == labels + [LabelAt(tree, p)] && spans' == spans + [SpanAt(tree, p, expand)]
      && origin' == if Hits(LabelAt(tree, p), s.remaining) then origin + [|labels|] else origin
    ensures Traced(tree, targets, excluded, expand, separateTrees, s', matches', trace', labels', spans', origin')
  {
    var p := Pos(s.index, s.stack);
    var l := LabelAt(tree, p);
    var hit := Hits(l, s.remaining);
    trace', labels', spans' := trace + [Pos(s'.index, s'.stack)], labels + [l], spans + [SpanAt(tree, p, expand)];
    origin' := if hit then origin + [|labels|] else origin;
    WalkStep(tree, trace, Pos(s'.index, s'.stack));
    ReadsStep(tree, expand, trace, labels, spans, Pos(s'.index, s'.stack));
    AccountedStep(targets, s.remaining, labels, l);
    SoughtStep(targets, labels, l);
    assert hit ==> |s'.remaining| == |s.remaining| - 1;
    assert !hit ==> s'.remaining == s.remaining;
    if excluded == {} && (separateTrees || matches' <= 1) {
      OriginsStep(s.nodes, s'.nodes, labels, spans, targets - s.remaining, targets - s'.remaining, origin,
                  l, SpanAt(tree, p, expand), hit, separateTrees);
    }
  }

  /**
   * One pass of the loop body at a position that is not `;`: past a `(`, or a
   * visit to the node there, with the ghost record extended by the pass.
   */
  method Pass(tree: string, targets: set<string>, excluded: set<string>, expand: bool, separateTrees: bool,
              s: Scan, ghost matches: nat, ghost trace: seq<Pos>, ghost labels: seq<Option<(string, Option<string>)>>,
              ghost spans: seq<string>, ghost origin: seq<nat>)
    returns (r: Result<Scan>, ghost matches': nat, ghost trace': seq<Pos>, ghost labels': seq<Option<(string, Option<string>)>>,
             ghost spans': seq<string>, ghost origin': seq<nat>)
    requires Inv(tree, targets, excluded, separateTrees, s, matches)
    requires Traced(tree, targets, excluded, expand, separateTrees, s, matches, trace, labels, spans, origin)
    requires s.index < |tree| && tree[s.index] != ';'
    requires separateTrees ==> expand
    ensures r.Ok? ==> Inv(tree, targets, excluded, separateTrees, r.value, matches') && r.value.index > s.index
    ensures r.Ok? ==> Traced(tree, targets, excluded, expand, separateTrees, r.value, matches', trace', labels', spans', origin')
    ensures r.Err? ==> SyntaxErrorAt(tree, r.error)
    ensures r.Err? ==> Steps(tree, Pos(s.index, s.stack)) && Advance(tree, Pos(s.index, s.stack)) == Err(r.error)
    ensures r.Err? ==> trace' == trace && labels' == labels && spans' == spans
    ensures r == Next(tree, excluded, expand, separateTrees, s)
  {
    if tree[s.index] == '(' {
      r, trace', labels', spans' := OpenScan(tree, targets, excluded, expand, separateTrees, s, matches, trace, labels, spans, origin);
      return r, matches, trace', labels', spans', origin;
    }
    r, matches', trace', labels', spans', origin' := VisitPass(tree, targets, excluded, expand, separateTrees, s, matches, trace, labels, spans, origin);
  }

  /** One pass of the loop body at a `(` (old/extract_trees.py:38-41): its offset is pushed, with the ghost record extended by the pass. */
  method OpenScan(tree: string, targets: set<string>, excluded: set<string>, expand: bool, separateTrees: bool,
                  s: Scan, ghost matches: nat, ghost trace: seq<Pos>, ghost labels: seq<Option<(string, Option<string>)>>,
                  ghost spans: seq<string>, ghost origin: seq<nat>)
    returns (r: Result<Scan>, ghost trace': seq<Pos>, ghost labels': seq<Option<(string, Option<string>)>>, ghost spans': seq<string>)
    requires Inv(tree, targets, excluded, separateTrees, s, matches)
    requires Traced(tree, targets, excluded, expand, separateTrees, s, matches, trace, labels, spans, origin)
    requires s.index < |tree| && tree[s.index] == '('
    ensures r == Ok(s.(stack := s.stack + [s.index], index := s.index + 1))
    ensures Inv(tree, targets, excluded, separateTrees, r.value, matches)
    ensures Traced(tree, targets, excluded, expand, separateTrees, r.value, matches, trace', labels', spans', origin)
    ensures r == Next(tree, excluded, expand, separateTrees, s)
  {
    NextOpen(tree, excluded, expand, separateTrees, s);
    InvOpen(tree, targets, excluded, separateTrees, s, matches);
    TracedOpen(tree, targets, excluded, expand, separateTrees, s, matches, trace, labels, spans, origin);
    r := Ok(s.(stack := s.stack + [s.index], index := s.index + 1));
    return r, trace + [Pos(s.index + 1, s.stack + [s.index])], labels + [None], spans + [""];
  }

  /** One pass of the loop body at a `)` or a label, with the ghost record extended by the pass. */
  method VisitPass(tree: string, targets: set<string>, excluded: set<string>, expand: bool, separateTrees: bool,
                   s: Scan, ghost matches: nat, ghost trace: seq<Pos>, ghost labels: seq<Option<(string, Option<string>)>>,
                   ghost spans: seq<string>, ghost origin: seq<nat>)
    returns (r: Result<Scan>, ghost matches': nat, ghost trace': seq<Pos>, ghost labels': seq<Option<(string, Option<string>)>>,
             ghost spans': seq<string>, ghost origin': seq<nat>)
    requires Inv(tree, targets, excluded, separateTrees, s, matches)
    requires Traced(tree, targets, excluded, expand, separateTrees, s, matches, trace, labels, spans, origin)
    requires s.index < |tree| && tree[s.index] != ';' && tree[s.index] != '('
    requires separateTrees ==> expand
    ensures r.Ok? ==> Inv(tree, targets, excluded, separateTrees, r.value, matches') && r.value.index > s.index
    ensures r.Ok? ==> Traced(tree, targets, excluded, expand, separateTrees, r.value, matches', trace', labels', spans', origin')
    ensures r.Err? ==> SyntaxErrorAt(tree, r.error)
    ensures r.Err? ==> Steps(tree, Pos(s.index, s.stack)) && Advance(tree, Pos(s.index, s.stack)) == Err(r.error)
    ensures r.Err? ==> trace' == trace && labels' == labels && spans' == spans
    ensures r == Next(tree, excluded, expand, separateTrees, s)
  {
    var next;
    next, matches' := Visit(tree, targets, excluded, expand, separateTrees, s, matches);
    if next.Err? {
      return next, matches', trace, labels, spans, origin;
    }
    trace', labels', spans', origin' :=
      TracedStep(tree, targets, excluded, expand, separateTrees, s, matches, trace, labels, spans, origin, next.value, matches');
    r := next;
  }

  /** The search is over: no target is sought and, in merge mode, at most one node is pending. */
  function Done(separateTrees: bool, s: Scan): (b: bool)
    ensures b <==> !(s.remaining != {} || (|s.nodes| >= 2 && !separateTrees))
  {
    s.remaining == {} && (separateTrees || |s.nodes| < 2)
  }

  /**
   * The loop of `extract` as a function of the scan state
   * (old/extract_trees.py:34-170): it stops once the search is over, else
   * fails at the end of the text, stops at a `;`, or goes on after one pass,
   * failing where the pass fails.
   */
  function Loop(tree: string, excluded: set<string>, expand: bool, separateTrees: bool, s: Scan): (r: Result<Scan>)
    requires Ready(tree, s)
    ensures r.Ok? ==> s.index <= r.value.index
    ensures r.Ok? ==> Done(separateTrees, r.value) || (r.value.index < |tree| && tree[r.value.index] == ';')
    ensures r.Err? ==> SyntaxErrorAt(tree, r.error)
    decreases |tree| - s.index, 1
  {
    if Done(separateTrees, s) then Ok(s)
    else if s.index == |tree| then Err(RuntimeFailure(s.index))
    else if tree[s.index] == ';' then Ok(s)
    else Continue(tree, excluded, expand, separateTrees, s)
  }

  /** The loop after one pass at `s`: it fails where the pass fails, and runs on from the state the pass leaves. */
  function Continue(tree: string, excluded: set<string>, expand: bool, separateTrees: bool, s: Scan): (r: Result<Scan>)
    requires Ready(tree, s) && s.index < |tree| && tree[s.index] != ';'
    ensures r.Ok? ==> s.index < r.value.index
    ensures r.Ok? ==> Done(separateTrees, r.value) || (r.value.index < |tree| && tree[r.value.index] == ';')
    ensures r.Err? ==> SyntaxErrorAt(tree, r.error)
    decreases |tree| - s.index, 0
  {
    match Next(tree, excluded, expand, separateTrees, s)
    case Err(e) => Err(e)
    case Ok(s2) => Loop(tree, excluded, expand, separateTrees, s2)
  }

  /** A pass never adds a target back, and in separate mode it keeps every pending node named. */
  lemma NextKeeps(tree: string, excluded: set<string>, expand: bool, separateTrees: bool, s: Scan)
    requires Ready(tree, s) && s.index < |tree| && tree[s.index] != ';'
    ensures Next(tree, excluded, expand, separateTrees, s).Ok? ==>
      Next(tree, excluded, expand, separateTrees, s).value.remaining <= s.remaining
    ensures separateTrees && Named(s.nodes) && Next(tree, excluded, expand, separateTrees, s).Ok? ==>
      Named(Next(tree, excluded, expand, separateTrees, s).value.nodes)
  {
    if tree[s.index] != '(' && Lex(tree, Pos(s.index, s.stack)).Ok? {
      var v := Heading(tree, excluded, expand, s, Lex(tree, Pos(s.index, s.stack)).value);
      SettledAfterNamed(tree, separateTrees, expand, s.nodes, v);
    }
  }

  /**
   * Where `Loop` stops: in a state the loop can run from, no earlier than it
   * started and with no target added back, once the search is over or at a
   * `;`, and at once when the search is already over. It fails only with a
   * syntax error or a Python failure, and in separate mode every pending node
   * it leaves is named.
   */
  lemma {:induction false} LoopResult(tree: string, excluded: set<string>, expand: bool, separateTrees: bool, s: Scan)
    requires Ready(tree, s)
    ensures Loop(tree, excluded, expand, separateTrees, s).Ok? ==>
      && Ready(tree, Loop(tree, excluded, expand, separateTrees, s).value)
      && s.index <= Loop(tree, excluded, expand, separateTrees, s).value.index
      && Loop(tree, excluded, expand, separateTrees, s).value.remaining <= s.remaining
    ensures Loop(tree, excluded, expand, separateTrees, s).Ok? ==>
      || Done(separateTrees, Loop(tree, excluded, expand, separateTrees, s).value)
      || (Loop(tree, excluded, expand, separateTrees, s).value.index < |tree|
          && tree[Loop(tree, excluded, expand, separateTrees, s).value.index] == ';')
    ensures Done(separateTrees, s) ==> Loop(tree, excluded, expand, separateTrees, s) == Ok(s)
    ensures Loop(tree, excluded, expand, separateTrees, s).Err? ==> SyntaxErrorAt(tree, Loop(tree, excluded, expand, separateTrees, s).error)
    ensures separateTrees && Named(s.nodes) && Loop(tree, excluded, expand, separateTrees, s).Ok? ==>
      Named(Loop(tree, excluded, expand, separateTrees, s).value.nodes)
    decreases |tree| - s.index
  {
    if !Done(separateTrees, s) && s.index < |tree| && tree[s.index] != ';' {
      assert Loop(tree, excluded, expand, separateTrees, s) == Continue(tree, excluded, expand, separateTrees, s);
      NextKeeps(tree, excluded, expand, separateTrees, s);
      var next := Next(tree, excluded, expand, separateTrees, s);
      if next.Ok? {
        LoopResult(tree, excluded, expand, separateTrees, next.value);
      }
    }
  }

  /** `Loop` stops where the search is over and where it reaches a `;`. */
  lemma LoopStops(tree: string, excluded: set<string>, expand: bool, separateTrees: bool, s: Scan)
    requires Ready(tree, s)
    requires Done(separateTrees, s) || (s.index < |tree| && tree[s.index] == ';')
    ensures Loop(tree, excluded, expand, separateTrees, s) == Ok(s)
  {
  }

  /** `Loop` fails at the end of the text while the search goes on. */
  lemma LoopEnds(tree: string, excluded: set<string>, expand: bool, separateTrees: bool, s: Scan)
    requires Ready(tree, s) && !Done(separateTrees, s) && s.index == |tree|
    ensures Loop(tree, excluded, expand, separateTrees, s) == Err(RuntimeFailure(s.index))
  {
  }

  /** Elsewhere `Loop` fails where the pass fails, or goes on from where it leaves the scan. */
  lemma LoopGoes(tree: string, excluded: set<string>, expand: bool, separateTrees: bool, s: Scan, next: Result<Scan>)
    requires Ready(tree, s) && !Done(separateTrees, s)
    requires s.index < |tree| && tree[s.index] != ';'
    requires next == Next(tree, excluded, expand, separateTrees, s)
    ensures next.Err? ==> Loop(tree, excluded, expand, separateTrees, s) == Err(next.error)
    ensures next.Ok? ==> Loop(tree, excluded, expand, separateTrees, s) == Loop(tree, excluded, expand, separateTrees, next.value)
  {
    assert Loop(tree, excluded, expand, separateTrees, s) == Continue(tree, excluded, expand, separateTrees, s);
  }

  /** A pass that ends the search is the last one: `Loop` returns the state it leaves. */
  lemma LoopLast(tree: string, excluded: set<string>, expand: bool, separateTrees: bool, s: Scan, t: Scan)
    requires Ready(tree, s) && !Done(separateTrees, s) && s.index < |tree| && tree[s.index] != ';'
    requires Next(tree, excluded, expand, separateTrees, s) == Ok(t) && Done(separateTrees, t)
    ensures Loop(tree, excluded, expand, separateTrees, s) == Ok(t)
  {
    LoopGoes(tree, excluded, expand, separateTrees, s, Ok(t));
    LoopStops(tree, excluded, expand, separateTrees, t);
  }

  /**
   * One round of the loop while the search goes on: a failure at the end of
   * the text, or a pass. `Loop` from the new state is `Loop` from the old one,
   * and a failure is where `Loop` fails.
   */
  method Round(tree: string, targets: set<string>, excluded: set<string>, expand: bool, separateTrees: bool,
               s: Scan, ghost matches: nat, ghost trace: seq<Pos>, ghost labels: seq<Option<(string, Option<string>)>>,
               ghost spans: seq<string>, ghost origin: seq<nat>)
    returns (r: Result<Scan>, ghost matches': nat, ghost trace': seq<Pos>, ghost labels': seq<Option<(string, Option<string>)>>,
             ghost spans': seq<string>, ghost origin': seq<nat>)
    requires Inv(tree, targets, excluded, separateTrees, s, matches)
    requires Traced(tree, targets, excluded, expand, separateTrees, s, matches, trace, labels, spans, origin)
    requires (s.index < |tree| ==> tree[s.index] != ';') && !Done(separateTrees, s)
    requires separateTrees ==> expand
    ensures r.Ok? ==> Inv(tree, targets, excluded, separateTrees, r.value, matches') && r.value.index > s.index
    ensures r.Ok? ==> Traced(tree, targets, excluded, expand, separateTrees, r.value, matches', trace', labels', spans', origin')
    ensures r.Ok? ==> Loop(tree, excluded, expand, separateTrees, s) == Loop(tree, excluded, expand, separateTrees, r.value)
    ensures r.Err? ==> Walk(tree, trace') && Reads(tree, expand, trace', labels', spans')
    ensures r.Err? ==> SyntaxErrorAt(tree, r.error) && Failed(tree, trace', r.error, separateTrees)
    ensures r.Err? ==> Loop(tree, excluded, expand, separateTrees, s) == Err(r.error)
  {
    if s.index == |tree| {
      LoopEnds(tree, excluded, expand, separateTrees, s);
      return Err(RuntimeFailure(s.index)), matches, trace, labels, spans, origin;
    }
    r, matches', trace', labels', spans', origin' :=
      Pass(tree, targets, excluded, expand, separateTrees, s, matches, trace, labels, spans, origin);
    LoopGoes(tree, excluded, expand, separateTrees, s, r);
  }

  /** The loop starts in a state that keeps its invariant, with one position traced and nothing read. */
  lemma Begun(tree: string, targets: set<string>, excluded: set<string>, expand: bool, separateTrees: bool)
    ensures Inv(tree, targets, excluded, separateTrees, Scan(0, [], [], [], targets), 0)
    ensures Traced(tree, targets, excluded, expand, separateTrees, Scan(0, [], [], [], targets), 0, [Pos(0, [])], [], [], [])
  {
  }

  /**
   * The loop of `extract`: passes over the text until every target is found
   * and the matches are merged, or up to a `;`. It ends in an error where a
   * pass fails or the text ends first.
   */
  method Search(tree: string, targets: set<string>, excluded: set<string>, expand: bool, separateTrees: bool)
    returns (r: Result<Scan>, ghost matches: nat, ghost trace: seq<Pos>, ghost labels: seq<Option<(string, Option<string>)>>,
             ghost spans: seq<string>, ghost origin: seq<nat>)
    requires separateTrees ==> expand
    ensures Walk(tree, trace) && Reads(tree, expand, trace, labels, spans)
    ensures r.Ok? ==> Inv(tree, targets, excluded, separateTrees, r.value, matches)
    ensures r.Ok? ==> Traced(tree, targets, excluded, expand, separateTrees, r.value, matches, trace, labels, spans, origin)
    ensures r.Ok? ==>
      || (r.value.remaining == {} && (|r.value.nodes| >= 2 ==> separateTrees))
      || (r.value.index < |tree| && tree[r.value.index] == ';')
    ensures r.Err? ==> SyntaxErrorAt(tree, r.error) && Failed(tree, trace, r.error, separateTrees)
    ensures r == Loop(tree, excluded, expand, separateTrees, Scan(0, [], [], [], targets))
  {
    ghost var init := Scan(0, [], [], [], targets);
    Begun(tree, targets, excluded, expand, separateTrees);
    var scan := Scan(0, [], [], [], targets);
    matches, origin := 0, [];
    trace, labels, spans := [Pos(0, [])], [], [];
    while scan.remaining != {} || (|scan.nodes| >= 2 && !separateTrees)
      invariant Inv(tree, targets, excluded, separateTrees, scan, matches)
      invariant Traced(tree, targets, excluded, expand, separateTrees, scan, matches, trace, labels, spans, origin)
      invariant Loop(tree, excluded, expand, separateTrees, scan) == Loop(tree, excluded, expand, separateTrees, init)
      decreases |tree| - scan.index
    {
      if scan.index < |tree| && tree[scan.index] == ';' {
        break;
      }
      var next;
      next, matches, trace, labels, spans, origin :=
        Round(tree, targets, excluded, expand, separateTrees, scan, matches, trace, labels, spans, origin);
      if next.Err? {
        return Err(next.error), matches, trace, labels, spans, origin;
      }
      scan := next.value;
    }
    LoopStops(tree, excluded, expand, separateTrees, scan);
    r := Ok(scan);
  }

  /**
   * `extract` as a function of its arguments (old/extract_trees.py:14-178):
   * the loop from the top of the text with every target sought, then in
   * separate mode the map from key to tree and in merge mode the `assert`
   * that at most one node is pending and that node's text.
   */
  function Extracted(tree: string, targets: set<string>, excluded: set<string>, expandTaxa: bool, separateTrees: bool)
    : (r: Result<Extraction>)
    ensures r.Ok? ==> r.value.notFound <= targets && (r.value.output.Separate? <==> separateTrees)
    ensures r.Ok? && r.value.notFound != {} ==> ';' in tree
    ensures r == Err(InternalAssertion) ==> !separateTrees
  {
    var expand := expandTaxa || separateTrees;
    var init := Scan(0, [], [], [], targets);
    LoopResult(tree, excluded, expand, separateTrees, init);
    match Loop(tree, excluded, expand, separateTrees, init)
    case Err(e) => Err(e)
    case Ok(s) =>
      if separateTrees then Ok(Extraction(Separate(SeparateMap(s.nodes)), s.remaining))
      else if |s.nodes| > 1 then Err(InternalAssertion)
      else Ok(Extraction(Merged(if s.nodes == [] then None else Some(s.nodes[0].treeString)), s.remaining))
  }

  /**
   * `extract(newick_tree, target_taxa, excluded_taxa, expand_taxa,
   * separate_trees)`. Targets and exclusions are matched against a label's name
   * before `_ott` and against its ott id; the caller's target set is a value
   * and stays as it was. `trace` is the positions the scan passes and `labels`
   * the label read at each. The result is `Extracted`, the same function of the
   * arguments. An error is the error of the last pass, reading past the end, or
   * the final `assert`. A success leaves unfound exactly `Sought(targets,
   * labels)`: what is left once each label read, in turn, has consumed the
   * target it names, and unless every target was found it stops at a `;`. With
   * nothing excluded, a single merged match and every separate tree are the
   * source text of a visited node whose label names a found target.
   */
  method Extract(tree: string, targets: set<string>, excluded: set<string>, expandTaxa: bool, separateTrees: bool)
    returns (r: Result<Extraction>, ghost trace: seq<Pos>, ghost labels: seq<Option<(string, Option<string>)>>,
             ghost spans: seq<string>)
    ensures Walk(tree, trace) && Reads(tree, expandTaxa || separateTrees, trace, labels, spans)
    ensures r.Err? ==> Failed(tree, trace, r.error, separateTrees)
    ensures r.Ok? ==> Accounted(targets, r.value.notFound, labels)
    ensures r.Ok? && r.value.notFound != {} ==>
      trace[|trace| - 1].index < |tree| && tree[trace[|trace| - 1].index] == ';'
    ensures r.Ok? && r.value.output.Merged? && excluded == {} && |targets| - |r.value.notFound| == 1 ==>
      exists k :: 0 <= k < |labels| && k < |spans| && Hits(labels[k], targets - r.value.notFound)
        && r.value.output.tree == Some(spans[k])
    ensures r.Ok? && r.value.output.Separate? && excluded == {} ==>
      forall key :: key in r.value.output.trees ==>
        exists k :: 0 <= k < |labels| && k < |spans| && Hits(labels[k], targets - r.value.notFound)
          && LabelKey(labels[k].value) == key && r.value.output.trees[key] == spans[k]
    ensures r.Ok? ==> r.value.notFound <= targets
    ensures r.Ok? && r.value.notFound != {} ==> ';' in tree
    ensures r.Ok? ==> (r.value.output.Separate? <==> separateTrees)
    ensures r.Ok? && r.value.output.Merged? ==> (r.value.output.tree.None? <==> r.value.notFound == targets)
    ensures r.Ok? && r.value.output.Separate? ==>
      && (r.value.output.trees == map[] <==> r.value.notFound == targets)
      && |r.value.output.trees| <= |targets| - |r.value.notFound|
    ensures r.Ok? && r.value.output.Separate? && excluded == {} ==>
      forall k :: k in r.value.output.trees ==> IsSliceOf(r.value.output.trees[k], tree)
    ensures r.Ok? && r.value.output.Merged? && r.value.output.tree.Some? && excluded == {} ==>
      (|targets| - |r.value.notFound| == 1 ==> IsSliceOf(r.value.output.tree.value, tree))
    ensures r.Err? ==> SyntaxErrorAt(tree, r.error) || (r.error == InternalAssertion && !separateTrees)
    ensures r == Extracted(tree, targets, excluded, expandTaxa, separateTrees)
    ensures r.Ok? ==> r.value.notFound == Sought(targets, labels)
  {
    var expand := expandTaxa || separateTrees;
    var searched;
    ghost var matches, origin;
    searched, matches, trace, labels, spans, origin := Search(tree, targets, excluded, expand, separateTrees);
    LoopResult(tree, excluded, expand, separateTrees, Scan(0, [], [], [], targets));
    if searched.Err? {
      return Err(searched.error), trace, labels, spans;
    }
    var nodes, remaining := searched.value.nodes, searched.value.remaining;
    if separateTrees {
      var trees := SeparateMap(nodes);
      if excluded == {} {
        SeparateMapSlices(nodes, tree);
        SeparateOrigins(nodes, labels, spans, targets - remaining, origin);
      }
      return Ok(Extraction(Separate(trees), remaining)), trace, labels, spans;
    }
    if |nodes| > 1 {
      return Err(InternalAssertion), trace, labels, spans;
    }
    return Ok(Extraction(Merged(if |nodes| > 0 then Some(nodes[0].treeString) else None), remaining)), trace, labels, spans;
  }

  /** The node read at the top of a text that `OpensWithA` is the label `A`, ending at offset 1. */
  lemma LexesA(tree: string)
    requires OpensWithA(tree)
    ensures Lex(tree, Pos(0, [])) == Ok((Opened(0, 0, []), NodeText(Some("A"), None, 1)))
  {
    assert FindReserved(tree, 0) == Some(1);
    assert tree[0..1] == "A";
    assert LexLabel(tree, 0) == Ok(Label(Some("A"), 1));
  }

  /** The first pass over a text that `OpensWithA`, with target `A`, finds it and steps over a comma after it. */
  lemma FindsA(tree: string)
    requires OpensWithA(tree)
    ensures Next(tree, {}, false, false, Scan(0, [], [], [], {"A"}))
            == Ok(Scan(if tree[1] == ',' then 2 else 1, [], [Pending(Some("A"), None, "A", 0)], [], {}))
  {
    LexesA(tree);
    MatchesA(tree);
    SettlesA(tree);
  }

  /**
   * On `A,)` with target `A` the search stops as soon as `A` is found: the
   * stray `)` after it is never read, and the one match is the tree.
   */
  lemma StopsAfterLastTarget()
    ensures Extracted("A,)", {"A"}, {}, false, false) == Ok(Extraction(Merged(Some("A")), {}))
  {
    FindsA("A,)");
    LoopGoes("A,)", {}, false, false, Scan(0, [], [], [], {"A"}), Ok(Scan(2, [], [Pending(Some("A"), None, "A", 0)], [], {})));
    LoopStops("A,)", {}, false, false, Scan(2, [], [Pending(Some("A"), None, "A", 0)], [], {}));
  }

  /** On `A;` with target `A` the one pending node passes the merge `assert` and is the tree. */
  lemma SingleMatchMerges()
    ensures Extracted("A;", {"A"}, {}, false, false) == Ok(Extraction(Merged(Some("A")), {}))
  {
    FindsA("A;");
    LoopGoes("A;", {}, false, false, Scan(0, [], [], [], {"A"}), Ok(Scan(1, [], [Pending(Some("A"), None, "A", 0)], [], {})));
    LoopStops("A;", {}, false, false, Scan(1, [], [Pending(Some("A"), None, "A", 0)], [], {}));
  }

  /** In `OttPair`, the node read at offset 1 is the label `X`, ending at the comma. */
  lemma LexesX()
    ensures Lex(OttPair, Pos(1, [0])) == Ok((Opened(1, 1, [0]), NodeText(Some("X"), None, 2)))
  {
    assert FindReserved(OttPair, 1) == Some(2);
    assert OttPair[1..2] == "X";
    assert LexLabel(OttPair, 1) == Ok(Label(Some("X"), 2));
  }

  /** In `OttPair`, the node read at offset 3 is the label `X_ottT`, ending at the `)`. */
  lemma LexesXott()
    ensures Lex(OttPair, Pos(3, [0])) == Ok((Opened(3, 3, [0]), NodeText(Some("X_ottT"), None, 9)))
  {
    assert FindReserved(OttPair, 3) == Some(9);
    assert OttPair[3..9] == "X_ottT";
    assert LexLabel(OttPair, 3) == Ok(Label(Some("X_ottT"), 9));
  }

  /** In `OttPair`, the node read at the `)` pops the `(` at 0 and has an empty label, ending at the `;`. */
  lemma LexesClose()
    ensures Lex(OttPair, Pos(9, [0])) == Ok((Opened(0, 10, []), NodeText(Some(""), None, 10)))
  {
    assert Before(OttPair, 9) == 'T';
    assert FindReserved(OttPair, 10) == Some(10);
    assert OttPair[10..10] == "";
    assert LexLabel(OttPair, 10) == Ok(Label(Some(""), 10));
  }

  /** The pass at offset 1 of `OttPair` finds `X`, leaves it pending one level deep, and steps over the comma. */
  lemma FindsX()
    ensures Next(OttPair, {}, false, false, Scan(1, [0], [], [], {"X", "T"}))
            == Ok(Scan(3, [0], [Pending(Some("X"), None, "X", 1)], [], {"T"}))
  {
    LexesX();
    NextVisit(OttPair, {}, false, false, Scan(1, [0], [], [], {"X", "T"}), (Opened(1, 1, [0]), NodeText(Some("X"), None, 2)));
    MatchesX();
    SettlesX();
  }

  /** The pass at offset 3 of `OttPair` finds `T` through the ott id of `X_ottT`, and stops at the `)`. */
  lemma FindsXott()
    ensures Next(OttPair, {}, false, false, Scan(3, [0], [Pending(Some("X"), None, "X", 1)], [], {"T"}))
            == Ok(Scan(9, [0], [Pending(Some("X"), None, "X", 1), Pending(Some("X"), Some("T"), "X_ottT", 1)], [], {}))
  {
    var s := Scan(3, [0], [Pending(Some("X"), None, "X", 1)], [], {"T"});
    var v := Visited(false, 3, 3, 9, [0], Matched(Some("X"), Some("T"), true, {}, []));
    LexesXott();
    NextVisit(OttPair, {}, false, false, s, (Opened(3, 3, [0]), NodeText(Some("X_ottT"), None, 9)));
    MatchesXott();
    assert Heading(OttPair, {}, false, s, (Opened(3, 3, [0]), NodeText(Some("X_ottT"), None, 9))) == v;
    SettlesXott();
    assert Concluded(OttPair, false, false, s, v) == Scan(9, [0], [Pending(Some("X"), None, "X", 1), Pending(Some("X"), Some("T"), "X_ottT", 1)], [], {});
  }

  /** The pass at the `)` of `OttPair` pops the stack and merges the two pending leaves into `(X,X_ottT)`. */
  lemma ClosesPair()
    ensures Next(OttPair, {}, false, false,
                 Scan(9, [0], [Pending(Some("X"), None, "X", 1), Pending(Some("X"), Some("T"), "X_ottT", 1)], [], {}))
            == Ok(Scan(10, [], [Pending(Some(""), None, "(X,X_ottT)", 0)], [], {}))
  {
    LexesClose();
    NextVisit(OttPair, {}, false, false,
              Scan(9, [0], [Pending(Some("X"), None, "X", 1), Pending(Some("X"), Some("T"), "X_ottT", 1)], [], {}),
              (Opened(0, 10, []), NodeText(Some(""), None, 10)));
    WrapsPair();
  }

  /** From the `)` of `OttPair` the loop merges the two leaves and stops, every target found and one node pending. */
  lemma PairLoopAtClose()
    ensures Loop(OttPair, {}, false, false,
                 Scan(9, [0], [Pending(Some("X"), None, "X", 1), Pending(Some("X"), Some("T"), "X_ottT", 1)], [], {}))
            == Ok(Scan(10, [], [Pending(Some(""), None, "(X,X_ottT)", 0)], [], {}))
  {
    var s3 := Scan(9, [0], [Pending(Some("X"), None, "X", 1), Pending(Some("X"), Some("T"), "X_ottT", 1)], [], {});
    var s4 := Scan(10, [], [Pending(Some(""), None, "(X,X_ottT)", 0)], [], {});
    ClosesPair();
    LoopLast(OttPair, {}, false, false, s3, s4);
  }

  /** From offset 3 of `OttPair`, with `T` still sought, the loop runs to the same end. */
  lemma PairLoopAtOtt()
    ensures Loop(OttPair, {}, false, false, Scan(3, [0], [Pending(Some("X"), None, "X", 1)], [], {"T"}))
            == Ok(Scan(10, [], [Pending(Some(""), None, "(X,X_ottT)", 0)], [], {}))
  {
    var s2 := Scan(3, [0], [Pending(Some("X"), None, "X", 1)], [], {"T"});
    var s3 := Scan(9, [0], [Pending(Some("X"), None, "X", 1), Pending(Some("X"), Some("T"), "X_ottT", 1)], [], {});
    FindsXott();
    LoopGoes(OttPair, {}, false, false, s2, Ok(s3));
    PairLoopAtClose();
  }

  /** From the top of `OttPair`, with both targets sought, the loop runs to the same end. */
  lemma PairLoop()
    ensures Loop(OttPair, {}, false, false, Scan(0, [], [], [], {"X", "T"}))
            == Ok(Scan(10, [], [Pending(Some(""), None, "(X,X_ottT)", 0)], [], {}))
  {
    var s0 := Scan(0, [], [], [], {"X", "T"});
    var s1 := Scan(1, [0], [], [], {"X", "T"});
    var s2 := Scan(3, [0], [Pending(Some("X"), None, "X", 1)], [], {"T"});
    NextOpen(OttPair, {}, false, false, s0);
    assert [] + [0] == [0];
    LoopGoes(OttPair, {}, false, false, s0, Ok(s1));
    FindsX();
    LoopGoes(OttPair, {}, false, false, s1, Ok(s2));
    PairLoopAtOtt();
  }

  /**
   * On `(X,X_ottT);` with targets `X` and `T`, `X` takes the target `X`, and
   * `X_ottT`, whose name is then no longer sought, takes `T` by its ott id:
   * every target is found, and the two leaves are merged under their `)`.
   */
  lemma AccountsByOtt()
    ensures Extracted(OttPair, {"X", "T"}, {}, false, false) == Ok(Extraction(Merged(Some("(X,X_ottT)")), {}))
  {
    PairLoop();
  }
}
