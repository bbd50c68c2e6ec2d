/**
 * The node scanner of enumerate_nodes.py: one pass over a Newick text that
 * yields a record per node in post-order, with its label split at `_ott`, its
 * edge length, the offsets it spans and its depth, and that rejects malformed
 * text with a syntax error.
 */
module EnumerateNodes {
  import opened Wrappers
  import opened Text
  import opened NewickCommon

  /**
   * One node: the label before `_ott` and the remainder after it, the edge
   * length's text (None where the source keeps its default 0.0), where the
   * node starts (its `(` or its label), the offset just past its label and
   * length, and the number of `(` still open around it.
   */
  datatype NodeRecord = NodeRecord(taxon: Option<string>, ottId: Option<string>, edge: Option<string>,
                                   start: nat, end: nat, depth: nat)

  /**
   * The syntax errors, each at the offset the source reports, and the Python
   * failures, which are all reads at the end of the text or at a quote that
   * is never closed.
   */
  predicate SyntaxErrorAt(tree: string, f: Failure) {
    match f
    case UnexpectedComma(at) => at < |tree| && tree[at] == ')' && Before(tree, at) == ','
    case UnmatchedClosedBrace(at) => 0 < at <= |tree| && tree[at - 1] == ')'
    case InvalidEdgeLength(at) =>
      && 0 < at <= |tree| && tree[at - 1] == ':'
      && FindReserved(tree, at).Some? && !IsDecimal(tree[at..FindReserved(tree, at).value])
    case MissingLabel(at) =>
      && at <= |tree|
      && exists i: nat :: i <= at && LexLabel(tree, i).Ok? && (LexLabel(tree, i).value.text.None? || LexLabel(tree, i).value.text.value == "")
    case RuntimeFailure(at) => UnreadableAt(tree, at)
    case _ => false
  }

  /**
   * The label and edge length at offset `i` (enumerate_nodes.py:45-74). A `:`
   * followed by a reserved character later on must be followed by a decimal
   * literal; a `:` with none after it keeps the default length. A node that
   * does not follow `)` needs a non-empty label or a non-zero length.
   */
  function LexNode(tree: string, i: nat, closed: bool): (r: Result<NodeText>)
    requires i <= |tree|
    ensures r.Ok? ==> i <= r.value.next <= |tree|
    ensures r.Ok? && !closed ==> i < r.value.next
    ensures r.Ok? ==> LexLabel(tree, i).Ok? && r.value.taxon == LexLabel(tree, i).value.text
    ensures r.Ok? && !closed ==>
      (r.value.taxon.Some? && r.value.taxon.value != "") || (r.value.edge.Some? && !IsZeroDecimal(r.value.edge.value))
    ensures r.Ok? && r.value.edge.Some? ==>
      && IsDecimal(r.value.edge.value)
      && i < r.value.next - |r.value.edge.value| && r.value.next < |tree|
      && tree[r.value.next - |r.value.edge.value| - 1] == ':'
      && r.value.edge.value == tree[r.value.next - |r.value.edge.value|..r.value.next]
      && IsReserved(tree[r.value.next])
    ensures r.Err? && r.error.MissingLabel? ==>
      && !closed && i <= r.error.at <= |tree| && LexLabel(tree, i).Ok?
      && (LexLabel(tree, i).value.text.None? || LexLabel(tree, i).value.text.value == "")
    ensures r.Err? && !r.error.MissingLabel? ==> SyntaxErrorAt(tree, r.error)
  {
    match LexLabel(tree, i)
    case Err(e) => Err(e)
    case Ok(lab) =>
      var j := lab.next;
      if j == |tree| then Err(RuntimeFailure(j))
      else if tree[j] == ':' then LexEdge(tree, j, lab.text, closed)
      else Labelled(lab.text, None, j, closed)
  }

  /**
   * The edge length after the `:` at offset `j` (enumerate_nodes.py:65-71):
   * the text up to the next reserved character must be a decimal literal; with
   * no reserved character after it the default length stays.
   */
  function LexEdge(tree: string, j: nat, taxon: Option<string>, closed: bool): (r: Result<NodeText>)
    requires j < |tree| && tree[j] == ':'
    ensures r.Ok? ==> j < r.value.next <= |tree| && r.value.taxon == taxon
    ensures r.Ok? && !closed ==>
      (taxon.Some? && taxon.value != "") || (r.value.edge.Some? && !IsZeroDecimal(r.value.edge.value))
    ensures r.Ok? && r.value.edge.Some? ==>
      && IsDecimal(r.value.edge.value)
      && r.value.next == j + 1 + |r.value.edge.value| < |tree|
      && r.value.edge.value == tree[j + 1..r.value.next]
      && IsReserved(tree[r.value.next])
    ensures r.Ok? && r.value.edge.None? ==> r.value.next == j + 1
    ensures r.Err? && r.error.MissingLabel? ==>
      && !closed && j < r.error.at <= |tree| && (taxon.None? || taxon.value == "")
    ensures r.Err? && !r.error.MissingLabel? ==> r.error == InvalidEdgeLength(j + 1) && SyntaxErrorAt(tree, r.error)
  {
    match FindReserved(tree, j + 1)
    case None => Labelled(taxon, None, j + 1, closed)
    case Some(m) =>
      if !IsDecimal(tree[j + 1..m]) then Err(InvalidEdgeLength(j + 1))
      else Labelled(taxon, Some(tree[j + 1..m]), m, closed)
  }

  /** `not (taxon or edge_length) and not closed_brace` is a syntax error; a zero length is false. */
  function Labelled(taxon: Option<string>, edge: Option<string>, next: nat, closed: bool): (r: Result<NodeText>)
    ensures r.Ok? <==> closed || (taxon.Some? && taxon.value != "") || (edge.Some? && !IsZeroDecimal(edge.value))
    ensures r.Ok? ==> r.value == NodeText(taxon, edge, next)
    ensures r.Err? ==> r.error == MissingLabel(next)
  {
    if !closed && !(taxon.Some? && taxon.value != "") && (edge.None? || IsZeroDecimal(edge.value)) then
      Err(MissingLabel(next))
    else Ok(NodeText(taxon, edge, next))
  }

  /** A non-empty label split at `_ott`; an empty or missing one is kept, without an ott id. */
  function Fields(taxon: Option<string>): (r: (Option<string>, Option<string>))
    ensures taxon.Some? && taxon.value != "" ==> r == (Some(SplitOtt(taxon.value).0), SplitOtt(taxon.value).1)
    ensures taxon.None? || taxon.value == "" ==> r == (taxon, None)
  {
    if taxon.Some? && taxon.value != "" then (Some(SplitOtt(taxon.value).0), SplitOtt(taxon.value).1)
    else (taxon, None)
  }

  /**
   * `rec` is the node whose label starts at offset `pos`: a leaf starts at
   * its label, an inner node at a `(` and its label follows a `)`; its fields
   * are what the lexer reads there.
   */
  ghost predicate RecordAt(tree: string, rec: NodeRecord, pos: nat) {
    && pos <= |tree|
    && (rec.start == pos || (rec.start < pos && tree[rec.start] == '(' && tree[pos - 1] == ')'))
    && LexNode(tree, pos, rec.start != pos).Ok?
    && var n := LexNode(tree, pos, rec.start != pos).value;
      && rec.end == n.next && rec.edge == n.edge
      && (rec.taxon, rec.ottId) == Fields(n.taxon)
  }

  /** Post-order: a record either lies wholly before a later one or inside it. */
  predicate PostOrder(rs: seq<NodeRecord>) {
    forall i, j :: 0 <= i < j < |rs| ==>
      rs[i].end <= rs[j].start || (rs[j].start < rs[i].start && rs[i].end <= rs[j].end)
  }

  /** A record inside a later one is deeper than it. */
  predicate NestedDeeper(rs: seq<NodeRecord>) {
    forall i, j :: 0 <= i < j < |rs| && rs[j].start < rs[i].start && rs[i].end <= rs[j].end ==> rs[i].depth > rs[j].depth
  }

  /** The stack holds increasing offsets, each behind the scan. */
  predicate StackBelow(stack: seq<nat>, index: nat) {
    && (forall k :: 0 <= k < |stack| ==> stack[k] < index)
    && (forall k, l :: 0 <= k < l < |stack| ==> stack[k] < stack[l])
  }

  /**
   * How the records sit relative to the scan: each spans a non-empty piece
   * behind the offset, none straddles an open `(`, and one that starts after
   * the `(` at stack position `k` is deeper than `k`.
   */
  predicate Placed(rs: seq<NodeRecord>, stack: seq<nat>, index: nat) {
    && (forall i :: 0 <= i < |rs| ==> rs[i].start < rs[i].end <= index)
    && (forall i, k :: 0 <= i < |rs| && 0 <= k < |stack| ==> rs[i].end <= stack[k] || stack[k] < rs[i].start)
    && (forall i, k :: 0 <= i < |rs| && 0 <= k < |stack| && stack[k] < rs[i].start ==> rs[i].depth > k)
  }

  /** Appending the next node keeps the records in post-order. */
  lemma AppendPostOrder(rs: seq<NodeRecord>, stack: seq<nat>, index: nat, closed: bool, n: NodeRecord)
    requires PostOrder(rs) && Placed(rs, stack, index)
    requires closed ==> stack != [] && n.start == stack[|stack| - 1]
    requires !closed ==> n.start == index
    requires index < n.end
    ensures PostOrder(rs + [n])
  {
    var out := rs + [n];
    forall i, j | 0 <= i < j < |out|
      ensures out[i].end <= out[j].start || (out[j].start < out[i].start && out[i].end <= out[j].end)
    {
      if j == |rs| && closed {
        assert out[i].end <= stack[|stack| - 1] || stack[|stack| - 1] < out[i].start;
      }
    }
  }

  /** Appending the next node keeps every record inside a later one deeper than it. */
  lemma AppendNested(rs: seq<NodeRecord>, stack: seq<nat>, index: nat, closed: bool, n: NodeRecord)
    requires NestedDeeper(rs) && Placed(rs, stack, index)
    requires closed ==> stack != [] && n.start == stack[|stack| - 1] && n.depth == |stack| - 1
    requires !closed ==> n.start == index
    ensures NestedDeeper(rs + [n])
  {
    var out := rs + [n];
    forall i, j | 0 <= i < j < |out| && out[j].start < out[i].start && out[i].end <= out[j].end
      ensures out[i].depth > out[j].depth
    {
      if j == |rs| {
        assert stack[|stack| - 1] < out[i].start;
      }
    }
  }

  /** After the next node the records and the remaining stack are placed behind the node's end. */
  lemma AppendPlaced(rs: seq<NodeRecord>, stack: seq<nat>, index: nat, closed: bool, rest: seq<nat>, n: NodeRecord)
    requires Placed(rs, stack, index) && StackBelow(stack, index)
    requires closed ==> stack != [] && rest == stack[..|stack| - 1] && n.start == stack[|stack| - 1]
    requires !closed ==> rest == stack && n.start == index
    requires n.depth == |rest| && index < n.end
    ensures Placed(rs + [n], rest, n.end) && StackBelow(rest, n.end)
  {
    var out := rs + [n];
    forall i, k | 0 <= i < |out| && 0 <= k < |rest|
      ensures out[i].end <= rest[k] || rest[k] < out[i].start
    {
      if i < |rs| {
        assert rest[k] == stack[k];
      } else if closed {
        assert rest[k] < stack[|stack| - 1];
      }
    }
    forall i, k | 0 <= i < |out| && 0 <= k < |rest| && rest[k] < out[i].start
      ensures out[i].depth > k
    {
      if i < |rs| {
        assert rest[k] == stack[k];
      }
    }
  }

  /** A node read at a `)` or a label: its record, its label offset, the stack after it, and whether it closed a `(`. */
  datatype Read = Read(node: NodeRecord, pos: nat, rest: seq<nat>, closed: bool)

  /**
   * The loop body up to the `yield` at any character but `;` and `(`
   * (enumerate_nodes.py:26-83): the `)` checks and pop, then the label and
   * length.
   */
  function ReadNode(tree: string, index: nat, stack: seq<nat>): (r: Result<Read>)
    requires index < |tree| && tree[index] != ';' && tree[index] != '('
    requires StackBelow(stack, index) && forall k :: 0 <= k < |stack| ==> tree[stack[k]] == '('
    ensures r.Err? ==> SyntaxErrorAt(tree, r.error)
    ensures tree[index] == ')' && Before(tree, index) == ',' ==> r == Err(UnexpectedComma(index))
    ensures tree[index] == ')' && Before(tree, index) != ',' && stack == [] ==> r == Err(UnmatchedClosedBrace(index + 1))
    ensures r.Ok? ==> var v := r.value;
      && RecordAt(tree, v.node, v.pos)
      && v.closed == (tree[index] == ')')
      && (v.closed ==> stack != [] && v.rest == stack[..|stack| - 1] && v.node.start == stack[|stack| - 1] && v.pos == index + 1)
      && (!v.closed ==> v.rest == stack && v.node.start == index && v.pos == index)
      && v.node.depth == |v.rest| && index < v.node.end <= |tree|
  {
    var closed := tree[index] == ')';
    if closed && Before(tree, index) == ',' then Err(UnexpectedComma(index))
    else if closed && stack == [] then Err(UnmatchedClosedBrace(index + 1))
    else
      var pos := if closed then index + 1 else index;
      var nodeStart := if closed then stack[|stack| - 1] else index;
      var rest := if closed then stack[..|stack| - 1] else stack;
      match LexNode(tree, pos, closed)
      case Err(e) => Err(e)
      case Ok(n) =>
        var (taxon, ott) := Fields(n.taxon);
        Ok(Read(NodeRecord(taxon, ott, n.edge, nodeStart, n.next, |rest|), pos, rest, closed))
  }

  /** A scan position: the offset and the offsets of the `(` still open. */
  datatype Pos = Pos(index: nat, stack: seq<nat>)

  /** Every open `(` at `p` lies behind it, in increasing order, inside the text. */
  predicate At(tree: string, p: Pos) {
    && p.index <= |tree| && StackBelow(p.stack, p.index)
    && forall k :: 0 <= k < |p.stack| ==> tree[p.stack[k]] == '('
  }

  /** The loop body runs at `p`: it is inside the text and not at `;`. */
  predicate Steps(tree: string, p: Pos) {
    At(tree, p) && p.index < |tree| && tree[p.index] != ';'
  }

  /** The offset after a node ending at `end`: one past a comma there. */
  function Past(tree: string, end: nat): (i: nat)
    requires end <= |tree|
    ensures i == end || (i == end + 1 && end < |tree| && tree[end] == ',')
  {
    if end < |tree| && tree[end] == ',' then end + 1 else end
  }

  /**
   * One pass of the loop body at `p` (enumerate_nodes.py:21-86): the position
   * it leaves and the record it yields, if any. A `(` is pushed and yields
   * nothing; any other character yields the node read there and steps over a
   * following comma. A pass moves forward and fails only with a syntax error
   * the source raises.
   */
  function Advance(tree: string, p: Pos): (r: Result<(Pos, Option<NodeRecord>)>)
    requires Steps(tree, p)
    ensures r.Ok? ==> p.index < r.value.0.index && At(tree, r.value.0)
    ensures r.Ok? ==> (r.value.1.None? <==> tree[p.index] == '(')
    ensures r.Err? ==> tree[p.index] != '(' && SyntaxErrorAt(tree, r.error)
  {
    if tree[p.index] == '(' then Ok((Pos(p.index + 1, p.stack + [p.index]), None))
    else
      match ReadNode(tree, p.index, p.stack)
      case Err(e) => Err(e)
      case Ok(v) => Ok((Pos(Past(tree, v.node.end), v.rest), Some(v.node)))
  }


  /**
   * What the generator does from position `p` on: the records it yields, in
   * order, and the error it raises after them, if any. It stops at `;`, reads
   * past the end of the text as an index error, and otherwise passes as
   * `Advance` says.
   */
  function Enumerated(tree: string, p: Pos): (r: (seq<NodeRecord>, Option<Failure>))
    requires At(tree, p)
    ensures r.1.Some? ==> SyntaxErrorAt(tree, r.1.value)
    ensures p.index == |tree| ==> r == ([], Some(RuntimeFailure(|tree|)))
    ensures p.index < |tree| && tree[p.index] == ';' ==> r == ([], None)
    decreases |tree| - p.index
  {
    if p.index == |tree| then ([], Some(RuntimeFailure(|tree|)))
    else if tree[p.index] == ';' then ([], None)
    else
      match Advance(tree, p)
      case Err(e) => ([], Some(e))
      case Ok((q, o)) =>
        var rest := Enumerated(tree, q);
        (ToSeq(o) + rest.0, rest.1)
  }

  /** What the generator yields in all, given that it reached `p` having yielded `records`. */
  function Outcome(tree: string, records: seq<NodeRecord>, p: Pos): (o: (seq<NodeRecord>, Option<Failure>))
    requires At(tree, p)
    ensures |records| <= |o.0| && o.0[..|records|] == records
    ensures o.1 == Enumerated(tree, p).1
    ensures records == [] ==> o == Enumerated(tree, p)
  {
    var rest := Enumerated(tree, p);
    (records + rest.0, rest.1)
  }

  /** A pass over `(` yields nothing and leaves what the generator yields in all as it was. */
  lemma {:induction false} OutcomeOpen(tree: string, records: seq<NodeRecord>, p: Pos)
    requires Steps(tree, p) && tree[p.index] == '('
    ensures At(tree, Pos(p.index + 1, p.stack + [p.index]))
    ensures Outcome(tree, records, Pos(p.index + 1, p.stack + [p.index])) == Outcome(tree, records, p)
  {
    var after := Enumerated(tree, Pos(p.index + 1, p.stack + [p.index]));
    assert Enumerated(tree, p) == ([] + after.0, after.1);
    assert [] + after.0 == after.0;
  }

  /** A pass over a node yields its record and leaves what the generator yields in all as it was. */
  lemma {:induction false} OutcomeNode(tree: string, records: seq<NodeRecord>, p: Pos, v: Read)
    requires Steps(tree, p) && tree[p.index] != '('
    requires ReadNode(tree, p.index, p.stack) == Ok(v)
    ensures At(tree, Pos(Past(tree, v.node.end), v.rest))
    ensures Outcome(tree, records + [v.node], Pos(Past(tree, v.node.end), v.rest)) == Outcome(tree, records, p)
  {
    var after := Enumerated(tree, Pos(Past(tree, v.node.end), v.rest));
    assert Enumerated(tree, p) == ([v.node] + after.0, after.1);
    assert (records + [v.node]) + after.0 == records + ([v.node] + after.0);
  }

  /** A node that cannot be read ends the generator with its error. */
  lemma {:induction false} OutcomeFails(tree: string, p: Pos, e: Failure)
    requires Steps(tree, p) && tree[p.index] != '('
    requires ReadNode(tree, p.index, p.stack) == Err(e)
    ensures Enumerated(tree, p) == ([], Some(e))
  {
  }

  /** Before the first pass nothing is yielded yet. */
  lemma OutcomeStarts(tree: string)
    ensures Outcome(tree, [], Pos(0, [])) == Enumerated(tree, Pos(0, []))
  {
    assert [] + Enumerated(tree, Pos(0, [])).0 == Enumerated(tree, Pos(0, [])).0;
  }

  /** Where the generator yields nothing more, what it yields in all is what it has yielded. */
  lemma OutcomeEnds(tree: string, records: seq<NodeRecord>, p: Pos)
    requires At(tree, p) && Enumerated(tree, p).0 == []
    ensures Outcome(tree, records, p) == (records, Enumerated(tree, p).1)
  {
    assert records + [] == records;
  }

  /** The scan state: offset, open-parenthesis offsets, records yielded so far. */
  datatype Cursor = Cursor(index: nat, stack: seq<nat>, records: seq<NodeRecord>)

  /**
   * What holds between two steps of the scan: the stack holds offsets of `(`
   * behind the offset, the records are in post-order with nested ones deeper,
   * and each is the node read at its label offset in `labels`.
   */
  ghost predicate Inv(tree: string, w: Cursor, labels: seq<nat>) {
    && At(tree, Pos(w.index, w.stack))
    && Placed(w.records, w.stack, w.index) && PostOrder(w.records) && NestedDeeper(w.records)
    && |labels| == |w.records| && (forall k :: 0 <= k < |w.records| ==> RecordAt(tree, w.records[k], labels[k]))
  }

  /** Pushing a `(` at the offset keeps the invariant. */
  lemma InvPush(tree: string, w: Cursor, labels: seq<nat>)
    requires Inv(tree, w, labels) && w.index < |tree| && tree[w.index] == '('
    ensures Inv(tree, Cursor(w.index + 1, w.stack + [w.index], w.records), labels)
  {
  }

  /** Yielding the node just read, and stepping to `index`, keeps the invariant. */
  lemma InvAppend(tree: string, w: Cursor, labels: seq<nat>, v: Read, index: nat)
    requires Inv(tree, w, labels) && w.index < |tree|
    requires RecordAt(tree, v.node, v.pos)
    requires v.closed ==> w.stack != [] && v.rest == w.stack[..|w.stack| - 1] && v.node.start == w.stack[|w.stack| - 1]
    requires !v.closed ==> v.rest == w.stack && v.node.start == w.index
    requires v.node.depth == |v.rest| && w.index < v.node.end <= |tree|
    requires index == v.node.end || index == v.node.end + 1 <= |tree|
    ensures Inv(tree, Cursor(index, v.rest, w.records + [v.node]), labels + [v.pos])
  {
    AppendPostOrder(w.records, w.stack, w.index, v.closed, v.node);
    AppendNested(w.records, w.stack, w.index, v.closed, v.node);
    AppendPlaced(w.records, w.stack, w.index, v.closed, v.rest, v.node);
    var records, labels' := w.records + [v.node], labels + [v.pos];
    forall k | 0 <= k < |records| ensures RecordAt(tree, records[k], labels'[k]) {
      if k < |w.records| {
        assert records[k] == w.records[k] && labels'[k] == labels[k];
      }
    }
  }

  /**
   * One pass of the loop body (enumerate_nodes.py:21-86): push at `(`;
   * elsewhere read a node, yield its record and step over a following comma.
   * What the generator yields in all stays as it was: the pass appends what
   * `Enumerated` yields first, or fails as it does.
   */
  method Step(tree: string, w: Cursor, ghost labels: seq<nat>) returns (r: Result<Cursor>, ghost labels': seq<nat>)
    requires Inv(tree, w, labels) && w.index < |tree| && tree[w.index] != ';'
    ensures r.Ok? ==> Inv(tree, r.value, labels') && r.value.index > w.index
    ensures r.Ok? ==> Outcome(tree, r.value.records, Pos(r.value.index, r.value.stack)) == Outcome(tree, w.records, Pos(w.index, w.stack))
    ensures r.Ok? ==> r.value.records == w.records || (|r.value.records| == |w.records| + 1 && r.value.records[..|w.records|] == w.records)
    ensures r.Err? ==> Enumerated(tree, Pos(w.index, w.stack)) == ([], Some(r.error))
    ensures r.Err? ==> labels' == labels
  {
    if tree[w.index] == '(' {
      InvPush(tree, w, labels);
      OutcomeOpen(tree, w.records, Pos(w.index, w.stack));
      return Ok(Cursor(w.index + 1, w.stack + [w.index], w.records)), labels;
    }
    r, labels' := StepNode(tree, w, labels);
  }

  /** One pass at any character but `;` and `(`: read a node, yield its record and step over a following comma. */
  method StepNode(tree: string, w: Cursor, ghost labels: seq<nat>) returns (r: Result<Cursor>, ghost labels': seq<nat>)
    requires Inv(tree, w, labels) && w.index < |tree| && tree[w.index] != ';' && tree[w.index] != '('
    ensures r.Ok? ==> Inv(tree, r.value, labels') && r.value.index > w.index
    ensures r.Ok? ==> Outcome(tree, r.value.records, Pos(r.value.index, r.value.stack)) == Outcome(tree, w.records, Pos(w.index, w.stack))
    ensures r.Ok? ==> r.value.records == w.records || (|r.value.records| == |w.records| + 1 && r.value.records[..|w.records|] == w.records)
    ensures r.Err? ==> Enumerated(tree, Pos(w.index, w.stack)) == ([], Some(r.error))
    ensures r.Err? ==> labels' == labels
  {
    var read := ReadNode(tree, w.index, w.stack);
    if read.Err? {
      OutcomeFails(tree, Pos(w.index, w.stack), read.error);
      return Err(read.error), labels;
    }
    var node := read.value.node;
    var index := Past(tree, node.end);
    InvAppend(tree, w, labels, read.value, index);
    OutcomeNode(tree, w.records, Pos(w.index, w.stack), read.value);
    labels' := labels + [read.value.pos];
    r := Ok(Cursor(index, read.value.rest, w.records + [node]));
  }

  /**
   * `enumerate_nodes(newick_tree)`: the records the generator yields and the
   * error it raises after them, if any, as `Enumerated` gives them from the
   * top of the text; `labels` is the offset of each record's label. Every
   * record is the node read at its label offset, they come in post-order,
   * and a nested record is deeper than one enclosing it.
   */
  method Enumerate(tree: string) returns (records: seq<NodeRecord>, error: Option<Failure>, ghost labels: seq<nat>)
    ensures (records, error) == Enumerated(tree, Pos(0, []))
    ensures |labels| == |records| && forall k :: 0 <= k < |records| ==> RecordAt(tree, records[k], labels[k])
    ensures PostOrder(records) && NestedDeeper(records)
    ensures forall k :: 0 <= k < |records| ==> records[k].start < records[k].end <= |tree|
    ensures error.None? ==> forall k :: 0 <= k < |records| ==> records[k].end < |tree|
  {
    var scan := Cursor(0, [], []);
    labels := [];
    OutcomeStarts(tree);
    while scan.index == |tree| || tree[scan.index] != ';'
      invariant Inv(tree, scan, labels)
      invariant Outcome(tree, scan.records, Pos(scan.index, scan.stack)) == Enumerated(tree, Pos(0, []))
      decreases |tree| - scan.index
    {
      if scan.index == |tree| {
        OutcomeEnds(tree, scan.records, Pos(scan.index, scan.stack));
        return scan.records, Some(RuntimeFailure(scan.index)), labels;
      }
      var next;
      next, labels := Step(tree, scan, labels);
      if next.Err? {
        OutcomeEnds(tree, scan.records, Pos(scan.index, scan.stack));
        return scan.records, Some(next.error), labels;
      }
      scan := next.value;
    }
    OutcomeEnds(tree, scan.records, Pos(scan.index, scan.stack));
    return scan.records, None, labels;
  }
}
