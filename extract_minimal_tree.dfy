/**
 * The minimal-tree script extract_minimal_tree.py: one pass over a Newick
 * text that looks for a set of taxon names and keeps, for the names it finds,
 * the smallest tree text that joins them. A token's name is found through a
 * lazy regular expression, so an `_ott` id or an edge length after the name
 * never takes part in the match.
 */
module ExtractMinimalTree {
  import opened Wrappers
  import opened Text
  import opened NewickCommon

  /** The characters that end a token: the complement of the class `[^(),;]`. */
  predicate IsDelimiter(c: char) {
    c == '(' || c == ')' || c == ',' || c == ';'
  }

  /** Where the match of `[^(),;]*` that starts at `i` ends: the token is maximal. */
  function TokenEnd(tree: string, i: nat): (e: nat)
    requires i <= |tree|
    ensures i <= e <= |tree|
    ensures forall k :: i <= k < e ==> !IsDelimiter(tree[k])
    ensures e < |tree| ==> IsDelimiter(tree[e])
    decreases |tree| - i
  {
    if i == |tree| || IsDelimiter(tree[i]) then i else TokenEnd(tree, i + 1)
  }

  /** `(:[\d\.]*)?` matching all of `s`. */
  predicate LengthSuffix(s: string) {
    s == [] || (s[0] == ':' && forall k :: 1 <= k < |s| ==> IsLengthChar(s[k]))
  }

  /**
   * `(?:_ott(\d+))?(:[\d\.]*)?` matching all of `s`. A length part starts with
   * `:` or is empty, so the digits of the id are always the whole run of them.
   */
  predicate OttSuffix(s: string) {
    || LengthSuffix(s)
    || (|s| > 4 && s[..4] == OttMarker && IsDigit(s[4]) && LengthSuffix(s[DigitsEnd(s, 4)..]))
  }

  /** What follows the name, through `$`, which also matches before one final newline. */
  predicate TailMatches(s: string) {
    OttSuffix(s) || (|s| > 0 && s[|s| - 1] == '\n' && OttSuffix(s[..|s| - 1]))
  }

  /** The lazy `(\w*?)` tried from length `k` up: the first length whose remainder matches. */
  function FindTaxon(token: string, k: nat): (r: Option<string>)
    requires k <= |token|
    ensures r.Some? ==> k <= |r.value| <= |token| && r.value == token[..|r.value|] && TailMatches(token[|r.value|..])
    decreases |token| - k
  {
    if TailMatches(token[k..]) then Some(token[..k])
    else if k < |token| && IsWord(token[k]) then FindTaxon(token, k + 1)
    else None
  }

  /** The prefix found is made of word characters, and no shorter one from `k` on fits. */
  lemma {:induction false} FindTaxonShortest(token: string, k: nat)
    requires k <= |token| && AllWord(token[..k])
    ensures var r := FindTaxon(token, k);
      r.Some? ==> AllWord(r.value) && forall j :: k <= j < |r.value| ==> !TailMatches(token[j..])
    decreases |token| - k
  {
    if !TailMatches(token[k..]) && k < |token| && IsWord(token[k]) {
      assert token[..k + 1] == token[..k] + [token[k]];
      FindTaxonShortest(token, k + 1);
    }
  }

  /** No prefix from `k` on fits when the search fails. */
  lemma {:induction false} FindTaxonNone(token: string, k: nat)
    requires k <= |token|
    ensures FindTaxon(token, k).None? ==>
      forall j :: k <= j <= |token| && AllWord(token[..j]) ==> !TailMatches(token[j..])
    decreases |token| - k
  {
    if !TailMatches(token[k..]) {
      if k < |token| && IsWord(token[k]) {
        FindTaxonNone(token, k + 1);
      } else {
        assert forall j :: k < j <= |token| ==> token[..j][k] == token[k];
      }
    }
  }

  /**
   * Group 1 of `^(\w*?)(?:_ott(\d+))?(:[\d\.]*)?$` on a token: the shortest
   * word-character prefix whose remainder is an optional `_ott` and digits
   * followed by an optional `:` and digits or dots; None when no prefix fits.
   */
  function TaxonOf(token: string): (r: Option<string>)
    ensures r.Some? ==>
      && |r.value| <= |token| && r.value == token[..|r.value|] && AllWord(r.value) && TailMatches(token[|r.value|..])
      && forall j :: 0 <= j < |r.value| ==> !TailMatches(token[j..])
    ensures r.None? ==> forall j :: 0 <= j <= |token| && AllWord(token[..j]) ==> !TailMatches(token[j..])
  {
    FindTaxonShortest(token, 0);
    FindTaxonNone(token, 0);
    FindTaxon(token, 0)
  }

  /** The name of the token that starts at offset `p`. */
  function TaxonAt(tree: string, p: nat): (r: Option<string>)
    requires p <= |tree|
    ensures r.Some? ==> p + |r.value| <= TokenEnd(tree, p) && r.value == tree[p..p + |r.value|] && AllWord(r.value)
    ensures r.Some? ==> TailMatches(tree[p + |r.value|..TokenEnd(tree, p)])
  {
    TaxonOf(tree[p..TokenEnd(tree, p)])
  }

  /**
   * A name followed by an ott id and an optional length is matched on the
   * name alone: no shorter prefix can be followed by a well-formed suffix,
   * because the `_` of the id would have to sit among digits or length characters.
   */
  lemma TaxonIgnoresOtt(name: string, id: string, len: string)
    requires AllWord(name) && |id| > 0 && AllDigits(id) && LengthSuffix(len)
    ensures TaxonOf(name + OttMarker + id + len) == Some(name)
  {
    var token := name + OttMarker + id + len;
    assert token[..|name|] == name;
    assert token[|name|..] == OttMarker + id + len;
    OttRestMatches(id, len);
    forall j | 0 <= j < |name|
      ensures !TailMatches(token[j..])
    {
      ShorterPrefixFails(name, id, len, j);
    }
    TaxonOfShortest(token, |name|);
  }

  /** The name is the prefix of length `n` when that prefix fits and no shorter one does. */
  lemma TaxonOfShortest(token: string, n: nat)
    requires n <= |token| && AllWord(token[..n]) && TailMatches(token[n..])
    requires forall j :: 0 <= j < n ==> !TailMatches(token[j..])
    ensures TaxonOf(token) == Some(token[..n])
  {
    var r := TaxonOf(token);
    assert r.Some?;
    assert |r.value| <= n;
    assert |r.value| >= n;
  }

  /** The suffix `_ott` + digits + length is well-formed on its own. */
  lemma OttRestMatches(id: string, len: string)
    requires |id| > 0 && AllDigits(id) && LengthSuffix(len)
    ensures TailMatches(OttMarker + id + len)
  {
    var rest := OttMarker + id + len;
    assert rest[..4] == OttMarker;
    assert rest[4..4 + |id|] == id;
    assert 4 + |id| == |rest| || rest[4 + |id|] == len[0];
    DigitsRun(rest, 4, 4 + |id|);
    assert rest[4 + |id|..] == len;
  }

  /** The step of `TaxonIgnoresOtt` for one prefix shorter than the name. */
  lemma ShorterPrefixFails(name: string, id: string, len: string, j: nat)
    requires AllWord(name) && |id| > 0 && AllDigits(id) && LengthSuffix(len) && j < |name|
    ensures !TailMatches((name + OttMarker + id + len)[j..])
  {
    var s := (name + OttMarker + id + len)[j..];
    var p := |name| - j;
    assert s[0] == name[j];
    assert s[p] == '_';
    assert s[|s| - 1] != '\n' by {
      if |len| > 0 {
        assert s[|s| - 1] == len[|len| - 1];
      } else {
        assert s[|s| - 1] == id[|id| - 1];
      }
    }
    assert !LengthSuffix(s);
    assert p < 4 ==> s[..4] != OttMarker by {
      if p < 4 {
        assert s[..4][p] == s[p];
      }
    }
    assert p >= 4 ==> !LengthSuffix(s[DigitsEnd(s, 4)..]) by {
      if p >= 4 {
        var e := DigitsEnd(s, 4);
        assert e <= p;
        assert s[e..][0] == s[e];
        if e < p {
          assert s[e] == name[j + e];
        }
      }
    }
  }

  /** The nodes at exactly depth `d`: `[n for n in nodes if n["depth"] == d]`. */
  function Level(nodes: seq<Pending>, d: nat): (r: seq<Pending>)
    ensures forall n :: n in r <==> n in nodes && n.depth == d
    ensures |r| <= |nodes|
  {
    if nodes == [] then []
    else (if nodes[0].depth == d then [nodes[0]] else []) + Level(nodes[1..], d)
  }

  /** The in-place `node["depth"] -= 1` on the nodes at depth `d + 1`. */
  function Lower(nodes: seq<Pending>, d: nat): (r: seq<Pending>)
    ensures |r| == |nodes|
    ensures forall k :: 0 <= k < |r| ==>
      r[k] == if nodes[k].depth == d + 1 then nodes[k].(depth := d) else nodes[k]
  {
    seq(|nodes|, k requires 0 <= k < |nodes| =>
      if nodes[k].depth == d + 1 then nodes[k].(depth := d) else nodes[k])
  }

  /**
   * A match at stack depth `depth`: the pending nodes deeper than `depth` are
   * its children and leave the list, and the match is appended. An expanded
   * or childless match keeps `slice`, its source text; otherwise it wraps its
   * children as `(a,b)token`.
   */
  function Collected(nodes: seq<Pending>, depth: nat, found: bool, expand: bool, slice: string, token: string)
    : seq<Pending>
  {
    if !found then nodes
    else
      var children := Deeper(nodes, depth);
      var treeString := if expand || children == [] then slice else Wrap(children, token);
      Without(nodes, children) + [Pending(None, None, treeString, depth)]
  }

  /**
   * A `)` closing back to depth `depth`: the nodes one level deeper move up;
   * two or more of them are replaced by one node that wraps them under the token.
   */
  function Bubbled(nodes: seq<Pending>, depth: nat, token: string): seq<Pending>
  {
    var risen := Lower(Level(nodes, depth + 1), depth);
    if |risen| > 1 then Without(Lower(nodes, depth), risen) + [Pending(None, None, Wrap(risen, token), depth)]
    else Lower(nodes, depth)
  }

  /** The pending list after one token (extract_minimal_tree.py:58-93). */
  function Reduced(nodes: seq<Pending>, depth: nat, found: bool, closed: bool, expand: bool,
                   slice: string, token: string): seq<Pending>
  {
    var collected := Collected(nodes, depth, found, expand, slice, token);
    if closed then Bubbled(collected, depth, token) else collected
  }

  /** After a match nothing below the match is pending. */
  lemma CollectedDepths(nodes: seq<Pending>, depth: nat, bound: nat, found: bool, expand: bool, slice: string, token: string)
    requires depth <= bound && DepthsAtMost(nodes, bound)
    ensures DepthsAtMost(Collected(nodes, depth, found, expand, slice, token), if found then depth else bound)
  {
    if found {
      var children := Deeper(nodes, depth);
      var kept := Without(nodes, children);
      forall k | 0 <= k < |kept| ensures kept[k].depth <= depth {
        assert kept[k] in kept;
      }
    }
  }

  /** Closing a level leaves nothing deeper than the level closed back to. */
  lemma BubbledDepths(nodes: seq<Pending>, depth: nat, token: string)
    requires DepthsAtMost(nodes, depth + 1)
    ensures DepthsAtMost(Bubbled(nodes, depth, token), depth)
  {
    var lowered := Lower(nodes, depth);
    assert DepthsAtMost(lowered, depth);
    WithoutKeeps(lowered, Lower(Level(nodes, depth + 1), depth), depth);
  }

  /** Every token keeps the pending nodes within the stack. */
  lemma ReducedDepths(nodes: seq<Pending>, depth: nat, found: bool, closed: bool, expand: bool, slice: string, token: string)
    requires DepthsAtMost(nodes, depth + (if closed then 1 else 0))
    ensures DepthsAtMost(Reduced(nodes, depth, found, closed, expand, slice, token), depth)
  {
    CollectedDepths(nodes, depth, depth + (if closed then 1 else 0), found, expand, slice, token);
    if closed {
      var collected := Collected(nodes, depth, found, expand, slice, token);
      BubbledDepths(collected, depth, token);
    }
  }

  /** A match always leaves a pending node, a pending list never empties, and nothing matched leaves none. */
  lemma ReducedNonEmpty(nodes: seq<Pending>, depth: nat, found: bool, closed: bool, expand: bool, slice: string, token: string)
    ensures nodes != [] || found ==> Reduced(nodes, depth, found, closed, expand, slice, token) != []
    ensures nodes == [] && !found ==> Reduced(nodes, depth, found, closed, expand, slice, token) == []
  {
  }

  /** The first match, with nothing pending, becomes the only pending node and holds its source slice. */
  lemma ReducedFirst(depth: nat, closed: bool, expand: bool, slice: string, token: string)
    ensures Reduced([], depth, true, closed, expand, slice, token) == [Pending(None, None, slice, depth)]
  {
    var one := [Pending(None, None, slice, depth)];
    assert Without([], Deeper([], depth)) == [];
    assert Level(one, depth + 1) == [];
    assert Lower(one, depth) == one;
  }

  /**
   * The node a match appends: expanded or childless it keeps its slice, else
   * it wraps the deeper pending nodes under its token; the shallower nodes stay before it.
   */
  lemma CollectedNode(nodes: seq<Pending>, depth: nat, expand: bool, slice: string, token: string)
    ensures var out := Collected(nodes, depth, true, expand, slice, token);
      && out != []
      && out[|out| - 1].depth == depth
      && out[|out| - 1].treeString ==
           (if expand || Deeper(nodes, depth) == [] then slice else Wrap(Deeper(nodes, depth), token))
      && forall n :: n in out[..|out| - 1] <==> n in nodes && n.depth <= depth
  {
    var out := Collected(nodes, depth, true, expand, slice, token);
    assert out[..|out| - 1] == Without(nodes, Deeper(nodes, depth));
  }

  /**
   * At a `)` the nodes exactly one level deeper move up a level; with two or
   * more of them, they are replaced by one wrapper at the current depth.
   */
  lemma BubbledLifts(nodes: seq<Pending>, depth: nat, token: string)
    ensures var out := Bubbled(nodes, depth, token);
      var risen := Lower(Level(nodes, depth + 1), depth);
      && (|risen| <= 1 ==> |out| == |nodes| && forall k :: 0 <= k < |out| ==>
            && out[k].treeString == nodes[k].treeString
            && out[k].depth == (if nodes[k].depth == depth + 1 then depth else nodes[k].depth))
      && (|risen| > 1 ==>
            && out[|out| - 1] == Pending(None, None, Wrap(risen, token), depth)
            && forall n :: n in out[..|out| - 1] ==> n.depth != depth + 1 && n !in risen)
  {
    var risen := Lower(Level(nodes, depth + 1), depth);
    if |risen| > 1 {
      var out := Bubbled(nodes, depth, token);
      var lowered := Lower(nodes, depth);
      assert out[..|out| - 1] == Without(lowered, risen);
      forall n | n in out[..|out| - 1] ensures n.depth != depth + 1 && n !in risen {
        assert n in lowered;
        var k :| 0 <= k < |lowered| && lowered[k] == n;
      }
    }
  }

  /** What the script writes: the joined tree, or the names it could not find. */
  datatype Minimal = Found(tree: string) | Missing(taxa: set<string>)

  /** The loop state: offset, open-parenthesis offsets, pending nodes, names still sought. */
  datatype Hunt = Hunt(index: nat, stack: seq<nat>, nodes: seq<Pending>, remaining: set<string>)

  /**
   * The loop invariant. `where` maps each name found to the token that
   * matched it, and `starts` lists every token examined, none of which names
   * a sought taxon that is still sought. With one taxon, nothing is pending
   * until it is found, and then its slice is the only pending node.
   */
  ghost predicate Inv(tree: string, taxa: set<string>, expand: bool, h: Hunt, where: map<string, nat>, starts: seq<nat>) {
    && Shape(tree, h)
    && Sought(tree, taxa, h.remaining, where, starts, h.index)
    && Single(tree, taxa, expand, h)
  }

  /** The offset lies inside the text, and every open `(` behind it. */
  predicate Below(tree: string, h: Hunt) {
    && h.index <= |tree|
    && (forall k :: 0 <= k < |h.stack| ==> h.stack[k] < h.index)
  }

  /** The part of `Inv` about offsets and depths: the stack lies behind the scan, and nothing pends below it. */
  predicate Shape(tree: string, h: Hunt) {
    Below(tree, h) && DepthsAtMost(h.nodes, |h.stack|)
  }

  /**
   * The part of `Inv` about the pending list: it is empty exactly until the
   * first match, and with one name sought it holds at most that name's slice.
   */
  ghost predicate Single(tree: string, taxa: set<string>, expand: bool, h: Hunt) {
    && (h.nodes == [] <==> h.remaining == taxa)
    && (|taxa| == 1 ==>
          && expand
          && ((h.nodes == [] && h.remaining == taxa)
              || (|h.nodes| == 1 && h.remaining == {} && IsSliceOf(h.nodes[0].treeString, tree))))
  }

  /** The part of `Inv` about the names: found ones have a witness, examined tokens name none still sought. */
  ghost predicate Sought(tree: string, taxa: set<string>, remaining: set<string>, where: map<string, nat>,
                         starts: seq<nat>, index: nat) {
    && index <= |tree|
    && remaining <= taxa
    && where.Keys == taxa - remaining
    && (forall t :: t in where ==> where[t] <= |tree| && TaxonAt(tree, where[t]) == Some(t))
    && (forall k :: 0 <= k < |starts| ==>
          starts[k] <= index && (TaxonAt(tree, starts[k]).Some? ==> TaxonAt(tree, starts[k]).value !in remaining))
  }

  /** Examining the token at `p` keeps `Sought`, removing its name when it is still sought. */
  lemma SoughtStep(tree: string, taxa: set<string>, remaining: set<string>, where: map<string, nat>,
                   starts: seq<nat>, index: nat, p: nat, index': nat)
    requires Sought(tree, taxa, remaining, where, starts, index) && index <= p <= index' <= |tree|
    ensures var taxon := TaxonAt(tree, p);
      var found := taxon.Some? && taxon.value in remaining;
      Sought(tree, taxa, if found then remaining - {taxon.value} else remaining,
             if found then where[taxon.value := p] else where, starts + [p], index')
  {
    var taxon := TaxonAt(tree, p);
    var found := taxon.Some? && taxon.value in remaining;
    var starts' := starts + [p];
    assert forall k :: 0 <= k < |starts| ==> starts'[k] == starts[k];
  }

  /**
   * One pass of the loop body at a character other than `;`
   * (extract_minimal_tree.py:40-96), and the offset of the token it examines:
   * `(` is pushed; otherwise a `)` is popped, the token that follows is
   * matched and settled, and a `,` after it is skipped. Popping an empty
   * stack, or reading past the text after a token, is the source's
   * IndexError. A pass moves forward and steps over no `;`.
   */
  function Pass(tree: string, expand: bool, h: Hunt): (r: Result<(Hunt, Option<nat>)>)
    requires h.index < |tree| && tree[h.index] != ';' && Below(tree, h)
    ensures r.Ok? ==> h.index < r.value.0.index && Below(tree, r.value.0)
  {
    if tree[h.index] == '(' then Ok((h.(index := h.index + 1, stack := h.stack + [h.index]), None))
    else
      var closed := tree[h.index] == ')';
      if closed && h.stack == [] then Err(RuntimeFailure(h.index))
      else
        var p := if closed then h.index + 1 else h.index;
        var stack := if closed then h.stack[..|h.stack| - 1] else h.stack;
        var start := if closed && expand then h.stack[|h.stack| - 1] else p;
        var e := TokenEnd(tree, p);
        if e == |tree| then Err(RuntimeFailure(|tree|))
        else
          Ok((Took(tree, expand, h, closed, stack, start, p, e), Some(p)))
  }

  /** The names still sought after `token`, and whether the token carried one of them. */
  function Sighted(token: string, remaining: set<string>): (m: (set<string>, bool))
    ensures m.0 <= remaining && (m.1 <==> m.0 != remaining)
  {
    var taxon := TaxonOf(token);
    if taxon.Some? && taxon.value in remaining then (remaining - {taxon.value}, true) else (remaining, false)
  }

  /**
   * The state after the token `tree[p..e]`: the scan moves past it and a
   * `,` after it, the stack is `stack`, the token is settled into the
   * pending list (its slice running from `start`), and a sought name it
   * carries is crossed off.
   */
  function Took(tree: string, expand: bool, h: Hunt, closed: bool, stack: seq<nat>, start: nat, p: nat, e: nat): (r: Hunt)
    requires start <= e < |tree| && p <= e && e == TokenEnd(tree, p)
    requires h.index <= p <= h.index + 1 && tree[h.index] != ';'
    ensures r.index == if tree[e] == ',' then e + 1 else e
    ensures forall k :: h.index <= k < r.index ==> tree[k] != ';'
    ensures r.stack == stack
  {
    var m := Sighted(tree[p..e], h.remaining);
    Hunt(if tree[e] == ',' then e + 1 else e, stack,
         Reduced(h.nodes, |stack|, m.1, closed, expand, tree[start..e], tree[p..e]), m.0)
  }

  /** The text a pass moves over holds no `;`. */
  lemma PassScans(tree: string, expand: bool, h: Hunt)
    requires h.index < |tree| && tree[h.index] != ';' && Below(tree, h)
    ensures var r := Pass(tree, expand, h); r.Ok? ==> forall k :: h.index <= k < r.value.0.index ==> tree[k] != ';'
  {
  }

  /** A pass examines a token exactly when it does not open a node, and the token lies within the text it moves over. */
  lemma PassExamines(tree: string, expand: bool, h: Hunt)
    requires h.index < |tree| && tree[h.index] != ';' && Below(tree, h)
    ensures var r := Pass(tree, expand, h); r.Ok? ==> (r.value.1.None? <==> tree[h.index] == '(')
    ensures var r := Pass(tree, expand, h);
      r.Ok? && r.value.1.Some? ==> h.index <= r.value.1.value <= r.value.0.index && r.value.1.value < |tree|
  {
  }

  /** A pass fails at a `)` with nothing open, or at the end of the text when no delimiter follows. */
  lemma PassFails(tree: string, expand: bool, h: Hunt)
    requires h.index < |tree| && tree[h.index] != ';' && Below(tree, h)
    ensures var r := Pass(tree, expand, h); r.Err? ==>
      || (r.error == RuntimeFailure(h.index) && tree[h.index] == ')' && h.stack == [])
      || (r.error == RuntimeFailure(|tree|) && forall k :: h.index < k < |tree| ==> !IsDelimiter(tree[k]))
  {
  }

  /** The loop goes on from `h`: a name is still sought or two nodes still pend, and the text has not ended. */
  function Continues(tree: string, h: Hunt): (b: bool)
    ensures b ==> h.index < |tree|
    ensures h.index <= |tree| ==> (b <==> (h.remaining != {} || |h.nodes| >= 2) && !(h.index == |tree| || tree[h.index] == ';'))
  {
    (h.remaining != {} || |h.nodes| >= 2) && h.index < |tree| && tree[h.index] != ';'
  }


  /**
   * The loop of the script run from `h` (extract_minimal_tree.py:36-96): the
   * state it ends in, or the error it raises, and the offsets of the tokens
   * it examines, in order. It ends once every name is found and fewer than
   * two nodes pend, or at the first `;` or the end of the text.
   */
  function Run(tree: string, expand: bool, h: Hunt): (r: (Result<Hunt>, seq<nat>))
    requires Below(tree, h)
    ensures r.0.Ok? ==> h.index <= r.0.value.index && Below(tree, r.0.value) && !Continues(tree, r.0.value)
    ensures r.0.Ok? ==> forall k :: h.index <= k < r.0.value.index ==> tree[k] != ';'
    ensures forall k :: 0 <= k < |r.1| ==> h.index <= r.1[k] < |tree|
    ensures r.0.Err? ==> r.0.error.RuntimeFailure? && r.0.error.at <= |tree| && (r.0.error.at < |tree| ==> tree[r.0.error.at] == ')')
    decreases |tree| - h.index
  {
    if !Continues(tree, h) then (Ok(h), [])
    else
      PassScans(tree, expand, h);
      PassExamines(tree, expand, h);
      PassFails(tree, expand, h);
      match Pass(tree, expand, h)
      case Err(e) => (Err(e), [])
      case Ok((h', o)) =>
        var rest := Run(tree, expand, h');
        (rest.0, ToSeq(o) + rest.1)
  }

  /** `if not expand_taxa: expand_taxa = len(taxa) == 1` (extract_minimal_tree.py:15-20). */
  function Expand(taxa: set<string>, expandTaxa: Option<bool>): (b: bool)
    ensures b <==> expandTaxa == Some(true) || |taxa| == 1
  {
    if expandTaxa == Some(true) then true else |taxa| == 1
  }

  /**
   * What the script writes once the loop ends (extract_minimal_tree.py:98-101):
   * the names still sought, or else the first pending node's text; with
   * nothing pending, `nodes[0]` is an IndexError.
   */
  function Report(r: Result<Hunt>): (m: Result<Minimal>)
    ensures m.Ok? && m.value.Missing? ==> r.Ok? && m.value.taxa == r.value.remaining != {}
    ensures m.Ok? && m.value.Found? ==> r.Ok? && r.value.remaining == {} && r.value.nodes != [] && m.value.tree == r.value.nodes[0].treeString
    ensures m.Err? ==> (r.Err? && m.error == r.error) || (r.Ok? && r.value.remaining == {} && r.value.nodes == [] && m.error == RuntimeFailure(r.value.index))
  {
    match r
    case Err(e) => Err(e)
    case Ok(h) =>
      if h.remaining != {} then Ok(Missing(h.remaining))
      else if h.nodes == [] then Err(RuntimeFailure(h.index))
      else Ok(Found(h.nodes[0].treeString))
  }

  /** A pass keeps the invariant, the token it examines joining the record. */
  lemma InvPass(tree: string, taxa: set<string>, expand: bool, h: Hunt, where: map<string, nat>, starts: seq<nat>)
    returns (where': map<string, nat>)
    requires Inv(tree, taxa, expand, h, where, starts) && Continues(tree, h)
    requires Pass(tree, expand, h).Ok?
    ensures Inv(tree, taxa, expand, Pass(tree, expand, h).value.0, where', starts + ToSeq(Pass(tree, expand, h).value.1))
  {
    if tree[h.index] == '(' {
      where' := where;
      assert Pass(tree, expand, h) == Ok((h.(index := h.index + 1, stack := h.stack + [h.index]), None));
      assert starts + ToSeq(None) == starts;
    } else {
      where' := InvTokenPass(tree, taxa, expand, h, where, starts);
    }
  }

  /** A pass over a token keeps the invariant, the token's offset joining the record. */
  lemma InvTokenPass(tree: string, taxa: set<string>, expand: bool, h: Hunt, where: map<string, nat>, starts: seq<nat>)
    returns (where': map<string, nat>)
    requires Inv(tree, taxa, expand, h, where, starts) && Continues(tree, h) && tree[h.index] != '('
    requires Pass(tree, expand, h).Ok?
    ensures Inv(tree, taxa, expand, Pass(tree, expand, h).value.0, where', starts + [Pass(tree, expand, h).value.1.value])
    ensures Pass(tree, expand, h).value.1.Some?
  {
    var closed := tree[h.index] == ')';
    var p := if closed then h.index + 1 else h.index;
    var stack := if closed then h.stack[..|h.stack| - 1] else h.stack;
    var start := if closed && expand then h.stack[|h.stack| - 1] else p;
    var e := TokenEnd(tree, p);
    var taxon := TaxonOf(tree[p..e]);
    where' := if taxon.Some? && taxon.value in h.remaining then where[taxon.value := p] else where;
    assert Pass(tree, expand, h) == Ok((Took(tree, expand, h, closed, stack, start, p, e), Some(p)));
    InvToken(tree, taxa, expand, h, where, starts, closed, stack, start, p, e, Pass(tree, expand, h).value.0, where');
  }

  /** The outcome of the loop from `h` is that of one pass followed by the loop from where it leaves. */
  lemma {:induction false} RunStep(tree: string, expand: bool, h: Hunt, h': Hunt, o: Option<nat>, starts: seq<nat>)
    requires Below(tree, h) && Continues(tree, h) && Pass(tree, expand, h) == Ok((h', o))
    ensures (Run(tree, expand, h').0, (starts + ToSeq(o)) + Run(tree, expand, h').1)
         == (Run(tree, expand, h).0, starts + Run(tree, expand, h).1)
  {
    var rest := Run(tree, expand, h');
    assert Run(tree, expand, h) == (rest.0, ToSeq(o) + rest.1);
    assert (starts + ToSeq(o)) + rest.1 == starts + (ToSeq(o) + rest.1);
  }

  /** The invariant after one token, assembled from its three parts. */
  lemma InvToken(tree: string, taxa: set<string>, expand: bool, h: Hunt, where: map<string, nat>, starts: seq<nat>,
                 closed: bool, stack: seq<nat>, start: nat, p: nat, e: nat, next: Hunt, where': map<string, nat>)
    requires Inv(tree, taxa, expand, h, where, starts)
    requires h.remaining != {} || |h.nodes| >= 2
    requires closed ==> && h.stack != [] && stack == h.stack[..|h.stack| - 1] && p == h.index + 1
                        && (start == h.stack[|h.stack| - 1] || start == p)
    requires !closed ==> stack == h.stack && p == h.index && start == p
    requires h.index < |tree| && tree[h.index] != ';'
    requires p <= e < |tree| && e == TokenEnd(tree, p) && start <= e && h.index < next.index
    requires next == Took(tree, expand, h, closed, stack, start, p, e)
    requires var taxon := TaxonOf(tree[p..e]);
      where' == if taxon.Some? && taxon.value in h.remaining then where[taxon.value := p] else where
    ensures Inv(tree, taxa, expand, next, where', starts + [p])
  {
    var taxon := TaxonOf(tree[p..e]);
    var found := taxon.Some? && taxon.value in h.remaining;
    var remaining := if found then h.remaining - {taxon.value} else h.remaining;
    var index := next.index;
    assert next == Hunt(index, stack, Reduced(h.nodes, |stack|, found, closed, expand, tree[start..e], tree[p..e]), remaining);
    ShapeToken(tree, h, closed, stack, index, found, expand, tree[start..e], tree[p..e], remaining);
    SoughtStep(tree, taxa, h.remaining, where, starts, h.index, p, index);
    SingleToken(tree, taxa, expand, h, taxon, found, closed, stack, index, tree[start..e], tree[p..e], remaining);
  }

  /** `Shape` after a token: the stack popped at a `)` stays behind the scan, and depths stay within it. */
  lemma ShapeToken(tree: string, h: Hunt, closed: bool, stack: seq<nat>, index: nat,
                   found: bool, expand: bool, slice: string, token: string, remaining: set<string>)
    requires Shape(tree, h)
    requires closed ==> h.stack != [] && stack == h.stack[..|h.stack| - 1]
    requires !closed ==> stack == h.stack
    requires h.index < index <= |tree|
    ensures Shape(tree, Hunt(index, stack, Reduced(h.nodes, |stack|, found, closed, expand, slice, token), remaining))
  {
    assert forall k :: 0 <= k < |stack| ==> stack[k] == h.stack[k];
    ReducedDepths(h.nodes, |stack|, found, closed, expand, slice, token);
  }

  /** `Single` after a token: the first match creates the first pending node, holding its slice. */
  lemma SingleToken(tree: string, taxa: set<string>, expand: bool, h: Hunt, taxon: Option<string>, found: bool,
                    closed: bool, stack: seq<nat>, index: nat, slice: string, token: string, remaining: set<string>)
    requires Single(tree, taxa, expand, h) && h.remaining <= taxa
    requires h.remaining != {} || |h.nodes| >= 2
    requires found == (taxon.Some? && taxon.value in h.remaining)
    requires remaining == if found then h.remaining - {taxon.value} else h.remaining
    requires IsSliceOf(slice, tree)
    ensures Single(tree, taxa, expand, Hunt(index, stack, Reduced(h.nodes, |stack|, found, closed, expand, slice, token), remaining))
  {
    ReducedNonEmpty(h.nodes, |stack|, found, closed, expand, slice, token);
    if h.nodes == [] && found {
      ReducedFirst(|stack|, closed, expand, slice, token);
    }
    if |taxa| == 1 && found {
      assert taxa == {taxon.value} by {
        assert taxon.value in taxa && |taxa - {taxon.value}| == 0;
      }
    }
  }

  /**
   * The script body (extract_minimal_tree.py:14-20, 28-101) over the tree text,
   * the requested names and the `--expand_taxa` flag: what `Report` makes of
   * the loop run from the top of the text, and `starts`, the offsets of the
   * tokens it examines. Names left over are reported, and they are exactly
   * the requested names that no examined token matched; `where` gives each
   * found name the token that matched it. With one requested name the tree
   * written is a piece of the input.
   */
  method MinimalTree(tree: string, taxa: set<string>, expandTaxa: Option<bool>)
    returns (r: Result<Minimal>, ghost where: map<string, nat>, ghost starts: seq<nat>)
    ensures r == Report(Run(tree, Expand(taxa, expandTaxa), Hunt(0, [], [], taxa)).0)
    ensures starts == Run(tree, Expand(taxa, expandTaxa), Hunt(0, [], [], taxa)).1
    ensures r.Err? ==>
      && r.error.RuntimeFailure? && r.error.at <= |tree|
      && (taxa != {} && r.error.at < |tree| ==> tree[r.error.at] == ')')
    ensures taxa == {} ==> r.Err?
    ensures r.Ok? && r.value.Found? ==> taxa != {}
    ensures r.Ok? && r.value.Missing? ==> r.value.taxa != {} && r.value.taxa <= taxa
    ensures r.Ok? ==>
      var left := if r.value.Missing? then r.value.taxa else {};
      && where.Keys == taxa - left
      && (forall t :: t in where ==> where[t] <= |tree| && TaxonAt(tree, where[t]) == Some(t))
      && (forall k :: 0 <= k < |starts| ==> TaxonAt(tree, starts[k]).Some? ==> TaxonAt(tree, starts[k]).value !in left)
    ensures r.Ok? && r.value.Found? && |taxa| == 1 ==> IsSliceOf(r.value.tree, tree)
  {
    var expand := if expandTaxa == Some(true) then true else |taxa| == 1;
    var h := Hunt(0, [], [], taxa);
    where, starts := map[], [];
    assert [] + Run(tree, expand, h).1 == Run(tree, expand, h).1;
    while h.remaining != {} || |h.nodes| >= 2
      invariant Inv(tree, taxa, expand, h, where, starts)
      invariant Run(tree, expand, Hunt(0, [], [], taxa)) == (Run(tree, expand, h).0, starts + Run(tree, expand, h).1)
      decreases |tree| - h.index
    {
      if h.index == |tree| || tree[h.index] == ';' {
        break;
      }
      var step := Pass(tree, expand, h);
      if step.Err? {
        return Err(step.error), where, starts;
      }
      RunStep(tree, expand, h, step.value.0, step.value.1, starts);
      where := InvPass(tree, taxa, expand, h, where, starts);
      starts := starts + ToSeq(step.value.1);
      h := step.value.0;
    }
    assert starts + [] == starts;
    if h.remaining != {} {
      r := Ok(Missing(h.remaining));
    } else if h.nodes == [] {
      // `nodes[0]` with nothing requested
      r := Err(RuntimeFailure(h.index));
    } else {
      r := Ok(Found(h.nodes[0].treeString));
    }
  }
}
