# Newick scanners of python-misc, modelled in Dafny

The repository holds a set of scripts for Open Tree of Life and OneZoom
phylogenies written in Newick text (`(A,B)C:1.0;`). Each script makes a
single left-to-right pass over the tree text, without building a parse tree.
This project models those passes and proves what they compute:

- **Subtree extraction.** `extract` takes a set of target taxa and returns
  the smallest piece of the tree that joins them, in two versions: the
  strict one in `old/extract_trees.py` and the lenient one in
  `extract_trees.py`. A match can keep its whole clade (`expand_taxa`) or
  keep only its label. Excluded taxa are spliced out together with one
  adjacent comma. With `separate_trees`, each match is returned on its own
  under its ott id or name.
- **Node enumeration.** `enumerate_nodes` yields one record per node, in
  post-order. Each record holds the label split at `_ott`, the edge length,
  the offsets the node spans and its depth. Malformed text raises a syntax
  error at a stated offset.
- **Minimal tree.** The script `extract_minimal_tree.py` finds a set of
  names with a lazy regular expression and keeps the tree text joining them.
- **OneZoom tokens.** `enumerate_one_zoom_tokens` works on the OneZoom file
  format. It finds tokens such as `foobar_ott123~456-789@` and decodes them
  into a name, a base ott id and the ott ids to exclude.
- **Tree clean-up.** `trim_tree` prepares a OneZoom tree: it drops a leading
  `[...]` comment, surrounding whitespace and one trailing `;`.
- **Chunked search.** `get_matches` (`utilities/find_in_file.py`) searches a
  text that arrives in chunks. Matches may cross chunk boundaries, and each
  match is reported with a window of context.

## How the model is organised

- `Wrappers`: `Option` and `Result`. The `Failure` values stand for the
  source's exceptions: the syntax errors, each at the offset the source
  reports, then Python's own IndexError and ValueError, the `assert`, and a
  loop that never ends.
- `Text`: character classes and the `str` and `re` operations the scanners
  use, written as functions with contracts.
- `NewickCommon`: what the extractors write out identically. That is the
  label lexer, the `_ott` split, the excluded-range rule, the stable sorted
  insertion, the splice loop, and the pending-node list.
- One module per script. Where the source loops and updates variables, the
  model is a `method` with a `while` loop, and a ghost function or predicate
  says what the loop computes from the input text: `Enumerated` for the node
  generator, `Run` for the minimal-tree loop, `Next`, `Loop` and `Extracted`
  for one extractor pass, the extractor loop and the whole of `extract`,
  `Walk` and `Reads` for the positions an extractor passes and the label and
  text it reads at each, and `Scanned` for the OneZoom token scan. The loop invariant is a predicate kept
  by step lemmas, and the method's postconditions tie its result to that
  function or record.

The source computes its results with in-loop mutation of local lists and
dicts that no caller ever sees. These are modelled as values threaded through
the loop. The pending node list is an example: `node["depth"] -= 1` is `Lift`
or `Lower`.

The code has these behaviours, which the model keeps:

- No scanner checks for a `(` still open when it reaches `;`. They all stop
  at the first `;` (the minimal-tree script also stops at the end of the
  text), so an unmatched `(` is not an error.
- The extractors do not skip a leading `[...]` comment. Only `trim_tree` and
  the OneZoom token scan do.
- Edge lengths go through Python's `float`, which accepts a sign. So `:-1`
  is a valid length for `enumerate_nodes`.
- The lenient extractor raises no syntax errors. After a label it skips a
  `:` and the digits and dots after it. After an anonymous `)` it skips only
  one character per pass of its loop, so the digits of a length after `)`
  are read as a label of their own. On a text with no reserved character
  after a plain one, its loop never ends.

## Model

| member | source | states |
|---|---|---|
| Text.FindReserved | old/extract_trees.py:75-78 | `re.search('[,;:\(\)]', s, i)`: the result is the first reserved character at or after `i`; None means there is none up to the end |
| Text.FindChar | old/extract_trees.py:69 | `s.index(c, i)`: the first `c` at or after `i`, and None exactly when there is none (where Python raises ValueError) |
| Text.IndexOf | utilities/find_in_file.py:33 | `s.find(p, i)`: the result is an occurrence of `p` and no occurrence starts earlier from `i`; None means there is no occurrence at all |
| Text.Slice | old/extract_trees.py:149 | Python slicing clamps its bounds: `s[a:b]` is the slice when in range, and empty when `b <= a` |
| Text.Before | enumerate_nodes.py:29 | Python's `s[i-1]`, which at offset 0 reads the last character |
| Text.IsDecimal | enumerate_nodes.py:67 | the decimal literals `float` is taken to accept: an optional sign, digits, at most one `.`, at least one digit |
| Text.DigitsEnd | extract_minimal_tree.py:34 | the end of the maximal run of digits from `i`, as for the `\d+` of an ott id |
| Text.DigitsRun | getOpenTreesFromOneZoom_fast.py:25 | any maximal digit run from `i` ends where `DigitsEnd` says |
| Text.LengthEnd | extract_trees.py:82-83 | the `while` over `0123456789.`: the first offset from `i` that is neither a digit nor a `.`, every offset before it being one, and None when the text ends first |
| Text.Split | getOpenTreesFromOneZoom_fast.py:42 | `s.split(sep)` gives at least one part, and no part holds the separator |
| Text.SplitJoin | getOpenTreesFromOneZoom_fast.py:42 | splitting a joined list of separator-free parts gives the list back |
| Text.JoinSplit | getOpenTreesFromOneZoom_fast.py:42 | joining the parts of a split gives the text back |
| NewickCommon.LexLabel | old/extract_trees.py:66-78 | a quoted label runs to the next `'`, with no `'` inside, and fails exactly when the quote is not closed; an unquoted label is the run up to the first reserved character, with none inside; failing to find one leaves no label; reading at the end is an IndexError |
| NewickCommon.SplitOtt | old/extract_trees.py:95-100 | the split is at the FIRST `_ott`: the label is name + `_ott` + id; there is no id exactly when `_ott` never occurs; the name holds no `_ott` |
| NewickCommon.Consume | old/extract_trees.py:102-105 | a match removes exactly one target, the name when it is a target and else the ott id; no match removes nothing |
| NewickCommon.Consumed | old/extract_trees.py:102-104 | a label removes at most one target; it removes one exactly when it names a target still sought, and the one it removes is a target it names |
| NewickCommon.ExcludedRange | old/extract_trees.py:107-114 | an excluded range covers the node plus at most one comma; it takes the preceding comma exactly when there is one, and otherwise the following comma exactly when there is one |
| NewickCommon.InsertPosition | old/extract_trees.py:115-117 | the ranges starting no later than the new one form a prefix of the sorted list |
| NewickCommon.InsertByStart | old/extract_trees.py:115-117 | `append` then the stable `sort`: the list stays sorted, is a permutation of the old list plus the new range, and the new range lands after every range starting no later than it |
| NewickCommon.Splice | old/extract_trees.py:143-158 | the splice loop builds exactly the piecewise definition `SpliceFrom` of the source text with the cut ranges removed |
| NewickCommon.SpliceFrom | old/extract_trees.py:143-158 | the node text with the cut ranges inside it removed, piece by piece, each piece appended with the `(,` fix-up |
| NewickCommon.AppendPiece | old/extract_trees.py:145-149 | `string_to_append`: the slice from `a` to `b`, starting one later when the text so far ends in `(` and the slice starts with `,` |
| NewickCommon.SpliceUncut | old/extract_trees.py:152-158 | when no range starts inside the node, the loop appends a single piece |
| NewickCommon.SpliceIsSlice | old/extract_trees.py:143-158 | a match with nothing excluded inside it keeps exactly its source slice `tree[start:end]` |
| NewickCommon.SpliceUncutIsSlice | old/extract_trees.py:143-158 | with no excluded ranges at all the node text is a piece of the tree text |
| NewickCommon.AppendPieceNoOpenComma | old/extract_trees.py:145-149 | the `(,` fix-up: appending one piece never creates `(,` at the join |
| NewickCommon.SpliceFromNoOpenComma | old/extract_trees.py:152-158 | each step of the splice loop keeps the text free of `(,` |
| NewickCommon.SpliceNoOpenComma | old/extract_trees.py:143-158 | the spliced text never holds `(,` when the source slice has neither `(,` nor `,,` |
| NewickCommon.NoOpenCommaInside | old/extract_trees.py:143-158 | a slice of text with no `(,` has none either |
| NewickCommon.Deeper | old/extract_trees.py:122 | the comprehension keeps exactly the nodes deeper than the stack |
| NewickCommon.Lift | old/extract_trees.py:129-130 | `node["depth"] -= 1` lowers exactly the deeper nodes by one and leaves the others |
| NewickCommon.Without | old/extract_trees.py:135 | a node is kept exactly when it is not one of the children |
| NewickCommon.WithoutNothing | old/extract_trees.py:135 | removing no children leaves the list unchanged |
| NewickCommon.TreeStrings | old/extract_trees.py:162 | the texts of the children, in order |
| NewickCommon.Wrap | old/extract_trees.py:162 | `(` + the children's texts joined by `,` + `)` + the node's label text |
| NewickCommon.Key | old/extract_trees.py:174 | `node['ott'] or node['name']`: the ott id when present and non-empty, else the name |
| NewickCommon.LabelKey | old/extract_trees.py:174 | the key is the name or a non-empty ott id; with no ott id, or an empty one, it is the name |
| NewickCommon.DeeperAtDepth | old/extract_trees.py:124-126 | the source's `assert` holds: when nothing pends below depth + 1, every child is exactly one level deeper |
| NewickCommon.LiftLowers | old/extract_trees.py:128-130 | lifting the children brings every node within the new depth |
| NewickCommon.WithoutKeeps | old/extract_trees.py:135 | removing nodes keeps the depth bound |
| NewickCommon.SeparateMap | old/extract_trees.py:172-174 | the dict comprehension has no more keys than nodes, and is empty exactly when there are no nodes |
| NewickCommon.SeparateMapValues | old/extract_trees.py:172-174 | every value is the text of some node with that key (`ott or name`) |
| NewickCommon.SeparateMapLastWins | old/extract_trees.py:172-174 | every node's key is present, and a node whose key no later node shares keeps its own text |
| NewickCommon.SeparateMapSlices | old/extract_trees.py:172-174 | when every node's text is a piece of the tree, so is every value |
| NewickCommon.MatchLabel | old/extract_trees.py:95-117 | for a non-empty label: the name and id are its `_ott` split; it matches exactly when the name or id is a target, and then exactly one target goes; the range list changes exactly when the name or id is excluded, and stays sorted. An empty label does nothing |
| NewickCommon.Settled | old/extract_trees.py:119-164 | the pending list after a node: at a `)` or a match the deeper nodes are its children and move up a level; a match, or two or more children, replaces them by one node holding the spliced slice or the wrapped children; anything else changes nothing |
| NewickCommon.Settle | old/extract_trees.py:119-164 | the settling step computes `Settled`, checking the `assert`; the pending list stays within the stack, never empties, and is empty only while nothing has matched; while nothing bubbles, each match adds exactly one node, which is a source slice when nothing is excluded |
| NewickCommon.SettledDepths | old/extract_trees.py:119-135 | settling keeps every pending node at most as deep as the stack |
| NewickCommon.SettledNonEmpty | old/extract_trees.py:119-164 | a match always leaves a pending node, a non-empty list never empties, and no match on an empty list leaves it empty |
| NewickCommon.SettledSeparate | old/extract_trees.py:122 | in separate mode nothing bubbles: a match appends its spliced slice and nothing else changes |
| NewickCommon.SettledFirst | old/extract_trees.py:119-164 | in merge mode the first match becomes the only pending node; until then a `)` keeps the texts |
| NewickCommon.SettledUnmerged | old/extract_trees.py:119-164 | before any merging, one node per match, and all pending texts stay pieces of the tree |
| NewickCommon.SettledWraps | old/extract_trees.py:133-162 | at a `)` with two or more children and no match, the children, lifted, are replaced by one node that wraps them under the label |
| NewickCommon.SettledKeepsSlice | old/extract_trees.py:143-158 | an expanded or childless match appends its own spliced slice as the last node |
| NewickCommon.SettledWrapsMatch | old/extract_trees.py:133-162 | a match that is not expanded and has pending children replaces them by one node that wraps them, lifted a level, under its own label text |
| NewickCommon.AccountedStep | old/extract_trees.py:102-105 | reading one more label keeps every found target named by a label read and every target still sought passed by all of them; a label naming a sought target names a found one afterwards |
| NewickCommon.SettledGrows | old/extract_trees.py:119-164 | while nothing merges, settling adds the matched node's text for a match and nothing otherwise |
| NewickCommon.Sought | old/extract_trees.py:102-105 | the targets still sought after reading the labels in order, each label removing the target it names from what the labels before it left; never more than the targets, and at most one fewer per label read |
| NewickCommon.SoughtStep | old/extract_trees.py:102-105 | reading one more label removes from what is left the target `Consumed` picks for that label |
| NewickCommon.SoughtByOtt | extract_trees.py:85-87 | on `(X,X_ottT);` with targets `X` and `T`, `X` takes `X`, and `X_ottT`, whose name is then no longer sought, takes `T` by its ott id: nothing is left unfound |
| NewickCommon.MatchesX | old/extract_trees.py:95-105 | in `(X,X_ottT);` the label `X` at offset 1, with targets `X` and `T`, is found by its name and leaves `T` sought |
| NewickCommon.MatchesXott | old/extract_trees.py:95-105 | the label `X_ottT` at offset 3 splits into the name `X` and the ott id `T`; with only `T` sought it is found by the ott id and leaves nothing sought |
| NewickCommon.SettlesX | old/extract_trees.py:143-164 | settling the match `X` with nothing pending leaves one node, one level deep, whose text is `X` |
| NewickCommon.SettlesXott | old/extract_trees.py:143-164 | settling the match `X_ottT` beside the pending `X` appends a second node at the same depth, whose text is `X_ottT` |
| NewickCommon.PairChildren | old/extract_trees.py:122-135 | at a `)` with two pending leaves one level deeper, both are its children, both are lifted to the top level, and removing them leaves nothing |
| NewickCommon.SettledPair | old/extract_trees.py:119-164 | a `)` with no match over two such leaves replaces them by one top-level node that wraps them under its label |
| NewickCommon.JoinPair | old/extract_trees.py:162 | `','.join` of two texts is the first, the separator and the second |
| NewickCommon.PairText | old/extract_trees.py:162 | the leaves `X` and `X_ottT` wrapped under an empty label are the text `(X,X_ottT)` |
| NewickCommon.WrapsPair | old/extract_trees.py:119-164 | at the `)` of `(X,X_ottT);`, with no label after it, the two pending leaves are merged into the one node `(X,X_ottT)` |
| NewickCommon.SettledAfterNamed | old/extract_trees.py:122-164 | in separate mode, settling a visit whose match, if any, carries a name keeps every pending node named |
| NewickCommon.SettledAfter | old/extract_trees.py:119-164 | a visit with no match and no `)` leaves the pending list as it was; a match becomes the newest pending node, with its name and at the depth of the stack |
| NewickCommon.MatchesA | old/extract_trees.py:95-105 | the label `A` with target `A` has no ott id, is found, and leaves nothing sought |
| NewickCommon.SettlesA | old/extract_trees.py:143-164 | settling the match `A` with nothing pending leaves one node, whose text is `A` |
| NewickCommon.VisitGrows | old/extract_trees.py:119-164 | with no excluded ranges, the settled list grows by the node's source slice exactly at a match |
| NewickCommon.OriginsStep | old/extract_trees.py:119-164 | one more pass keeps every pending node tied to the pass whose label named a found target and whose text it holds, and a node it adds is tied to this pass |
| NewickCommon.SeparateOrigins | old/extract_trees.py:172-174 | every entry of the separate map is the text read at a label that names a found target and whose key it has |
| NewickCommon.CommaNotDoubled | old/extract_trees.py:145-149 | in a text with no `,,`, a comma inside it is not followed by another |
| OldExtractTrees.LexNode | old/extract_trees.py:66-93 | label then edge length: a `:` needs a non-empty length that runs to the next reserved character; a node not after `)` needs a label or a length; the label is what `LexLabel` reads; each failure is the syntax error the source raises at that offset |
| OldExtractTrees.Open | old/extract_trees.py:43-61 | at `)`: a preceding comma is `unexpected comma`; an empty stack is `unmatched closed brace`; otherwise the `(` is popped and starts the node when expanded; elsewhere the node starts at its label |
| OldExtractTrees.Head | old/extract_trees.py:43-117 | the head fails exactly with the error `Lex` gives at the position; on success the node starts at the popped `(` when expanded and else at the label, the label offset, end and popped stack are those `Lex` reads, and the matching and exclusion are `MatchLabel` on the label read |
| OldExtractTrees.Advance | old/extract_trees.py:38-167 | one pass moves forward, within the text, and keeps every open `(` behind the offset; it fails only at a node, with a syntax error the source raises |
| OldExtractTrees.HeadPass | old/extract_trees.py:43-117 | a successful head ends where the pass ends, before a comma it steps over; it consumes the target the label read names, and spans the node text the pass reads |
| OldExtractTrees.OpenPass | old/extract_trees.py:38-41 | a pass at `(` pushes its offset and reads no label and no text |
| OldExtractTrees.WalkStep | old/extract_trees.py:34-167 | one more pass extends a walk of the text |
| OldExtractTrees.ReadsStep | old/extract_trees.py:66-117 | one more pass extends the record of the labels and texts read |
| OldExtractTrees.TracedOpen | old/extract_trees.py:38-41 | a pass over `(` extends the record with no label and no text and leaves the pending nodes as they were |
| OldExtractTrees.TracedStep | old/extract_trees.py:34-167 | one pass extends the record by its position, label and text, and a match it adds while nothing merges has this pass as its origin |
| OldExtractTrees.Conclude | old/extract_trees.py:119-167 | settling and the comma step keep the invariant, end after the node and a comma, pop the stack, remove the target matched, and while nothing merges add the node's slice exactly at a match |
| OldExtractTrees.InvStep | old/extract_trees.py:43-167 | the loop invariant is kept across one loop pass |
| OldExtractTrees.Visit | old/extract_trees.py:43-167 | one loop pass keeps the loop invariant and strictly advances the offset, or fails with a syntax error; it is the pass `Next` describes |
| OldExtractTrees.VisitPass | old/extract_trees.py:43-167 | a pass at a `)` or a label keeps the invariant and the record and advances; a failure is the syntax error `Advance` gives there, with the record unchanged; the result is the pass `Next` describes |
| OldExtractTrees.Pass | old/extract_trees.py:38-167 | one pass at any character but `;` keeps the invariant and the record and advances; a failure is the syntax error `Advance` gives there, with the record unchanged; the result is the pass `Next` describes |
| OldExtractTrees.Search | old/extract_trees.py:34-167 | the result is `Loop` run from the top with every target sought, so it stops as soon as the search is over and not earlier (`LoopResult`): with every target found and nothing left to merge, or at a `;`; the loop leaves a walk of the text and the record of what it read, with the invariant on success; a failure is a syntax error ending the walk |
| OldExtractTrees.Extract | old/extract_trees.py:14-178 | the result is `Extracted` of the arguments, the loop run to the end and the source's final `if`s; `trace` is a walk of the text by the loop's passes, and `labels` and `spans` hold the label and the node text read at each pass; an error is reading past the end, the failure of the last pass, or, in merge mode, the `assert` at a `;`, and is a syntax error at its offset unless it is the `assert`; the targets not found are exactly what `Sought` leaves when each label read, in turn, consumes the target it names; every found target is named by a label read, and every label read passed the targets left; some remain only when the scan stopped at a `;`; a merged tree is absent exactly when nothing was found; the separate map is empty exactly when nothing was found and has at most one entry per match; with nothing excluded a single merged match, and every separate tree under its key, is the text read at a label naming a found target, and so a piece of the input |
| OldExtractTrees.Heading | old/extract_trees.py:43-117 | the head of a pass from the node `Lex` reads: the node starts at the popped `(` when expanded and else at the label, and the match is `MatchLabel` on that label, as `Headed` requires |
| OldExtractTrees.Next | old/extract_trees.py:38-167 | one pass of the loop as a function of the state: `(` is pushed, any other character is the visit `Heading` and `Concluded` describe; it moves forward to a state the loop can run from, and fails only with a syntax error at its offset |
| OldExtractTrees.NextOpen | old/extract_trees.py:38-41 | a pass over `(` pushes its offset and changes nothing else |
| OldExtractTrees.NextVisit | old/extract_trees.py:43-167 | a pass at any character but `(` is the visit `Heading` and `Concluded` describe for the node `Lex` reads there |
| OldExtractTrees.InvOpen | old/extract_trees.py:38-41 | a pass over `(` keeps the loop invariant |
| OldExtractTrees.OpenScan | old/extract_trees.py:38-41 | the `(` branch of the loop body pushes the offset, keeps the invariant and the record, and is the pass `Next` describes |
| OldExtractTrees.VisitHeaded | old/extract_trees.py:119-167 | after a head that succeeded, settling keeps the invariant, advances, steps as `Advance` does, and is the pass `Next` describes |
| OldExtractTrees.NextKeeps | old/extract_trees.py:102-164 | a pass never adds a target back, and in separate mode it keeps every pending node named |
| OldExtractTrees.LoopResult | old/extract_trees.py:34-170 | `Loop` stops in a state the loop can run from, no earlier than it started and with no target added back; it stops with the search over (every target found and, in merge mode, at most one pending node) or at a `;`; it stops at once when the search is already over; a failure is a syntax error or the IndexError at the end; in separate mode every pending node it leaves is named |
| OldExtractTrees.LoopStops | old/extract_trees.py:34-36 | the loop stops with the state as it is when the search is over or at a `;` |
| OldExtractTrees.LoopEnds | old/extract_trees.py:35-36 | reading past the end while the search goes on is the IndexError at the end of the text |
| OldExtractTrees.LoopGoes | old/extract_trees.py:34-170 | otherwise the loop ends where the pass fails, or goes on from the state after it |
| OldExtractTrees.Round | old/extract_trees.py:35-167 | one round of the loop body keeps the invariant and the record, and `Loop` from the new state is `Loop` from the old one; a failure is where `Loop` fails and ends the walk |
| OldExtractTrees.Lex | old/extract_trees.py:43-93 | at a `)` the comma check and the pop, then the label and length: on success the label starts at or after the offset and the node ends inside the text; a `)` pops the last open `(` and any other character keeps the stack; every failure is a syntax error or a Python failure at its offset |
| OldExtractTrees.Concluded | old/extract_trees.py:119-167 | after a visit the scan moves past the node, and one further exactly when a comma follows; the stack is the popped one and the ranges and targets are the visit's; a match is the newest pending node and carries its name |
| OldExtractTrees.Done | old/extract_trees.py:34 | the search is over exactly when the `while` condition `target_taxa or (len(nodes) >= 2 and not separate_trees)` is false |
| OldExtractTrees.Loop | old/extract_trees.py:34-167 | the `while` as a function of the state: it never moves back, it stops where the search is over or at a `;`, and it fails only with a syntax error or a Python failure |
| OldExtractTrees.Continue | old/extract_trees.py:38-167 | the loop after one more pass: it stops strictly past where it started, where the search is over or at a `;`, and fails only with a syntax error or a Python failure |
| OldExtractTrees.LoopLast | old/extract_trees.py:34-167 | a pass that ends the search is the last one: the loop returns the state that pass leaves |
| OldExtractTrees.Begun | old/extract_trees.py:17-28 | the loop starts from a state with every target sought, where the invariant and the record hold with one position traced |
| OldExtractTrees.Extracted | old/extract_trees.py:14-178 | `extract` as a function: a success leaves only targets unfound and is separate exactly as asked; some targets stay unfound only when the text has a `;`; the `assert` fails only in merge mode |
| OldExtractTrees.LexesA | old/extract_trees.py:66-93 | the node read at the top of a text opening with `A,`, `A;` or `A)` is the label `A`, ending at offset 1 |
| OldExtractTrees.FindsA | old/extract_trees.py:43-167 | the first pass over such a text with target `A` finds it, leaves the node `A` pending and nothing sought, and steps over a comma after it |
| OldExtractTrees.StopsAfterLastTarget | old/extract_trees.py:34-36 | on `A,)` with target `A` the loop stops right after `A`, never reading the stray `)`, and `extract` returns `A` with nothing unfound |
| OldExtractTrees.SingleMatchMerges | old/extract_trees.py:176-178 | on `A;` with target `A` the single pending node passes the `assert` and `extract` returns `A` with nothing unfound |
| OldExtractTrees.LexesX | old/extract_trees.py:66-93 | in `(X,X_ottT);` the node read at offset 1 is the label `X`, ending at the comma |
| OldExtractTrees.LexesXott | old/extract_trees.py:66-93 | the node read at offset 3 is the label `X_ottT`, ending at the `)` |
| OldExtractTrees.LexesClose | old/extract_trees.py:43-93 | the node read at the `)` pops the `(` at offset 0 and has an empty label, ending at the `;` |
| OldExtractTrees.FindsX | old/extract_trees.py:43-167 | the pass at offset 1 finds `X`, leaves it pending one level deep with `T` still sought, and steps over the comma |
| OldExtractTrees.FindsXott | old/extract_trees.py:43-167 | the pass at offset 3 finds `T` through the ott id of `X_ottT`, leaves both leaves pending and nothing sought, and stops at the `)` |
| OldExtractTrees.ClosesPair | old/extract_trees.py:43-167 | the pass at the `)` pops the stack and merges the two leaves into `(X,X_ottT)` |
| OldExtractTrees.PairLoopAtClose | old/extract_trees.py:34-167 | from the `)` the loop goes on, since two nodes are pending in merge mode, merges them and stops with every target found |
| OldExtractTrees.PairLoopAtOtt | old/extract_trees.py:34-167 | from offset 3, with `T` still sought, the loop reaches the same end |
| OldExtractTrees.PairLoop | old/extract_trees.py:34-167 | from the top of `(X,X_ottT);` with both targets sought, the loop ends with the one node `(X,X_ottT)` and nothing sought |
| OldExtractTrees.AccountsByOtt | old/extract_trees.py:102-104 | `extract` on `(X,X_ottT);` with targets `X` and `T` finds both, `T` by the ott id of a label whose name was already taken, and returns `(X,X_ottT)` |
| ExtractTrees.SkipLength | extract_trees.py:79-83 | the `while` over `0123456789.` stops at the first other character, or is an IndexError when the text ends first |
| ExtractTrees.LexNode | extract_trees.py:55-83 | a reserved character gives an empty label; the label is what `LexLabel` reads; after a non-empty label a `:` and the length characters after it are skipped; the failures are IndexError, ValueError, or the loop that never ends |
| ExtractTrees.Head | extract_trees.py:39-100 | at `,` or `:` nothing is read, matched or excluded and the offset and stack stay; otherwise the head fails exactly with the error `Lex` gives, and on success its node start, label offset, end and popped stack are those of the position, and its matching and exclusion are `MatchLabel` on the label read |
| ExtractTrees.NodeAt | extract_trees.py:55-83 | a reserved character gives an empty label; otherwise the label `LexLabel` reads, then, after a non-empty label, a `:` and the digits and dots after it are skipped; a position that does not move starts a text with no reserved character left; failures are the source's runtime errors |
| ExtractTrees.LabelStart | extract_trees.py:39-50 | the label starts after a `)`, else at the offset |
| ExtractTrees.Popped | extract_trees.py:39-44 | the stack after the pass is a prefix of the one before; it loses its last entry exactly at a `)` with a `(` open, and is kept otherwise |
| ExtractTrees.NodeStart | extract_trees.py:39-50 | the node starts at its label, except at a `)` that closes a `(` while expanding, where it starts at that `(` |
| ExtractTrees.Lex | extract_trees.py:39-83 | a `)` with nothing open fails one past it (the IndexError of `pop`); otherwise the node ends at or after where its label starts, within the text; every failure is one `FailureAt` allows |
| ExtractTrees.Resume | extract_trees.py:102-149 | the stack and the targets pass through; the scan stays at the node's end or moves one past a `,` or `:` there; a pass that neither matched nor closed a `(` moves forward; only such a pass fails, with the IndexError at the end of the text or as the loop that never ends |
| ExtractTrees.Advance | extract_trees.py:34-149 | one pass moves forward, within the text, and keeps every open `(` behind the offset; it fails only at a node, with a runtime error or divergence |
| ExtractTrees.HeadPass | extract_trees.py:39-100 | a successful head resumes where the pass resumes, consumes the target the label read names, and spans the node text the pass reads |
| ExtractTrees.OpenPass | extract_trees.py:34-37 | a pass at `(` pushes its offset and reads no label and no text |
| ExtractTrees.TracedOpen | extract_trees.py:34-37 | a pass over `(` extends the record with no label and no text and leaves the pending nodes as they were |
| ExtractTrees.WalkStep | extract_trees.py:30-149 | one more pass extends a walk of the text |
| ExtractTrees.ReadsStep | extract_trees.py:55-100 | one more pass extends the record of the labels and texts read |
| ExtractTrees.TracedStep | extract_trees.py:30-149 | one pass extends the record by its position, label and text, and a match it adds while nothing merges has this pass as its origin |
| ExtractTrees.Conclude | extract_trees.py:102-149 | settling and the step after it resume where the pass resumes and keep the invariant; the ranges are the head's; a node that neither matches nor closes leaves the pending list unchanged; while nothing merges a match adds the node's slice |
| ExtractTrees.InvStep | extract_trees.py:39-149 | the loop invariant is kept across one loop pass |
| ExtractTrees.Visit | extract_trees.py:39-149 | one loop pass keeps the invariant and advances; at `,` or `:` it moves by exactly one and changes nothing else; it is the pass `Next` describes |
| ExtractTrees.VisitPass | extract_trees.py:39-149 | a pass at any character but `;` and `(` keeps the invariant and the record and advances; a failure is the error `Advance` gives there, with the record unchanged; the result is the pass `Next` describes |
| ExtractTrees.Pass | extract_trees.py:31-149 | one pass at any character but `;` keeps the invariant and the record and advances; a failure is the error `Advance` gives there, with the record unchanged; the result is the pass `Next` describes |
| ExtractTrees.Search | extract_trees.py:30-149 | the result is `Loop` run from the top with every target sought, so it stops as soon as the search is over and not earlier (`LoopResult`): with every target found and nothing left to merge, or at a `;`; the loop leaves a walk of the text from every target sought and the record of what it read; a failure ends the walk |
| ExtractTrees.Extract | extract_trees.py:14-160 | the result is `Extracted` of the arguments; otherwise the same promises as the strict extractor, over the lenient passes: the walk starts with every target sought, the targets not found are what `Sought` leaves from the labels read, an error is reading past the end or the failure of the last pass (an IndexError, a ValueError or the loop that never ends), and there is no `assert` |
| ExtractTrees.Heading | extract_trees.py:39-100 | the head of a pass from the node `Lex` reads: the node starts at the popped `(` when expanded and else at the label, and the match is `MatchLabel` on that label, as `Headed` requires |
| ExtractTrees.Next | extract_trees.py:34-149 | one pass of the loop as a function of the state: `(` is pushed, any other character is the visit `Heading` and `Concluded` describe; it moves forward to a state the loop can run from, and fails only with one `FailureAt` allows |
| ExtractTrees.NextOpen | extract_trees.py:34-37 | a pass over `(` pushes its offset and changes nothing else |
| ExtractTrees.NextVisit | extract_trees.py:39-149 | a pass at any character but `(` is the visit `Heading` and `Concluded` describe for the node `Lex` reads there |
| ExtractTrees.InvOpen | extract_trees.py:34-37 | a pass over `(` keeps the loop invariant |
| ExtractTrees.OpenScan | extract_trees.py:34-37 | the `(` branch of the loop body pushes the offset, keeps the invariant and the record, and is the pass `Next` describes |
| ExtractTrees.VisitHeaded | extract_trees.py:102-149 | after a head that succeeded, settling keeps the invariant, advances, steps as `Advance` does, and is the pass `Next` describes |
| ExtractTrees.NextKeeps | extract_trees.py:85-149 | a pass never adds a target back, and in separate mode it keeps every pending node named |
| ExtractTrees.LoopResult | extract_trees.py:30-149 | `Loop` stops in a state the loop can run from, no earlier than it started and with no target added back; it stops with the search over (every target found and, in merge mode, at most one pending node) or at a `;`; it stops at once when the search is already over; a failure is one `FailureAt` allows or the IndexError at the end; in separate mode every pending node it leaves is named |
| ExtractTrees.LoopStops | extract_trees.py:30-32 | the loop stops with the state as it is when the search is over or at a `;` |
| ExtractTrees.LoopEnds | extract_trees.py:31 | reading past the end while the search goes on is the IndexError at the end of the text |
| ExtractTrees.LoopGoes | extract_trees.py:30-149 | otherwise the loop ends where the pass fails, or goes on from the state after it |
| ExtractTrees.Round | extract_trees.py:31-149 | one round of the loop body keeps the invariant and the record, and `Loop` from the new state is `Loop` from the old one; a failure is where `Loop` fails and ends the walk |
| ExtractTrees.Concluded | extract_trees.py:102-149 | after a visit the scan ends at the node's end or one past it, with the visit's stack, ranges and targets; a match is the newest pending node and carries its name; a visit fails only when it matched nothing and closed no `(` |
| ExtractTrees.Done | extract_trees.py:30 | the search is over exactly when the `while` condition `target_taxa or (len(nodes) >= 2 and not separate_trees)` is false |
| ExtractTrees.Loop | extract_trees.py:30-149 | the `while` as a function of the state: it never moves back, it stops where the search is over or at a `;`, and it fails only as `FailureAt` allows or with the IndexError at the end of the text |
| ExtractTrees.Continue | extract_trees.py:34-149 | the loop after one more pass: it stops strictly past where it started, where the search is over or at a `;`, and fails only as `FailureAt` allows or with the IndexError at the end of the text |
| ExtractTrees.LoopLast | extract_trees.py:30-149 | a pass that ends the search is the last one: the loop returns the state that pass leaves |
| ExtractTrees.Begun | extract_trees.py:17-28 | the loop starts from a state with every target sought, where the invariant and the record hold with one position traced |
| ExtractTrees.ConcludedReady | extract_trees.py:102-149 | the visit to the node `Lex` reads moves forward to a state the loop can run from, or fails as `FailureAt` allows |
| ExtractTrees.Extracted | extract_trees.py:14-160 | `extract` as a function: a success leaves only targets unfound and is separate exactly as asked; some targets stay unfound only when the text has a `;`; a failure is one `FailureAt` allows or the IndexError at the end |
| ExtractTrees.LexesA | extract_trees.py:55-83 | the node read at the top of a text opening with `A,`, `A;` or `A)` is the label `A`, ending at offset 1 |
| ExtractTrees.FindsA | extract_trees.py:39-149 | the first pass over such a text with target `A` finds it, leaves the node `A` pending and nothing sought, and stops at the character after it |
| ExtractTrees.StopsAfterLastTarget | extract_trees.py:30-32 | on `A,)` with target `A` the loop stops right after `A`, never reading the comma or the stray `)`, and `extract` returns `A` with nothing unfound |
| ExtractTrees.LexesX | extract_trees.py:55-83 | in `(X,X_ottT);` the node read at offset 1 is the label `X`, ending at the comma |
| ExtractTrees.LexesXott | extract_trees.py:55-83 | the node read at offset 3 is the label `X_ottT`, ending at the `)` |
| ExtractTrees.FindsX | extract_trees.py:39-147 | the pass at offset 1 finds `X`, leaves it pending one level deep with `T` still sought, and stops at the comma |
| ExtractTrees.StepsComma | extract_trees.py:148-149 | the pass at the comma moves past it and changes nothing else |
| ExtractTrees.HeadsXott | extract_trees.py:39-100 | at offset 3 of `(X,X_ottT);` the label read is `X_ottT`; the node, not expanded, starts at it and is matched by its ott id `T`, leaving nothing sought |
| ExtractTrees.ConcludesXott | extract_trees.py:102-147 | settling that head appends the node `X_ottT` beside `X` and resumes at the `)` |
| ExtractTrees.FindsXott | extract_trees.py:39-147 | the pass at offset 3 finds `T` through the ott id of `X_ottT`, leaves both leaves pending and nothing sought, and stops at the `)` |
| ExtractTrees.ClosesPair | extract_trees.py:39-147 | the pass at the `)` pops the stack and merges the two leaves into `(X,X_ottT)` |
| ExtractTrees.PairLoopAtClose | extract_trees.py:30-149 | from the `)` the loop goes on, since two nodes are pending in merge mode, merges them and stops with every target found |
| ExtractTrees.PairLoopAtOtt | extract_trees.py:30-149 | from offset 3, with `T` still sought, the loop reaches the same end |
| ExtractTrees.PairLoopAtComma | extract_trees.py:30-149 | from the comma, with `T` still sought, the loop reaches the same end |
| ExtractTrees.PairLoop | extract_trees.py:30-149 | from the top of `(X,X_ottT);` with both targets sought, the loop ends with the one node `(X,X_ottT)` and nothing sought |
| ExtractTrees.AccountsByOtt | extract_trees.py:85-87 | `extract` on `(X,X_ottT);` with targets `X` and `T` finds both, `T` by the ott id of a label whose name was already taken, and returns `(X,X_ottT)` |
| EnumerateNodes.LexNode | enumerate_nodes.py:45-74 | the label is what `LexLabel` reads; a `:` followed by a reserved character needs a decimal length, which runs to it; a `:` with none after it keeps the default; a missing label is an error only when the source raises it |
| EnumerateNodes.LexEdge | enumerate_nodes.py:59-74 | a length runs from after the `:` to the next reserved character and is a decimal literal, or fails as `invalid edge length` just after the `:`; with no reserved character after it no length is read; an accepted node not after `)` has a non-empty label or a non-zero length, and `expected a taxon` is raised only for one with neither |
| EnumerateNodes.Labelled | enumerate_nodes.py:73-74 | a node is accepted exactly after `)`, with a non-empty label, or with a non-zero length |
| EnumerateNodes.Fields | enumerate_nodes.py:76-81 | a non-empty label yields its `_ott` split; an empty or missing one has no ott id |
| EnumerateNodes.ReadNode | enumerate_nodes.py:26-83 | a `)` after a comma is `unexpected comma` and a `)` with nothing open is `unmatched closed brace`; every error is a syntax error the source raises; the record is the node read at its label offset; at `)` it starts at the popped `(`, else at the label; its depth is the size of the stack left, and it ends after where it starts |
| EnumerateNodes.Past | enumerate_nodes.py:85-86 | the offset after a node is its end, or one past it exactly when a comma is there |
| EnumerateNodes.Advance | enumerate_nodes.py:19-86 | one pass moves forward and keeps the open `(` behind the offset; it yields nothing exactly at `(`; it fails only at a node, with a syntax error the source raises |
| EnumerateNodes.Enumerated | enumerate_nodes.py:11-86 | what the generator yields from a position: every error is a syntax error the source raises; at the end of the text it is the IndexError with nothing yielded; at `;` it stops with nothing yielded |
| EnumerateNodes.Outcome | enumerate_nodes.py:11-86 | the records already yielded are a prefix of all the generator yields, and its final error is the one the rest of the scan ends with; before anything is yielded it is the generator's whole output |
| EnumerateNodes.OutcomeOpen | enumerate_nodes.py:21-24 | a pass over `(` leaves what is yielded in all unchanged |
| EnumerateNodes.OutcomeNode | enumerate_nodes.py:26-86 | a pass over a node adds its record to those yielded so far and leaves what is yielded in all unchanged |
| EnumerateNodes.OutcomeFails | enumerate_nodes.py:26-74 | a node that cannot be read ends the generator with its error and no more records |
| EnumerateNodes.OutcomeStarts | enumerate_nodes.py:11-19 | bookkeeping for the loop invariant: before the first pass, what is yielded in all is what the generator yields from the top |
| EnumerateNodes.OutcomeEnds | enumerate_nodes.py:19 | bookkeeping for the loop invariant: where nothing more is yielded, the total is what was yielded so far |
| EnumerateNodes.AppendPostOrder | enumerate_nodes.py:19-83 | appending the next node keeps post-order: each record lies before or inside every later one |
| EnumerateNodes.AppendNested | enumerate_nodes.py:19-83 | appending the next node keeps nested records deeper than the records that enclose them |
| EnumerateNodes.AppendPlaced | enumerate_nodes.py:19-83 | after the next node the records lie behind its end and straddle no open `(` |
| EnumerateNodes.InvPush | enumerate_nodes.py:21-24 | pushing a `(` keeps the invariant |
| EnumerateNodes.InvAppend | enumerate_nodes.py:26-86 | yielding a node keeps the invariant |
| EnumerateNodes.Step | enumerate_nodes.py:19-86 | one loop pass keeps the invariant, advances, and yields at most one new record after the old ones; what is yielded in all, by `Enumerated` from the new position, stays as it was; a failure is the error `Enumerated` raises at once from the old position |
| EnumerateNodes.StepNode | enumerate_nodes.py:26-86 | a pass at a node keeps the invariant, advances, yields at most one record after the old ones, keeps what is yielded in all, and fails with the error `Enumerated` raises there |
| EnumerateNodes.Enumerate | enumerate_nodes.py:11-86 | the records and the error are exactly what `Enumerated` yields from the top of the text; every record is the node read at its label offset, with the source's fields; records come in post-order; a nested record is deeper than the record enclosing it; each spans a non-empty piece before the end; failures are the syntax errors the source raises |
| ExtractMinimalTree.TokenEnd | extract_minimal_tree.py:33 | `[^(),;]*` matches the maximal run of non-delimiters |
| ExtractMinimalTree.FindTaxon | extract_minimal_tree.py:34 | the lazy search returns a prefix whose remainder matches the `_ott` and length suffix |
| ExtractMinimalTree.FindTaxonShortest | extract_minimal_tree.py:34 | the prefix found is made of word characters and no shorter prefix fits |
| ExtractMinimalTree.FindTaxonNone | extract_minimal_tree.py:34 | when the search fails no word prefix fits |
| ExtractMinimalTree.TaxonOf | extract_minimal_tree.py:34-63 | group 1 is the shortest word prefix followed by a well-formed suffix, and None exactly when no prefix fits |
| ExtractMinimalTree.TaxonAt | extract_minimal_tree.py:58-62 | a name matched in the token at the offset is a word prefix of that token, and the rest of the token is a valid ott-id and length suffix |
| ExtractMinimalTree.TaxonOfShortest | extract_minimal_tree.py:34 | a fitting prefix with no shorter fitting prefix is the name |
| ExtractMinimalTree.TaxonIgnoresOtt | extract_minimal_tree.py:34-64 | `name_ottID:len` is matched on the name alone |
| ExtractMinimalTree.OttRestMatches | extract_minimal_tree.py:34 | `_ott` + digits + a length is a well-formed suffix |
| ExtractMinimalTree.ShorterPrefixFails | extract_minimal_tree.py:34 | no prefix shorter than the name leaves a well-formed suffix |
| ExtractMinimalTree.Level | extract_minimal_tree.py:82 | the comprehension keeps exactly the nodes at the given depth |
| ExtractMinimalTree.Lower | extract_minimal_tree.py:83-84 | `node["depth"] -= 1` lowers exactly the nodes one level deeper |
| ExtractMinimalTree.CollectedDepths | extract_minimal_tree.py:64-79 | after a match nothing deeper than it is pending |
| ExtractMinimalTree.CollectedNode | extract_minimal_tree.py:64-79 | a match appends its slice when expanded or childless, else a wrapper of its children; the shallower nodes stay before it |
| ExtractMinimalTree.BubbledDepths | extract_minimal_tree.py:81-93 | closing a level leaves nothing deeper than the level closed back to |
| ExtractMinimalTree.BubbledLifts | extract_minimal_tree.py:81-93 | at `)` the nodes one level deeper move up; two or more are replaced by one wrapper at the current depth |
| ExtractMinimalTree.Collected | extract_minimal_tree.py:64-79 | a match takes the deeper nodes as its children and adds one node holding its slice, when expanded or childless, or the wrapped children |
| ExtractMinimalTree.Bubbled | extract_minimal_tree.py:81-93 | at `)` the nodes one level deeper move up, and two or more are wrapped under the token |
| ExtractMinimalTree.Reduced | extract_minimal_tree.py:58-93 | a token's effect on the pending list: the match step, then the `)` step |
| ExtractMinimalTree.ReducedDepths | extract_minimal_tree.py:58-93 | every token keeps the pending nodes within the stack |
| ExtractMinimalTree.ReducedNonEmpty | extract_minimal_tree.py:58-93 | a match always leaves a pending node, and the list never empties once non-empty |
| ExtractMinimalTree.ReducedFirst | extract_minimal_tree.py:64-74 | the first match becomes the only pending node, holding its source slice |
| ExtractMinimalTree.SoughtStep | extract_minimal_tree.py:58-66 | examining a token removes its name exactly when it is still sought, with the token as witness |
| ExtractMinimalTree.Sighted | extract_minimal_tree.py:61-66 | the names sought never grow, and the token carried a sought name exactly when they shrink |
| ExtractMinimalTree.InvToken | extract_minimal_tree.py:58-96 | the loop invariant after one token |
| ExtractMinimalTree.ShapeToken | extract_minimal_tree.py:45-93 | the popped stack stays behind the scan and depths stay within it |
| ExtractMinimalTree.SingleToken | extract_minimal_tree.py:64-93 | with one name sought, its match creates the only pending node, holding its slice |
| ExtractMinimalTree.Pass | extract_minimal_tree.py:40-96 | one loop pass moves forward and keeps the open `(` behind the offset, examining no token at `(`; `Took` is where a token pass ends |
| ExtractMinimalTree.Took | extract_minimal_tree.py:58-96 | a token pass ends at the token's end, or one past a comma there, with no `;` passed and the stack given |
| ExtractMinimalTree.PassScans | extract_minimal_tree.py:36-96 | a pass never steps over a `;` |
| ExtractMinimalTree.PassExamines | extract_minimal_tree.py:40-61 | a pass examines a token exactly when not at `(`, at an offset within the pass and the text |
| ExtractMinimalTree.PassFails | extract_minimal_tree.py:45-95 | a pass fails only as the IndexError of a `)` with nothing open, or of reading past the end when no delimiter follows |
| ExtractMinimalTree.Run | extract_minimal_tree.py:36-96 | the loop from a position: it ends at `;` or the end of the text or when nothing is left to find, with no `;` passed; every offset examined lies in the text ahead; a failure is the IndexError at an unmatched `)` or at the end |
| ExtractMinimalTree.Continues | extract_minimal_tree.py:36-38 | the loop goes on exactly when `taxa or len(nodes) >= 2` holds and the offset is neither at the end of the text nor at a `;` |
| ExtractMinimalTree.Expand | extract_minimal_tree.py:15-20 | expanding is on exactly when the flag is given as true or only one name is sought |
| ExtractMinimalTree.Report | extract_minimal_tree.py:98-101 | names left are reported missing; otherwise the result is the first pending node's text, and with none pending the IndexError of `nodes[0]` |
| ExtractMinimalTree.InvPass | extract_minimal_tree.py:36-96 | one pass keeps the loop invariant, with its examined offset added |
| ExtractMinimalTree.InvTokenPass | extract_minimal_tree.py:45-96 | a pass not at `(` examines a token and keeps the invariant with it added |
| ExtractMinimalTree.RunStep | extract_minimal_tree.py:36-96 | one pass leaves the loop's final result and the offsets it examines in all as they were |
| ExtractMinimalTree.MinimalTree | extract_minimal_tree.py:14-20 | the result is what `Report` makes of the loop run `Run` from the top, `starts` being the offsets it examined; an error is an IndexError at an unmatched `)` or at the end of the text; no names is an IndexError; names reported missing are exactly the requested names that no examined token matched, and the scan stopped at `;` or the end; every name found has a token naming it; a single name's tree is a piece of the input |
| OneZoomTokens.NameEnd | getOpenTreesFromOneZoom_fast.py:24 | the maximal run of `[\w\-~]` |
| OneZoomTokens.LengthEnd | getOpenTreesFromOneZoom_fast.py:24 | the maximal run of `[\d\.]`: where `Text.LengthEnd` finds a character that is neither a digit nor a `.`, or the end of the text where it finds none |
| OneZoomTokens.SpecTail | getOpenTreesFromOneZoom_fast.py:25 | `(\d*)~?([-\d]*)$` splits the rest into digits and a dash-digit list, which put back together give the rest |
| OneZoomTokens.OttSplit | getOpenTreesFromOneZoom_fast.py:25 | the greedy `(\w+)` takes the longest prefix that fits, and no longer one does |
| OneZoomTokens.Decode | getOpenTreesFromOneZoom_fast.py:40-51 | a name has ids exactly when some prefix fits `ott_details`; without ids the name is kept |
| OneZoomTokens.IdsJoin | getOpenTreesFromOneZoom_fast.py:42-51 | the exclusion list split at `-` gives its first entry as the base and the rest as exclusions, or the `_ott` id as base when the first entry is empty |
| OneZoomTokens.Ids | getOpenTreesFromOneZoom_fast.py:42-51 | the base and exclusions from the `-` split of the exclusion list, and the name with or without its `_ott` id |
| OneZoomTokens.Decorated | getOpenTreesFromOneZoom_fast.py:35-51 | the yielded dict for one match: its offsets, length and decoded name |
| OneZoomTokens.NoFitAfter | getOpenTreesFromOneZoom_fast.py:25 | no `_ott` split lies past the last `_` |
| OneZoomTokens.JoinDashDigit | getOpenTreesFromOneZoom_fast.py:25 | digit strings joined by `-` fit `[-\d]*` |
| OneZoomTokens.DecodeTilde | getOpenTreesFromOneZoom_fast.py:8-11 | `name_ottID~A-B-C` decodes to base A with exclusions B, C and drops the suffix; `name_ottID~-B-C` has base ID and keeps `_ottID` |
| OneZoomTokens.TildeTail | getOpenTreesFromOneZoom_fast.py:25 | `ID~LIST` parses as id ID and list LIST |
| OneZoomTokens.SplitAtName | getOpenTreesFromOneZoom_fast.py:25 | with a tail holding no `_`, the greedy split stops at the word before `_ott` |
| OneZoomTokens.DecodePlain | getOpenTreesFromOneZoom_fast.py:7 | `name_ottID` has base ID, no exclusions, and keeps its name |
| OneZoomTokens.PlainTail | getOpenTreesFromOneZoom_fast.py:25 | a digits-only tail is the id and an empty list |
| OneZoomTokens.EmptyIds | getOpenTreesFromOneZoom_fast.py:44-51 | an empty exclusion list gives the id as base and keeps the suffix |
| OneZoomTokens.DecodeNoOtt | getOpenTreesFromOneZoom_fast.py:35-40 | a name without `_ott` keeps its text and has no ids |
| OneZoomTokens.DecodesPlainExample | getOpenTreesFromOneZoom_fast.py:7 | `foobar_ott123` has base 123 |
| OneZoomTokens.DecodesTildeExample | getOpenTreesFromOneZoom_fast.py:8 | `foobar_ott123~456-789-111` is `foobar`, base 456, exclusions 789 and 111 |
| OneZoomTokens.DecodesTildeDashExample | getOpenTreesFromOneZoom_fast.py:10 | `foobar_ott123~-789-111` keeps `foobar_ott123`, base 123 |
| OneZoomTokens.DecodesNoIdExample | getOpenTreesFromOneZoom_fast.py:11 | `foobar_ott~456-789-111` is `foobar`, base 456 |
| OneZoomTokens.DecodesPlainNameExample | getOpenTreesFromOneZoom_fast.py:35-40 | `METAZOA` has no ids |
| OneZoomTokens.MatchAt | getOpenTreesFromOneZoom_fast.py:24-37 | a match at `q` has a non-empty name of `[\w\-~]` characters, and a length is the maximal `[\d\.]` run after a `:` |
| OneZoomTokens.ScanStart | getOpenTreesFromOneZoom_fast.py:32 | the scan starts at the first `]` when the text has a `[`, else at 0, and fails exactly when a `[` has no `]` |
| OneZoomTokens.MatchBadLength | getOpenTreesFromOneZoom_fast.py:37 | a length that is not a decimal literal sits right after a `:` |
| OneZoomTokens.ScannedAppend | getOpenTreesFromOneZoom_fast.py:34 | taking the match at the scan offset extends the scan to its end |
| OneZoomTokens.ScannedSkip | getOpenTreesFromOneZoom_fast.py:34 | passing an offset where nothing matches extends the scan |
| OneZoomTokens.InOrderAppend | getOpenTreesFromOneZoom_fast.py:34 | a token that starts where the scan stands extends the left-to-right order of the tokens |
| OneZoomTokens.EnumerateOneZoomTokens | getOpenTreesFromOneZoom_fast.py:30-54 | the tokens are, from the start offset, every pattern match left to right without overlap, each decoded, and every uncovered offset starts no match; a `[` without `]` fails as `index` does, with no token; a length `float` rejects fails at the offset just after its `:`, the tokens being those of the matches before it and the failing match being the next one the scan reaches |
| BuildOzTree.CommentEnd | build_oz_tree.py:66-67 | the tree starts just past the first `]` when there is a `[`, else at 0; it fails exactly when a `[` has no `]` |
| BuildOzTree.SpaceEnd | build_oz_tree.py:70 | the first non-whitespace at or after `i` |
| BuildOzTree.SpaceStart | build_oz_tree.py:70 | the end of the last non-whitespace before `j` |
| BuildOzTree.StripBounds | build_oz_tree.py:70 | everything outside the bounds is whitespace, and the bounds hold non-whitespace at both ends |
| BuildOzTree.Strip | build_oz_tree.py:70 | `strip()` has no whitespace at either end, and is empty exactly when the text is all whitespace |
| BuildOzTree.TrimTree | build_oz_tree.py:64-76 | the trimmed tree is a piece of the input that does not start with whitespace; failures are runtime errors |
| BuildOzTree.TrimmedSlice | build_oz_tree.py:67-74 | the stripped body, and the body without its last character, are pieces of the input |
| BuildOzTree.TrimTreeFails | build_oz_tree.py:66-73 | trimming fails exactly for an unclosed `[`, or for text that is all whitespace after its comment |
| BuildOzTree.TrimTreeUnchanged | build_oz_tree.py:64-76 | text with nothing to trim comes back unchanged |
| BuildOzTree.StripUnchanged | build_oz_tree.py:70 | text with no whitespace at either end is its own `strip()` |
| BuildOzTree.TrimTreeOneSemicolon | build_oz_tree.py:73-74 | only one trailing `;` goes: `A;;` becomes `A;` |
| BuildOzTree.TrimTreeDropsComment | build_oz_tree.py:66-67 | a leading comment does not change the result |
| BuildOzTree.SameBody | build_oz_tree.py:66-76 | texts whose comments end where the same body starts trim alike |
| FindInFile.StreamEnd | utilities/find_in_file.py:23 | `while chunk` reads up to the first empty chunk |
| FindInFile.PyLast | utilities/find_in_file.py:46-53 | `s[-n:]` is the last `n` characters, the whole string when shorter, and the whole string for `n == 0` |
| FindInFile.OverlapBorder | utilities/find_in_file.py:33 | two overlapping occurrences lie a border's length apart |
| FindInFile.Positions | utilities/find_in_file.py:48 | a position is reported exactly when some hit has it |
| FindInFile.ChunkHits | utilities/find_in_file.py:31-48 | the hits of one chunk are occurrences in `chunk + next` that start in the chunk, left to right, each with its window, and for a pattern that cannot overlap itself all of them |
| FindInFile.ScanStep | utilities/find_in_file.py:33-48 | taking the next match keeps the inner-loop invariant up to its end |
| FindInFile.ScanDone | utilities/find_in_file.py:35-36 | when no further match starts in the chunk, the hits are all the chunk's matches |
| FindInFile.SkipOverlaps | utilities/find_in_file.py:33 | past one match of a pattern that cannot overlap itself, nothing else starts before its end |
| FindInFile.GetMatches | utilities/find_in_file.py:15-55 | an empty stream fails as `next` does, and only then; the positions reported are occurrences in the whole text, strictly increasing, each within a window of at most `w` characters each side; on an even stream the windows are the full ones; with a pattern that cannot overlap itself every occurrence is reported once |
| FindInFile.Started | utilities/find_in_file.py:16-21 | before the first chunk nothing is reported or missed |
| FindInFile.ChunkStep | utilities/find_in_file.py:23-55 | one chunk's hits extend the outer-loop invariant to the next chunk |
| FindInFile.ChunkAdvance | utilities/find_in_file.py:33-50 | a chunk's hits extend sound, exact and complete results up to the chunk's end |
| FindInFile.HitsInText | utilities/find_in_file.py:33-48 | each hit of a chunk is an occurrence in the whole text, in its window |
| FindInFile.HitInText | utilities/find_in_file.py:39-48 | one hit is an occurrence in the whole text, framed by its window, the full one when the text around allows |
| FindInFile.HitFramed | utilities/find_in_file.py:39-46 | the window is the slice of the text from `left` before the match to at most `w` after it, with `left` as the borrowing rule gives it |
| FindInFile.PyWindow | utilities/find_in_file.py:39-46 | the window: up to `w` characters each side within the searched string, the missing left ones from the end of the kept tail |
| FindInFile.SoundStep | utilities/find_in_file.py:48-50 | the hits so far and the next chunk's are sound up to the chunk's end |
| FindInFile.ExactStep | utilities/find_in_file.py:39-48 | exact windows stay exact when lists are joined |
| FindInFile.CompleteStep | utilities/find_in_file.py:33-36 | no occurrence before the chunk's end is missed |
| FindInFile.WindowLeft | utilities/find_in_file.py:44-46 | a match near the start of the chunk borrows its left side from the kept tail |
| FindInFile.WindowRight | utilities/find_in_file.py:39-43 | a match far from the start takes its whole left side from the searched string |
| FindInFile.WindowExact | utilities/find_in_file.py:39-46 | the window is the full one when the kept tail is long enough and the searched string reaches past the window |
| FindInFile.WindowLength | utilities/find_in_file.py:39-46 | the window's length is its left side plus the match and right side within the searched string |
| FindInFile.WindowEnd | utilities/find_in_file.py:40 | the right side reaches `w` past the match or the end of the text |
| FindInFile.ChunkSpan | utilities/find_in_file.py:50 | each chunk sits in the whole text from its offset to the next chunk's |
| FindInFile.OffsetEnd | utilities/find_in_file.py:50 | the offset past the last chunk is the length of the whole text |
| FindInFile.CurInText | utilities/find_in_file.py:25-31 | `chunk + next` sits in the whole text at the chunk's offset, and on an even stream reaches a match and a window past the chunk |
| FindInFile.PreInText | utilities/find_in_file.py:21-53 | the kept tail sits just before the chunk |
| FindInFile.PreLong | utilities/find_in_file.py:53 | on an even stream the kept tail is a whole window, or all the text before the chunk |
| FindInFile.WindowZero | utilities/find_in_file.py:39-46 | with window 0 every window is exactly the matched text |
| FindInFile.NoOccurrenceNoHits | utilities/find_in_file.py:33-48 | a pattern that never occurs yields nothing |
| FindInFile.ReportedOnce | utilities/find_in_file.py:33-50 | no position is reported twice |
| FindInFile.Determined | utilities/find_in_file.py:15-55 | a sound, exact and complete list is unique, so the result does not depend on how an even stream is chunked |

## Left out

- The command-line entry points, logging, file reading and writing are not modelled. The text and the chunk stream are parameters.
- `enumerate_nodes` and `enumerate_one_zoom_tokens` are modelled as the list of what they yield before they stop, together with the error they then raise, if any. `get_matches` is modelled as the whole list it yields, or as the error of its first `next`, before which it yields nothing. A caller that stops consuming a generator early is not modelled.
- The exception messages and the `Text=...` context are not modelled. Each failure keeps only its kind and its offset.
- Python's `\w` and `\d` are modelled on ASCII only. `str.isspace()` covers only the Latin-1 range.
- Python's `float` grammar is not modelled. An edge length is kept as text and checked against a decimal-literal predicate (an optional sign, digits, at most one `.`). Exponents, `inf`, `nan`, underscores and surrounding blanks are left out: `float(" 1.0")` is accepted, so `(A: 1.0);` is read by `enumerate_nodes` but fails `EnumerateNodes.LexEdge`.
- General regular expressions are not modelled. `get_matches` takes a literal pattern.
- `expand_newick`, the file-level OneZoom functions, `format_newick`, `analyze_tree`, `test.py` and the `tmp/` scripts are not part of this model, and neither are the data tables of `build_oz_tree.py`.
- EnumerateNodes.Enumerate: a record's depth is the size of the stack at the pass of `Enumerated` that reads it, and a nested record is deeper than one enclosing it. It is not restated as a count of the `(` before the node that are still open.
- ExtractMinimalTree.MinimalTree: the result is pinned to `Report` of the loop run `Run`, but the text of the tree is described only for a single name (a piece of the input). With several names it proves which names were found and where, not the shape of the joined tree.
- ExtractMinimalTree.MinimalTree: `--no-expand_taxa` is modelled like the flag not given. The source's `if not expand_taxa` makes them the same.
- OldExtractTrees.Extract: the merged tree's text is tied to what the scan read only for a single match, where it is the text read at that match's label, and for every separate tree. With several merged matches nothing ties the wrapped text to `Extract`: `SettledWraps`, `SettledWrapsMatch` and `SettledKeepsSlice` describe one settling step of `Settled`, which `Settle` computes, but no lemma follows the wrapping across the whole scan. With excluded taxa the text of the trees is not described; the search, the counts and the error cases are.
- ExtractTrees.Extract: the same limits as the strict extractor, for several merged matches and for excluded taxa.
- FindInFile.GetMatches: windows are exact, and every occurrence is found, only on an even stream (each chunk before the last holds a match and a window). With a pattern that can overlap itself, only soundness is stated, because `finditer` skips overlapping matches.
- FindInFile.ChunkHits: the same limit holds for one chunk. With a pattern that can overlap itself, each hit is stated to be an occurrence that starts in the chunk, but not which of the overlapping occurrences `finditer` takes.
- FindInFile.GetMatches: the window size is a `nat`. The `--window_size` option (find_in_file.py:23, `type=int`) also accepts a negative number, and what `get_matches` does with one is not modelled.
- FindInFile.GetMatches: the chunk iterator is a sequence, and `chunks == []` stands for the StopIteration of the first `next`, which becomes `RuntimeFailure(0)`.
- BuildOzTree.TrimTree: the ValueError of `index` and the IndexError of `tree[-1]` both become `RuntimeFailure`.
