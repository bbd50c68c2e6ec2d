/**
 * The OneZoom token scanner of getOpenTreesFromOneZoom_fast.py. A OneZoom
 * Newick file marks the Open Tree subtrees it grafts in with tokens such as
 * `foobar_ott123~456-789@`: a name, the ott id of the subtree to copy, and
 * ott ids of descendant subtrees to leave out of it. The scanner finds the
 * tokens of a text left to right and decodes each token's name.
 */
module OneZoomTokens {
  import opened Wrappers
  import opened Text
  import opened NewickCommon

  /** The class `[\w\-~]` of token-name characters. */
  predicate IsNameChar(c: char) {
    IsWord(c) || c == '-' || c == '~'
  }

  /** The class `[-\d]` of the exclusion list. */
  predicate IsDashDigit(c: char) {
    c == '-' || IsDigit(c)
  }

  predicate AllDashDigit(s: string) {
    forall k :: 0 <= k < |s| ==> IsDashDigit(s[k])
  }

  /** The end of the run of name characters that starts at `i`. */
  function NameEnd(s: string, i: nat): (e: nat)
    requires i <= |s|
    ensures i <= e <= |s|
    ensures forall k :: i <= k < e ==> IsNameChar(s[k])
    ensures e < |s| ==> !IsNameChar(s[e])
    decreases |s| - i
  {
    if i == |s| || !IsNameChar(s[i]) then i else NameEnd(s, i + 1)
  }

  /**
   * The end of the run of edge-length characters that starts at `i`: where
   * `Text.LengthEnd` finds a character that is neither a digit nor a `.`, or
   * the end of the text where it finds none.
   */
  function LengthEnd(s: string, i: nat): (e: nat)
    requires i <= |s|
    ensures i <= e <= |s|
    ensures forall k :: i <= k < e ==> IsLengthChar(s[k])
    ensures e < |s| ==> !IsLengthChar(s[e])
  {
    match Text.LengthEnd(s, i)
    case Some(j) => j
    case None => |s|
  }

  // ---------------------------------------------------------------------------
  // Decoding a token name: `(\w+)_ott(\d*)~?([-\d]*)$`
  // ---------------------------------------------------------------------------

  /**
   * `(\d*)~?([-\d]*)$` on the text after `_ott`: the id digits, and the
   * exclusion list after an optional `~`. The digits are the whole run of
   * them, since the rest must start with `~`, `-` or nothing.
   */
  function SpecTail(r: string): (t: Option<(string, string)>)
    ensures t.Some? ==> AllDigits(t.value.0) && AllDashDigit(t.value.1)
    ensures t.Some? ==>
      r == t.value.0 + t.value.1 || r == t.value.0 + "~" + t.value.1
  {
    var d := DigitsEnd(r, 0);
    SplitAround(r, d);
    if d < |r| && r[d] == '~' && AllDashDigit(r[d + 1..]) then Some((r[..d], r[d + 1..]))
    else if AllDashDigit(r[d..]) then Some((r[..d], r[d..]))
    else None
  }

  /** A text is its part before `d` and its part after, with the character at `d` between them. */
  lemma SplitAround(r: string, d: nat)
    requires d <= |r|
    ensures r == r[..d] + r[d..]
    ensures d < |r| ==> r == r[..d] + [r[d]] + r[d + 1..]
  {
    if d < |r| {
      assert r[d..] == [r[d]] + r[d + 1..];
    }
  }

  /** `(\w+)` of length `k` can be followed by `_ott` and a well-formed tail. */
  predicate Fits(name: string, k: nat) {
    && 1 <= k && OccursAt(name, OttMarker, k)
    && AllWord(name[..k])
    && SpecTail(name[k + 4..]).Some?
  }

  /** The greedy `(\w+)` tried from length `k` down: the longest length that fits. */
  function OttSplit(name: string, k: nat): (r: Option<nat>)
    ensures r.Some? ==> r.value <= k && Fits(name, r.value)
    ensures forall j :: (if r.Some? then r.value else 0) < j <= k ==> !Fits(name, j)
  {
    if k == 0 then None
    else if Fits(name, k) then Some(k)
    else OttSplit(name, k - 1)
  }

  /** The ids of a `_ott~` token: the subtree to copy and the subtrees to leave out of it. */
  datatype OttSpec = OttSpec(baseOtt: string, excludedOtts: seq<string>)

  /**
   * The decoding of one token name (getOpenTreesFromOneZoom_fast.py:40-51). A
   * name that does not end in `_ott` + id + `~` + exclusions keeps its text and
   * has no ids. Otherwise the exclusion list is split at `-`; its first
   * entry, when not empty, is the subtree to copy and the name loses its
   * ott suffix; when empty, the ott before `~` is copied and the name keeps it.
   */
  function Decode(fullName: string): (r: (string, Option<OttSpec>))
    ensures r.1.None? <==> forall k :: !Fits(fullName, k)
    ensures r.1.None? ==> r.0 == fullName
  {
    match OttSplit(fullName, |fullName|)
    case None =>
      assert forall k :: !Fits(fullName, k) by {
        forall k: nat ensures !Fits(fullName, k) {
          if k > |fullName| {
            assert !OccursAt(fullName, OttMarker, k);
          }
        }
      }
      (fullName, None)
    case Some(k) =>
      var tail := SpecTail(fullName[k + 4..]).value;
      Ids(fullName[..k], tail.0, tail.1)
  }

  /**
   * The ids from the parts of a decoded name: the exclusion list split at
   * `-`, its first entry popped as the base when not empty, and otherwise
   * the id before `~` as the base, appended to the name as `_ott` + id.
   */
  function Ids(prefix: string, id: string, list: string): (string, Option<OttSpec>)
  {
    var parts := Split(list, '-');
    var first := parts[0];
    var baseOtt := if first != "" then first else id;
    (if first == "" then prefix + OttMarker + baseOtt else prefix, Some(OttSpec(baseOtt, parts[1..])))
  }

  /** Split back into its entries, a `-`-joined list gives its first entry as the base, or else the id. */
  lemma IdsJoin(prefix: string, id: string, xs: seq<string>)
    requires |xs| >= 1 && forall k :: 0 <= k < |xs| ==> AllDigits(xs[k])
    ensures Ids(prefix, id, Join(xs, '-'))
      == if xs[0] == "" then (prefix + OttMarker + id, Some(OttSpec(id, xs[1..])))
         else (prefix, Some(OttSpec(xs[0], xs[1..])))
  {
    DigitsHaveNoDash(xs);
    SplitJoin(xs, '-');
    assert Split(Join(xs, '-'), '-') == xs;
  }

  /** No `_ott` follows a name that has no `_` after offset `from`. */
  lemma NoFitAfter(name: string, from: nat)
    requires forall k :: from < k < |name| ==> name[k] != '_'
    ensures forall k :: k > from ==> !Fits(name, k)
  {
    forall k | k > from ensures !Fits(name, k) {
      if k + 4 <= |name| {
        assert name[k..k + 4][0] == name[k];
      }
    }
  }

  lemma DashDigitConcat(a: string, b: string)
    requires AllDashDigit(a) && AllDashDigit(b)
    ensures AllDashDigit(a + b)
  {
    forall k | 0 <= k < |a + b| ensures IsDashDigit((a + b)[k]) {
      if k >= |a| {
        assert (a + b)[k] == b[k - |a|];
      }
    }
  }

  /** Digit strings joined by `-` are made of `-` and digits only. */
  lemma {:induction false} JoinDashDigit(xs: seq<string>)
    requires forall k :: 0 <= k < |xs| ==> AllDigits(xs[k])
    ensures AllDashDigit(Join(xs, '-'))
  {
    if |xs| == 1 {
      assert Join(xs, '-') == xs[0];
    } else if |xs| > 1 {
      JoinDashDigit(xs[1..]);
      assert AllDashDigit(xs[0]);
      DashDigitConcat(xs[0], ['-']);
      DashDigitConcat(xs[0] + ['-'], Join(xs[1..], '-'));
    }
  }

  /** The digit strings do not hold the separator. */
  lemma DigitsHaveNoDash(xs: seq<string>)
    requires forall k :: 0 <= k < |xs| ==> AllDigits(xs[k])
    ensures forall k :: 0 <= k < |xs| ==> '-' !in xs[k]
  {
    forall k | 0 <= k < |xs| ensures '-' !in xs[k] {
      assert forall i :: 0 <= i < |xs[k]| ==> xs[k][i] != '-';
    }
  }

  /**
   * `name_ottID~A-B-C` decodes to base A and exclusions B, C, and loses its
   * ott suffix; with A empty (`name_ottID~-B-C`) the base is ID and the name
   * keeps `_ottID` (getOpenTreesFromOneZoom_fast.py:8-11, 42-51).
   */
  lemma DecodeTilde(w: string, id: string, xs: seq<string>)
    requires |w| >= 1 && AllWord(w) && AllDigits(id)
    requires |xs| >= 1 && forall k :: 0 <= k < |xs| ==> AllDigits(xs[k])
    ensures Decode(w + OttMarker + id + "~" + Join(xs, '-'))
      == if xs[0] == "" then (w + OttMarker + id, Some(OttSpec(id, xs[1..])))
         else (w, Some(OttSpec(xs[0], xs[1..])))
  {
    var joined := Join(xs, '-');
    var name := w + OttMarker + (id + "~" + joined);
    ConcatAssoc(w + OttMarker, id, "~");
    ConcatAssoc(w + OttMarker, id + "~", joined);
    JoinDashDigit(xs);
    TildeTail(id, joined);
    SplitAtName(w, id + "~" + joined);
    assert Decode(name) == Ids(w, id, joined);
    IdsJoin(w, id, xs);
  }

  lemma ConcatAssoc(a: string, b: string, c: string)
    ensures (a + b) + c == a + (b + c)
  {
  }

  /** The tail `ID~LIST` parses as id ID and exclusion list LIST. */
  lemma TildeTail(id: string, list: string)
    requires AllDigits(id) && AllDashDigit(list)
    ensures SpecTail(id + "~" + list) == Some((id, list))
    ensures forall k :: 0 <= k < |id + "~" + list| ==> (id + "~" + list)[k] != '_'
  {
    var r := id + "~" + list;
    forall k | 0 <= k < |r| ensures r[k] != '_' {
      if k < |id| {
        assert r[k] == id[k];
      } else if k > |id| {
        assert r[k] == list[k - |id| - 1];
      }
    }
    assert r[..|id|] == id;
    assert r[|id|] == '~';
    DigitsRun(r, 0, |id|);
    assert r[|id|..] == "~" + list;
    assert ("~" + list)[1..] == list;
  }

  /**
   * With a tail that holds no `_`, the greedy `(\w+)` stops at the
   * word before `_ott`: no later `_ott` can start.
   */
  lemma SplitAtName(w: string, rest: string)
    requires |w| >= 1 && AllWord(w) && SpecTail(rest).Some?
    requires forall k :: 0 <= k < |rest| ==> rest[k] != '_'
    ensures OttSplit(w + OttMarker + rest, |w + OttMarker + rest|) == Some(|w|)
    ensures (w + OttMarker + rest)[..|w|] == w && (w + OttMarker + rest)[|w| + 4..] == rest
  {
    var name := w + OttMarker + rest;
    assert name[..|w|] == w;
    assert name[|w|..|w| + 4] == OttMarker;
    assert name[|w| + 4..] == rest;
    assert Fits(name, |w|);
    forall k | |w| < k < |name| ensures name[k] != '_' {
      if k < |w| + 4 {
        assert name[k] == OttMarker[k - |w|];
      } else {
        assert name[k] == rest[k - |w| - 4];
      }
    }
    NoFitAfter(name, |w|);
  }

  /** `name_ottID` decodes to base ID, no exclusions, and keeps its name (getOpenTreesFromOneZoom_fast.py:7). */
  lemma DecodePlain(w: string, id: string)
    requires |w| >= 1 && AllWord(w) && AllDigits(id)
    ensures Decode(w + OttMarker + id) == (w + OttMarker + id, Some(OttSpec(id, [])))
  {
    var name := w + OttMarker + id;
    PlainTail(id);
    SplitAtName(w, id);
    assert Decode(name) == Ids(w, id, "");
    EmptyIds(w, id);
  }

  /** A tail of digits alone is the id with an empty exclusion list. */
  lemma PlainTail(id: string)
    requires AllDigits(id)
    ensures SpecTail(id) == Some((id, ""))
  {
    assert id[..|id|] == id && id[|id|..] == "";
    DigitsRun(id, 0, |id|);
  }

  /** An empty exclusion list gives the id as the base and keeps the name's ott suffix. */
  lemma EmptyIds(prefix: string, id: string)
    ensures Ids(prefix, id, "") == (prefix + OttMarker + id, Some(OttSpec(id, [])))
  {
    assert FindChar("", '-', 0).None?;
    assert Split("", '-') == [""];
    assert [""][1..] == [];
  }

  /** A name with no `_ott` at all keeps its text and has no ids (getOpenTreesFromOneZoom_fast.py:35-40). */
  lemma DecodeNoOtt(name: string)
    requires forall k :: 0 <= k < |name| ==> !OccursAt(name, OttMarker, k)
    ensures Decode(name) == (name, None)
  {
    assert forall k :: !Fits(name, k) by {
      forall k: nat ensures !Fits(name, k) {
        if k > |name| {
          assert !OccursAt(name, OttMarker, k);
        }
      }
    }
  }

  /** The first example of the source's documentation: a plain ott id. */
  lemma DecodesPlainExample()
    ensures Decode("foobar_ott123") == ("foobar_ott123", Some(OttSpec("123", [])))
  {
    assert "foobar" + OttMarker + "123" == "foobar_ott123";
    DecodePlain("foobar", "123");
  }

  /** The documented `~` example: a base and two exclusions, and the name loses its suffix. */
  lemma DecodesTildeExample()
    ensures Decode("foobar_ott123~456-789-111") == ("foobar", Some(OttSpec("456", ["789", "111"])))
  {
    var xs := ["456", "789", "111"];
    assert Join(xs[2..], '-') == "111";
    assert Join(xs[1..], '-') == "789-111";
    assert Join(xs, '-') == "456-789-111";
    assert xs[1..] == ["789", "111"];
    assert "foobar" + OttMarker + "123" == "foobar_ott123";
    assert "foobar_ott123" + "~" + "456-789-111" == "foobar_ott123~456-789-111";
    DecodeTilde("foobar", "123", xs);
  }

  /** The documented `~-` example: the id before `~` is the base and the name keeps it. */
  lemma DecodesTildeDashExample()
    ensures Decode("foobar_ott123~-789-111") == ("foobar_ott123", Some(OttSpec("123", ["789", "111"])))
  {
    var xs := ["", "789", "111"];
    assert Join(xs[2..], '-') == "111";
    assert Join(xs[1..], '-') == "789-111";
    assert Join(xs, '-') == "-789-111";
    assert xs[1..] == ["789", "111"];
    assert "foobar" + OttMarker + "123" == "foobar_ott123";
    assert "foobar_ott123" + "~" + "-789-111" == "foobar_ott123~-789-111";
    DecodeTilde("foobar", "123", xs);
  }

  /** The documented example with no id before `~`. */
  lemma DecodesNoIdExample()
    ensures Decode("foobar_ott~456-789-111") == ("foobar", Some(OttSpec("456", ["789", "111"])))
  {
    var xs := ["456", "789", "111"];
    assert Join(xs[2..], '-') == "111";
    assert Join(xs[1..], '-') == "789-111";
    assert Join(xs, '-') == "456-789-111";
    assert xs[1..] == ["789", "111"];
    assert "foobar" + OttMarker + "" == "foobar_ott";
    assert "foobar_ott" + "~" + "456-789-111" == "foobar_ott~456-789-111";
    DecodeTilde("foobar", "", xs);
  }

  /** A name without `_ott`, as in the source's tests. */
  lemma DecodesPlainNameExample()
    ensures Decode("METAZOA") == ("METAZOA", None)
  {
    NoFitAfter("METAZOA", 0);
  }

  // ---------------------------------------------------------------------------
  // Scanning: `'?([\w\-~]+)@'?(?::([\d\.]+))?`
  // ---------------------------------------------------------------------------

  /** One match of the token pattern: its offsets, its name, and the text of its length if any. */
  datatype RawToken = RawToken(start: nat, end: nat, name: string, edge: Option<string>)

  /**
   * The match of the token pattern that starts at `q`, if any: an optional
   * quote, a maximal run of name characters ended by `@`, an optional quote,
   * and an optional `:` with a run of digits and dots.
   */
  function MatchAt(tree: string, q: nat): (m: Option<RawToken>)
    requires q <= |tree|
    ensures m.Some? ==>
      && m.value.start == q < m.value.end <= |tree|
      && |m.value.name| > 0 && (forall k :: 0 <= k < |m.value.name| ==> IsNameChar(m.value.name[k]))
    ensures m.Some? && m.value.edge.Some? ==>
      && |m.value.edge.value| > 0
      && m.value.end - |m.value.edge.value| > q
      && tree[m.value.end - |m.value.edge.value| - 1] == ':'
      && m.value.edge.value == tree[m.value.end - |m.value.edge.value|..m.value.end]
      && m.value.end == LengthEnd(tree, m.value.end - |m.value.edge.value|)
  {
    var b := if q < |tree| && tree[q] == '\'' then q + 1 else q;
    var e := NameEnd(tree, b);
    if e == b || e == |tree| || tree[e] != '@' then None
    else
      var after := if e + 1 < |tree| && tree[e + 1] == '\'' then e + 2 else e + 1;
      if after + 1 < |tree| && tree[after] == ':' && IsLengthChar(tree[after + 1]) then
        var le := LengthEnd(tree, after + 1);
        Some(RawToken(q, le, tree[b..e], Some(tree[after + 1..le])))
      else Some(RawToken(q, after, tree[b..e], None))
  }

  /** One token as the scanner yields it: offsets, decoded name, length text, and ids when the name has them. */
  datatype OzToken = OzToken(start: nat, end: nat, fullName: string, edge: Option<string>, ott: Option<OttSpec>)

  function Decorated(m: RawToken): OzToken {
    var decoded := Decode(m.name);
    OzToken(m.start, m.end, decoded.0, m.edge, decoded.1)
  }

  /** `tree.index(']') if '[' in tree else 0`: None where `index` raises ValueError. */
  function ScanStart(tree: string): (r: Option<nat>)
    ensures r.Some? ==> r.value <= |tree|
    ensures '[' !in tree ==> r == Some(0)
    ensures '[' in tree && r.Some? ==> r.value < |tree| && tree[r.value] == ']' && forall k :: 0 <= k < r.value ==> tree[k] != ']'
    ensures '[' in tree && r.None? ==> ']' !in tree
  {
    if '[' in tree then FindChar(tree, ']', 0) else Some(0)
  }

  /** `t` is the decoded match at its start, and its length, if any, is a decimal literal. */
  predicate Yielded(tree: string, t: OzToken) {
    && t.start <= |tree|
    && MatchAt(tree, t.start).Some?
    && t == Decorated(MatchAt(tree, t.start).value)
    && (t.edge.Some? ==> IsDecimal(t.edge.value))
  }

  /** Offset `at` follows a `:`, and the run of digits and dots that starts there is not a decimal literal. */
  predicate BadLength(tree: string, at: nat) {
    0 < at < |tree| && tree[at - 1] == ':' && !IsDecimal(tree[at..LengthEnd(tree, at)])
  }

  /** A match whose length text is not a decimal literal has that text right after a `:`. */
  lemma MatchBadLength(tree: string, m: RawToken)
    requires m.start <= |tree| && MatchAt(tree, m.start) == Some(m)
    requires m.edge.Some? && !IsDecimal(m.edge.value)
    ensures BadLength(tree, m.end - |m.edge.value|)
  {
    var at := m.end - |m.edge.value|;
    assert tree[at..LengthEnd(tree, at)] == m.edge.value;
  }

  /**
   * The scan from `start` yields `tokens` and reaches offset `q`, where a
   * match starts whose length is not a decimal literal; `at` is where that
   * length starts, the offset `float` fails on.
   */
  ghost predicate FailsAt(tree: string, start: nat, q: nat, tokens: seq<OzToken>, at: nat) {
    && Scanned(tree, start, q, tokens)
    && MatchAt(tree, q).Some?
    && MatchAt(tree, q).value.edge.Some?
    && !IsDecimal(MatchAt(tree, q).value.edge.value)
    && at == MatchAt(tree, q).value.end - |MatchAt(tree, q).value.edge.value|
  }

  /** Offset `p` lies in none of the tokens. */
  predicate Uncovered(tokens: seq<OzToken>, p: nat) {
    forall k :: 0 <= k < |tokens| ==> !(tokens[k].start <= p < tokens[k].end)
  }

  /**
   * The scan so far from `start` up to `q`: each token is the pattern's match
   * at its start, decoded; tokens come left to right without overlapping;
   * and no offset that no token covers starts a match.
   */
  ghost predicate Scanned(tree: string, start: nat, q: nat, tokens: seq<OzToken>) {
    && start <= q <= |tree|
    && InOrder(tree, start, q, tokens)
    && (forall p :: start <= p < q && Uncovered(tokens, p) ==> MatchAt(tree, p).None?)
  }

  /** Each token is the decoded match at its start, within `[start, q)`, and each ends before the next begins. */
  predicate InOrder(tree: string, start: nat, q: nat, tokens: seq<OzToken>) {
    && (forall k :: 0 <= k < |tokens| ==>
          start <= tokens[k].start < tokens[k].end <= q && Yielded(tree, tokens[k]))
    && (forall k :: 0 <= k < |tokens| - 1 ==> tokens[k].end <= tokens[k + 1].start)
  }

  /** Appending a token that starts at the scan offset keeps `Scanned`, up to its end. */
  lemma ScannedAppend(tree: string, start: nat, q: nat, tokens: seq<OzToken>, t: OzToken)
    requires Scanned(tree, start, q, tokens)
    requires t.start == q && Yielded(tree, t)
    ensures Scanned(tree, start, t.end, tokens + [t])
  {
    var tokens' := tokens + [t];
    InOrderAppend(tree, start, q, tokens, t);
    forall p | start <= p < q && Uncovered(tokens', p) ensures Uncovered(tokens, p) {
      forall k | 0 <= k < |tokens| ensures !(tokens[k].start <= p < tokens[k].end) {
        assert tokens'[k] == tokens[k];
      }
    }
    forall p | q <= p < t.end ensures !Uncovered(tokens', p) {
      assert tokens'[|tokens|] == t;
    }
  }

  /** A token that starts where the scan stands and ends after it extends the order. */
  lemma InOrderAppend(tree: string, start: nat, q: nat, tokens: seq<OzToken>, t: OzToken)
    requires InOrder(tree, start, q, tokens) && start <= q
    requires t.start == q && q < t.end && Yielded(tree, t)
    ensures InOrder(tree, start, t.end, tokens + [t])
  {
    var tokens' := tokens + [t];
    forall k | 0 <= k < |tokens'| ensures tokens'[k] == if k < |tokens| then tokens[k] else t {
    }
  }

  /** Moving past an offset where no match starts keeps `Scanned`. */
  lemma ScannedSkip(tree: string, start: nat, q: nat, tokens: seq<OzToken>)
    requires Scanned(tree, start, q, tokens) && q < |tree| && MatchAt(tree, q).None?
    ensures Scanned(tree, start, q + 1, tokens)
  {
  }

  /**
   * `enumerate_one_zoom_tokens` (getOpenTreesFromOneZoom_fast.py:30-54): from
   * the start offset, every match of the token pattern, left to right and not
   * overlapping, each with its name decoded. A text with `[` and no `]` fails
   * as `str.index` does, before any token; a length that is not a decimal
   * literal fails as `float` does, after the tokens before it are yielded.
   * `stop` is where the failing match starts.
   */
  method EnumerateOneZoomTokens(tree: string) returns (tokens: seq<OzToken>, error: Option<Failure>, ghost stop: nat)
    ensures ScanStart(tree).None? ==> tokens == [] && error == Some(RuntimeFailure(|tree|))
    ensures ScanStart(tree).Some? && error.None? ==> Scanned(tree, ScanStart(tree).value, |tree|, tokens)
    ensures ScanStart(tree).Some? && error.Some? ==>
      && error.value.InvalidEdgeLength?
      && FailsAt(tree, ScanStart(tree).value, stop, tokens, error.value.at)
      && BadLength(tree, error.value.at)
  {
    var start := ScanStart(tree);
    stop := 0;
    if start.None? {
      return [], Some(RuntimeFailure(|tree|)), stop;
    }
    var q := start.value;
    tokens := [];
    while q < |tree|
      invariant Scanned(tree, start.value, q, tokens)
      decreases |tree| - q
    {
      var m := MatchAt(tree, q);
      if m.None? {
        ScannedSkip(tree, start.value, q, tokens);
        q := q + 1;
      } else {
        var t := Decorated(m.value);
        if t.edge.Some? && !IsDecimal(t.edge.value) {
          MatchBadLength(tree, m.value);
          return tokens, Some(InvalidEdgeLength(t.end - |t.edge.value|)), q;
        }
        assert Yielded(tree, t);
        ScannedAppend(tree, start.value, q, tokens, t);
        tokens := tokens + [t];
        q := t.end;
      }
    }
    error := None;
  }
}
