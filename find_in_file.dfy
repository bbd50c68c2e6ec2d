/**
 * `get_matches` of utilities/find_in_file.py: a search through a text that
 * arrives in chunks, for files whose lines are too long to search whole.
 * Each chunk is searched together with the chunk after it, so that a match
 * may run across the boundary, and each match is reported with its offset
 * in the whole text and a window of context around it, borrowing from the
 * chunk before and the chunk after. The pattern is a literal string.
 */
module FindInFile {
  import opened Wrappers
  import opened Text

  /** One reported match: its offset in the whole text and the text around it. */
  datatype Hit = Hit(pos: nat, window: string)

  // ---------------------------------------------------------------------------
  // The stream of chunks and the text it spells
  // ---------------------------------------------------------------------------

  /** The chunks one after the other. */
  function Concat(xs: seq<string>): string {
    if xs == [] then "" else Concat(xs[..|xs| - 1]) + xs[|xs| - 1]
  }

  /**
   * How many chunks the search reads: up to the first empty one, since
   * `while chunk` stops there.
   */
  function StreamEnd(chunks: seq<string>, i: nat): (k: nat)
    requires i <= |chunks|
    ensures i <= k <= |chunks|
    ensures forall j :: i <= j < k ==> chunks[j] != ""
    ensures k < |chunks| ==> chunks[k] == ""
    decreases |chunks| - i
  {
    if i == |chunks| || chunks[i] == "" then i else StreamEnd(chunks, i + 1)
  }

  function Length(chunks: seq<string>): nat {
    StreamEnd(chunks, 0)
  }

  /** The whole text the search reads. */
  function Whole(chunks: seq<string>): string {
    Concat(chunks[..Length(chunks)])
  }

  /** The offset in the whole text at which chunk `i` starts. */
  function Offset(chunks: seq<string>, i: nat): nat
    requires i <= |chunks|
  {
    |Concat(chunks[..i])|
  }

  /** Chunk `i`, or the empty string that `next` stands for past the last one. */
  function ChunkAt(chunks: seq<string>, i: nat): string {
    if i < |chunks| then chunks[i] else ""
  }

  /**
   * The stream `chunks_from_file` produces: every chunk before the last
   * holds at least a match and a window's worth of characters.
   */
  predicate Regular(chunks: seq<string>, n: nat, w: nat) {
    forall j :: 0 <= j < Length(chunks) - 1 ==> |chunks[j]| >= n + w
  }

  // ---------------------------------------------------------------------------
  // Occurrences of a literal pattern
  // ---------------------------------------------------------------------------

  /** `pat` ends with its own first `|pat| - d` characters, so two occurrences can lie `d` apart. */
  predicate Border(pat: string, d: nat) {
    0 < d < |pat| && pat[d..] == pat[..|pat| - d]
  }

  /** No two occurrences of `pat` overlap. */
  predicate NoSelfOverlap(pat: string) {
    forall d :: 0 < d < |pat| ==> !Border(pat, d)
  }

  /** Two overlapping occurrences lie a border's length apart. */
  lemma OverlapBorder(s: string, pat: string, i: nat, q: nat)
    requires OccursAt(s, pat, i) && OccursAt(s, pat, q) && i < q < i + |pat|
    ensures Border(pat, q - i)
  {
    var d := q - i;
    forall k | 0 <= k < |pat| - d ensures pat[d..][k] == pat[..|pat| - d][k] {
      assert pat[d + k] == s[i + d + k] == s[q + k] == pat[k];
    }
  }

  /** `s[-n:]` in Python: the last `n` characters, the whole string when it is shorter, and, for `n == 0`, the whole string too. */
  function PyLast(s: string, n: nat): (r: string)
    ensures n > 0 ==> |r| == if n <= |s| then n else |s|
    ensures |r| <= |s| && r == s[|s| - |r|..]
  {
    if n == 0 || n >= |s| then s else s[|s| - n..]
  }

  /**
   * The window reported for a match at `m` of length `n` in the searched
   * string `cur` (utilities/find_in_file.py:39-46): up to `w` characters each
   * side within `cur`, the missing left ones taken from the end of `pre`.
   */
  function PyWindow(cur: string, pre: string, m: nat, n: nat, w: nat): string
    requires m + n <= |cur|
  {
    var ws := if m >= w then m - w else 0;
    var we := if m + n + w <= |cur| then m + n + w else |cur|;
    var need := w - (m - ws);
    if need > 0 then PyLast(pre, need) + cur[ws..we] else cur[ws..we]
  }

  /** The window a match at `p` of length `n` should have: `w` characters each side, clipped at the ends of `text`. */
  function Window(text: string, p: nat, n: nat, w: nat): string
    requires p + n <= |text|
  {
    var a := if p >= w then p - w else 0;
    var b := if p + n + w <= |text| then p + n + w else |text|;
    text[a..b]
  }

  /** `s` sits in `text` at offset `o`, character by character. */
  predicate Within(text: string, s: string, o: nat) {
    o + |s| <= |text| && forall k :: 0 <= k < |s| ==> text[o + k] == s[k]
  }

  /** The window of `h` is the slice of `text` that starts `left` characters before the match and ends at most `w` after it. */
  predicate FramedBy(text: string, h: Hit, n: nat, w: nat, left: nat) {
    && left <= w && left <= h.pos
    && h.pos + n <= h.pos - left + |h.window| <= h.pos + n + w
    && Within(text, h.window, h.pos - left)
  }

  /** A window is a slice of `text` around the match, with at most `w` characters each side. */
  ghost predicate Framed(text: string, h: Hit, n: nat, w: nat) {
    exists left :: FramedBy(text, h, n, w, left)
  }

  /** The positions of the hits. */
  function Positions(hits: seq<Hit>): (ps: set<nat>)
    ensures forall k :: 0 <= k < |hits| ==> hits[k].pos in ps
    ensures forall p :: p in ps ==> exists k :: 0 <= k < |hits| && hits[k].pos == p
  {
    set k | 0 <= k < |hits| :: hits[k].pos
  }

  /** The hits are occurrences of `pat` in `text` before `upTo`, in increasing order, each in its window. */
  ghost predicate Sound(text: string, pat: string, w: nat, hits: seq<Hit>, upTo: nat) {
    && (forall k :: 0 <= k < |hits| ==>
          hits[k].pos < upTo && OccursAt(text, pat, hits[k].pos) && Framed(text, hits[k], |pat|, w))
    && (forall k :: 0 <= k < |hits| - 1 ==> hits[k].pos < hits[k + 1].pos)
  }

  /** Each window is the full one, clipped only at the ends of `text`. */
  ghost predicate Exact(text: string, pat: string, w: nat, hits: seq<Hit>) {
    forall k :: 0 <= k < |hits| ==>
      hits[k].pos + |pat| <= |text| && hits[k].window == Window(text, hits[k].pos, |pat|, w)
  }

  /** Every occurrence of `pat` that starts before `upTo` is reported. */
  ghost predicate Complete(text: string, pat: string, hits: seq<Hit>, upTo: nat) {
    forall q :: 0 <= q < upTo && OccursAt(text, pat, q) ==> q in Positions(hits)
  }

  // ---------------------------------------------------------------------------
  // The search
  // ---------------------------------------------------------------------------

  /** What the inner loop promises about the hits of one chunk. */
  ghost predicate Found(chunk: string, next: string, pre: string, pat: string, w: nat, o: nat, found: seq<Hit>) {
    && (forall k :: 0 <= k < |found| ==>
          && o <= found[k].pos < o + |chunk|
          && OccursAt(chunk + next, pat, found[k].pos - o)
          && found[k].window == PyWindow(chunk + next, pre, found[k].pos - o, |pat|, w))
    && (forall k :: 0 <= k < |found| - 1 ==> found[k].pos < found[k + 1].pos)
    && (NoSelfOverlap(pat) ==>
          forall m :: 0 <= m < |chunk| && OccursAt(chunk + next, pat, m) ==> o + m in Positions(found))
  }

  /**
   * The inner loop so far: the hits are matches in `cur` before `from` that
   * start in the chunk's first `len` characters, in increasing order, and,
   * for a pattern that cannot overlap itself, all of those.
   */
  ghost predicate Scan(cur: string, len: nat, pre: string, pat: string, w: nat, o: nat, from: nat, hits: seq<Hit>) {
    && (forall k :: 0 <= k < |hits| ==> ScanHit(cur, len, pre, pat, w, o, from, hits[k]))
    && (forall k :: 0 <= k < |hits| - 1 ==> hits[k].pos < hits[k + 1].pos)
    && (NoSelfOverlap(pat) ==>
          forall m :: 0 <= m < from && m < len && OccursAt(cur, pat, m) ==> o + m in Positions(hits))
  }

  /** One hit of the inner loop: a match in `cur` before `from` that starts in the chunk, with its window. */
  ghost predicate ScanHit(cur: string, len: nat, pre: string, pat: string, w: nat, o: nat, from: nat, h: Hit) {
    && o <= h.pos < o + from && h.pos < o + len
    && OccursAt(cur, pat, h.pos - o)
    && h.window == PyWindow(cur, pre, h.pos - o, |pat|, w)
  }

  /**
   * The inner loop (utilities/find_in_file.py:31-48): the matches of `pat` in
   * `chunk + next` that start in `chunk`, left to right and not overlapping,
   * each at `overall` plus its offset and with its window.
   */
  method ChunkHits(chunk: string, next: string, pre: string, pat: string, w: nat, overall: nat)
    returns (hits: seq<Hit>)
    ensures Found(chunk, next, pre, pat, w, overall, hits)
  {
    var cur := chunk + next;
    var from := 0;
    hits := [];
    while true
      invariant from <= |cur| && Scan(cur, |chunk|, pre, pat, w, overall, from, hits)
      decreases |cur| - from
    {
      var found := IndexOf(cur, pat, from);
      if found.None? || found.value >= |chunk| {
        ScanDone(chunk, next, pre, pat, w, overall, from, hits);
        break;
      }
      var m := found.value;
      var h := Hit(overall + m, PyWindow(cur, pre, m, |pat|, w));
      var from' := m + if |pat| == 0 then 1 else |pat|;
      ScanStep(cur, |chunk|, pre, pat, w, overall, from, hits, m, from');
      hits := hits + [h];
      from := from';
    }
  }

  /** Taking the match at `m`, the first at or after `from`, keeps `Scan` up to the match's end. */
  lemma ScanStep(cur: string, len: nat, pre: string, pat: string, w: nat, o: nat, from: nat, hits: seq<Hit>,
                 m: nat, from': nat)
    requires from <= |cur| && len <= |cur| && Scan(cur, len, pre, pat, w, o, from, hits)
    requires IndexOf(cur, pat, from) == Some(m) && m < len
    requires from' == m + if |pat| == 0 then 1 else |pat|
    ensures from < from' <= |cur|
    ensures Scan(cur, len, pre, pat, w, o, from', hits + [Hit(o + m, PyWindow(cur, pre, m, |pat|, w))])
  {
    var h := Hit(o + m, PyWindow(cur, pre, m, |pat|, w));
    var hits' := hits + [h];
    forall k | 0 <= k < |hits'| ensures ScanHit(cur, len, pre, pat, w, o, from', hits'[k]) {
      if k < |hits| {
        assert hits'[k] == hits[k];
        ScanHitLater(cur, len, pre, pat, w, o, from, from', hits[k]);
      } else {
        assert hits'[k] == h;
        ScanHitNew(cur, len, pre, pat, w, o, from, m, from');
      }
    }
    forall k | 0 <= k < |hits'| - 1 ensures hits'[k].pos < hits'[k + 1].pos {
      assert hits'[k] == hits[k];
      if k + 1 == |hits| {
        assert ScanHit(cur, len, pre, pat, w, o, from, hits[k]);
      } else {
        assert hits'[k + 1] == hits[k + 1];
      }
    }
    SkipOverlaps(cur, pat, from, m, from', o, len, hits, hits');
  }

  /** A hit before `from` is a hit before any later offset. */
  lemma ScanHitLater(cur: string, len: nat, pre: string, pat: string, w: nat, o: nat, from: nat, from': nat, h: Hit)
    requires ScanHit(cur, len, pre, pat, w, o, from, h) && from <= from'
    ensures ScanHit(cur, len, pre, pat, w, o, from', h)
  {
  }

  /** The match at `m`, the first at or after `from`, is a hit before the offset past it. */
  lemma ScanHitNew(cur: string, len: nat, pre: string, pat: string, w: nat, o: nat, from: nat, m: nat, from': nat)
    requires from <= |cur| && len <= |cur| && IndexOf(cur, pat, from) == Some(m) && m < len
    requires from' == m + if |pat| == 0 then 1 else |pat|
    ensures ScanHit(cur, len, pre, pat, w, o, from', Hit(o + m, PyWindow(cur, pre, m, |pat|, w)))
  {
  }

  /** When no further match starts in the chunk, the hits are all of its matches. */
  lemma ScanDone(chunk: string, next: string, pre: string, pat: string, w: nat, o: nat, from: nat, hits: seq<Hit>)
    requires from <= |chunk + next| && Scan(chunk + next, |chunk|, pre, pat, w, o, from, hits)
    requires IndexOf(chunk + next, pat, from).None? || IndexOf(chunk + next, pat, from).value >= |chunk|
    ensures Found(chunk, next, pre, pat, w, o, hits)
  {
  }

  /** Past one match of a pattern that cannot overlap itself, no other match starts before its end. */
  lemma SkipOverlaps(cur: string, pat: string, from: nat, m: nat, from': nat, overall: nat, len: nat,
                     before: seq<Hit>, hits: seq<Hit>)
    requires from <= m && from <= |cur| && IndexOf(cur, pat, from) == Some(m)
    requires from' == m + if |pat| == 0 then 1 else |pat|
    requires |hits| == |before| + 1 && hits[..|before|] == before && hits[|before|].pos == overall + m
    requires NoSelfOverlap(pat) ==>
      forall q :: 0 <= q < from && q < len && OccursAt(cur, pat, q) ==> overall + q in Positions(before)
    ensures NoSelfOverlap(pat) ==>
      forall q :: 0 <= q < from' && q < len && OccursAt(cur, pat, q) ==> overall + q in Positions(hits)
  {
    if NoSelfOverlap(pat) {
      forall q | 0 <= q < from' && q < len && OccursAt(cur, pat, q) ensures overall + q in Positions(hits) {
        if q < from {
          var k :| 0 <= k < |before| && before[k].pos == overall + q;
          assert hits[k] == before[k];
        } else if q == m {
          assert hits[|before|].pos == overall + q;
        } else if q > m && |pat| > 0 {
          OverlapBorder(cur, pat, m, q);
          assert false;
        }
      }
    }
  }

  /**
   * The outer loop so far: the hits of the chunks before `i`, sound up to
   * chunk `i`'s offset, and on an even stream exact and, for a pattern that
   * cannot overlap itself, complete.
   */
  ghost predicate Progress(chunks: seq<string>, pat: string, w: nat, i: nat, overall: nat, pre: string, hits: seq<Hit>) {
    && i <= Length(chunks)
    && overall == Offset(chunks, i)
    && pre == (if i == 0 then "" else PyLast(chunks[i - 1], w))
    && Sound(Whole(chunks), pat, w, hits, overall)
    && (Regular(chunks, |pat|, w) ==> Exact(Whole(chunks), pat, w, hits))
    && (Regular(chunks, |pat|, w) && NoSelfOverlap(pat) ==> Complete(Whole(chunks), pat, hits, overall))
  }

  /**
   * `get_matches` (utilities/find_in_file.py:15-55) on a literal pattern. An
   * empty stream fails, as `next` on it does. Reported positions are
   * occurrences in the whole text, strictly increasing, each with a window
   * around it. On a stream of even chunks the windows are the full ones,
   * and with a pattern that cannot overlap itself every occurrence is
   * reported, a match that runs across a chunk boundary only once.
   */
  method GetMatches(chunks: seq<string>, pat: string, w: nat) returns (r: Result<seq<Hit>>)
    ensures r.Err? <==> chunks == []
    ensures r.Err? ==> r.error == RuntimeFailure(0)
    ensures r.Ok? ==> Sound(Whole(chunks), pat, w, r.value, |Whole(chunks)|)
    ensures r.Ok? && Regular(chunks, |pat|, w) ==> Exact(Whole(chunks), pat, w, r.value)
    ensures r.Ok? && Regular(chunks, |pat|, w) && NoSelfOverlap(pat) ==>
      Complete(Whole(chunks), pat, r.value, |Whole(chunks)|)
  {
    if chunks == [] {
      return Err(RuntimeFailure(0));
    }
    var overall: nat := 0;
    var i: nat := 0;
    var chunk := chunks[0];
    var pre := "";
    var hits: seq<Hit> := [];
    Started(chunks, pat, w);
    while chunk != ""
      invariant chunk == ChunkAt(chunks, i) && (chunk == "" <==> i == Length(chunks))
      invariant Progress(chunks, pat, w, i, overall, pre, hits)
      decreases Length(chunks) - i
    {
      var next := if i + 1 < |chunks| then chunks[i + 1] else "";
      var found := ChunkHits(chunk, next, pre, pat, w, overall);
      ChunkStep(chunks, pat, w, i, next, pre, hits, found);
      hits := hits + found;
      overall := overall + |chunk|;
      pre := PyLast(chunk, w);
      chunk := next;
      i := i + 1;
    }
    OffsetEnd(chunks);
    r := Ok(hits);
  }

  /** Before the first chunk nothing is reported and nothing is missed. */
  lemma Started(chunks: seq<string>, pat: string, w: nat)
    ensures Progress(chunks, pat, w, 0, 0, "", [])
    ensures ChunkAt(chunks, 0) == "" <==> Length(chunks) == 0
  {
    assert chunks[..0] == [];
  }

  // ---------------------------------------------------------------------------
  // One chunk's hits, placed in the whole text
  // ---------------------------------------------------------------------------

  /** The hits of chunk `i` extend what is known of those before it up to the chunk's end. */
  lemma ChunkStep(chunks: seq<string>, pat: string, w: nat, i: nat, next: string, pre: string,
                  before: seq<Hit>, found: seq<Hit>)
    requires i < Length(chunks) && next == ChunkAt(chunks, i + 1)
    requires Progress(chunks, pat, w, i, Offset(chunks, i), pre, before)
    requires Found(chunks[i], next, pre, pat, w, Offset(chunks, i), found)
    ensures Progress(chunks, pat, w, i + 1, Offset(chunks, i) + |chunks[i]|, PyLast(chunks[i], w), before + found)
    ensures ChunkAt(chunks, i + 1) == "" <==> i + 1 == Length(chunks)
  {
    ChunkSpan(chunks, i);
    CurInText(chunks, pat, w, i, next);
    PreInText(chunks, pat, w, i, pre);
    PreLong(chunks, pat, w, i, pre);
    ChunkAdvance(Whole(chunks), chunks[i], next, pre, Offset(chunks, i), pat, w, before, found,
                 Regular(chunks, |pat|, w));
  }

  /** The hits of the chunk at `o` extend sound, exact and complete results up to the chunk's end. */
  lemma ChunkAdvance(text: string, chunk: string, next: string, pre: string, o: nat, pat: string, w: nat,
                     before: seq<Hit>, found: seq<Hit>, full: bool)
    requires Within(text, chunk + next, o) && |pre| <= o && Within(text, pre, o - |pre|)
    requires full ==> |pre| >= (if w <= o then w else o)
    requires full ==> o + |chunk + next| == |text| || |chunk + next| >= |chunk| + |pat| + w
    requires Found(chunk, next, pre, pat, w, o, found)
    requires Sound(text, pat, w, before, o)
    requires full ==> Exact(text, pat, w, before)
    requires full && NoSelfOverlap(pat) ==> Complete(text, pat, before, o)
    ensures Sound(text, pat, w, before + found, o + |chunk|)
    ensures full ==> Exact(text, pat, w, before + found)
    ensures full && NoSelfOverlap(pat) ==> Complete(text, pat, before + found, o + |chunk|)
  {
    HitsInText(text, chunk, next, pre, o, pat, w, found, full);
    SoundStep(text, pat, w, o, |chunk|, before, found);
    if full {
      ExactStep(text, pat, w, before, found);
    }
    if full && NoSelfOverlap(pat) {
      CompleteStep(text, chunk, next, pre, o, pat, w, before, found);
    }
  }

  /**
   * Each hit of a chunk at offset `o` is an occurrence in the whole text, in
   * its window, the full one when the text around allows (`full`).
   */
  lemma HitsInText(text: string, chunk: string, next: string, pre: string, o: nat, pat: string, w: nat,
                   found: seq<Hit>, full: bool)
    requires Within(text, chunk + next, o) && |pre| <= o && Within(text, pre, o - |pre|)
    requires Found(chunk, next, pre, pat, w, o, found)
    requires full ==> |pre| >= (if w <= o then w else o)
    requires full ==> o + |chunk + next| == |text| || |chunk + next| >= |chunk| + |pat| + w
    ensures forall k :: 0 <= k < |found| ==>
      OccursAt(text, pat, found[k].pos) && Framed(text, found[k], |pat|, w)
    ensures full ==> Exact(text, pat, w, found)
  {
    forall k | 0 <= k < |found|
      ensures OccursAt(text, pat, found[k].pos) && Framed(text, found[k], |pat|, w)
      ensures full ==> found[k].pos + |pat| <= |text| && found[k].window == Window(text, found[k].pos, |pat|, w)
    {
      HitInText(text, chunk + next, pre, o, |chunk|, pat, w, found[k]);
    }
  }

  /** One hit of a chunk is an occurrence in the whole text, in its window, the full one when the text around allows. */
  lemma HitInText(text: string, cur: string, pre: string, o: nat, len: nat, pat: string, w: nat, h: Hit)
    requires Within(text, cur, o) && len <= |cur| && |pre| <= o && Within(text, pre, o - |pre|)
    requires o <= h.pos < o + len && OccursAt(cur, pat, h.pos - o)
    requires h.window == PyWindow(cur, pre, h.pos - o, |pat|, w)
    ensures OccursAt(text, pat, h.pos) && Framed(text, h, |pat|, w)
    ensures |pre| >= (if w <= o then w else o) && (o + |cur| == |text| || |cur| >= len + |pat| + w) ==>
      h.pos + |pat| <= |text| && h.window == Window(text, h.pos, |pat|, w)
  {
    var m := h.pos - o;
    InText(text, cur, o, pat, m);
    var left := HitFramed(text, cur, pre, o, m, |pat|, w, h);
    if |pre| >= (if w <= o then w else o) && (o + |cur| == |text| || |cur| >= len + |pat| + w) {
      WindowExact(text, o, m, |pat|, w, |cur|, len, |pre|, left, h);
    }
  }

  /** The window of a match at `m` in the searched string is framed in the whole text. */
  lemma HitFramed(text: string, cur: string, pre: string, o: nat, m: nat, n: nat, w: nat, h: Hit) returns (left: nat)
    requires Within(text, cur, o) && m + n <= |cur| && |pre| <= o && Within(text, pre, o - |pre|)
    requires h.pos == o + m && h.window == PyWindow(cur, pre, m, n, w)
    ensures FramedBy(text, h, n, w, left) && Framed(text, h, n, w)
    ensures m >= w ==> left == w
    ensures m < w ==> left == m + (if w - m <= |pre| then w - m else |pre|)
    ensures |h.window| == left + ((if m + n + w <= |cur| then m + n + w else |cur|) - m)
  {
    WindowLength(cur, pre, m, n, w);
    if m < w {
      left := WindowLeft(text, cur, pre, o, m, n, w, h);
    } else {
      left := WindowRight(text, cur, pre, o, m, n, w, h);
    }
    Frame(text, h, n, w, left);
  }

  /** The hits so far and those of the next chunk together are sound up to that chunk's end. */
  lemma SoundStep(text: string, pat: string, w: nat, o: nat, len: nat, before: seq<Hit>, found: seq<Hit>)
    requires Sound(text, pat, w, before, o)
    requires forall k :: 0 <= k < |found| ==>
      o <= found[k].pos < o + len && OccursAt(text, pat, found[k].pos) && Framed(text, found[k], |pat|, w)
    requires forall k :: 0 <= k < |found| - 1 ==> found[k].pos < found[k + 1].pos
    ensures Sound(text, pat, w, before + found, o + len)
  {
    var all := before + found;
    forall k | 0 <= k < |all| ensures all[k] == if k < |before| then before[k] else found[k - |before|] {
    }
  }

  lemma ExactStep(text: string, pat: string, w: nat, before: seq<Hit>, found: seq<Hit>)
    requires Exact(text, pat, w, before) && Exact(text, pat, w, found)
    ensures Exact(text, pat, w, before + found)
  {
    var all := before + found;
    forall k | 0 <= k < |all| ensures all[k] == if k < |before| then before[k] else found[k - |before|] {
    }
  }

  /**
   * With a pattern that cannot overlap itself, no occurrence before the end
   * of the chunk at `o` is missed when the searched string reaches a match
   * past the chunk or the end of the text.
   */
  lemma CompleteStep(text: string, chunk: string, next: string, pre: string, o: nat, pat: string, w: nat,
                     before: seq<Hit>, found: seq<Hit>)
    requires Within(text, chunk + next, o)
    requires o + |chunk + next| == |text| || |chunk + next| >= |chunk| + |pat| + w
    requires NoSelfOverlap(pat)
    requires Complete(text, pat, before, o)
    requires Found(chunk, next, pre, pat, w, o, found)
    ensures Complete(text, pat, before + found, o + |chunk|)
  {
    var cur, all := chunk + next, before + found;
    forall q | 0 <= q < o + |chunk| && OccursAt(text, pat, q) ensures q in Positions(all) {
      if q < o {
        var k :| 0 <= k < |before| && before[k].pos == q;
        assert all[k] == before[k];
      } else {
        var m := q - o;
        FromText(text, cur, o, pat, m);
        var k :| 0 <= k < |found| && found[k].pos == q;
        assert all[|before| + k] == found[k];
      }
    }
  }

  /** A part of a string that sits in `text` sits there too. */
  lemma WithinPart(text: string, s: string, o: nat, a: nat, b: nat)
    requires Within(text, s, o) && a <= b <= |s|
    ensures Within(text, s[a..b], o + a)
  {
    forall k | 0 <= k < b - a ensures text[o + a + k] == s[a..b][k] {
      assert text[o + (a + k)] == s[a + k];
    }
  }

  /** Two strings that sit side by side in `text` make one. */
  lemma WithinJoin(text: string, s: string, t: string, o: nat)
    requires Within(text, s, o) && Within(text, t, o + |s|)
    ensures Within(text, s + t, o)
  {
    forall k | 0 <= k < |s + t| ensures text[o + k] == (s + t)[k] {
      if k >= |s| {
        assert text[o + |s| + (k - |s|)] == t[k - |s|];
      }
    }
  }

  /** A string that sits in `text` is the slice of `text` it covers. */
  lemma WithinSlice(text: string, s: string, o: nat)
    requires Within(text, s, o)
    ensures text[o..o + |s|] == s
  {
    forall k | 0 <= k < |s| ensures text[o..o + |s|][k] == s[k] {
      assert text[o + k] == s[k];
    }
  }

  /** An occurrence in the searched string is one in the whole text. */
  lemma InText(text: string, cur: string, o: nat, pat: string, m: nat)
    requires Within(text, cur, o) && OccursAt(cur, pat, m)
    ensures OccursAt(text, pat, o + m)
  {
    WithinPart(text, cur, o, m, m + |pat|);
    WithinSlice(text, cur[m..m + |pat|], o + m);
  }

  /** An occurrence in the whole text that lies within the searched string is one in it. */
  lemma FromText(text: string, cur: string, o: nat, pat: string, m: nat)
    requires Within(text, cur, o) && m + |pat| <= |cur| && OccursAt(text, pat, o + m)
    ensures OccursAt(cur, pat, m)
  {
    WithinPart(text, cur, o, m, m + |pat|);
    WithinSlice(text, cur[m..m + |pat|], o + m);
  }

  /** A window of a match fewer than `w` characters into the searched string takes the rest of its left side from `pre`. */
  lemma WindowLeft(text: string, cur: string, pre: string, o: nat, m: nat, n: nat, w: nat, h: Hit) returns (left: nat)
    requires Within(text, cur, o) && m + n <= |cur| && m < w
    requires |pre| <= o && Within(text, pre, o - |pre|)
    requires h.pos == o + m && h.window == PyWindow(cur, pre, m, n, w)
    ensures FramedBy(text, h, n, w, left)
    ensures left == m + |PyLast(pre, w - m)|
  {
    var we := if m + n + w <= |cur| then m + n + w else |cur|;
    var tail := PyLast(pre, w - m);
    LeftWithin(text, cur, pre, o, we, tail);
    left := m + |tail|;
    assert h.window == tail + cur[0..we];
    FrameAt(text, h, n, w, left, o - |tail|);
  }

  /** The conditions of `FramedBy`, with the window's start given. */
  lemma FrameAt(text: string, h: Hit, n: nat, w: nat, left: nat, at: nat)
    requires left <= w && left <= h.pos && h.pos - left == at
    requires h.pos + n <= at + |h.window| <= h.pos + n + w
    requires Within(text, h.window, at)
    ensures FramedBy(text, h, n, w, left)
  {
  }

  /** A window framed by some left part is framed. */
  lemma Frame(text: string, h: Hit, n: nat, w: nat, left: nat)
    requires FramedBy(text, h, n, w, left)
    ensures Framed(text, h, n, w)
  {
  }

  /** The end of `pre` and the start of `cur` sit side by side in `text`. */
  lemma LeftWithin(text: string, cur: string, pre: string, o: nat, we: nat, tail: string)
    requires Within(text, cur, o) && we <= |cur|
    requires |pre| <= o && Within(text, pre, o - |pre|)
    requires |tail| <= |pre| && tail == pre[|pre| - |tail|..]
    ensures Within(text, tail + cur[0..we], o - |tail|)
  {
    WithinPart(text, cur, o, 0, we);
    TailWithin(text, pre, o - |pre|, tail, o - |tail|);
    WithinJoin(text, tail, cur[0..we], o - |tail|);
  }

  /** A window of a match at least `w` characters into the searched string lies within it. */
  lemma WindowRight(text: string, cur: string, pre: string, o: nat, m: nat, n: nat, w: nat, h: Hit) returns (left: nat)
    requires Within(text, cur, o) && m + n <= |cur| && m >= w
    requires h.pos == o + m && h.window == PyWindow(cur, pre, m, n, w)
    ensures FramedBy(text, h, n, w, left)
    ensures left == w
  {
    var we := if m + n + w <= |cur| then m + n + w else |cur|;
    WithinPart(text, cur, o, m - w, we);
    left := w;
    assert h.window == cur[m - w..we];
    assert h.pos - left == o + (m - w);
    assert FramedBy(text, h, n, w, left);
  }

  /**
   * The window is the full one when the string before the chunk is long
   * enough and the searched string, of length `curLen` at offset `o`,
   * reaches a window past the chunk or the end of the text.
   */
  lemma WindowExact(text: string, o: nat, m: nat, n: nat, w: nat, curLen: nat, len: nat, preLen: nat,
                    left: nat, h: Hit)
    requires o + curLen <= |text| && m < len <= curLen && m + n <= curLen
    requires preLen <= o && preLen >= (if w <= o then w else o)
    requires o + curLen == |text| || curLen >= len + n + w
    requires h.pos == o + m && left <= h.pos && Within(text, h.window, h.pos - left)
    requires |h.window| == left + ((if m + n + w <= curLen then m + n + w else curLen) - m)
    requires m >= w ==> left == w
    requires m < w ==> left == m + (if w - m <= preLen then w - m else preLen)
    ensures h.pos + n <= |text| && h.window == Window(text, h.pos, n, w)
  {
    var a := if o + m >= w then o + m - w else 0;
    var b := if o + m + n + w <= |text| then o + m + n + w else |text|;
    assert h.pos - left == a;
    WindowEnd(o, m, n, w, curLen, len, |text|);
    assert a + |h.window| == b;
    WithinSlice(text, h.window, a);
    assert text[a..b] == h.window;
  }

  /** How long a reported window is: its left side, then the match and its right side within `cur`. */
  lemma WindowLength(cur: string, pre: string, m: nat, n: nat, w: nat)
    requires m + n <= |cur|
    ensures |PyWindow(cur, pre, m, n, w)| ==
      (if m >= w then w else m + |PyLast(pre, w - m)|) + ((if m + n + w <= |cur| then m + n + w else |cur|) - m)
  {
  }

  /** A window's right side reaches `w` characters past the match, or the end of the text. */
  lemma WindowEnd(o: nat, m: nat, n: nat, w: nat, curLen: nat, len: nat, textLen: nat)
    requires m < len && m + n <= curLen && o + curLen <= textLen
    requires o + curLen == textLen || curLen >= len + n + w
    ensures o + (if m + n + w <= curLen then m + n + w else curLen) ==
      if o + m + n + w <= textLen then o + m + n + w else textLen
  {
  }

  // ---------------------------------------------------------------------------
  // Where the chunks sit in the whole text
  // ---------------------------------------------------------------------------

  lemma {:induction false} ConcatSplit(xs: seq<string>, i: nat, j: nat)
    requires i <= j <= |xs|
    ensures Concat(xs[..j]) == Concat(xs[..i]) + Concat(xs[i..j])
    decreases j
  {
    if i < j {
      ConcatSplit(xs, i, j - 1);
      assert xs[..j][..j - 1] == xs[..j - 1];
      assert xs[i..j][..j - 1 - i] == xs[i..j - 1];
    } else {
      assert xs[i..j] == [];
    }
  }

  /** Chunk `i` sits in the whole text from its offset to the next chunk's. */
  lemma ChunkSpan(chunks: seq<string>, i: nat)
    requires i < Length(chunks)
    ensures Offset(chunks, i) + |chunks[i]| == Offset(chunks, i + 1) <= |Whole(chunks)|
    ensures Within(Whole(chunks), chunks[i], Offset(chunks, i))
  {
    var head, rest := WholeAround(chunks, i);
    WithinMiddle(head, chunks[i], rest);
  }

  /** The whole text is the chunks before `i`, chunk `i` and the rest. */
  lemma WholeAround(chunks: seq<string>, i: nat) returns (head: string, rest: string)
    requires i < Length(chunks)
    ensures head == Concat(chunks[..i]) && Whole(chunks) == head + chunks[i] + rest
    ensures Offset(chunks, i) + |chunks[i]| == Offset(chunks, i + 1)
  {
    var ys := chunks[..Length(chunks)];
    assert chunks[..i + 1][..i] == chunks[..i];
    assert ys[..i + 1] == chunks[..i + 1] && ys[..|ys|] == ys;
    ConcatSplit(ys, i + 1, |ys|);
    head := Concat(chunks[..i]);
    rest := Concat(ys[i + 1..]);
  }

  /** The middle one of three strings sits in their concatenation after the first. */
  lemma WithinMiddle(a: string, b: string, c: string)
    ensures Within(a + b + c, b, |a|)
  {
    forall k | 0 <= k < |b| ensures (a + b + c)[|a| + k] == b[k] {
    }
  }

  /** The offset past the last chunk read is the length of the whole text. */
  lemma OffsetEnd(chunks: seq<string>)
    ensures Offset(chunks, Length(chunks)) == |Whole(chunks)|
  {
  }

  /**
   * The searched string `chunk + next` sits in the whole text at the chunk's
   * offset; it reaches the end of the text, or on an even stream a match and
   * a window past the chunk.
   */
  lemma CurInText(chunks: seq<string>, pat: string, w: nat, i: nat, next: string)
    requires i < Length(chunks) && next == ChunkAt(chunks, i + 1)
    ensures var text, o := Whole(chunks), Offset(chunks, i);
      && Within(text, chunks[i] + next, o)
      && (o + |chunks[i] + next| == |text| || (Regular(chunks, |pat|, w) && |next| >= |pat| + w)
          || !Regular(chunks, |pat|, w))
  {
    var text, o := Whole(chunks), Offset(chunks, i);
    ChunkSpan(chunks, i);
    if i + 1 < Length(chunks) {
      ChunkSpan(chunks, i + 1);
      WithinJoin(text, chunks[i], next, o);
      if i + 2 == Length(chunks) {
        OffsetEnd(chunks);
      }
    } else {
      OffsetEnd(chunks);
      assert chunks[i] + next == chunks[i];
    }
  }

  /** The kept tail of the previous chunk sits in the whole text just before chunk `i`. */
  lemma PreInText(chunks: seq<string>, pat: string, w: nat, i: nat, pre: string)
    requires i < Length(chunks)
    requires pre == if i == 0 then "" else PyLast(chunks[i - 1], w)
    ensures |pre| <= Offset(chunks, i) && Within(Whole(chunks), pre, Offset(chunks, i) - |pre|)
  {
    if i > 0 {
      PreAfter(chunks, w, i, pre);
    } else {
      FirstOffset(chunks);
    }
  }

  /** The first chunk starts at 0. */
  lemma FirstOffset(chunks: seq<string>)
    ensures Offset(chunks, 0) == 0 && Within(Whole(chunks), "", 0)
  {
    assert chunks[..0] == [];
  }

  /** The kept tail of chunk `i - 1` ends where chunk `i` starts. */
  lemma PreAfter(chunks: seq<string>, w: nat, i: nat, pre: string)
    requires 0 < i < Length(chunks) && pre == PyLast(chunks[i - 1], w)
    ensures |pre| <= Offset(chunks, i) && Within(Whole(chunks), pre, Offset(chunks, i) - |pre|)
  {
    var prev := chunks[i - 1];
    var o := Offset(chunks, i - 1);
    ChunkSpan(chunks, i - 1);
    TailWithin(Whole(chunks), prev, o, pre, Offset(chunks, i) - |pre|);
  }

  /** On an even stream the kept tail is a whole window, or all the text before chunk `i`. */
  lemma PreLong(chunks: seq<string>, pat: string, w: nat, i: nat, pre: string)
    requires i < Length(chunks)
    requires pre == if i == 0 then "" else PyLast(chunks[i - 1], w)
    ensures Regular(chunks, |pat|, w) ==> |pre| >= if w <= Offset(chunks, i) then w else Offset(chunks, i)
  {
    if i > 0 {
      if Regular(chunks, |pat|, w) {
        assert |chunks[i - 1]| >= |pat| + w;
      }
    } else {
      assert chunks[..0] == [];
    }
  }

  /** The end of a string that sits in `text` sits there too, just before the string's end. */
  lemma TailWithin(text: string, s: string, o: nat, tail: string, at: nat)
    requires Within(text, s, o) && |tail| <= |s| && tail == s[|s| - |tail|..] && at == o + |s| - |tail|
    ensures Within(text, tail, at)
  {
    WithinPart(text, s, o, |s| - |tail|, |s|);
    assert s[|s| - |tail|..|s|] == tail;
  }

  // ---------------------------------------------------------------------------
  // What the reported hits say
  // ---------------------------------------------------------------------------

  /** With a window of 0 every hit's window is exactly the matched text. */
  lemma WindowZero(text: string, pat: string, hits: seq<Hit>, upTo: nat)
    requires Sound(text, pat, 0, hits, upTo)
    ensures forall k :: 0 <= k < |hits| ==> hits[k].window == pat
  {
    forall k | 0 <= k < |hits| ensures hits[k].window == pat {
      var left :| FramedBy(text, hits[k], |pat|, 0, left);
      WithinSlice(text, hits[k].window, hits[k].pos);
      assert OccursAt(text, pat, hits[k].pos);
    }
  }

  /** A pattern that never occurs yields nothing. */
  lemma NoOccurrenceNoHits(text: string, pat: string, w: nat, hits: seq<Hit>, upTo: nat)
    requires Sound(text, pat, w, hits, upTo)
    requires forall q :: 0 <= q <= |text| ==> !OccursAt(text, pat, q)
    ensures hits == []
  {
    assert |hits| > 0 ==> OccursAt(text, pat, hits[0].pos);
  }

  /** No position is reported twice. */
  lemma ReportedOnce(text: string, pat: string, w: nat, hits: seq<Hit>, upTo: nat)
    requires Sound(text, pat, w, hits, upTo)
    ensures forall j, k :: 0 <= j < k < |hits| ==> hits[j].pos < hits[k].pos
  {
    forall j, k | 0 <= j < k < |hits| ensures hits[j].pos < hits[k].pos {
      Increasing(hits, j, k);
    }
  }

  lemma {:induction false} Increasing(hits: seq<Hit>, j: nat, k: nat)
    requires forall i :: 0 <= i < |hits| - 1 ==> hits[i].pos < hits[i + 1].pos
    requires j < k < |hits|
    ensures hits[j].pos < hits[k].pos
    decreases k - j
  {
    if k > j + 1 {
      Increasing(hits, j, k - 1);
    }
  }

  /**
   * A sound, exact and complete list of hits is the only one: every
   * occurrence of the pattern once, in order, each with its full window. So
   * on an even stream, with a pattern that cannot overlap itself, the
   * result of `GetMatches` is fixed by the whole text alone, however it is
   * cut into chunks.
   */
  lemma Determined(text: string, pat: string, w: nat, a: seq<Hit>, b: seq<Hit>)
    requires Sound(text, pat, w, a, |text|) && Exact(text, pat, w, a) && Complete(text, pat, a, |text|)
    requires Sound(text, pat, w, b, |text|) && Exact(text, pat, w, b) && Complete(text, pat, b, |text|)
    ensures a == b
  {
    forall p | p in Positions(a) ensures p in Positions(b) {
      var k :| 0 <= k < |a| && a[k].pos == p;
    }
    forall p | p in Positions(b) ensures p in Positions(a) {
      var k :| 0 <= k < |b| && b[k].pos == p;
    }
    SamePositions(a, b);
    forall k | 0 <= k < |a| ensures a[k] == b[k] {
      assert a[k].window == Window(text, a[k].pos, |pat|, w);
    }
  }

  /** Two increasing lists of hits at the same positions have them in the same places. */
  lemma {:induction false} SamePositions(a: seq<Hit>, b: seq<Hit>)
    requires forall i :: 0 <= i < |a| - 1 ==> a[i].pos < a[i + 1].pos
    requires forall i :: 0 <= i < |b| - 1 ==> b[i].pos < b[i + 1].pos
    requires Positions(a) == Positions(b)
    ensures |a| == |b| && forall k :: 0 <= k < |a| ==> a[k].pos == b[k].pos
    decreases |a|
  {
    assert |a| > 0 ==> a[0].pos in Positions(b);
    assert |b| > 0 ==> b[0].pos in Positions(a);
    if |a| > 0 && |b| > 0 {
      FirstIsLeast(a, b[0].pos);
      FirstIsLeast(b, a[0].pos);
      forall q | q in Positions(a[1..]) ensures q in Positions(b[1..]) {
        InTail(a, q);
        OutOfTail(b, q);
      }
      forall q | q in Positions(b[1..]) ensures q in Positions(a[1..]) {
        InTail(b, q);
        OutOfTail(a, q);
      }
      TailIncreasing(a);
      TailIncreasing(b);
      SamePositions(a[1..], b[1..]);
      forall k | 0 <= k < |a| ensures a[k].pos == b[k].pos {
        if k > 0 {
          assert a[1..][k - 1] == a[k] && b[1..][k - 1] == b[k];
        }
      }
    }
  }

  /** The first of an increasing list of hits has the least position. */
  lemma FirstIsLeast(hits: seq<Hit>, p: nat)
    requires forall i :: 0 <= i < |hits| - 1 ==> hits[i].pos < hits[i + 1].pos
    requires p in Positions(hits)
    ensures hits[0].pos <= p
  {
    var k :| 0 <= k < |hits| && hits[k].pos == p;
    if k > 0 {
      Increasing(hits, 0, k);
    }
  }

  /** A position after the first of an increasing list of hits is one of the list's, past the first. */
  lemma InTail(hits: seq<Hit>, q: nat)
    requires |hits| > 0 && forall i :: 0 <= i < |hits| - 1 ==> hits[i].pos < hits[i + 1].pos
    requires q in Positions(hits[1..])
    ensures q in Positions(hits) && hits[0].pos < q
  {
    var k :| 0 <= k < |hits[1..]| && hits[1..][k].pos == q;
    assert hits[k + 1] == hits[1..][k];
    Increasing(hits, 0, k + 1);
  }

  /** A position of a list of hits other than the first one's is the position of a later hit. */
  lemma OutOfTail(hits: seq<Hit>, q: nat)
    requires |hits| > 0 && q in Positions(hits) && q != hits[0].pos
    ensures q in Positions(hits[1..])
  {
    var k :| 0 <= k < |hits| && hits[k].pos == q;
    assert hits[1..][k - 1] == hits[k];
  }

  /** The hits after the first of an increasing list are increasing too. */
  lemma TailIncreasing(hits: seq<Hit>)
    requires |hits| > 0 && forall i :: 0 <= i < |hits| - 1 ==> hits[i].pos < hits[i + 1].pos
    ensures forall i :: 0 <= i < |hits[1..]| - 1 ==> hits[1..][i].pos < hits[1..][i + 1].pos
  {
    forall i | 0 <= i < |hits[1..]| - 1 ensures hits[1..][i].pos < hits[1..][i + 1].pos {
      assert hits[1..][i] == hits[i + 1] && hits[1..][i + 1] == hits[i + 2];
    }
  }
}
