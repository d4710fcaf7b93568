/** `cleanGeneratedCode`: pulls the code out of a markdown code block in the
    generator's reply, or strips a stray opening and closing fence, then trims. */
module Cleaner {

  import opened Wrappers
  import opened Text

  const Fence := "```"

  /** Three backquotes start at `i`. */
  predicate FenceAt(s: string, i: nat) {
    i + 3 <= |s| && s[i] == '`' && s[i + 1] == '`' && s[i + 2] == '`'
  }

  /** The first fence starting at or after `from`. */
  function FindFence(s: string, from: nat): (r: Option<nat>)
    requires from <= |s|
    ensures r.Some? ==> from <= r.value && FenceAt(s, r.value)
    ensures r.Some? ==> forall k :: from <= k < r.value ==> !FenceAt(s, k)
    ensures r.None? ==> forall k :: from <= k <= |s| ==> !FenceAt(s, k)
    decreases |s| - from
  {
    if from + 3 > |s| then None
    else if FenceAt(s, from) then Some(from)
    else FindFence(s, from + 1)
  }

  /** The optional language tag of the block pattern, in the order the
      alternation tries them; the empty string is the "no tag" branch. */
  const TagAlternatives: seq<string> := ["jsx", "tsx", "javascript", "js", ""]

  /** Taking tag `t` right after the opening fence that ends at `q` lets the
      rest of the pattern match: some closing fence follows the tag. */
  predicate TagCompletes(s: string, q: nat, t: string) {
    && OccursAt(s, t, q)
    && exists k :: q + |t| <= k <= |s| && FenceAt(s, k)
  }

  /** The alternative the regular expression settles on: the first, from `i`
      on, that lets the match complete. */
  function ChooseTag(s: string, q: nat, i: nat): (j: nat)
    requires q <= |s| && i < |TagAlternatives|
    requires TagCompletes(s, q, "")
    ensures i <= j < |TagAlternatives| && TagCompletes(s, q, TagAlternatives[j])
    ensures forall k :: i <= k < j ==> !TagCompletes(s, q, TagAlternatives[k])
    decreases |TagAlternatives| - i
  {
    var t := TagAlternatives[i];
    if i == |TagAlternatives| - 1 then i
    else if OccursAt(s, t, q) && FindFence(s, q + |t|).Some? then i
    else ChooseTag(s, q, i + 1)
  }

  /** A match of the block pattern
        /```(?:jsx|tsx|javascript|js)?\s*([\s\S]*?)\s*```/
      the opening fence at `open`, the tag `TagAlternatives[tag]`, the captured
      group `s[bodyStart..bodyEnd]` and the closing fence at `close`. */
  datatype Block = Block(open: nat, tag: nat, bodyStart: nat, bodyEnd: nat, close: nat)

  /** `m` is some match of the block pattern in `s`. */
  predicate IsBlockMatch(s: string, m: Block) {
    && m.tag < |TagAlternatives|
    && var q := m.open + 3 + |TagAlternatives[m.tag]|;
    && FenceAt(s, m.open)
    && FenceAt(s, m.close)
    && q <= m.bodyStart <= m.bodyEnd <= m.close
    && OccursAt(s, TagAlternatives[m.tag], m.open + 3)
    && AllSpace(s[q..m.bodyStart])
    && AllSpace(s[m.bodyEnd..m.close])
  }

  /** No match can start before `m`: every match starts at a fence. */
  predicate Leftmost(s: string, m: Block) {
    forall k :: 0 <= k < m.open ==> !FenceAt(s, k)
  }

  /** Every tag alternative tried before the one `m` takes fails. */
  predicate FirstTag(s: string, m: Block) {
    forall j :: 0 <= j < m.tag && j < |TagAlternatives| ==> !TagCompletes(s, m.open + 3, TagAlternatives[j])
  }

  /** `m` is a match with the longest leading whitespace, the shortest body and
      the longest trailing whitespace. */
  predicate BodyRules(s: string, m: Block) {
    && IsBlockMatch(s, m)
    && m.open + 3 <= m.bodyStart <= m.bodyEnd <= m.close <= |s| - 3
    && (m.bodyStart == |s| || !IsSpace(s[m.bodyStart]))
    && (forall k :: m.bodyStart <= k < m.close ==> !FenceAt(s, k))
    && (m.bodyEnd == m.bodyStart || !IsSpace(s[m.bodyEnd - 1]))
  }

  /** `m` is the match a JavaScript regular expression reports: it starts at
      the leftmost place any match can start, takes the first tag alternative
      that can complete, then the longest leading whitespace, the shortest
      body and the longest trailing whitespace. */
  predicate IsFirstBlockMatch(s: string, m: Block) {
    Leftmost(s, m) && FirstTag(s, m) && BodyRules(s, m)
  }

  /** The text holds two fences that do not overlap. */
  predicate HasTwoFences(s: string) {
    exists i, j :: 0 <= i && i + 3 <= j <= |s| && FenceAt(s, i) && FenceAt(s, j)
  }

  /** A fence is never whitespace, so a search that starts inside a run of
      whitespace finds the same fence as one started after it. */
  lemma FindFenceSkipsSpaces(s: string, q: nat, b: nat)
    requires q <= b <= |s|
    requires forall k :: q <= k < b ==> IsSpace(s[k])
    ensures FindFence(s, q) == FindFence(s, b)
  {
    if FindFence(s, q).Some? {
      var f := FindFence(s, q).value;
      assert s[f..f + 3][0] == s[f];
    }
  }

  lemma FenceAfter(s: string, q: nat)
    requires q <= |s|
    requires exists k :: q <= k <= |s| && FenceAt(s, k)
    ensures FindFence(s, q).Some?
  {
  }

  /** The slices of `IsBlockMatch`, stated index by index. */
  lemma BlockMatchIntro(s: string, m: Block)
    requires m.tag < |TagAlternatives| && FenceAt(s, m.open) && FenceAt(s, m.close)
    requires OccursAt(s, TagAlternatives[m.tag], m.open + 3)
    requires m.open + 3 + |TagAlternatives[m.tag]| <= m.bodyStart <= m.bodyEnd <= m.close
    requires forall k :: m.open + 3 + |TagAlternatives[m.tag]| <= k < m.bodyStart ==> IsSpace(s[k])
    requires forall k :: m.bodyEnd <= k < m.close ==> IsSpace(s[k])
    ensures IsBlockMatch(s, m)
  {
    var q := m.open + 3 + |TagAlternatives[m.tag]|;
    assert AllSpace(s[q..m.bodyStart]) by {
      assert forall k :: 0 <= k < m.bodyStart - q ==> s[q..m.bodyStart][k] == s[q + k];
    }
    assert AllSpace(s[m.bodyEnd..m.close]) by {
      assert forall k :: 0 <= k < m.close - m.bodyEnd ==> s[m.bodyEnd..m.close][k] == s[m.bodyEnd + k];
    }
  }

  /** The rest of the match once the tag is fixed: the greedy whitespace, the
      lazy body up to the first closing fence, and the greedy whitespace
      before that fence. */
  function BlockWithTag(s: string, p: nat, tag: nat): (m: Block)
    requires FenceAt(s, p) && tag < |TagAlternatives|
    requires TagCompletes(s, p + 3, TagAlternatives[tag])
    ensures BodyRules(s, m) && m.open == p && m.tag == tag
  {
    var q := p + 3 + |TagAlternatives[tag]|;
    FenceAfter(s, q);
    var b := SkipSpaces(s, q);
    FindFenceSkipsSpaces(s, q, b);
    var f := FindFence(s, b).value;
    var e := SpaceRunStart(s, b, f);
    BlockMatchIntro(s, Block(p, tag, b, e, f));
    Block(p, tag, b, e, f)
  }

  /** The match of the block pattern whose opening fence is the one at `p`. */
  function BlockFrom(s: string, p: nat): (m: Block)
    requires FenceAt(s, p) && FindFence(s, p + 3).Some?
    ensures BodyRules(s, m) && FirstTag(s, m) && m.open == p
  {
    var f0 := FindFence(s, p + 3).value;
    assert TagCompletes(s, p + 3, "") by { assert p + 3 <= f0 <= |s| && FenceAt(s, f0); }
    BlockWithTag(s, p, ChooseTag(s, p + 3, 0))
  }

  /** When the first fence has no fence after it, no two fences exist. */
  lemma NoClosingFence(s: string, p: nat)
    requires FindFence(s, 0) == Some(p) && FindFence(s, p + 3).None?
    ensures !HasTwoFences(s)
  {
  }

  lemma TwoFences(s: string, i: nat, j: nat)
    requires i + 3 <= j <= |s| && FenceAt(s, i) && FenceAt(s, j)
    ensures HasTwoFences(s)
  {
  }

  /** The first match of the block pattern, if there is one (`rawCode.match(…)`). */
  function FindBlock(s: string): (r: Option<Block>)
    ensures r.Some? ==> IsFirstBlockMatch(s, r.value)
    ensures r.None? <==> !HasTwoFences(s)
  {
    match FindFence(s, 0)
    case None => None
    case Some(p) =>
      if FindFence(s, p + 3).None? then
        NoClosingFence(s, p);
        None
      else
        var m := BlockFrom(s, p);
        TwoFences(s, p, m.close);
        Some(m)
  }

  lemma AllSpaceSlice(s: string, lo: nat, hi: nat)
    requires lo <= hi <= |s| && AllSpace(s[lo..hi])
    ensures forall k :: lo <= k < hi ==> IsSpace(s[k])
  {
    forall k | lo <= k < hi ensures IsSpace(s[k]) {
      assert s[lo..hi][k - lo] == s[k];
    }
  }

  /** A match's tag alternative can complete: its closing fence follows it. */
  lemma MatchTagCompletes(s: string, m: Block)
    requires IsBlockMatch(s, m)
    ensures TagCompletes(s, m.open + 3, TagAlternatives[m.tag])
  {
    assert FenceAt(s, m.close);
  }

  /** Two leftmost matches open at the same fence. */
  lemma SameOpen(s: string, m1: Block, m2: Block)
    requires Leftmost(s, m1) && Leftmost(s, m2)
    requires FenceAt(s, m1.open) && FenceAt(s, m2.open)
    ensures m1.open == m2.open
  {
  }

  /** Two matches from one fence that both take the first tag that can
      complete take the same tag. */
  lemma SameTag(s: string, m1: Block, m2: Block)
    requires m1.open == m2.open
    requires IsBlockMatch(s, m1) && IsBlockMatch(s, m2)
    requires FirstTag(s, m1) && FirstTag(s, m2)
    ensures m1.tag == m2.tag
  {
    MatchTagCompletes(s, m1);
    MatchTagCompletes(s, m2);
  }

  /** A greedy run of whitespace from `q` ends at one place. */
  lemma SameRunEnd(s: string, q: nat, b1: nat, b2: nat)
    requires q <= b1 <= |s| && q <= b2 <= |s|
    requires forall k :: q <= k < b1 ==> IsSpace(s[k])
    requires forall k :: q <= k < b2 ==> IsSpace(s[k])
    requires b1 == |s| || !IsSpace(s[b1])
    requires b2 == |s| || !IsSpace(s[b2])
    ensures b1 == b2
  {
  }

  /** The first fence at or after `b` is one fence. */
  lemma SameFirstFence(s: string, b: nat, c1: nat, c2: nat)
    requires b <= c1 && b <= c2 && FenceAt(s, c1) && FenceAt(s, c2)
    requires forall k :: b <= k < c1 ==> !FenceAt(s, k)
    requires forall k :: b <= k < c2 ==> !FenceAt(s, k)
    ensures c1 == c2
  {
  }

  /** A greedy run of whitespace that ends at `c` starts at one place. */
  lemma SameRunStart(s: string, b: nat, e1: nat, e2: nat, c: nat)
    requires b <= e1 <= c <= |s| && b <= e2 <= c
    requires forall k :: e1 <= k < c ==> IsSpace(s[k])
    requires forall k :: e2 <= k < c ==> IsSpace(s[k])
    requires e1 == b || !IsSpace(s[e1 - 1])
    requires e2 == b || !IsSpace(s[e2 - 1])
    ensures e1 == e2
  {
  }

  /** Two first matches are the same match: the rules above leave no choice. */
  lemma FirstBlockMatchUnique(s: string, m1: Block, m2: Block)
    requires IsFirstBlockMatch(s, m1) && IsFirstBlockMatch(s, m2)
    ensures m1 == m2
  {
    assert IsBlockMatch(s, m1) && IsBlockMatch(s, m2);
    SameOpen(s, m1, m2);
    SameTag(s, m1, m2);
    var q := m1.open + 3 + |TagAlternatives[m1.tag]|;
    AllSpaceSlice(s, q, m1.bodyStart);
    AllSpaceSlice(s, q, m2.bodyStart);
    SameRunEnd(s, q, m1.bodyStart, m2.bodyStart);
    SameFirstFence(s, m1.bodyStart, m1.close, m2.close);
    AllSpaceSlice(s, m1.bodyEnd, m1.close);
    AllSpaceSlice(s, m2.bodyEnd, m2.close);
    SameRunStart(s, m1.bodyStart, m1.bodyEnd, m2.bodyEnd, m1.close);
  }

  /** The tags the fallback's opening-fence pattern
      /^```(?:jsx|tsx|javascript)?\n/i accepts; unlike the block pattern it
      has no `js` alternative. */
  const OpeningTags: seq<string> := ["jsx", "tsx", "javascript", ""]

  /** After the fence at the start of `s` comes `t`, in any letter case, and a line feed. */
  predicate TagLine(s: string, t: string) {
    4 + |t| <= |s| && EqualIgnoringCase(s[3..3 + |t|], t) && s[3 + |t|] == '\n'
  }

  /** `s` begins with an opening fence line `n` characters long. */
  predicate OpeningFenceLine(s: string, n: nat) {
    FenceAt(s, 0) && exists j :: 0 <= j < |OpeningTags| && n == 4 + |OpeningTags[j]| && TagLine(s, OpeningTags[j])
  }

  function OpeningTagFrom(s: string, j: nat): (n: nat)
    requires FenceAt(s, 0) && j <= |OpeningTags|
    ensures n != 0 ==> OpeningFenceLine(s, n)
    ensures n == 0 ==> forall i :: j <= i < |OpeningTags| ==> !TagLine(s, OpeningTags[i])
    decreases |OpeningTags| - j
  {
    if j == |OpeningTags| then 0
    else if TagLine(s, OpeningTags[j]) then 4 + |OpeningTags[j]|
    else OpeningTagFrom(s, j + 1)
  }

  /** The length of the opening fence line the fallback removes, 0 when `s`
      does not begin with one. */
  function OpeningFenceLength(s: string): (n: nat)
    ensures n <= |s|
    ensures n != 0 ==> OpeningFenceLine(s, n)
    ensures n == 0 <==> forall k :: !OpeningFenceLine(s, k)
  {
    if FenceAt(s, 0) then OpeningTagFrom(s, 0) else 0
  }

  /** `replace(/^```(?:jsx|tsx|javascript)?\n/i, '')`. */
  function StripOpeningFence(s: string): (r: string)
    ensures |r| <= |s| && s == s[..|s| - |r|] + r
    ensures r == s <==> forall k :: !OpeningFenceLine(s, k)
    ensures r != s ==> OpeningFenceLine(s, |s| - |r|)
  {
    var n := OpeningFenceLength(s);
    assert n != 0 ==> |s[n..]| < |s|;
    s[n..]
  }

  /** `replace(/```$/, '')`: a fence at the very end goes. */
  function StripClosingFence(s: string): (r: string)
    ensures EndsWith(s, Fence) ==> r + Fence == s
    ensures !EndsWith(s, Fence) ==> r == s
  {
    if EndsWith(s, Fence) then s[..|s| - 3] else s
  }

  /** `cleanGeneratedCode`: the trimmed body of the first code block when it
      is not empty, otherwise the trimmed text with an opening fence line at
      its start and a fence at its end removed. */
  function CleanGeneratedCode(raw: string): (r: string)
    ensures Trimmed(r)
  {
    match FindBlock(raw)
    case Some(m) =>
      if m.bodyStart < m.bodyEnd then Trim(raw[m.bodyStart..m.bodyEnd])
      else Trim(StripClosingFence(StripOpeningFence(raw)))
    case None => Trim(StripClosingFence(StripOpeningFence(raw)))
  }

  /** `FindBlock` finds the first match whenever there is one. */
  lemma FindBlockFindsFirst(s: string, m: Block)
    requires IsFirstBlockMatch(s, m)
    ensures FindBlock(s) == Some(m)
  {
    TwoFences(s, m.open, m.close);
    FirstBlockMatchUnique(s, FindBlock(s).value, m);
  }

  lemma SliceOfSlice(s: string, lo: nat, hi: nat, a: nat, b: nat)
    requires lo <= hi <= |s| && a <= b <= hi - lo
    ensures s[lo..hi][a..b] == s[lo + a..lo + b]
  {
    forall k | 0 <= k < b - a ensures s[lo..hi][a..b][k] == s[lo + a..lo + b][k] {
    }
  }

  /** A slice whose ends inside `s[q..c]` are whitespace is framed by them. */
  lemma InnerFrames(s: string, q: nat, b: nat, e: nat, c: nat)
    requires q <= b <= e <= c <= |s|
    requires AllSpace(s[q..b]) && AllSpace(s[e..c])
    ensures Frames(s[q..c], b - q, s[b..e])
  {
    var inner := s[q..c];
    SliceOfSlice(s, q, c, b - q, e - q);
    SliceOfSlice(s, q, c, 0, b - q);
    SliceOfSlice(s, q, c, e - q, c - q);
    assert inner[..b - q] == inner[0..b - q];
    assert inner[e - q..] == inner[e - q..c - q];
  }

  /** A slice that neither starts nor ends with whitespace is trimmed. */
  lemma SliceTrimmed(s: string, b: nat, e: nat)
    requires b < e <= |s| && !IsSpace(s[b]) && !IsSpace(s[e - 1])
    ensures Trimmed(s[b..e])
  {
    assert s[b..e][0] == s[b];
    assert s[b..e][e - b - 1] == s[e - 1];
  }

  /** Trimming `s[q..c]` leaves the part between its whitespace ends. */
  lemma TrimInner(s: string, q: nat, b: nat, e: nat, c: nat)
    requires q <= b < e <= c <= |s|
    requires AllSpace(s[q..b]) && AllSpace(s[e..c])
    requires !IsSpace(s[b]) && !IsSpace(s[e - 1])
    ensures Trim(s[q..c]) == s[b..e]
  {
    InnerFrames(s, q, b, e, c);
    SliceTrimmed(s, b, e);
    TrimUnique(s[q..c], b - q, s[b..e]);
  }

  /** The body of a match is trimmed: it neither starts nor ends with whitespace. */
  lemma BodyTrimmed(s: string, m: Block)
    requires BodyRules(s, m) && m.bodyStart < m.bodyEnd
    ensures Trimmed(s[m.bodyStart..m.bodyEnd])
  {
    SliceTrimmed(s, m.bodyStart, m.bodyEnd);
  }

  /** The captured body is the text between tag and closing fence, trimmed. */
  lemma BodyIsTrimmedInner(s: string, m: Block)
    requires BodyRules(s, m) && m.bodyStart < m.bodyEnd
    ensures Trim(s[m.open + 3 + |TagAlternatives[m.tag]|..m.close]) == s[m.bodyStart..m.bodyEnd]
  {
    var q := BlockSpaces(s, m);
    TrimInner(s, q, m.bodyStart, m.bodyEnd, m.close);
  }

  /** Where the whitespace before the body starts, and the two runs of
      whitespace around the body. */
  lemma BlockSpaces(s: string, m: Block) returns (q: nat)
    requires IsBlockMatch(s, m)
    ensures q == m.open + 3 + |TagAlternatives[m.tag]|
    ensures q <= m.bodyStart <= m.bodyEnd <= m.close <= |s|
    ensures AllSpace(s[q..m.bodyStart]) && AllSpace(s[m.bodyEnd..m.close])
  {
    q := m.open + 3 + |TagAlternatives[m.tag]|;
  }

  /** With a non-empty block body, cleaning yields the trimmed body. */
  lemma CleanTakesBody(raw: string, m: Block)
    requires IsFirstBlockMatch(raw, m) && m.bodyStart < m.bodyEnd
    ensures CleanGeneratedCode(raw) == Trim(raw[m.bodyStart..m.bodyEnd])
  {
    FindBlockFindsFirst(raw, m);
  }

  /** With a non-empty block body, cleaning yields exactly that body, which is
      also the trimmed text between the tag and the closing fence. */
  lemma CleanTakesFirstBlock(raw: string, m: Block)
    requires IsFirstBlockMatch(raw, m) && m.bodyStart < m.bodyEnd
    ensures CleanGeneratedCode(raw) == raw[m.bodyStart..m.bodyEnd]
    ensures CleanGeneratedCode(raw) == Trim(raw[m.open + 3 + |TagAlternatives[m.tag]|..m.close])
  {
    CleanTakesBody(raw, m);
    BodyTrimmed(raw, m);
    TrimTrimmed(raw[m.bodyStart..m.bodyEnd]);
    BodyIsTrimmedInner(raw, m);
  }

  /** Without a block, or with an empty one, cleaning removes an opening fence
      line at the start and a fence at the end, and trims. */
  lemma CleanFallback(raw: string)
    requires forall m :: IsFirstBlockMatch(raw, m) ==> m.bodyStart == m.bodyEnd
    ensures CleanGeneratedCode(raw) == Trim(StripClosingFence(StripOpeningFence(raw)))
  {
  }

  /** A fence, a line feed and a fence open the text: the first block is
      the empty one between the two fences. */
  lemma EmptyFirstBlock(s: string)
    requires FenceAt(s, 0) && 4 <= |s| && s[3] == '\n' && FenceAt(s, 4)
    ensures forall m :: IsFirstBlockMatch(s, m) ==> m.bodyStart == m.bodyEnd
  {
    forall m | IsFirstBlockMatch(s, m) ensures m.bodyStart == m.bodyEnd {
      assert m.open == 0;
      assert IsBlockMatch(s, m);
      AllSpaceSlice(s, 3, m.bodyStart);
      assert m.bodyStart == 4;
    }
  }

  /** A fence and a line feed open the text: the fallback drops those four characters. */
  lemma BareFenceLine(s: string)
    requires FenceAt(s, 0) && 4 <= |s| && s[3] == '\n'
    ensures OpeningFenceLength(s) == 4
  {
    forall j | 0 <= j < 3 ensures !TagLine(s, OpeningTags[j]) {
      assert LowerAscii(s[3]) == '\n';
    }
    assert TagLine(s, OpeningTags[3]);
  }

  /** A fence, a line feed and a fence open the text: cleaning falls back
      and drops the first fence line. */
  lemma CleanAfterEmptyBlock(s: string)
    requires FenceAt(s, 0) && 4 <= |s| && s[3] == '\n' && FenceAt(s, 4)
    ensures CleanGeneratedCode(s) == Trim(StripClosingFence(s[4..]))
  {
    EmptyFirstBlock(s);
    CleanFallback(s);
    BareFenceLine(s);
  }

  /** Trimmed text without a backquote is code already: cleaning returns it as it is. */
  lemma CleanKeepsPlainCode(s: string)
    requires '`' !in s && Trimmed(s)
    ensures CleanGeneratedCode(s) == s
  {
    assert forall k :: !FenceAt(s, k);
    assert !EndsWith(s, Fence) by {
      if |s| >= 3 { assert s[|s| - 3..][0] == s[|s| - 3]; }
    }
    TrimTrimmed(s);
  }

  lemma NotStartsWith(s: string, p: string, d: nat)
    requires d < |p| && d < |s| && s[d] != p[d]
    ensures !StartsWith(s, p)
  {
    if |p| <= |s| { assert s[..|p|][d] == s[d]; }
  }

  /** Once a tag and a line feed follow the fence, none of the alternatives
      tried before that tag fits. */
  lemma EarlierTagsDiffer(i: nat, j: nat, rest: string)
    requires j < i < |TagAlternatives|
    ensures !StartsWith(TagAlternatives[i] + "\n" + rest, TagAlternatives[j])
  {
    var line := TagAlternatives[i] + "\n" + rest;
    if i == 1 || (i == 2 && j == 1) || (i == 3 && j == 1) {
      NotStartsWith(line, TagAlternatives[j], 0);
    } else if i == 2 || (i == 3 && j == 2) {
      NotStartsWith(line, TagAlternatives[j], 1);
    } else if i == 3 {
      NotStartsWith(line, TagAlternatives[j], 2);
    } else {
      NotStartsWith(line, TagAlternatives[j], 0);
    }
  }

  /** Index by index, `raw` holds at `o` a fence, the tag `t`, a line feed,
      `code`, a line feed and a fence. */
  predicate FencedAt(raw: string, o: nat, t: string, code: string) {
    var b := o + 3 + |t| + 1;
    var e := b + |code|;
    && e + 4 <= |raw|
    && FenceAt(raw, o) && FenceAt(raw, e + 1)
    && (forall d :: 0 <= d < |t| ==> raw[o + 3 + d] == t[d])
    && raw[b - 1] == '\n' && raw[e] == '\n'
    && (forall k :: 0 <= k < |code| ==> raw[b + k] == code[k])
  }

  lemma FencedLayout(pre: string, i: nat, code: string, post: string)
    requires '`' !in pre && i < |TagAlternatives|
    ensures var raw := pre + Fence + TagAlternatives[i] + "\n" + code + "\n" + Fence + post;
      && FencedAt(raw, |pre|, TagAlternatives[i], code)
      && (forall k :: 0 <= k < |pre| ==> raw[k] != '`')
      && (forall j :: 0 <= j < i ==> !TagCompletes(raw, |pre| + 3, TagAlternatives[j]))
  {
    var t := TagAlternatives[i];
    var raw := pre + Fence + t + "\n" + code + "\n" + Fence + post;
    var rest := code + "\n" + Fence + post;
    var line := t + "\n" + rest;
    assert raw == pre + Fence + line;
    forall k | 0 <= k < |pre| ensures raw[k] != '`' { assert raw[k] == pre[k]; }
    assert raw[|pre| + 3..] == line;
    FencedFirstTag(raw, |pre|, i, rest);
  }

  /** Inside a fenced layout the only fence after the opening one, up to the
      closing one, is the closing one. */
  lemma FencedNoInnerFence(raw: string, o: nat, t: string, code: string)
    requires FencedAt(raw, o, t, code) && forall k :: !FenceAt(code, k)
    ensures forall k :: o + 3 + |t| + 1 <= k < o + 3 + |t| + 1 + |code| + 1 ==> !FenceAt(raw, k)
  {
    var b := o + 3 + |t| + 1;
    var e := b + |code|;
    forall k | b <= k < e + 1 ensures !FenceAt(raw, k) {
      if k + 2 < e && FenceAt(raw, k) {
        assert raw[k] == code[k - b] && raw[k + 1] == code[k - b + 1] && raw[k + 2] == code[k - b + 2];
        assert FenceAt(code, k - b);
      }
    }
  }

  /** After the fence of a fenced layout, the tags tried before its own fail. */
  lemma FencedFirstTag(raw: string, o: nat, i: nat, rest: string)
    requires i < |TagAlternatives| && o + 3 <= |raw|
    requires raw[o + 3..] == TagAlternatives[i] + "\n" + rest
    ensures forall j :: 0 <= j < i ==> !TagCompletes(raw, o + 3, TagAlternatives[j])
  {
    forall j | 0 <= j < i ensures !TagCompletes(raw, o + 3, TagAlternatives[j]) {
      EarlierTagsDiffer(i, j, rest);
    }
  }

  /** A fenced layout preceded by no backquote is the first block match. */
  lemma FencedIsFirstMatch(raw: string, o: nat, i: nat, code: string)
    requires i < |TagAlternatives| && FencedAt(raw, o, TagAlternatives[i], code)
    requires forall j :: 0 <= j < i ==> !TagCompletes(raw, o + 3, TagAlternatives[j])
    requires forall k :: 0 <= k < o ==> raw[k] != '`'
    requires code != [] && Trimmed(code) && forall k :: !FenceAt(code, k)
    ensures var b := o + 3 + |TagAlternatives[i]| + 1;
      IsFirstBlockMatch(raw, Block(o, i, b, b + |code|, b + |code| + 1)) && raw[b..b + |code|] == code
  {
    var t := TagAlternatives[i];
    var b := o + 3 + |t| + 1;
    var e := b + |code|;
    var m := Block(o, i, b, e, e + 1);
    FencedNoInnerFence(raw, o, t, code);
    assert raw[b] == code[0] && raw[e - 1] == code[|code| - 1];
    BlockMatchIntro(raw, m);
    assert raw[b..e] == code;
  }

  lemma CleanFirstBody(raw: string, m: Block, code: string)
    requires IsFirstBlockMatch(raw, m) && m.bodyStart < m.bodyEnd && raw[m.bodyStart..m.bodyEnd] == code
    ensures CleanGeneratedCode(raw) == code
  {
    CleanTakesFirstBlock(raw, m);
  }

  /** A fenced layout preceded by no backquote, with its earlier tags
      failing, cleans to its code. */
  lemma CleanFencedAt(raw: string, o: nat, i: nat, code: string)
    requires i < |TagAlternatives| && FencedAt(raw, o, TagAlternatives[i], code)
    requires forall j :: 0 <= j < i ==> !TagCompletes(raw, o + 3, TagAlternatives[j])
    requires forall k :: 0 <= k < o ==> raw[k] != '`'
    requires code != [] && Trimmed(code) && forall k :: !FenceAt(code, k)
    ensures CleanGeneratedCode(raw) == code
  {
    FencedIsFirstMatch(raw, o, i, code);
    var b := o + 3 + |TagAlternatives[i]| + 1;
    CleanFirstBody(raw, Block(o, i, b, b + |code|, b + |code| + 1), code);
  }

  /** Code wrapped in a fenced block, after any text without backquotes,
      comes back out of `CleanGeneratedCode` unchanged, whichever tag the
      block carries. */
  lemma CleanFencedCode(pre: string, i: nat, code: string, post: string)
    requires '`' !in pre && i < |TagAlternatives|
    requires code != [] && Trimmed(code) && forall k :: !FenceAt(code, k)
    ensures CleanGeneratedCode(pre + Fence + TagAlternatives[i] + "\n" + code + "\n" + Fence + post) == code
  {
    FencedLayout(pre, i, code, post);
    CleanFencedAt(pre + Fence + TagAlternatives[i] + "\n" + code + "\n" + Fence + post, |pre|, i, code);
  }
}
