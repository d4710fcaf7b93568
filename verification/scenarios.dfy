/** Worked examples of the whole repair pass on concrete generator replies:
    a fenced container with a button, a heading in a `div`, a chart with
    malformed data, and one reply that shows the pass is not idempotent. Texts are stated character by character (`Spells`) so that
    the chain is never applied to a literal, which the verifier would
    evaluate in full. */
module Scenarios {

  import opened Text
  import opened Rewrite
  import opened Repair
  import opened TagFix
  import opened RepairFacts
  import opened DataFix
  import Cleaner
  import Schema
  import Validator

  /** The reply the counterexample below starts from: an empty block, then
      text between stray fences. */
  const StrayFences := "```\n```x```y```"

  /** The code the first repair of that reply yields. */
  const RepairedOnce := "<>\n```x```y\n</>"

  /** `s` holds the characters of `t`, one by one. */
  predicate Spells(s: string, t: string) {
    |s| == |t| && forall i :: 0 <= i < |s| ==> s[i] == t[i]
  }

  /** Cleaned text the repair pass only wraps: trimmed, no fragment opener,
      no `<` and no `d`. */
  predicate OnlyWrapped(code: string) {
    Trimmed(code) && !StartsWith(code, "<>") && '<' !in code && 'd' !in code
  }

  /** The text between the first fence line and the final fence of the
      stray-fence reply. */
  lemma StrayFencesInner(s: string)
    requires Spells(s, StrayFences)
    ensures Cleaner.FenceAt(s, 0) && s[3] == '\n' && Cleaner.FenceAt(s, 4)
    ensures s[4..][8..] == Cleaner.Fence && s[4..][..8] == "```x```y"
  {
    assert s == StrayFences;
  }

  /** `` ```x```y `` is cleaned code the pass only wraps. */
  lemma InnerOnlyWrapped()
    ensures OnlyWrapped("```x```y") && Spells("```x```y", "```x```y")
  {
  }

  /** The first pass finds only an empty block, so the cleaner falls back:
      it drops the opening fence line and the final fence and keeps the rest. */
  lemma StrayFencesCleaned(s: string)
    requires Spells(s, StrayFences)
    ensures Spells(Cleaner.CleanGeneratedCode(s), "```x```y")
    ensures OnlyWrapped(Cleaner.CleanGeneratedCode(s))
  {
    StrayFencesInner(s);
    Cleaner.CleanAfterEmptyBlock(s);
    InnerOnlyWrapped();
    TrimTrimmed("```x```y");
  }

  /** The second pass's first block: the fences at 3 and 7, no language tag,
      the body `x`. */
  lemma RepairedOnceBlock(s: string) returns (m: Cleaner.Block)
    requires Spells(s, RepairedOnce)
    ensures Cleaner.IsFirstBlockMatch(s, m) && m.bodyStart < m.bodyEnd
    ensures m.bodyStart == 6 && m.bodyEnd == 7 && s[6] == 'x'
  {
    m := Cleaner.Block(3, 4, 6, 7, 7);
    assert Cleaner.TagAlternatives[4] == [];
    assert forall k :: 0 <= k < 3 ==> !Cleaner.FenceAt(s, k);
    assert Cleaner.IsBlockMatch(s, m) by {
      assert s[6..6] == [] && s[7..7] == [];
      assert OccursAt(s, [], 6);
      assert Cleaner.FenceAt(s, 3) && Cleaner.FenceAt(s, 7);
    }
    assert Cleaner.FirstTag(s, m) by {
      forall j | 0 <= j < 4 ensures !OccursAt(s, Cleaner.TagAlternatives[j], 6) {
        assert s[6] == 'x';
      }
    }
  }

  /** The second pass finds the block around `x` and keeps only `x`. */
  lemma RepairedOnceCleaned(s: string)
    requires Spells(s, RepairedOnce)
    ensures Spells(Cleaner.CleanGeneratedCode(s), "x")
    ensures OnlyWrapped(Cleaner.CleanGeneratedCode(s))
  {
    var m := RepairedOnceBlock(s);
    CleanedToX(s, m);
  }

  /** A first block whose body is `x` alone is cleaned to `x`. */
  lemma CleanedToX(s: string, m: Cleaner.Block)
    requires Cleaner.IsFirstBlockMatch(s, m) && m.bodyStart + 1 == m.bodyEnd && s[m.bodyStart] == 'x'
    ensures Spells(Cleaner.CleanGeneratedCode(s), "x")
    ensures OnlyWrapped(Cleaner.CleanGeneratedCode(s))
  {
    Cleaner.CleanTakesFirstBlock(s, m);
    XOnlyWrapped(s[m.bodyStart..m.bodyEnd]);
  }

  lemma XOnlyWrapped(c: string)
    requires |c| == 1 && c[0] == 'x'
    ensures Spells(c, "x") && OnlyWrapped(c)
  {
    assert !StartsWith(c, "<>");
  }

  /** Cleaned code the pass only wraps is repaired to itself in a fragment. */
  lemma RepairWraps(raw: string)
    requires OnlyWrapped(Cleaner.CleanGeneratedCode(raw))
    ensures RepairCode(raw) == "<>\n" + Cleaner.CleanGeneratedCode(raw) + "\n</>"
  {
    var code := Cleaner.CleanGeneratedCode(raw);
    TrimTrimmed(code);
    AutoFixKeepsWrapped(code);
  }

  /** The first repair of the stray-fence reply wraps `` ```x```y ``. */
  lemma WrappedSpellsRepairedOnce(c: string)
    requires Spells(c, "```x```y")
    ensures Spells("<>\n" + c + "\n</>", RepairedOnce)
  {
    assert c == "```x```y";
  }

  /** The repair pass is not idempotent: a reply with stray fences is
      repaired to code that holds a non-empty block, and repairing that
      again keeps only the block. */
  lemma RepairNotIdempotent(raw: string)
    requires Spells(raw, StrayFences)
    ensures Spells(RepairCode(raw), RepairedOnce)
    ensures |RepairCode(RepairCode(raw))| == |"<>\nx\n</>"|
    ensures RepairCode(RepairCode(raw)) != RepairCode(raw)
  {
    StrayFencesCleaned(raw);
    RepairWraps(raw);
    var once := RepairCode(raw);
    WrappedSpellsRepairedOnce(Cleaner.CleanGeneratedCode(raw));
    RepairedOnceCleaned(once);
    RepairWraps(once);
  }

  /** A reply with layout and heading tags and no fence. */
  const DivHeading := "<div><h1>Title</h1></div>"

  /** Text without a backquote that is trimmed and does not open a fragment
      is cleaned to itself and then wrapped. */
  lemma PlainReplyWrapped(raw: string)
    requires '`' !in raw && Trimmed(raw) && 2 <= |raw| && raw[1] != '>'
    ensures WrapFragment(Cleaner.CleanGeneratedCode(raw)) == "<>\n" + raw + "\n</>"
  {
    Cleaner.CleanKeepsPlainCode(raw);
    TrimTrimmed(raw);
    assert raw[..2][1] == raw[1];
  }

  /** Text and tags, one step of `Interleave` at a time. */
  lemma InterleaveStep(texts: seq<string>, tags: seq<string>, k: nat)
    requires |texts| == |tags| && k < |texts|
    ensures Interleave(texts[k..], tags[k..]) == texts[k] + tags[k] + Interleave(texts[k + 1..], tags[k + 1..])
  {
    assert texts[k..][1..] == texts[k + 1..] && tags[k..][1..] == tags[k + 1..];
  }

  /** Six pieces of text and six tags, written out. */
  lemma InterleaveSix(texts: seq<string>, tags: seq<string>)
    requires |texts| == |tags| == 6
    ensures Interleave(texts, tags)
         == texts[0] + tags[0] + (texts[1] + tags[1] + (texts[2] + tags[2]
          + (texts[3] + tags[3] + (texts[4] + tags[4] + (texts[5] + tags[5] + [])))))
  {
    InterleaveStep(texts, tags, 5);
    InterleaveStep(texts, tags, 4);
    InterleaveStep(texts, tags, 3);
    InterleaveStep(texts, tags, 2);
    InterleaveStep(texts, tags, 1);
    InterleaveStep(texts, tags, 0);
    assert texts[0..] == texts && tags[0..] == tags;
  }

  /** The text between the tags of the reply, once it is wrapped. */
  const DivHeadingTexts: seq<string> := ["", "\n", "", "Title", "", "\n"]

  /** What the chain makes of the six tags of the reply. */
  const Renamed: seq<string> := ["<>", OpenContainer, OpenContainer, CloseContainer, CloseContainer, "</>"]

  /** The repaired reply: `<>`, a line break, the `Container` tags around the
      title, a line break, `</>`. */
  const DivHeadingRepairedText := "<>" + "\n" + OpenContainer + OpenContainer + "Title" + CloseContainer + CloseContainer + "\n" + "</>"

  /** The reply's text with the renamed tags in place of its own. */
  lemma DivHeadingOutput(x: seq<string>, g: seq<string>)
    requires |x| == |g| == 6
    requires x[0] == x[2] == x[4] == [] && x[1] == x[5] == "\n" && x[3] == "Title"
    requires g[0] == "<>" && g[1] == g[2] == OpenContainer && g[3] == g[4] == CloseContainer && g[5] == "</>"
    ensures Interleave(x, g) + [] == DivHeadingRepairedText
  {
    InterleaveSix(x, g);
  }

  /** Where the reply's tags and title sit. */
  lemma DivHeadingSlices()
    ensures |DivHeading| == 25
    ensures DivHeading[..5] == "<div>" && DivHeading[5..9] == "<h1>" && DivHeading[9..14] == "Title"
    ensures DivHeading[14..19] == "</h1>" && DivHeading[19..] == "</div>"
  {
  }

  /** A slice of a text spells the same slice of what the text spells. */
  lemma SliceSpells(s: string, t: string, a: nat, b: nat, u: string)
    requires Spells(s, t) && a <= b <= |s| && t[a..b] == u
    ensures Spells(s[a..b], u)
  {
    assert forall i :: 0 <= i < b - a ==> s[a..b][i] == s[a + i] && t[a..b][i] == t[a + i];
  }

  /** A text is its five consecutive slices. */
  lemma FiveCut(s: string, a: nat, b: nat, c: nat, d: nat)
    requires a <= b <= c <= d <= |s|
    ensures s == s[..a] + s[a..b] + s[b..c] + s[c..d] + s[d..]
  {
    assert s[..b] == s[..a] + s[a..b];
    assert s[..c] == s[..b] + s[b..c];
    assert s[..d] == s[..c] + s[c..d];
    assert s == s[..d] + s[d..];
  }

  /** Six pieces of text, every other one empty, and six tags. */
  lemma SixWithEmptyTexts(x: seq<string>, tags: seq<string>)
    requires |x| == |tags| == 6 && x[0] == x[2] == x[4] == []
    ensures Interleave(x, tags) + []
         == tags[0] + x[1] + (tags[1] + tags[2] + x[3] + tags[3] + tags[4]) + x[5] + tags[5]
  {
    InterleaveSix(x, tags);
    Regroup(tags[0], x[1], tags[1], tags[2], x[3], tags[3], tags[4], x[5], tags[5]);
  }

  lemma Regroup(g0: string, x1: string, g1: string, g2: string, x3: string, g3: string, g4: string, x5: string, g5: string)
    ensures [] + g0 + (x1 + g1 + ([] + g2 + (x3 + g3 + ([] + g4 + (x5 + g5 + []))))) + []
         == g0 + x1 + (g1 + g2 + x3 + g3 + g4) + x5 + g5
  {
    assert x5 + g5 + [] == x5 + g5;
    assert [] + g4 + (x5 + g5) == g4 + (x5 + g5);
    assert [] + g2 + (x3 + g3 + (g4 + (x5 + g5))) == g2 + (x3 + g3 + (g4 + (x5 + g5)));
    assert [] + g0 + (x1 + g1 + (g2 + (x3 + g3 + (g4 + (x5 + g5))))) == g0 + (x1 + g1 + (g2 + (x3 + g3 + (g4 + (x5 + g5)))));
  }

  /** A reply that is two tags, a text and two tags, wrapped in a
      fragment, is text and tags alternating. */
  lemma WrappedAsPieces(raw: string, a: nat, b: nat, c: nat, d: nat, x: seq<string>, tags: seq<string>)
    requires a <= b <= c <= d <= |raw|
    requires |x| == |tags| == 6
    requires x[0] == x[2] == x[4] == [] && x[1] == x[5] == "\n" && tags[0] == "<>" && tags[5] == "</>"
    requires tags[1] == raw[..a] && tags[2] == raw[a..b] && x[3] == raw[b..c]
    requires tags[3] == raw[c..d] && tags[4] == raw[d..]
    ensures "<>\n" + raw + "\n</>" == Interleave(x, tags) + []
  {
    FiveCut(raw, a, b, c, d);
    SixWithEmptyTexts(x, tags);
    assert "<>\n" == tags[0] + x[1] && "\n</>" == x[5] + tags[5];
  }

  /** The wrapped reply cut into text and tags. */
  lemma DivHeadingPieces(raw: string) returns (tags: seq<string>)
    requires Spells(raw, DivHeading)
    ensures |tags| == 6
    ensures "<>\n" + raw + "\n</>" == Interleave(DivHeadingTexts, tags) + []
    ensures Spells(tags[0], "<>") && Spells(tags[1], "<div>") && Spells(tags[2], "<h1>")
    ensures Spells(tags[3], "</h1>") && Spells(tags[4], "</div>") && Spells(tags[5], "</>")
  {
    DivHeadingSlices();
    tags := ["<>", raw[..5], raw[5..9], raw[14..19], raw[19..], "</>"];
    SliceSpells(raw, DivHeading, 0, 5, "<div>");
    SliceSpells(raw, DivHeading, 5, 9, "<h1>");
    SliceSpells(raw, DivHeading, 9, 14, "Title");
    SliceSpells(raw, DivHeading, 14, 19, "</h1>");
    SliceSpells(raw, DivHeading, 19, 25, "</div>");
    assert raw[..5] == raw[0..5] && raw[19..] == raw[19..25];
    assert raw[9..14] == "Title";
    assert raw[9..14] == DivHeadingTexts[3];
    WrappedAsPieces(raw, 5, 9, 14, 19, DivHeadingTexts, tags);
  }

  /** Every piece of text is inert and every tag closes. */
  lemma DivHeadingShapes(tags: seq<string>)
    requires |tags| == 6
    requires Spells(tags[0], "<>") && Spells(tags[1], "<div>") && Spells(tags[2], "<h1>")
    requires Spells(tags[3], "</h1>") && Spells(tags[4], "</div>") && Spells(tags[5], "</>")
    ensures forall i :: 0 <= i < 6 ==> InertText(DivHeadingTexts[i]) && ClosesTag(tags[i])
  {
  }

  lemma FragmentOpenFixed(t: string)
    requires Spells(t, "<>")
    ensures AutoFix(t) == "<>"
  {
    assert KeptByChain(t) by { assert t == "<>"; FragmentKept(); }
    AutoFixKept(t);
  }

  lemma FragmentCloseFixed(t: string)
    requires Spells(t, "</>")
    ensures AutoFix(t) == "</>"
  {
    assert KeptByChain(t) by { assert t == "</>"; WrittenTagsKept(); }
    AutoFixKept(t);
  }

  lemma DivOpenShape(t: string)
    requires Spells(t, "<div>")
    ensures IsOpenTag(LayoutTags, t)
  {
    assert t == "<" + "div" + [] + ">";
    OpenTagBuilt(LayoutTags, 0, "div", []);
  }

  lemma DivCloseShape(t: string)
    requires Spells(t, "</div>")
    ensures IsCloseTag(LayoutTags, t)
  {
    assert t == "</" + "div" + ">";
    CloseTagBuilt(LayoutTags, 0, "div");
  }

  lemma HeadingOpenShape(t: string)
    requires Spells(t, "<h1>")
    ensures IsOpenTag(TextTags, t) && '<' !in t[1..]
  {
    assert t == "<" + "h1" + [] + ">";
    OpenTagBuilt(TextTags, 2, "h1", []);
    assert t[1..] == "h1>";
  }

  lemma HeadingCloseShape(t: string)
    requires Spells(t, "</h1>")
    ensures IsCloseTag(TextTags, t)
  {
    assert t == "</" + "h1" + ">";
    CloseTagBuilt(TextTags, 2, "h1");
  }

  lemma DivOpenFixed(t: string)
    requires Spells(t, "<div>")
    ensures AutoFix(t) == OpenContainer
  {
    DivOpenShape(t);
    OpenLayoutFixed(t);
  }

  lemma DivCloseFixed(t: string)
    requires Spells(t, "</div>")
    ensures AutoFix(t) == CloseContainer
  {
    DivCloseShape(t);
    CloseLayoutFixed(t);
  }

  lemma HeadingOpenFixed(t: string)
    requires Spells(t, "<h1>")
    ensures AutoFix(t) == OpenContainer
  {
    HeadingOpenShape(t);
    OpenTextFixed(t);
  }

  lemma HeadingCloseFixed(t: string)
    requires Spells(t, "</h1>")
    ensures AutoFix(t) == CloseContainer
  {
    HeadingCloseShape(t);
    CloseTextFixed(t);
  }

  /** Each tag of the reply becomes what `Renamed` says. */
  lemma DivHeadingTagsFixed(tags: seq<string>)
    requires |tags| == 6
    requires Spells(tags[0], "<>") && Spells(tags[1], "<div>") && Spells(tags[2], "<h1>")
    requires Spells(tags[3], "</h1>") && Spells(tags[4], "</div>") && Spells(tags[5], "</>")
    ensures forall i :: 0 <= i < 6 ==> AutoFix(tags[i]) == Renamed[i]
  {
    forall i | 0 <= i < 6 ensures AutoFix(tags[i]) == Renamed[i] {
      if i == 0 { FragmentOpenFixed(tags[0]); }
      else if i == 1 { DivOpenFixed(tags[1]); }
      else if i == 2 { HeadingOpenFixed(tags[2]); }
      else if i == 3 { HeadingCloseFixed(tags[3]); }
      else if i == 4 { DivCloseFixed(tags[4]); }
      else { FragmentCloseFixed(tags[5]); }
    }
  }

  /** A reply of raw layout and heading tags is wrapped in a fragment and
      each tag becomes a `Container` tag; the text between them stays. */
  lemma DivHeadingRepaired(raw: string)
    requires Spells(raw, DivHeading)
    ensures RepairCode(raw) == DivHeadingRepairedText
  {
    assert '`' !in raw && Trimmed(raw) && 2 <= |raw| && raw[1] != '>' by { assert raw == DivHeading; }
    PlainReplyWrapped(raw);
    var tags := DivHeadingPieces(raw);
    DivHeadingShapes(tags);
    DivHeadingTagsFixed(tags);
    AutoFixInertTagByTag(DivHeadingTexts, tags, Renamed, []);
    DivHeadingOutput(DivHeadingTexts, Renamed);
  }

  /** A container holding a primary button labelled `Go`. */
  const GoButton := OpenContainer + PrimaryButton + "Go" + CloseButton + CloseContainer

  lemma GoButtonSlices()
    ensures |GoButton| == 60
    ensures GoButton[..11] == OpenContainer && GoButton[11..37] == PrimaryButton && GoButton[37..39] == "Go"
    ensures GoButton[39..48] == CloseButton && GoButton[48..] == CloseContainer
  {
    var a := OpenContainer + PrimaryButton;
    var b := a + "Go";
    var c := b + CloseButton;
    assert GoButton == c + CloseContainer;
    assert c[..48] == c && GoButton[..48] == c && GoButton[48..] == CloseContainer;
    assert c[39..48] == CloseButton && c[..39] == b;
    assert b[37..39] == "Go" && b[..37] == a;
    assert a[..11] == OpenContainer && a[11..37] == PrimaryButton;
  }

  /** The example code holds no backquote, is trimmed and opens no fragment. */
  lemma GoButtonShape(code: string)
    requires Spells(code, GoButton)
    ensures code != [] && Trimmed(code) && '`' !in code && !StartsWith(code, "<>")
    ensures forall k :: !Cleaner.FenceAt(code, k)
  {
    GoButtonSlices();
    assert code[0] == '<' && code[1] == 'C' && code[59] == '>';
    assert !StartsWith(code, "<>") by { assert code[..2][1] == 'C'; }
    assert '`' !in GoButton by {
      assert '`' !in OpenContainer && '`' !in PrimaryButton && '`' !in CloseButton && '`' !in CloseContainer;
    }
    forall i | 0 <= i < |code| ensures code[i] != '`' {
      assert code[i] == GoButton[i];
    }
  }

  /** The example code cut into text and tags once it is wrapped. */
  lemma GoButtonPieces(code: string) returns (x: seq<string>, tags: seq<string>)
    requires Spells(code, GoButton)
    ensures |x| == |tags| == 6
    ensures "<>\n" + code + "\n</>" == Interleave(x, tags) + []
    ensures forall i :: 0 <= i < 6 ==> InertText(x[i])
    ensures Spells(tags[1], OpenContainer) && Spells(tags[2], PrimaryButton)
    ensures Spells(tags[3], CloseButton) && Spells(tags[4], CloseContainer)
    ensures tags[0] == "<>" && tags[5] == "</>"
  {
    GoButtonSlices();
    SliceSpells(code, GoButton, 0, 11, OpenContainer);
    SliceSpells(code, GoButton, 11, 37, PrimaryButton);
    SliceSpells(code, GoButton, 37, 39, "Go");
    SliceSpells(code, GoButton, 39, 48, CloseButton);
    SliceSpells(code, GoButton, 48, 60, CloseContainer);
    assert code[..11] == code[0..11] && code[48..] == code[48..60];
    x := ["", "\n", "", code[37..39], "", "\n"];
    tags := ["<>", code[..11], code[11..37], code[39..48], code[48..], "</>"];
    WrappedAsPieces(code, 11, 37, 39, 48, x, tags);
  }

  /** Tags spelled like the chain's own output are kept by it. */
  lemma SpelledTagsKept(tags: seq<string>)
    requires |tags| == 6 && tags[0] == "<>" && tags[5] == "</>"
    requires Spells(tags[1], OpenContainer) && Spells(tags[2], PrimaryButton)
    requires Spells(tags[3], CloseButton) && Spells(tags[4], CloseContainer)
    ensures forall i :: 0 <= i < 6 ==> KeptTag(tags[i])
  {
    WrittenTagsKept();
    assert tags[1] == OpenContainer && tags[2] == PrimaryButton;
    assert tags[3] == CloseButton && tags[4] == CloseContainer;
  }

  /** The fenced reply the example starts from is cleaned to the code inside it. */
  lemma FencedGoButtonCleaned(code: string)
    requires Spells(code, GoButton)
    ensures Cleaner.CleanGeneratedCode("```jsx\n" + code + "\n```") == code
  {
    GoButtonShape(code);
    assert "```jsx\n" + code + "\n```"
        == [] + Cleaner.Fence + Cleaner.TagAlternatives[0] + "\n" + code + "\n" + Cleaner.Fence + [];
    Cleaner.CleanFencedCode([], 0, code, []);
  }

  /** A `jsx` block holding a container with a primary button is served as
      that code in a fragment, with the fragment tokens on lines of their
      own, and the served code passes the validator. */
  lemma FencedGoButtonRepaired(code: string)
    requires Spells(code, GoButton)
    ensures RepairCode("```jsx\n" + code + "\n```") == "<>\n" + code + "\n</>"
    ensures Validator.ValidateJsx(RepairCode("```jsx\n" + code + "\n```")).isValid
  {
    FencedGoButtonCleaned(code);
    GoButtonShape(code);
    TrimTrimmed(code);
    var x, tags := GoButtonPieces(code);
    SpelledTagsKept(tags);
    AutoFixKeepsCode(x, tags, []);
    var pieces := GoButtonMarkup(code);
    WrappedMarkupPasses(code, pieces);
  }

  /** Wrapped code that is a run of markup pieces passes the validator. */
  lemma WrappedMarkupPasses(code: string, pieces: seq<string>)
    requires forall k :: 0 <= k < |pieces| ==> Validator.IsMarkupPiece(pieces[k])
    requires "<>\n" + code + "\n</>" == Validator.Flatten(pieces)
    ensures Validator.ValidateJsx("<>\n" + code + "\n</>").isValid
  {
    Validator.PiecesPass(pieces);
  }

  lemma FlattenThree(a: string, b: string, c: string)
    ensures Validator.Flatten([a, b, c]) == a + b + c
  {
    assert [c][1..] == [] && Validator.Flatten([c]) == c + Validator.Flatten([]);
    assert [b, c][1..] == [c] && Validator.Flatten([b, c]) == b + Validator.Flatten([c]);
    assert [a, b, c][1..] == [b, c] && Validator.Flatten([a, b, c]) == a + Validator.Flatten([b, c]);
  }

  lemma FlattenSix(a: string, b: string, c: string, d: string, e: string, f: string)
    ensures Validator.Flatten([a, b, c, d, e, f]) == a + b + c + d + e + f
  {
    FlattenThree(d, e, f);
    assert [c, d, e, f][1..] == [d, e, f] && Validator.Flatten([c, d, e, f]) == c + Validator.Flatten([d, e, f]);
    assert [b, c, d, e, f][1..] == [c, d, e, f] && Validator.Flatten([b, c, d, e, f]) == b + Validator.Flatten([c, d, e, f]);
    assert [a, b, c, d, e, f][1..] == [b, c, d, e, f] && Validator.Flatten([a, b, c, d, e, f]) == a + Validator.Flatten([b, c, d, e, f]);
  }

  /** The fragment's line breaks regrouped with the pieces next to them. */
  lemma GoButtonRegroup(a: string, b: string, c: string, d: string, e: string)
    ensures "<>\n" + (a + b + c + d + e) + "\n</>" == "<>\n" + a + (b + c) + d + (e + "\n") + "</>"
  {
    assert "\n</>" == "\n" + "</>";
  }

  /** The registry components the examples use. */
  lemma ExampleNamesRegistered()
    ensures "Container" in Schema.RegistryNames() && "Button" in Schema.RegistryNames()
    ensures "Chart" in Schema.RegistryNames()
  {
    Schema.RegistryOrder();
  }

  /** The wrapped container-and-button code, cut into markup pieces. */
  lemma GoButtonMarkup(code: string) returns (pieces: seq<string>)
    requires Spells(code, GoButton)
    ensures forall k :: 0 <= k < |pieces| ==> Validator.IsMarkupPiece(pieces[k])
    ensures "<>\n" + code + "\n</>" == Validator.Flatten(pieces)
  {
    assert code == GoButton;
    pieces := ["<>\n", OpenContainer, PrimaryButton + "Go", CloseButton, CloseContainer + "\n", "</>"];
    FlattenSix(pieces[0], pieces[1], pieces[2], pieces[3], pieces[4], pieces[5]);
    GoButtonRegroup(OpenContainer, PrimaryButton, "Go", CloseButton, CloseContainer);
    GoButtonPiecesMarkup();
  }

  lemma GoButtonPiecesMarkup()
    ensures Validator.IsMarkupPiece("<>\n") && Validator.IsMarkupPiece(OpenContainer)
    ensures Validator.IsMarkupPiece(PrimaryButton + "Go") && Validator.IsMarkupPiece(CloseButton)
    ensures Validator.IsMarkupPiece(CloseContainer + "\n") && Validator.IsMarkupPiece("</>")
  {
    FragmentLinePiece();
    OpenContainerPiece();
    PrimaryButtonPiece();
    CloseButtonPiece();
    CloseContainerLinePiece();
    FragmentClosePiece();
  }

  /** The fragment opener and the line break after it. */
  lemma FragmentLinePiece()
    ensures Validator.IsMarkupPiece("<>\n")
  {
    assert "<>\n"[1..] == ">\n";
  }

  lemma FragmentClosePiece()
    ensures Validator.IsMarkupPiece("</>")
  {
    Validator.ClosingPiece(">");
    assert "</>" == "</" + ">";
  }

  lemma OpenContainerPiece()
    ensures Validator.IsMarkupPiece(OpenContainer)
  {
    ExampleNamesRegistered();
    Validator.ComponentPiece("Container", ">");
    assert OpenContainer == "<" + "Container" + ">";
  }

  lemma PrimaryButtonPiece()
    ensures Validator.IsMarkupPiece(PrimaryButton + "Go")
  {
    var rest := PrimaryButtonRest();
    ButtonRegistered();
    Validator.ComponentPiece("Button", rest);
  }

  /** What follows the name in the button's opening tag and its label. */
  lemma PrimaryButtonRest() returns (rest: string)
    ensures PrimaryButton + "Go" == "<" + "Button" + rest
    ensures '<' !in rest && rest != [] && rest[0] == ' '
  {
    rest := " variant=\"primary\">Go";
  }

  lemma CloseButtonPiece()
    ensures Validator.IsMarkupPiece(CloseButton)
  {
    Validator.ClosingPiece("Button>");
    assert CloseButton == "</" + "Button>";
  }

  lemma CloseContainerLinePiece()
    ensures Validator.IsMarkupPiece(CloseContainer + "\n")
  {
    Validator.ClosingPiece("Container>\n");
    assert CloseContainer + "\n" == "</" + "Container>\n";
  }

  /** A chart reply whose data is the malformed call literal. */
  const ChartReply := "<Chart " + EmptyCallData + " />"

  lemma ChartReplySlices()
    ensures |ChartReply| == 21
    ensures ChartReply[..7] == "<Chart " && ChartReply[7..18] == EmptyCallData && ChartReply[18..] == " />"
  {
    var a := "<Chart " + EmptyCallData;
    assert ChartReply == a + " />" && a[..7] == "<Chart " && a[7..] == EmptyCallData;
    assert ChartReply[..18] == a;
  }

  /** The chart tag once its data is the sample array. */
  const ChartFixed := "<Chart " + SampleData + " />"

  /** The chart reply cut into its tag's head, the data literal and the tag's tail. */
  lemma ChartReplyShape(raw: string) returns (pre: string, m: string, post: string)
    requires Spells(raw, ChartReply)
    ensures raw == pre + m + post && m == EmptyCallData
    ensures Spells(pre, "<Chart ") && Spells(post, " />")
    ensures '`' !in raw && Trimmed(raw) && 2 <= |raw| && raw[1] != '>' && ClosesTag(raw)
  {
    ChartReplySlices();
    pre, m, post := raw[..7], raw[7..18], raw[18..];
    SliceSpells(raw, ChartReply, 0, 7, "<Chart ");
    SliceSpells(raw, ChartReply, 7, 18, EmptyCallData);
    SliceSpells(raw, ChartReply, 18, 21, " />");
    assert raw[..7] == raw[0..7] && raw[18..] == raw[18..21];
    assert raw == raw[..7] + raw[7..18] + raw[18..];
    assert '`' !in raw && Trimmed(raw) && raw[1] != '>' && raw[|raw| - 1] == '>' by {
      assert raw == ChartReply;
    }
  }

  /** The head and tail of the chart tag hold no `d` and no second `<`, and
      the tag's name starts with no letter a tag rule looks for. */
  lemma ChartTagParts(pre: string, post: string)
    requires Spells(pre, "<Chart ") && Spells(post, " />")
    ensures 2 <= |pre| && pre[0] == '<' && pre[1] != '/' && NoRuleInitial(pre[1])
    ensures '<' !in pre[1..] && '<' !in post && 'd' !in pre && 'd' !in post
  {
    assert pre == "<Chart " && post == " />";
    assert pre[1..] == "Chart ";
  }

  /** The chart tag gets the sample data; the rest of the tag stays. */
  lemma ChartTagFixed(pre: string, m: string, post: string)
    requires m == EmptyCallData
    requires Spells(pre, "<Chart ") && Spells(post, " />")
    ensures AutoFix(pre + m + post) == ChartFixed
  {
    ChartTagParts(pre, post);
    DataLiteralInTagFixed(pre, m, post);
    assert pre == "<Chart " && post == " />";
  }

  /** Text, one tag, text: `Interleave` written out for three pieces. */
  lemma InterleaveThree(x: seq<string>, tags: seq<string>)
    requires |x| == |tags| == 3
    ensures Interleave(x, tags) + [] == x[0] + tags[0] + (x[1] + tags[1] + (x[2] + tags[2] + []))
  {
    InterleaveStep(x, tags, 2);
    InterleaveStep(x, tags, 1);
    InterleaveStep(x, tags, 0);
    assert x[0..] == x && tags[0..] == tags;
  }

  /** Wrapped code that is one tag: the fragment's tokens and that tag, with
      line breaks between. */
  lemma WrappedOneTag(code: string, out: string) returns (x: seq<string>, tags: seq<string>, outs: seq<string>)
    ensures |x| == |tags| == |outs| == 3
    ensures "<>\n" + code + "\n</>" == Interleave(x, tags) + []
    ensures "<>\n" + out + "\n</>" == Interleave(x, outs) + []
    ensures forall i :: 0 <= i < 3 ==> InertText(x[i])
    ensures tags == ["<>", code, "</>"] && outs == ["<>", out, "</>"]
  {
    x, tags, outs := ["", "\n", "\n"], ["<>", code, "</>"], ["<>", out, "</>"];
    InterleaveThree(x, tags);
    InterleaveThree(x, outs);
  }

  /** A single tag wrapped in a fragment comes out of the chain as the
      chain's output for that tag, still wrapped. */
  lemma WrappedTagFixed(tag: string, out: string)
    requires ClosesTag(tag) && AutoFix(tag) == out
    ensures AutoFix("<>\n" + tag + "\n</>") == "<>\n" + out + "\n</>"
  {
    var x, tags, outs := WrappedOneTag(tag, out);
    FragmentOpenFixed(tags[0]);
    FragmentCloseFixed(tags[2]);
    AutoFixInertTagByTag(x, tags, outs, []);
  }

  /** A chart reply with the malformed call literal as its data is served
      wrapped in a fragment, with the sample array as its data, and passes
      the validator. */
  lemma ChartDataRepaired(raw: string)
    requires Spells(raw, ChartReply)
    ensures RepairCode(raw) == "<>\n" + ChartFixed + "\n</>"
    ensures Validator.ValidateJsx(RepairCode(raw)).isValid
  {
    var pre, m, post := ChartReplyShape(raw);
    PlainReplyWrapped(raw);
    ChartTagFixed(pre, m, post);
    WrappedTagFixed(raw, ChartFixed);
    var pieces := ChartMarkup();
    WrappedMarkupPasses(ChartFixed, pieces);
  }

  /** The wrapped chart, cut into markup pieces. */
  lemma ChartMarkup() returns (pieces: seq<string>)
    ensures forall k :: 0 <= k < |pieces| ==> Validator.IsMarkupPiece(pieces[k])
    ensures "<>\n" + ChartFixed + "\n</>" == Validator.Flatten(pieces)
  {
    pieces := ["<>\n", ChartFixed + "\n", "</>"];
    FlattenThree(pieces[0], pieces[1], pieces[2]);
    assert "\n</>" == "\n" + "</>";
    ChartPiecesMarkup();
  }

  lemma ChartPiecesMarkup()
    ensures Validator.IsMarkupPiece("<>\n") && Validator.IsMarkupPiece(ChartFixed + "\n")
    ensures Validator.IsMarkupPiece("</>")
  {
    FragmentLinePiece();
    ChartLinePiece();
    FragmentClosePiece();
  }

  /** The repaired chart tag and the line break after it. */
  lemma ChartLinePiece()
    ensures Validator.IsMarkupPiece(ChartFixed + "\n")
  {
    var rest := ChartLineRest();
    ChartRegistered();
    Validator.ComponentPiece("Chart", rest);
  }

  /** What follows the name in the repaired chart tag and its line break. */
  lemma ChartLineRest() returns (rest: string)
    ensures ChartFixed + "\n" == "<" + "Chart" + rest
    ensures '<' !in rest && rest != [] && rest[0] == ' '
  {
    SampleDataShape();
    rest := " " + SampleData + " />\n";
    assert '<' !in rest;
  }

  lemma ButtonRegistered()
    ensures "Button" in Schema.RegistryNames()
  {
    ExampleNamesRegistered();
  }

  lemma ChartRegistered()
    ensures "Chart" in Schema.RegistryNames()
  {
    ExampleNamesRegistered();
  }
}
