/** Properties of the whole repair pass: what the chain leaves alone, what it
    does to the tags the generator writes, and the fragment the repaired code
    always starts with. */
module RepairFacts {

  import opened Text
  import opened Rewrite
  import opened Repair
  import opened TagFix
  import opened DataFix
  import Cleaner

  /** A rule passes a prefix through unchanged: a tag rule when the prefix
      holds no `<`, a literal rule when it holds no first letter of the literal. */
  predicate PassesOver(r: Rule, pre: string) {
    match r.pattern
    case Literal(t) => t != [] && t[0] !in pre
    case _ => '<' !in pre
  }

  lemma RulePassesOver(r: Rule, pre: string, rest: string)
    requires PassesOver(r, pre)
    ensures WellFormed(r.pattern)
    ensures ReplaceAll(r.pattern, r.replacement, pre + rest) == pre + ReplaceAll(r.pattern, r.replacement, rest)
  {
    if r.pattern.Literal? {
      LiteralSkipsText(r.pattern.text, r.replacement, pre, rest);
    } else {
      ReplaceAllSkipsPlainText(r.pattern, r.replacement, pre, rest);
    }
  }

  /** A chain of rules that each pass over `pre` passes over it as a whole. */
  lemma {:induction false} ApplyRulesPassOver(rules: seq<Rule>, pre: string, rest: string)
    requires forall j :: 0 <= j < |rules| ==> PassesOver(rules[j], pre)
    ensures AllWellFormed(rules)
    ensures ApplyRules(rules, pre + rest) == pre + ApplyRules(rules, rest)
    decreases |rules|
  {
    forall j | 0 <= j < |rules| ensures WellFormed(rules[j].pattern) {
      RulePassesOver(rules[j], pre, rest);
    }
    if rules != [] {
      var r := rules[0];
      RulePassesOver(r, pre, rest);
      assert forall j :: 0 <= j < |rules[1..]| ==> rules[1..][j] == rules[j + 1];
      ApplyRulesPassOver(rules[1..], pre, ReplaceAll(r.pattern, r.replacement, rest));
    }
  }

  /** Text with neither `<` nor `d` goes through the chain as it is, whatever follows it. */
  lemma AutoFixPassesText(pre: string, rest: string)
    requires '<' !in pre && 'd' !in pre
    ensures AutoFix(pre + rest) == pre + AutoFix(rest)
  {
    forall j | 0 <= j < |AutoFixRules| ensures PassesOver(AutoFixRules[j], pre) {
      if j == 6 { assert AutoFixRules[j] == FixEmptyCallData; }
      else if j == 7 { assert AutoFixRules[j] == FixEmptyData; }
      else { assert !AutoFixRules[j].pattern.Literal?; }
    }
    ApplyRulesPassOver(AutoFixRules, pre, rest);
  }

  /** A text every rule leaves alone comes out of the chain as it went in. */
  lemma AutoFixKept(s: string)
    requires KeptByChain(s)
    ensures AutoFix(s) == s
  {
    AutoFixRulesSplit();
    forall j | 0 <= j < |AutoFixRules| ensures Keeps(AutoFixRules[j], s) {
      assert FixStep(j, s) == s;
    }
    ApplyRulesKeep(AutoFixRules, s);
  }

  /** The chain on the empty text. */
  lemma EmptyKept()
    ensures AutoFix([]) == []
  {
    AutoFixRulesSplit();
    assert KeptByChain([]);
    AutoFixKept([]);
  }

  /** Text and tags, alternating: `texts[0] + tags[0] + texts[1] + tags[1] + …`. */
  function Interleave(texts: seq<string>, tags: seq<string>): string
    requires |texts| == |tags|
  {
    if texts == [] then [] else texts[0] + tags[0] + Interleave(texts[1..], tags[1..])
  }

  /** Text between tags that none of the chain's patterns can start. */
  predicate InertText(s: string) {
    '<' !in s && 'd' !in s
  }

  /** A tag the whole chain leaves alone. */
  predicate KeptTag(t: string) {
    t != [] && t[|t| - 1] == '>' && KeptByChain(t)
  }

  /** A tag: it ends with `>`, so the chain's matches never run past it. */
  predicate ClosesTag(t: string) {
    t != [] && t[|t| - 1] == '>'
  }

  /** A rule that keeps text and tags apart: a literal rule neither reads
      nor writes `<`, and a tag rule writes a tag. */
  predicate LtSafe(r: Rule) {
    match r.pattern
    case Literal(t) => t != [] && '<' !in t && '<' !in r.replacement
    case _ => r.replacement != [] && r.replacement[0] == '<'
  }

  /** Empty, or starting with `<`. */
  predicate StartsLt(s: string) {
    s == [] || s[0] == '<'
  }

  /** Such a rule works separately on text without `<` and on what follows
      from the next `<` on; it keeps the text free of `<` and the rest
      starting with `<`. */
  lemma RuleBeforeLt(r: Rule, pre: string, rest: string)
    requires LtSafe(r) && '<' !in pre && StartsLt(rest)
    ensures WellFormed(r.pattern)
    ensures ReplaceAll(r.pattern, r.replacement, pre + rest)
         == ReplaceAll(r.pattern, r.replacement, pre) + ReplaceAll(r.pattern, r.replacement, rest)
    ensures '<' !in ReplaceAll(r.pattern, r.replacement, pre)
    ensures StartsLt(ReplaceAll(r.pattern, r.replacement, rest))
  {
    var p, out := r.pattern, r.replacement;
    if p.Literal? {
      assert rest != [] ==> rest[0] !in p.text[1..];
      LiteralSplit(p.text, out, pre, rest);
      ReplaceAllKeepsCharFree(p, out, pre, '<');
    } else {
      ReplaceAllSkipsPlainText(p, out, pre, rest);
      ReplaceAllSkipsPlainText(p, out, pre, []);
      assert pre + [] == pre;
    }
    if rest != [] {
      ReplaceAllUnfold(p, out, rest);
      if p.Literal? {
        assert p.text[0] in p.text;
      }
    }
  }

  /** A chain of such rules works separately on text without `<` and on
      what follows from the next `<` on. */
  lemma {:induction false} ApplyRulesBeforeLt(rules: seq<Rule>, pre: string, rest: string)
    requires forall j :: 0 <= j < |rules| ==> LtSafe(rules[j])
    requires '<' !in pre && StartsLt(rest)
    ensures AllWellFormed(rules)
    ensures ApplyRules(rules, pre + rest) == ApplyRules(rules, pre) + ApplyRules(rules, rest)
    decreases |rules|
  {
    forall j | 0 <= j < |rules| ensures WellFormed(rules[j].pattern) {
      RuleBeforeLt(rules[j], [], []);
    }
    if rules != [] {
      var r := rules[0];
      RuleBeforeLt(r, pre, rest);
      assert forall j :: 0 <= j < |rules[1..]| ==> rules[1..][j] == rules[j + 1];
      ApplyRulesBeforeLt(rules[1..], ReplaceAll(r.pattern, r.replacement, pre), ReplaceAll(r.pattern, r.replacement, rest));
    }
  }

  /** Every rule of the chain is one. */
  lemma AutoFixRulesLtSafe()
    ensures forall j :: 0 <= j < |AutoFixRules| ==> LtSafe(AutoFixRules[j])
  {
    DataLiteralsShape();
    forall j | 0 <= j < |AutoFixRules| ensures LtSafe(AutoFixRules[j]) {
      if j == 6 { assert AutoFixRules[j] == FixEmptyCallData; }
      else if j == 7 { assert AutoFixRules[j] == FixEmptyData; }
      else { assert AutoFixRules[j].replacement[0] == '<'; }
    }
  }

  /** Text without `<` before a tag: the text gets only the data rules, and
      the rest goes through the chain as it would alone. */
  lemma TextBeforeTag(text: string, rest: string)
    requires '<' !in text && StartsLt(rest)
    ensures AutoFix(text + rest) == DataRules(text) + AutoFix(rest)
  {
    AutoFixRulesLtSafe();
    ApplyRulesBeforeLt(AutoFixRules, text, rest);
    AutoFixPlainText(text);
  }

  /** A tag as the generator writes one: from a `<` to a `>`. */
  predicate IsTag(t: string) {
    ClosesTag(t) && t[0] == '<'
  }

  /** The data rules applied to each text. */
  function DataRulesEach(texts: seq<string>): (r: seq<string>)
    ensures |r| == |texts|
  {
    if texts == [] then [] else [DataRules(texts[0])] + DataRulesEach(texts[1..])
  }

  /** The chain works tag by tag: on code that interleaves text without `<`
      with tags, each tag becomes what the chain makes of it alone, and each
      text gets only the data rules. */
  lemma {:induction false} AutoFixTagByTag(texts: seq<string>, tags: seq<string>, outs: seq<string>, last: string)
    requires |texts| == |tags| == |outs|
    requires forall i :: 0 <= i < |texts| ==> '<' !in texts[i] && IsTag(tags[i]) && AutoFix(tags[i]) == outs[i]
    requires '<' !in last
    ensures AutoFix(Interleave(texts, tags) + last) == Interleave(DataRulesEach(texts), outs) + DataRules(last)
    decreases |texts|
  {
    if texts == [] {
      assert Interleave(texts, tags) + last == last;
      AutoFixPlainText(last);
      assert Interleave(DataRulesEach(texts), outs) + DataRules(last) == DataRules(last);
    } else {
      var tail := Interleave(texts[1..], tags[1..]) + last;
      InterleaveFront(texts, tags, last);
      InterleaveFront(DataRulesEach(texts), outs, DataRules(last));
      assert DataRulesEach(texts)[1..] == DataRulesEach(texts[1..]);
      TextBeforeTag(texts[0], tags[0] + tail);
      AutoFixPiece(tags[0], tail, outs[0]);
      AutoFixTagByTag(texts[1..], tags[1..], outs[1..], last);
    }
  }

  /** Inert text between the tags is kept as it is, whatever the tags are. */
  lemma {:induction false} AutoFixInertTagByTag(texts: seq<string>, tags: seq<string>, outs: seq<string>, last: string)
    requires |texts| == |tags| == |outs|
    requires forall i :: 0 <= i < |texts| ==> InertText(texts[i]) && ClosesTag(tags[i]) && AutoFix(tags[i]) == outs[i]
    requires InertText(last)
    ensures AutoFix(Interleave(texts, tags) + last) == Interleave(texts, outs) + last
    decreases |texts|
  {
    if texts == [] {
      assert Interleave(texts, tags) + last == last + [];
      AutoFixPassesText(last, []);
      EmptyKept();
      assert last + [] == last;
    } else {
      InterleaveFront(texts, tags, last);
      InterleaveFront(texts, outs, last);
      TextThenTag(texts[0], tags[0], outs[0], Interleave(texts[1..], tags[1..]) + last);
      AutoFixInertTagByTag(texts[1..], tags[1..], outs[1..], last);
    }
  }

  /** The first text and tag of an interleaving, and the rest. */
  lemma InterleaveFront(texts: seq<string>, tags: seq<string>, last: string)
    requires |texts| == |tags| && texts != []
    ensures Interleave(texts, tags) + last == texts[0] + (tags[0] + (Interleave(texts[1..], tags[1..]) + last))
  {
    var text, tag, rest := texts[0], tags[0], Interleave(texts[1..], tags[1..]);
    assert Interleave(texts, tags) == text + tag + rest;
    ConcatAssociative(text + tag, rest, last);
    ConcatAssociative(text, tag, rest + last);
  }

  /** Inert text and then a tag: the text stays and the tag is rewritten as
      it would be alone. */
  lemma TextThenTag(text: string, tag: string, out: string, tail: string)
    requires InertText(text) && ClosesTag(tag) && AutoFix(tag) == out
    ensures AutoFix(text + (tag + tail)) == text + (out + AutoFix(tail))
  {
    AutoFixPassesText(text, tag + tail);
    AutoFixPiece(tag, tail, out);
  }

  /** Code that interleaves inert text with tags the chain leaves alone, the
      chain's own output among them, is a fixed point of the chain. */
  lemma AutoFixKeepsCode(texts: seq<string>, tags: seq<string>, last: string)
    requires |texts| == |tags|
    requires forall i :: 0 <= i < |texts| ==> InertText(texts[i]) && KeptTag(tags[i])
    requires InertText(last)
    ensures AutoFix(Interleave(texts, tags) + last) == Interleave(texts, tags) + last
  {
    forall i | 0 <= i < |tags| ensures AutoFix(tags[i]) == tags[i] {
      AutoFixKept(tags[i]);
    }
    AutoFixInertTagByTag(texts, tags, tags, last);
  }

  /** The tags the chain writes are tags it keeps, and so are the fragment's. */
  lemma WrittenTagsKept()
    ensures KeptTag(OpenContainer) && KeptTag(CloseContainer)
    ensures KeptTag(PrimaryButton) && KeptTag(CloseButton)
    ensures KeptTag("<>") && KeptTag("</>")
  {
    OpenContainerKept();
    CloseContainerKept();
    PrimaryButtonKept();
    CloseButtonKept();
    FragmentKept();
    InertTagKept("</>");
  }

  /** Code that starts with `<>` still does after the chain. */
  lemma AutoFixKeepsFragmentHead(s: string)
    requires StartsWith(s, "<>")
    ensures StartsWith(AutoFix(s), "<>")
  {
    var rest := s[2..];
    assert s == "<>" + rest;
    FragmentKept();
    AutoFixKept("<>");
    AutoFixPiece("<>", rest, "<>");
  }

  /** The repaired code starts with the fragment opener `<>`, whatever the
      generator replied. */
  lemma RepairStartsWithFragment(raw: string)
    ensures StartsWith(RepairCode(raw), "<>")
  {
    AutoFixKeepsFragmentHead(WrapFragment(Cleaner.CleanGeneratedCode(raw)));
  }

  /** A `Button` tag with attributes is an opening tag the button rule names. */
  lemma ButtonTagShape(attributes: string)
    requires IsAttributes(attributes)
    ensures IsOpenTag(ButtonTags, "<Button" + attributes + ">")
  {
    ButtonNameFolds();
    OpenTagBuilt(ButtonTags, 0, "Button", attributes);
  }

  /** The registry's `Button` is the button rule's `button` in another letter case. */
  lemma ButtonNameFolds()
    ensures EqualIgnoringCase("Button", ButtonTags[0])
    ensures "<Button" == "<" + "Button"
  {
  }

  /** The button rule's `i` flag also matches the registry's own `Button`:
      whatever props a `Button` tag carries, the chain writes
      `<Button variant="primary">` in its place. */
  lemma ButtonPropsReset(attributes: string)
    requires IsAttributes(attributes)
    ensures AutoFix("<Button" + attributes + ">") == PrimaryButton
  {
    ButtonTagShape(attributes);
    OpenButtonFixed("<Button" + attributes + ">");
  }

  lemma SecondaryButtonShape()
    ensures "<Button" + " variant=\"secondary\"" + ">" == "<Button variant=\"secondary\">"
    ensures IsAttributes(" variant=\"secondary\"")
  {
  }

  /** A secondary button comes out of the chain as a primary one. */
  lemma ButtonVariantReset()
    ensures AutoFix("<Button variant=\"secondary\">") == PrimaryButton
  {
    SecondaryButtonShape();
    ButtonPropsReset(" variant=\"secondary\"");
  }

  /** Text without `<` or `d`, wrapped in a fragment, goes through the chain unchanged. */
  lemma AutoFixKeepsWrapped(code: string)
    requires '<' !in code && 'd' !in code
    ensures AutoFix("<>\n" + code + "\n</>") == "<>\n" + code + "\n</>"
  {
    var inner := "\n" + code + "\n";
    assert InertText(inner);
    WrittenTagsKept();
    var texts, tags := ["", inner], ["<>", "</>"];
    assert Interleave(texts[1..], tags[1..]) == inner + "</>" + Interleave([], []);
    assert Interleave(texts, tags) + [] == "<>\n" + code + "\n</>";
    AutoFixKeepsCode(texts, tags, []);
  }
}
