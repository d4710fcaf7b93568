/** The repair pass of the generation route: the cleaned code is wrapped in a
    fragment unless it already starts with one, then a fixed chain of global
    replacements turns common raw HTML tags into registry components and two
    malformed chart-data literals into a sample array. */
module Repair {

  import opened Text
  import opened Rewrite
  import Cleaner

  /** `<>\n${code}\n</>`, unless the trimmed code already starts with `<>`. */
  function WrapFragment(code: string): (r: string)
    ensures r == code <==> StartsWith(Trim(code), "<>")
    ensures r != code ==> r == "<>\n" + code + "\n</>"
    ensures Trimmed(code) ==> StartsWith(r, "<>") && Trimmed(r)
  {
    TrimTrimmed(code);
    if StartsWith(Trim(code), "<>") then code else "<>\n" + code + "\n</>"
  }

  /** Wrapping cleaned code twice is wrapping it once. */
  lemma WrapFragmentIdempotent(code: string)
    requires Trimmed(code)
    ensures WrapFragment(WrapFragment(code)) == WrapFragment(code)
  {
    TrimTrimmed(WrapFragment(code));
  }

  /** One replacement of the chain: a pattern and its constant replacement. */
  datatype Rule = Rule(pattern: Pattern, replacement: string)

  /** Layout elements, rewritten to `Container` by the first two rules. */
  const LayoutTags: seq<string> := ["div", "main", "section", "header", "footer"]
  /** Text elements (`p|span|h[1-6]`), rewritten to `Container` by the next two. */
  const TextTags: seq<string> := ["p", "span", "h1", "h2", "h3", "h4", "h5", "h6"]
  const ButtonTags: seq<string> := ["button"]

  const OpenContainer := "<Container>"
  const CloseContainer := "</Container>"
  const PrimaryButton := "<Button variant=\"primary\">"
  const CloseButton := "</Button>"

  /** The two malformed chart-data literals and the sample array that replaces them. */
  const EmptyCallData := "data={[]()}"
  const EmptyData := "data={[]}"
  const SampleData := "data={[65, 59, 80, 81, 56, 55, 40]}"

  const FixOpenLayout := Rule(OpenTag(LayoutTags), OpenContainer)
  const FixCloseLayout := Rule(CloseTag(LayoutTags), CloseContainer)
  const FixOpenText := Rule(OpenTag(TextTags), OpenContainer)
  const FixCloseText := Rule(CloseTag(TextTags), CloseContainer)
  const FixOpenButton := Rule(OpenTag(ButtonTags), PrimaryButton)
  const FixCloseButton := Rule(CloseTag(ButtonTags), CloseButton)
  const FixEmptyCallData := Rule(Literal(EmptyCallData), SampleData)
  const FixEmptyData := Rule(Literal(EmptyData), SampleData)

  /** The auto-fix chain, in the order the route applies it. */
  const AutoFixRules: seq<Rule> := [
    FixOpenLayout, FixCloseLayout, FixOpenText, FixCloseText,
    FixOpenButton, FixCloseButton, FixEmptyCallData, FixEmptyData
  ]

  predicate AllWellFormed(rules: seq<Rule>) {
    forall j :: 0 <= j < |rules| ==> WellFormed(rules[j].pattern)
  }

  /** The rules applied one after the other, each to the whole output of the previous one. */
  function ApplyRules(rules: seq<Rule>, s: string): string
    requires AllWellFormed(rules)
    decreases |rules|
  {
    if rules == [] then s
    else ApplyRules(rules[1..], ReplaceAll(rules[0].pattern, rules[0].replacement, s))
  }

  function AutoFix(s: string): string {
    ApplyRules(AutoFixRules, s)
  }

  /** What the route validates and returns: the generator's reply cleaned,
      wrapped in a fragment and auto-fixed. */
  function RepairCode(raw: string): string {
    AutoFix(WrapFragment(Cleaner.CleanGeneratedCode(raw)))
  }

  /** `r` leaves `s` as it is. */
  predicate Keeps(r: Rule, s: string)
    requires WellFormed(r.pattern)
  {
    ReplaceAll(r.pattern, r.replacement, s) == s
  }

  /** Rules that leave a text as it is do not change what the chain does to it. */
  lemma {:induction false} ApplyRulesSkip(rules: seq<Rule>, s: string, k: nat)
    requires AllWellFormed(rules) && k <= |rules|
    requires forall j :: 0 <= j < k ==> Keeps(rules[j], s)
    ensures ApplyRules(rules, s) == ApplyRules(rules[k..], s)
    decreases k
  {
    if k > 0 {
      assert Keeps(rules[0], s);
      assert forall j :: 0 <= j < k - 1 ==> rules[1..][j] == rules[j + 1];
      ApplyRulesSkip(rules[1..], s, k - 1);
      assert rules[1..][k - 1..] == rules[k..];
    } else {
      assert rules[0..] == rules;
    }
  }

  /** A text every rule leaves alone comes out of the chain as it went in. */
  lemma {:induction false} ApplyRulesKeep(rules: seq<Rule>, s: string)
    requires AllWellFormed(rules)
    requires forall j :: 0 <= j < |rules| ==> Keeps(rules[j], s)
    ensures ApplyRules(rules, s) == s
  {
    ApplyRulesSkip(rules, s, |rules|);
  }

  /** The chain on a text that the first `k` rules leave alone, rule `k`
      turns into `out`, and the remaining rules leave alone again. */
  lemma ApplyRulesHit(rules: seq<Rule>, s: string, k: nat, out: string)
    requires AllWellFormed(rules) && k < |rules|
    requires forall j :: 0 <= j < k ==> Keeps(rules[j], s)
    requires ReplaceAll(rules[k].pattern, rules[k].replacement, s) == out
    requires forall j :: k < j < |rules| ==> Keeps(rules[j], out)
    ensures ApplyRules(rules, s) == out
  {
    ApplyRulesSkip(rules, s, k);
    var tail := rules[k + 1..];
    assert rules[k..][1..] == tail;
    assert forall j :: 0 <= j < |tail| ==> tail[j] == rules[k + 1 + j];
    ApplyRulesKeep(tail, out);
  }

  /** A rule of the chain that cannot match across a `>` and, for a tag rule,
      writes a tag that ends with `>`. */
  predicate SplitsAtGt(r: Rule) {
    StopsAtGt(r.pattern)
    && (r.pattern.Literal? || (r.replacement != [] && r.replacement[|r.replacement| - 1] == '>'))
  }

  /** A chain of such rules works on the pieces of a text cut after a `>`. */
  lemma {:induction false} ApplyRulesSplit(rules: seq<Rule>, pre: string, rest: string)
    requires forall j :: 0 <= j < |rules| ==> SplitsAtGt(rules[j])
    requires pre != [] && pre[|pre| - 1] == '>'
    ensures AllWellFormed(rules)
    ensures ApplyRules(rules, pre + rest) == ApplyRules(rules, pre) + ApplyRules(rules, rest)
    decreases |rules|
  {
    assert forall j :: 0 <= j < |rules| ==> WellFormed(rules[j].pattern);
    if rules != [] {
      var r := rules[0];
      assert SplitsAtGt(r);
      ReplaceAllSplit(r.pattern, r.replacement, pre, rest);
      ReplaceAllKeepsFinalGt(r.pattern, r.replacement, pre);
      assert forall j :: 0 <= j < |rules[1..]| ==> rules[1..][j] == rules[j + 1];
      ApplyRulesSplit(rules[1..], ReplaceAll(r.pattern, r.replacement, pre), ReplaceAll(r.pattern, r.replacement, rest));
    }
  }

  /** Every name the alternations list is a lower-case word. */
  predicate LowerWords(names: seq<string>) {
    forall n :: n in names ==> IsLowerWord(n)
  }

  lemma LayoutTagsAreWords()
    ensures LowerWords(LayoutTags)
  {
    assert IsLowerWord("div") && IsLowerWord("main") && IsLowerWord("section");
    assert IsLowerWord("header") && IsLowerWord("footer");
  }

  lemma TextTagsAreWords()
    ensures LowerWords(TextTags)
  {
    assert IsLowerWord("p") && IsLowerWord("span") && IsLowerWord("h1") && IsLowerWord("h2");
    assert IsLowerWord("h3") && IsLowerWord("h4") && IsLowerWord("h5") && IsLowerWord("h6");
  }

  lemma TagListsAreWords()
    ensures LowerWords(LayoutTags) && LowerWords(TextTags) && LowerWords(ButtonTags)
  {
    LayoutTagsAreWords();
    TextTagsAreWords();
    assert IsLowerWord("button");
  }

  lemma LowerWordsNoGt(names: seq<string>)
    requires LowerWords(names)
    ensures NoGt(names)
  {
    forall n | n in names ensures '>' !in n {
      assert IsLowerWord(n);
    }
  }

  lemma AutoFixRulesSplit()
    ensures forall j :: 0 <= j < |AutoFixRules| ==> SplitsAtGt(AutoFixRules[j])
    ensures AllWellFormed(AutoFixRules)
  {
    TagListsAreWords();
    LowerWordsNoGt(LayoutTags);
    LowerWordsNoGt(TextTags);
    LowerWordsNoGt(ButtonTags);
    assert '>' !in EmptyCallData && '>' !in EmptyData;
  }

  /** The auto-fix chain works piece by piece on a text cut after a `>`: no
      rule rewrites across the cut. */
  lemma AutoFixSplit(pre: string, rest: string)
    requires pre != [] && pre[|pre| - 1] == '>'
    ensures AutoFix(pre + rest) == AutoFix(pre) + AutoFix(rest)
  {
    AutoFixRulesSplit();
    ApplyRulesSplit(AutoFixRules, pre, rest);
  }

  /** Rule `k` of the chain applied on its own to `s`. */
  function FixStep(k: nat, s: string): string
    requires k < |AutoFixRules|
  {
    AutoFixRulesSplit();
    ReplaceAll(AutoFixRules[k].pattern, AutoFixRules[k].replacement, s)
  }

  /** Every rule of the chain leaves `s` as it is. */
  predicate KeptByChain(s: string) {
    forall j :: 0 <= j < |AutoFixRules| ==> FixStep(j, s) == s
  }

  /** No name of the layout or text alternations starts with this letter, in any case. */
  predicate NoContainerInitial(c: char) {
    var l := LowerAscii(c);
    l != 'd' && l != 'm' && l != 's' && l != 'h' && l != 'f' && l != 'p'
  }

  /** No name of the chain's alternations starts with this letter, in any case. */
  predicate NoRuleInitial(c: char) {
    NoContainerInitial(c) && LowerAscii(c) != 'b'
  }

  /** The letters the layout and text names start with. */
  lemma ContainerInitials(c: char)
    requires NoContainerInitial(c)
    ensures forall i :: 0 <= i < |LayoutTags| ==> LayoutTags[i] != [] && LowerAscii(LayoutTags[i][0]) != LowerAscii(c)
    ensures forall i :: 0 <= i < |TextTags| ==> TextTags[i] != [] && LowerAscii(TextTags[i][0]) != LowerAscii(c)
  {
  }

  /** The letters the alternations' names start with. */
  lemma RuleInitials(c: char)
    requires NoRuleInitial(c)
    ensures forall i :: 0 <= i < |LayoutTags| ==> LayoutTags[i] != [] && LowerAscii(LayoutTags[i][0]) != LowerAscii(c)
    ensures forall i :: 0 <= i < |TextTags| ==> TextTags[i] != [] && LowerAscii(TextTags[i][0]) != LowerAscii(c)
    ensures forall i :: 0 <= i < |ButtonTags| ==> ButtonTags[i] != [] && LowerAscii(ButtonTags[i][0]) != LowerAscii(c)
  {
    ContainerInitials(c);
  }

  /** The six tag rules, the first of the chain, leave `s` as it is. */
  predicate TagRulesKeep(s: string) {
    forall j :: 0 <= j < 6 ==> FixStep(j, s) == s
  }

  /** A lone tag whose name no rule of the chain can start goes through the
      six tag rules unchanged. */
  lemma InertTagRulesKeep(s: string)
    requires 2 <= |s| && s[0] == '<' && '<' !in s[1..]
    requires if s[1] == '/' then 3 <= |s| && NoRuleInitial(s[2]) else NoRuleInitial(s[1])
    ensures TagRulesKeep(s)
  {
    if s[1] == '/' {
      RuleInitials('/');
      RuleInitials(s[2]);
      assert FirstLetterDiffers(s, 2, LayoutTags) && FirstLetterDiffers(s, 2, TextTags) && FirstLetterDiffers(s, 2, ButtonTags);
    } else {
      RuleInitials(s[1]);
    }
    assert FirstLetterDiffers(s, 1, LayoutTags) && FirstLetterDiffers(s, 1, TextTags) && FirstLetterDiffers(s, 1, ButtonTags);
    forall j | 0 <= j < 6 ensures FixStep(j, s) == s {
      if j == 0 { assert AutoFixRules[j] == FixOpenLayout; OpenTagKeeps(LayoutTags, OpenContainer, s); }
      else if j == 1 { assert AutoFixRules[j] == FixCloseLayout; CloseTagKeeps(LayoutTags, CloseContainer, s); }
      else if j == 2 { assert AutoFixRules[j] == FixOpenText; OpenTagKeeps(TextTags, OpenContainer, s); }
      else if j == 3 { assert AutoFixRules[j] == FixCloseText; CloseTagKeeps(TextTags, CloseContainer, s); }
      else if j == 4 { assert AutoFixRules[j] == FixOpenButton; OpenTagKeeps(ButtonTags, PrimaryButton, s); }
      else { assert AutoFixRules[j] == FixCloseButton; CloseTagKeeps(ButtonTags, CloseButton, s); }
    }
  }

  /** A text that the tag rules leave alone and that holds no `d` goes through
      the whole chain unchanged. */
  lemma NoDataKept(s: string)
    requires TagRulesKeep(s) && 'd' !in s
    ensures KeptByChain(s)
  {
    forall j | 0 <= j < |AutoFixRules| ensures FixStep(j, s) == s {
      if j == 6 { assert AutoFixRules[j] == FixEmptyCallData; LiteralFirstCharAbsent(EmptyCallData, SampleData, s); }
      else if j == 7 { assert AutoFixRules[j] == FixEmptyData; LiteralFirstCharAbsent(EmptyData, SampleData, s); }
    }
  }

  /** A lone tag whose name no rule of the chain can start, and that holds
      no `d` for the data literals, goes through the chain unchanged. */
  lemma InertTagKept(s: string)
    requires 2 <= |s| && s[0] == '<' && '<' !in s[1..] && 'd' !in s
    requires if s[1] == '/' then 3 <= |s| && NoRuleInitial(s[2]) else NoRuleInitial(s[1])
    ensures KeptByChain(s)
  {
    InertTagRulesKeep(s);
    NoDataKept(s);
  }

  /** The container tags the chain writes are left alone by the whole chain. */
  lemma OpenContainerKept()
    ensures KeptByChain(OpenContainer)
  {
    var s := OpenContainer;
    assert '<' !in s[1..] && 'd' !in s;
    assert s[0] == '<' && s[1] != '/' && NoRuleInitial(s[1]);
    InertTagKept(s);
  }

  lemma CloseContainerKept()
    ensures KeptByChain(CloseContainer)
  {
    var s := CloseContainer;
    assert '<' !in s[1..] && 'd' !in s;
    assert s[0] == '<' && s[1] == '/' && NoRuleInitial(s[2]);
    InertTagKept(s);
  }

  /** So is the fragment opener. */
  lemma FragmentKept()
    ensures KeptByChain("<>")
  {
    InertTagKept("<>");
  }

  /** The button rule rewrites the button tag it writes to itself. */
  lemma PrimaryButtonRewritten()
    ensures ReplaceAll(OpenTag(ButtonTags), PrimaryButton, PrimaryButton) == PrimaryButton
  {
    PrimaryButtonIsButtonTag();
    ButtonTagMatched(PrimaryButton);
  }

  lemma PrimaryButtonIsButtonTag()
    ensures IsOpenTag(ButtonTags, PrimaryButton)
  {
    var attributes := " variant=\"primary\"";
    assert EqualIgnoringCase("Button", ButtonTags[0]);
    assert IsAttributes(attributes);
    OpenTagBuilt(ButtonTags, 0, "Button", attributes);
    PrimaryButtonShape();
  }

  lemma PrimaryButtonShape()
    ensures PrimaryButton == "<" + "Button" + " variant=\"primary\"" + ">"
  {
  }

  /** The characters of the button tag the chain writes that the rules look at. */
  lemma PrimaryButtonChars()
    ensures |PrimaryButton| >= 2 && PrimaryButton[0] == '<' && PrimaryButton[1] == 'B'
    ensures '<' !in PrimaryButton[1..] && 'd' !in PrimaryButton
  {
    PrimaryButtonNoLt();
    PrimaryButtonNoD();
  }

  lemma PrimaryButtonNoLt()
    ensures '<' !in PrimaryButton[1..]
  {
    PrimaryButtonShape();
    assert '<' !in "Button" && '<' !in " variant=\"primary\"";
    LoneLt("Button", " variant=\"primary\"");
  }

  /** A tag assembled from text without `<` has its `<` at the front only. */
  lemma LoneLt(name: string, attributes: string)
    requires '<' !in name && '<' !in attributes
    ensures '<' !in ("<" + name + attributes + ">")[1..]
  {
    assert ("<" + name + attributes + ">")[1..] == name + attributes + ">";
  }

  lemma PrimaryButtonNoD()
    ensures 'd' !in PrimaryButton
  {
  }

  lemma CloseButtonRewritten()
    ensures ReplaceAll(CloseTag(ButtonTags), CloseButton, CloseButton) == CloseButton
  {
    assert EqualIgnoringCase("Button", ButtonTags[0]);
    CloseTagBuilt(ButtonTags, 0, "Button");
    assert CloseButton == "</" + "Button" + ">";
    ButtonCloseMatched(CloseButton);
  }

  lemma ButtonTagMatched(t: string)
    requires IsOpenTag(ButtonTags, t)
    ensures ReplaceAll(OpenTag(ButtonTags), PrimaryButton, t) == PrimaryButton
  {
    TagListsAreWords();
    LowerWordsNoGt(ButtonTags);
    assert t[..|t|] == t;
    OpenTagMatchComplete(ButtonTags, t, |t|);
    ReplaceAllWhole(OpenTag(ButtonTags), PrimaryButton, t);
  }

  lemma ButtonCloseMatched(t: string)
    requires IsCloseTag(ButtonTags, t)
    ensures ReplaceAll(CloseTag(ButtonTags), CloseButton, t) == CloseButton
  {
    TagListsAreWords();
    LowerWordsNoGt(ButtonTags);
    assert t[..|t|] == t;
    CloseTagMatchComplete(ButtonTags, t, |t|);
    ReplaceAllWhole(CloseTag(ButtonTags), CloseButton, t);
  }

  /** The button tags the chain writes come out of it unchanged. */
  lemma PrimaryButtonKept()
    ensures KeptByChain(PrimaryButton)
  {
    var s := PrimaryButton;
    PrimaryButtonChars();
    ContainerInitials('B');
    assert FirstLetterDiffers(s, 1, LayoutTags) && FirstLetterDiffers(s, 1, TextTags);
    forall j | 0 <= j < |AutoFixRules| ensures FixStep(j, s) == s {
      if j == 0 { assert AutoFixRules[j] == FixOpenLayout; OpenTagKeeps(LayoutTags, OpenContainer, s); }
      else if j == 1 { assert AutoFixRules[j] == FixCloseLayout; CloseTagKeeps(LayoutTags, CloseContainer, s); }
      else if j == 2 { assert AutoFixRules[j] == FixOpenText; OpenTagKeeps(TextTags, OpenContainer, s); }
      else if j == 3 { assert AutoFixRules[j] == FixCloseText; CloseTagKeeps(TextTags, CloseContainer, s); }
      else if j == 4 { assert AutoFixRules[j] == FixOpenButton; PrimaryButtonRewritten(); }
      else if j == 5 { assert AutoFixRules[j] == FixCloseButton; CloseTagKeeps(ButtonTags, CloseButton, s); }
      else if j == 6 { assert AutoFixRules[j] == FixEmptyCallData; LiteralFirstCharAbsent(EmptyCallData, SampleData, s); }
      else { assert AutoFixRules[j] == FixEmptyData; LiteralFirstCharAbsent(EmptyData, SampleData, s); }
    }
  }

  lemma CloseButtonKept()
    ensures KeptByChain(CloseButton)
  {
    var s := CloseButton;
    assert '<' !in s[1..] && 'd' !in s;
    assert s[0] == '<' && s[1] == '/' && s[2] == 'B';
    RuleInitials('/');
    ContainerInitials('B');
    assert FirstLetterDiffers(s, 1, LayoutTags) && FirstLetterDiffers(s, 1, TextTags) && FirstLetterDiffers(s, 1, ButtonTags);
    assert FirstLetterDiffers(s, 2, LayoutTags) && FirstLetterDiffers(s, 2, TextTags);
    forall j | 0 <= j < |AutoFixRules| ensures FixStep(j, s) == s {
      if j == 0 { assert AutoFixRules[j] == FixOpenLayout; OpenTagKeeps(LayoutTags, OpenContainer, s); }
      else if j == 1 { assert AutoFixRules[j] == FixCloseLayout; CloseTagKeeps(LayoutTags, CloseContainer, s); }
      else if j == 2 { assert AutoFixRules[j] == FixOpenText; OpenTagKeeps(TextTags, OpenContainer, s); }
      else if j == 3 { assert AutoFixRules[j] == FixCloseText; CloseTagKeeps(TextTags, CloseContainer, s); }
      else if j == 4 { assert AutoFixRules[j] == FixOpenButton; OpenTagKeeps(ButtonTags, PrimaryButton, s); }
      else if j == 5 { assert AutoFixRules[j] == FixCloseButton; CloseButtonRewritten(); }
      else if j == 6 { assert AutoFixRules[j] == FixEmptyCallData; LiteralFirstCharAbsent(EmptyCallData, SampleData, s); }
      else { assert AutoFixRules[j] == FixEmptyData; LiteralFirstCharAbsent(EmptyData, SampleData, s); }
    }
  }

  /** No name is listed by two of the alternations. */
  predicate DisjointWords(a: seq<string>, b: seq<string>) {
    forall n :: n in a ==> IsLowerWord(n) && n !in b
  }

  lemma TagListsDisjoint()
    ensures DisjointWords(LayoutTags, TextTags) && DisjointWords(LayoutTags, ButtonTags)
    ensures DisjointWords(TextTags, LayoutTags) && DisjointWords(TextTags, ButtonTags)
    ensures DisjointWords(ButtonTags, LayoutTags) && DisjointWords(ButtonTags, TextTags)
  {
    TagListsAreWords();
  }

  /** A closing tag of lower-case names holds `<` at its front only. */
  lemma CloseTagLoneLt(names: seq<string>, t: string) returns (i: nat)
    requires LowerWords(names) && IsCloseTag(names, t)
    ensures i < |names| && NameEndsAt(t, 2, names[i]) && '<' !in t[1..]
    ensures 2 <= |t| && t[0] == '<' && t[1] == '/'
  {
    LowerWordsNoGt(names);
    i := CloseTagEndsName(names, t);
    assert names[i] in names;
    NameChars(t, 2, names[i]);
    assert t[..2][1] == '/';
    forall j | 0 <= j < |t[1..]| ensures t[1..][j] != '<' {
      assert t[1..][j] == t[j + 1];
    }
  }

  /** The chain turns a lone piece into `out` when rule `k` does, the rules
      before it leave the piece alone and the rules after it leave `out` alone. */
  lemma AutoFixHit(t: string, k: nat, out: string)
    requires k < |AutoFixRules|
    requires forall j :: 0 <= j < k ==> FixStep(j, t) == t
    requires FixStep(k, t) == out
    requires KeptByChain(out)
    ensures AutoFix(t) == out
  {
    AutoFixRulesSplit();
    forall j | 0 <= j < k ensures Keeps(AutoFixRules[j], t) {
      assert FixStep(j, t) == t;
    }
    forall j | k < j < |AutoFixRules| ensures Keeps(AutoFixRules[j], out) {
      assert FixStep(j, out) == out;
    }
    assert FixStep(k, t) == out;
    ApplyRulesHit(AutoFixRules, t, k, out);
  }

  /** The chain from rule `j` on. */
  function RulesFrom(j: nat): (rules: seq<Rule>)
    requires j <= |AutoFixRules|
    ensures AllWellFormed(rules) && rules == AutoFixRules[j..]
  {
    AutoFixRulesSplit();
    AutoFixRules[j..]
  }

  /** The chain from rule `j` on is rule `j`, then the chain from rule `j + 1` on. */
  lemma ChainStep(j: nat, s: string)
    requires j < |AutoFixRules|
    ensures ApplyRules(RulesFrom(j), s) == ApplyRules(RulesFrom(j + 1), FixStep(j, s))
  {
    assert RulesFrom(j)[0] == AutoFixRules[j] && RulesFrom(j)[1..] == RulesFrom(j + 1);
  }

  /** Text the whole chain keeps, the chain's tail keeps. */
  lemma ChainTailKeeps(j: nat, s: string)
    requires j <= |AutoFixRules| && KeptByChain(s)
    ensures ApplyRules(RulesFrom(j), s) == s
  {
    var rules := RulesFrom(j);
    forall m | 0 <= m < |rules| ensures Keeps(rules[m], s) {
      assert rules[m] == AutoFixRules[j + m];
      assert FixStep(j + m, s) == s;
    }
    ApplyRulesKeep(rules, s);
  }

  /** The chain is the chain from rule 0 on. */
  lemma ChainFromStart(s: string)
    ensures AutoFix(s) == ApplyRules(RulesFrom(0), s)
  {
    assert RulesFrom(0) == AutoFixRules;
  }

  /** What the chain does to a piece that ends with `>` it does whatever follows. */
  lemma AutoFixPiece(t: string, rest: string, out: string)
    requires t != [] && t[|t| - 1] == '>' && AutoFix(t) == out
    ensures AutoFix(t + rest) == out + AutoFix(rest)
  {
    AutoFixSplit(t, rest);
  }
}
