/** What the auto-fix chain does to one HTML tag of the alternations: each
    rule before the one that names the tag leaves it a tag of that name (it
    can only rewrite a tag written inside the attributes), that rule writes
    the component tag, and no later rule touches what it wrote. */
module TagFix {

  import opened Text
  import opened Rewrite
  import opened Repair

  /** A whole tag of an alternation is replaced by the rule's replacement alone. */
  lemma OpenRuleRewrites(names: seq<string>, replacement: string, t: string)
    requires LowerWords(names) && IsOpenTag(names, t)
    ensures ReplaceAll(OpenTag(names), replacement, t) == replacement
  {
    LowerWordsNoGt(names);
    assert t[..|t|] == t;
    OpenTagMatchComplete(names, t, |t|);
    ReplaceAllWhole(OpenTag(names), replacement, t);
  }

  lemma CloseRuleRewrites(names: seq<string>, replacement: string, t: string)
    requires LowerWords(names) && IsCloseTag(names, t)
    ensures ReplaceAll(CloseTag(names), replacement, t) == replacement
  {
    LowerWordsNoGt(names);
    assert t[..|t|] == t;
    CloseTagMatchComplete(names, t, |t|);
    ReplaceAllWhole(CloseTag(names), replacement, t);
  }

  /** The opening-tag rules leave a closing tag alone. */
  lemma OpenRuleKeepsClosingTag(t: string, j: nat)
    requires 2 <= |t| && t[0] == '<' && t[1] == '/' && '<' !in t[1..]
    requires j == 0 || j == 2 || j == 4
    ensures FixStep(j, t) == t
  {
    RuleInitials('/');
    if j == 0 {
      assert AutoFixRules[j] == FixOpenLayout;
      assert FirstLetterDiffers(t, 1, LayoutTags);
      OpenTagKeeps(LayoutTags, OpenContainer, t);
    } else if j == 2 {
      assert AutoFixRules[j] == FixOpenText;
      assert FirstLetterDiffers(t, 1, TextTags);
      OpenTagKeeps(TextTags, OpenContainer, t);
    } else {
      assert AutoFixRules[j] == FixOpenButton;
      assert FirstLetterDiffers(t, 1, ButtonTags);
      OpenTagKeeps(ButtonTags, PrimaryButton, t);
    }
  }

  /** A closing-tag rule leaves alone a closing tag of another alternation. */
  lemma CloseRuleKeepsOtherClosingTag(t: string, own: seq<string>, i: nat, j: nat)
    requires (own == TextTags && j == 1) || (own == ButtonTags && (j == 1 || j == 3))
    requires i < |own| && NameEndsAt(t, 2, own[i]) && 2 <= |t| && '<' !in t[1..]
    ensures FixStep(j, t) == t
  {
    TagListsDisjoint();
    TagListsAreWords();
    assert own[i] in own;
    if j == 1 {
      assert AutoFixRules[j] == FixCloseLayout;
      DisjointNames(CloseTag(LayoutTags), t, CloseTag(own), i);
      TagPatternKeeps(CloseTag(LayoutTags), CloseContainer, t);
    } else {
      assert AutoFixRules[j] == FixCloseText;
      DisjointNames(CloseTag(TextTags), t, CloseTag(own), i);
      TagPatternKeeps(CloseTag(TextTags), CloseContainer, t);
    }
  }

  /** The facts about an opening tag the rules look at: where its name ends,
      and that it is not a closing tag. */
  lemma OpeningTagShape(names: seq<string>, t: string) returns (i: nat)
    requires LowerWords(names) && IsOpenTag(names, t)
    ensures i < |names| && NameEndsAt(t, 1, names[i]) && 2 <= |t| && t[1] != '/'
  {
    LowerWordsNoGt(names);
    i := OpenTagEndsName(names, t);
    assert names[i] in names;
    NameChars(t, 1, names[i]);
  }

  lemma OpenLayoutRewritten(t: string)
    requires IsOpenTag(LayoutTags, t)
    ensures ReplaceAll(OpenTag(LayoutTags), OpenContainer, t) == OpenContainer
  {
    LayoutTagsAreWords();
    OpenRuleRewrites(LayoutTags, OpenContainer, t);
  }

  /** Rule 0 of the chain is the open-tag rule for these names. */
  lemma OpenLayoutWrites(t: string)
    requires ReplaceAll(OpenTag(LayoutTags), OpenContainer, t) == OpenContainer
    ensures FixStep(0, t) == OpenContainer
  {
    assert AutoFixRules[0] == FixOpenLayout;
  }

  /** Rule 0, the first of the chain, writes `<Container>`. */
  lemma OpenLayoutSteps(t: string)
    requires IsOpenTag(LayoutTags, t)
    ensures FixStep(0, t) == OpenContainer
  {
    OpenLayoutRewritten(t);
    OpenLayoutWrites(t);
  }

  /** A layout opening tag alone becomes `<Container>`. */
  lemma OpenLayoutFixed(t: string)
    requires IsOpenTag(LayoutTags, t)
    ensures AutoFix(t) == OpenContainer
  {
    OpenLayoutSteps(t);
    OpenContainerKept();
    AutoFixHit(t, 0, OpenContainer);
  }

  lemma CloseLayoutRewritten(t: string)
    requires IsCloseTag(LayoutTags, t)
    ensures ReplaceAll(CloseTag(LayoutTags), CloseContainer, t) == CloseContainer
    ensures 2 <= |t| && t[0] == '<' && t[1] == '/' && '<' !in t[1..]
  {
    LayoutTagsAreWords();
    CloseRuleRewrites(LayoutTags, CloseContainer, t);
    var _ := CloseTagLoneLt(LayoutTags, t);
  }

  /** Rule 1 of the chain is the close-tag rule for these names. */
  lemma CloseLayoutWrites(t: string)
    requires ReplaceAll(CloseTag(LayoutTags), CloseContainer, t) == CloseContainer
    ensures FixStep(1, t) == CloseContainer
  {
    assert AutoFixRules[1] == FixCloseLayout;
  }

  lemma CloseLayoutKeptBefore(t: string)
    requires 2 <= |t| && t[0] == '<' && t[1] == '/' && '<' !in t[1..]
    ensures forall j :: 0 <= j < 1 ==> FixStep(j, t) == t
  {
    forall j | 0 <= j < 1 ensures FixStep(j, t) == t {
      OpenRuleKeepsClosingTag(t, j);
    }
  }

  /** The rules before rule 1 leave the tag alone and rule 1 writes `</Container>`. */
  lemma CloseLayoutSteps(t: string)
    requires IsCloseTag(LayoutTags, t)
    ensures forall j :: 0 <= j < 1 ==> FixStep(j, t) == t
    ensures FixStep(1, t) == CloseContainer
  {
    CloseLayoutRewritten(t);
    CloseLayoutWrites(t);
    CloseLayoutKeptBefore(t);
  }

  /** A layout closing tag alone becomes `</Container>`. */
  lemma CloseLayoutFixed(t: string)
    requires IsCloseTag(LayoutTags, t)
    ensures AutoFix(t) == CloseContainer
  {
    CloseLayoutSteps(t);
    CloseContainerKept();
    AutoFixHit(t, 1, CloseContainer);
  }

  /** The container tags the chain writes: a `<`, no `>` but the last character. */
  lemma ContainerTagsShape()
    ensures OpenContainer == "<Container" + ">" && CloseContainer == "</Container" + ">"
    ensures '>' !in "<Container" && '>' !in "</Container"
    ensures "<Container"[0] == '<' && "</Container"[0] == '<'
  {
  }

  /** Rules 0 to 3 leave the opening tag of another alternation an opening
      tag of that alternation. A tag they rewrite inside its attributes, such
      as the `<div x"` of `<p title="a<div x">`, can only end at the final
      `>`, so the rule replaces a tail that starts after the name and puts a
      container tag, which ends with `>`, in its place. */
  lemma OtherRuleKeepsOpenTag(own: seq<string>, t: string, j: nat)
    requires (own == TextTags && j < 2) || (own == ButtonTags && j < 4)
    requires IsOpenTag(own, t)
    ensures IsOpenTag(own, FixStep(j, t))
  {
    TagListsAreWords();
    LowerWordsNoGt(own);
    var i := OpeningTagShape(own, t);
    var head := OtherRuleShape(own, t, i, j);
    TailRewriteKeepsOpenTag(own, i, t, AutoFixRules[j].pattern, head);
  }

  /** What rules 0 to 3 look like to the opening tag of another alternation:
      a tag pattern that misses its front and writes a container tag. */
  lemma OtherRuleShape(own: seq<string>, t: string, i: nat, j: nat) returns (head: string)
    requires (own == TextTags && j < 2) || (own == ButtonTags && j < 4)
    requires i < |own| && NameEndsAt(t, 1, own[i]) && 2 <= |t| && t[1] != '/'
    ensures var p := AutoFixRules[j].pattern;
      (p.OpenTag? || p.CloseTag?) && NoGt(p.names) && MatchLength(p, t).None?
    ensures AutoFixRules[j].replacement == head + ">" && head != [] && head[0] == '<' && '>' !in head
  {
    if j == 0 || j == 2 {
      OpenRuleMissesOtherOpeningTag(t, own, i, j);
    } else {
      assert !StartsWith(t, "</");
    }
    TagListsAreWords();
    LowerWordsNoGt(LayoutTags);
    LowerWordsNoGt(TextTags);
    ContainerTagsShape();
    head := if j % 2 == 0 then "<Container" else "</Container";
    assert AutoFixRules[j] == [FixOpenLayout, FixCloseLayout, FixOpenText, FixCloseText][j];
  }

  /** A tag pattern that misses the front of an opening tag and writes a tag
      ending in `>` leaves it an opening tag of the same names. */
  lemma TailRewriteKeepsOpenTag(own: seq<string>, i: nat, t: string, p: Pattern, head: string)
    requires LowerWords(own) && NoGt(own) && IsOpenTag(own, t)
    requires i < |own| && NameEndsAt(t, 1, own[i])
    requires (p.OpenTag? || p.CloseTag?) && NoGt(p.names) && MatchLength(p, t).None?
    requires head != [] && head[0] == '<' && '>' !in head
    ensures IsOpenTag(own, ReplaceAll(p, head + ">", t))
  {
    TagShapeHasOneGt(own, t, false);
    var q, hit := ReplaceAllOneGt(p, head + ">", t);
    if hit {
      assert own[i] in own;
      NameChars(t, 1, own[i]);
      OpenTagWithNewTail(own, i, t, q, head);
    }
  }

  /** An opening tag whose tail after the name, from a `<` on, is replaced by
      another tag is still an opening tag of the same names. */
  lemma OpenTagWithNewTail(own: seq<string>, i: nat, t: string, q: nat, head: string)
    requires i < |own| && NameEndsAt(t, 1, own[i])
    requires t[0] == '<' && 1 <= q < |t| && t[q] == '<' && forall j :: 0 <= j < |t| - 1 ==> t[j] != '>'
    requires forall j :: 1 <= j < 1 + |own[i]| ==> t[j] != '<'
    requires head != [] && head[0] == '<' && '>' !in head
    ensures IsOpenTag(own, t[..q] + (head + ">"))
  {
    var n := own[i];
    assert q > 1 + |n|;
    assert t[1 + |n|] == ' ';
    var name, middle := t[1..1 + |n|], t[1 + |n|..q];
    assert t[1..][..|n|] == name;
    forall x | 0 <= x < |middle| ensures middle[x] != '>' { assert middle[x] == t[1 + |n| + x]; }
    var attributes := middle + head;
    assert attributes[0] == ' ';
    assert t[..q] == t[..1] + name + middle;
    OpenTagBuilt(own, i, name, attributes);
    assert t[..q] + (head + ">") == "<" + name + attributes + ">";
  }

  /** An opening-tag rule of another alternation does not match at the front of the tag. */
  lemma OpenRuleMissesOtherOpeningTag(t: string, own: seq<string>, i: nat, j: nat)
    requires (own == TextTags && j == 0) || (own == ButtonTags && (j == 0 || j == 2))
    requires i < |own| && NameEndsAt(t, 1, own[i])
    ensures MatchLength(AutoFixRules[j].pattern, t).None?
  {
    TagListsDisjoint();
    TagListsAreWords();
    assert own[i] in own;
    if j == 0 {
      assert AutoFixRules[j] == FixOpenLayout;
      DisjointNames(OpenTag(LayoutTags), t, OpenTag(own), i);
    } else {
      assert AutoFixRules[j] == FixOpenText;
      DisjointNames(OpenTag(TextTags), t, OpenTag(own), i);
    }
  }

  lemma OpenTextRewritten(t: string)
    requires IsOpenTag(TextTags, t)
    ensures ReplaceAll(OpenTag(TextTags), OpenContainer, t) == OpenContainer
  {
    TextTagsAreWords();
    OpenRuleRewrites(TextTags, OpenContainer, t);
  }

  /** Rule 2 of the chain is the open-tag rule for these names. */
  lemma OpenTextWrites(t: string)
    requires ReplaceAll(OpenTag(TextTags), OpenContainer, t) == OpenContainer
    ensures FixStep(2, t) == OpenContainer
  {
    assert AutoFixRules[2] == FixOpenText;
  }

  /** A text opening tag alone becomes `<Container>`, whatever its attributes
      hold: rules 0 and 1 keep it a text opening tag, rule 2 writes the
      container and the rest keep that. */
  lemma OpenTextFixed(t: string)
    requires IsOpenTag(TextTags, t)
    ensures AutoFix(t) == OpenContainer
  {
    var t1 := FixStep(0, t);
    OtherRuleKeepsOpenTag(TextTags, t, 0);
    var t2 := FixStep(1, t1);
    OtherRuleKeepsOpenTag(TextTags, t1, 1);
    OpenTextRewritten(t2);
    OpenTextWrites(t2);
    OpenContainerKept();
    ChainFromStart(t);
    ChainStep(0, t);
    ChainStep(1, t1);
    ChainStep(2, t2);
    ChainTailKeeps(3, OpenContainer);
  }

  lemma CloseTextRewritten(t: string) returns (i: nat)
    requires IsCloseTag(TextTags, t)
    ensures ReplaceAll(CloseTag(TextTags), CloseContainer, t) == CloseContainer
    ensures i < |TextTags| && NameEndsAt(t, 2, TextTags[i]) && 2 <= |t| && t[0] == '<' && t[1] == '/' && '<' !in t[1..]
  {
    TextTagsAreWords();
    CloseRuleRewrites(TextTags, CloseContainer, t);
    i := CloseTagLoneLt(TextTags, t);
  }

  /** Rule 3 of the chain is the close-tag rule for these names. */
  lemma CloseTextWrites(t: string)
    requires ReplaceAll(CloseTag(TextTags), CloseContainer, t) == CloseContainer
    ensures FixStep(3, t) == CloseContainer
  {
    assert AutoFixRules[3] == FixCloseText;
  }

  lemma CloseTextKeptBefore(t: string, i: nat)
    requires i < |TextTags| && NameEndsAt(t, 2, TextTags[i]) && 2 <= |t| && t[0] == '<' && t[1] == '/' && '<' !in t[1..]
    ensures forall j :: 0 <= j < 3 ==> FixStep(j, t) == t
  {
    forall j | 0 <= j < 3 ensures FixStep(j, t) == t {
      if j == 1 { CloseRuleKeepsOtherClosingTag(t, TextTags, i, 1); }
      else { OpenRuleKeepsClosingTag(t, j); }
    }
  }

  /** The rules before rule 3 leave the tag alone and rule 3 writes `</Container>`. */
  lemma CloseTextSteps(t: string)
    requires IsCloseTag(TextTags, t)
    ensures forall j :: 0 <= j < 3 ==> FixStep(j, t) == t
    ensures FixStep(3, t) == CloseContainer
  {
    var i := CloseTextRewritten(t);
    CloseTextWrites(t);
    CloseTextKeptBefore(t, i);
  }

  /** A text closing tag alone becomes `</Container>`. */
  lemma CloseTextFixed(t: string)
    requires IsCloseTag(TextTags, t)
    ensures AutoFix(t) == CloseContainer
  {
    CloseTextSteps(t);
    CloseContainerKept();
    AutoFixHit(t, 3, CloseContainer);
  }

  /** Rule 4 of the chain is the open-tag rule for these names. */
  lemma OpenButtonWrites(t: string)
    requires ReplaceAll(OpenTag(ButtonTags), PrimaryButton, t) == PrimaryButton
    ensures FixStep(4, t) == PrimaryButton
  {
    assert AutoFixRules[4] == FixOpenButton;
  }

  /** A button opening tag alone becomes `<Button variant="primary">`,
      whatever attributes it had: rules 0 to 3 keep it a button opening tag,
      rule 4 writes the primary button and the rest keep that. */
  lemma OpenButtonFixed(t: string)
    requires IsOpenTag(ButtonTags, t)
    ensures AutoFix(t) == PrimaryButton
  {
    var t1 := FixStep(0, t);
    OtherRuleKeepsOpenTag(ButtonTags, t, 0);
    var t2 := FixStep(1, t1);
    OtherRuleKeepsOpenTag(ButtonTags, t1, 1);
    var t3 := FixStep(2, t2);
    OtherRuleKeepsOpenTag(ButtonTags, t2, 2);
    var t4 := FixStep(3, t3);
    OtherRuleKeepsOpenTag(ButtonTags, t3, 3);
    ButtonTagMatched(t4);
    OpenButtonWrites(t4);
    PrimaryButtonKept();
    ChainFromStart(t);
    ChainStep(0, t);
    ChainStep(1, t1);
    ChainStep(2, t2);
    ChainStep(3, t3);
    ChainStep(4, t4);
    ChainTailKeeps(5, PrimaryButton);
  }

  lemma CloseButtonRewritten(t: string) returns (i: nat)
    requires IsCloseTag(ButtonTags, t)
    ensures ReplaceAll(CloseTag(ButtonTags), CloseButton, t) == CloseButton
    ensures i < |ButtonTags| && NameEndsAt(t, 2, ButtonTags[i]) && 2 <= |t| && t[0] == '<' && t[1] == '/' && '<' !in t[1..]
  {
    TagListsAreWords();
    ButtonCloseMatched(t);
    i := CloseTagLoneLt(ButtonTags, t);
  }

  /** Rule 5 of the chain is the close-tag rule for these names. */
  lemma CloseButtonWrites(t: string)
    requires ReplaceAll(CloseTag(ButtonTags), CloseButton, t) == CloseButton
    ensures FixStep(5, t) == CloseButton
  {
    assert AutoFixRules[5] == FixCloseButton;
  }

  lemma CloseButtonKeptBefore(t: string, i: nat)
    requires i < |ButtonTags| && NameEndsAt(t, 2, ButtonTags[i]) && 2 <= |t| && t[0] == '<' && t[1] == '/' && '<' !in t[1..]
    ensures forall j :: 0 <= j < 5 ==> FixStep(j, t) == t
  {
    forall j | 0 <= j < 5 ensures FixStep(j, t) == t {
      if j == 1 || j == 3 { CloseRuleKeepsOtherClosingTag(t, ButtonTags, i, j); }
      else { OpenRuleKeepsClosingTag(t, j); }
    }
  }

  /** The rules before rule 5 leave the tag alone and rule 5 writes `</Button>`. */
  lemma CloseButtonSteps(t: string)
    requires IsCloseTag(ButtonTags, t)
    ensures forall j :: 0 <= j < 5 ==> FixStep(j, t) == t
    ensures FixStep(5, t) == CloseButton
  {
    var i := CloseButtonRewritten(t);
    CloseButtonWrites(t);
    CloseButtonKeptBefore(t, i);
  }

  /** A button closing tag alone becomes `</Button>`. */
  lemma CloseButtonFixed(t: string)
    requires IsCloseTag(ButtonTags, t)
    ensures AutoFix(t) == CloseButton
  {
    CloseButtonSteps(t);
    CloseButtonKept();
    AutoFixHit(t, 5, CloseButton);
  }
}
