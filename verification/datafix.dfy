/** What the last two rules of the auto-fix chain do: the two malformed
    chart-data literals become the sample array, and nothing else changes. */
module DataFix {

  import opened Text
  import opened Rewrite
  import opened Repair

  /** The two data rules, in chain order, on a text the tag rules leave alone. */
  function DataRules(s: string): string {
    ReplaceAll(Literal(EmptyData), SampleData, ReplaceAll(Literal(EmptyCallData), SampleData, s))
  }

  /** A text without `<` is left alone by the six tag rules. */
  lemma PlainTextTagRulesKeep(s: string)
    requires '<' !in s
    ensures TagRulesKeep(s)
  {
    AutoFixRulesSplit();
    forall j | 0 <= j < 6 ensures FixStep(j, s) == s {
      assert AutoFixRules[j].pattern.OpenTag? || AutoFixRules[j].pattern.CloseTag?;
      ReplaceAllSkipsPlainText(AutoFixRules[j].pattern, AutoFixRules[j].replacement, s, []);
      assert s + [] == s;
    }
  }

  /** The last two rules of the chain are the data rules. */
  lemma DataRulesAreLast()
    ensures AutoFixRules[6..] == [FixEmptyCallData, FixEmptyData]
  {
  }

  /** On a text the tag rules leave alone, only the two data rules act. */
  lemma DataRulesOnly(s: string)
    requires TagRulesKeep(s)
    ensures AutoFix(s) == DataRules(s)
  {
    AutoFixRulesSplit();
    forall j | 0 <= j < 6 ensures Keeps(AutoFixRules[j], s) {
      assert FixStep(j, s) == s;
    }
    ApplyRulesSkip(AutoFixRules, s, 6);
    DataRulesAreLast();
    var once := ReplaceAll(Literal(EmptyCallData), SampleData, s);
    assert ApplyRules([FixEmptyCallData, FixEmptyData], s) == ApplyRules([FixEmptyData], once);
    assert ApplyRules([FixEmptyData], once) == ApplyRules([], DataRules(s));
  }

  /** Text outside any tag goes through the chain with only its data literals rewritten. */
  lemma AutoFixPlainText(s: string)
    requires '<' !in s
    ensures AutoFix(s) == DataRules(s)
  {
    PlainTextTagRulesKeep(s);
    DataRulesOnly(s);
  }

  /** Where the sample array and the two malformed literals part ways. */
  lemma DataLiteralsDiffer(post: string)
    ensures !StartsWith(SampleData + post, EmptyCallData)
    ensures !StartsWith(SampleData + post, EmptyData)
    ensures !StartsWith(EmptyData + post, EmptyCallData)
  {
    assert (SampleData + post)[7] == '6';
    DiffersAt(SampleData + post, EmptyCallData, 7);
    DiffersAt(SampleData + post, EmptyData, 7);
    assert (EmptyData + post)[8] == '}';
    DiffersAt(EmptyData + post, EmptyCallData, 8);
  }

  /** The characters of the three literals that the rules look at: `d` opens
      each of them only, and none holds `<`. */
  lemma DataLiteralsShape()
    ensures 'd' !in SampleData[1..] && 'd' !in EmptyData[1..] && 'd' !in EmptyCallData[1..]
    ensures '<' !in SampleData && '<' !in EmptyData && '<' !in EmptyCallData
  {
    SampleDataShape();
    EmptyDataShape();
    EmptyCallDataShape();
  }

  lemma SampleDataShape()
    ensures 'd' !in SampleData[1..] && '<' !in SampleData
  {
    SampleDataTail();
    SampleDataTailPlain();
  }

  lemma SampleDataTail()
    ensures SampleData[1..] == "ata={[65, 59, 80, 81, 56, 55, 40]}"
  {
  }

  lemma SampleDataTailPlain()
    ensures 'd' !in "ata={[65, 59, 80, 81, 56, 55, 40]}" && '<' !in SampleData
  {
  }

  lemma EmptyDataShape()
    ensures 'd' !in EmptyData[1..] && '<' !in EmptyData
  {
    assert EmptyData[1..] == "ata={[]}";
  }

  lemma EmptyCallDataShape()
    ensures 'd' !in EmptyCallData[1..] && '<' !in EmptyCallData
  {
    assert EmptyCallData[1..] == "ata={[]()}";
  }

  /** The sample array holds neither malformed literal. */
  lemma SampleDataKept()
    ensures KeptByChain(SampleData)
  {
    var s := SampleData;
    DataLiteralsShape();
    DataLiteralsDiffer([]);
    assert s + [] == s;
    PlainTextTagRulesKeep(s);
    forall j | 6 <= j < |AutoFixRules| ensures FixStep(j, s) == s {
      if j == 6 { assert AutoFixRules[j] == FixEmptyCallData; LiteralMissesFront(EmptyCallData, SampleData, s); }
      else { assert AutoFixRules[j] == FixEmptyData; LiteralMissesFront(EmptyData, SampleData, s); }
    }
  }

  /** All three literals open with `d`. */
  lemma DataLiteralsStart()
    ensures SampleData[0] == 'd' && EmptyData[0] == 'd' && EmptyCallData[0] == 'd'
  {
  }

  /** The first data rule at a malformed literal: `data={[]()}` is replaced,
      `data={[]}` is passed over, and the scan goes on after it. */
  lemma FirstDataRuleAt(m: string, post: string) returns (m1: string)
    requires m == EmptyCallData || m == EmptyData
    ensures m1 == if m == EmptyCallData then SampleData else EmptyData
    ensures ReplaceAll(Literal(EmptyCallData), SampleData, m + post)
         == m1 + ReplaceAll(Literal(EmptyCallData), SampleData, post)
  {
    DataLiteralsShape();
    DataLiteralsDiffer(post);
    if m == EmptyCallData {
      assert (m + post)[..|m|] == m;
      ReplaceAllAtMatch(Literal(EmptyCallData), SampleData, m, post);
      m1 := SampleData;
    } else {
      LiteralMissPrefix(EmptyCallData, SampleData, m, post);
      m1 := EmptyData;
    }
  }

  /** The second data rule replaces `data={[]}` and passes over the sample array. */
  lemma SecondDataRuleAt(m1: string, post: string)
    requires m1 == SampleData || m1 == EmptyData
    ensures ReplaceAll(Literal(EmptyData), SampleData, m1 + post)
         == SampleData + ReplaceAll(Literal(EmptyData), SampleData, post)
  {
    DataLiteralsShape();
    DataLiteralsDiffer(post);
    if m1 == EmptyData {
      assert (m1 + post)[..|m1|] == m1;
      ReplaceAllAtMatch(Literal(EmptyData), SampleData, m1, post);
    } else {
      LiteralMissPrefix(EmptyData, SampleData, m1, post);
    }
  }

  /** Either malformed literal becomes the sample array wherever it stands,
      and the data rules act on the text before it and the text after it as
      they would on each alone: no occurrence reaches across a literal. */
  lemma DataRulesAround(pre: string, m: string, post: string)
    requires m == EmptyCallData || m == EmptyData
    ensures DataRules(pre + m + post) == DataRules(pre) + SampleData + DataRules(post)
  {
    DataLiteralsShape();
    DataLiteralsStart();
    var first := ReplaceAll(Literal(EmptyCallData), SampleData, pre);
    var after := ReplaceAll(Literal(EmptyCallData), SampleData, post);
    assert pre + m + post == pre + (m + post);
    LiteralSplit(EmptyCallData, SampleData, pre, m + post);
    var m1 := FirstDataRuleAt(m, post);
    assert (m1 + after)[0] == 'd';
    LiteralSplit(EmptyData, SampleData, first, m1 + after);
    SecondDataRuleAt(m1, after);
    ConcatAssociative(DataRules(pre), SampleData, DataRules(post));
  }

  /** Text without a `d` holds neither literal and is left alone. */
  lemma DataRulesKeepDFree(s: string)
    requires 'd' !in s
    ensures DataRules(s) == s
  {
    DataLiteralsStart();
    LiteralFirstCharAbsent(EmptyCallData, SampleData, s);
    LiteralFirstCharAbsent(EmptyData, SampleData, s);
  }

  /** After the data rules no malformed literal is left: the first rule
      removes every `data={[]()}` and writes none, the second removes every
      `data={[]}` and brings back no `data={[]()}`. */
  lemma DataRulesClean(s: string)
    ensures !Contains(DataRules(s), EmptyCallData) && !Contains(DataRules(s), EmptyData)
  {
    DataLiteralsShape();
    DataLiteralsStart();
    DataLiteralsDiffer([]);
    assert SampleData + [] == SampleData;
    var once := ReplaceAll(Literal(EmptyCallData), SampleData, s);
    ReplaceAllAvoids(EmptyCallData, SampleData, s, EmptyCallData);
    ReplaceAllAvoids(EmptyData, SampleData, once, EmptyData);
    ReplaceAllAvoids(EmptyData, SampleData, once, EmptyCallData);
  }

  /** Text outside any tag comes out of the chain with no malformed literal. */
  lemma AutoFixLeavesNoMalformedData(s: string)
    requires '<' !in s
    ensures !Contains(AutoFix(s), EmptyCallData) && !Contains(AutoFix(s), EmptyData)
  {
    AutoFixPlainText(s);
    DataRulesClean(s);
  }

  /** A malformed data literal in text without `<` becomes the sample array,
      whatever stands around it; text around it without a `d` stays as it is. */
  lemma DataLiteralFixed(pre: string, m: string, post: string)
    requires m == EmptyCallData || m == EmptyData
    requires '<' !in pre && '<' !in post
    ensures AutoFix(pre + m + post) == DataRules(pre) + SampleData + DataRules(post)
    ensures 'd' !in pre && 'd' !in post ==> AutoFix(pre + m + post) == pre + SampleData + post
  {
    DataLiteralsShape();
    assert '<' !in pre + m + post;
    AutoFixPlainText(pre + m + post);
    DataRulesAround(pre, m, post);
    if 'd' !in pre && 'd' !in post {
      DataRulesKeepDFree(pre);
      DataRulesKeepDFree(post);
    }
  }

  /** The same inside a lone tag that no tag rule names, such as a chart's
      opening tag: `<Chart data={[]} />` gets the sample data. */
  lemma DataLiteralInTagFixed(pre: string, m: string, post: string)
    requires m == EmptyCallData || m == EmptyData
    requires 2 <= |pre| && pre[0] == '<' && pre[1] != '/' && NoRuleInitial(pre[1])
    requires '<' !in pre[1..] && '<' !in post
    ensures AutoFix(pre + m + post) == DataRules(pre) + SampleData + DataRules(post)
    ensures 'd' !in pre && 'd' !in post ==> AutoFix(pre + m + post) == pre + SampleData + post
  {
    var s := pre + m + post;
    DataLiteralsShape();
    assert s[1..] == pre[1..] + m + post;
    assert s[0] == '<' && s[1] == pre[1];
    InertTagRulesKeep(s);
    DataRulesOnly(s);
    DataRulesAround(pre, m, post);
    if 'd' !in pre && 'd' !in post {
      DataRulesKeepDFree(pre);
      DataRulesKeepDFree(post);
    }
  }

  /** Only the two malformed literals are rewritten: text without `<` that
      holds neither of them, whatever other `data=` props or words with a `d`
      it carries, goes through the chain unchanged. */
  lemma OtherDataKept(s: string)
    requires '<' !in s && !Contains(s, EmptyCallData) && !Contains(s, EmptyData)
    ensures AutoFix(s) == s
  {
    AutoFixPlainText(s);
    LiteralAbsentUnchanged(EmptyCallData, SampleData, s);
    LiteralAbsentUnchanged(EmptyData, SampleData, s);
  }

  /** The same inside a lone tag whose name no tag rule starts: a chart with
      any other data keeps it. */
  lemma OtherDataInTagKept(t: string)
    requires 2 <= |t| && t[0] == '<' && '<' !in t[1..]
    requires if t[1] == '/' then 3 <= |t| && NoRuleInitial(t[2]) else NoRuleInitial(t[1])
    requires !Contains(t, EmptyCallData) && !Contains(t, EmptyData)
    ensures AutoFix(t) == t
  {
    InertTagRulesKeep(t);
    DataRulesOnly(t);
    LiteralAbsentUnchanged(EmptyCallData, SampleData, t);
    LiteralAbsentUnchanged(EmptyData, SampleData, t);
  }
}
