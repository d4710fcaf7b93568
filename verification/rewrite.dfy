/** A global `String.prototype.replace` with a constant replacement, for the
    three shapes of regular expression the repair chain of the generation route
    uses. Each shape is matched by a hand-written scanner that follows the
    backtracking order of the JavaScript regular expression. */
module Rewrite {

  import opened Wrappers
  import opened Text

  datatype Pattern =
      /** `/<(?:n1|n2|…)(?: [^>]*)?>/gi`: an opening tag with optional attributes */
    | OpenTag(names: seq<string>)
      /** `/<\/(?:n1|n2|…)>/gi`: a closing tag */
    | CloseTag(names: seq<string>)
      /** a literal text, case-sensitive, flag `g` */
    | Literal(text: string)

  /** An empty literal would match between every two characters; the source uses none. */
  predicate WellFormed(p: Pattern) {
    p.Literal? ==> p.text != []
  }

  /** Where the tail `(?: [^>]*)?>` of an opening tag ends when it starts at `k`:
      a space and everything up to the first `>`, or a `>` right away. */
  function AttributesEnd(s: string, k: nat): (r: Option<nat>)
    requires k <= |s|
    ensures r.Some? ==> k < r.value <= |s| && s[r.value - 1] == '>'
    ensures r.Some? ==> forall j :: k <= j < r.value - 1 ==> s[j] != '>'
    ensures r.Some? && r.value > k + 1 ==> s[k] == ' '
    ensures r.None? <==> !((k < |s| && s[k] == '>') || (k < |s| && s[k] == ' ' && IndexOf(s, '>', k + 1).Some?))
  {
    if k < |s| && s[k] == ' ' then
      match IndexOf(s, '>', k + 1)
      case Some(g) => Some(g + 1)
      case None => None
    else if k < |s| && s[k] == '>' then Some(k + 1)
    else None
  }

  /** Where the tail of a tag that starts at `k` ends: a bare `>` for a closing
      tag, the attributes and `>` for an opening one. */
  function TagEnd(s: string, k: nat, closing: bool): (r: Option<nat>)
    requires k <= |s|
    ensures r.Some? ==> k < r.value <= |s| && s[r.value - 1] == '>'
    ensures r.Some? ==> forall j :: k <= j < r.value - 1 ==> s[j] != '>'
  {
    if closing then (if k < |s| && s[k] == '>' then Some(k + 1) else None)
    else AttributesEnd(s, k)
  }

  /** The alternation `(?:n1|n2|…)` at index `k`: the names are tried in order,
      each in any letter case and followed by the tail of the tag; the first
      that completes a match decides where the match ends. */
  function Alternatives(s: string, k: nat, names: seq<string>, closing: bool): (r: Option<nat>)
    requires k <= |s|
    ensures r.Some? ==> k < r.value <= |s|
    decreases |names|
  {
    if names == [] then None
    else
      var first := if StartsWithIgnoringCase(s[k..], names[0]) then TagEnd(s, k + |names[0]|, closing) else None;
      if first.Some? then first else Alternatives(s, k, names[1..], closing)
  }

  /** The length of the match of `p` at the very start of `s`, if any. */
  function MatchLength(p: Pattern, s: string): (r: Option<nat>)
    requires WellFormed(p)
    ensures r.Some? ==> 0 < r.value <= |s|
  {
    match p
    case OpenTag(names) => if StartsWith(s, "<") then Alternatives(s, 1, names, false) else None
    case CloseTag(names) => if StartsWith(s, "</") then Alternatives(s, 2, names, true) else None
    case Literal(t) => if StartsWith(s, t) then Some(|t|) else None
  }

  /** `s.replace(p, replacement)` with flag `g`: the scan goes left to right,
      every match is replaced and the scan resumes after it, and the replaced
      text is never scanned again. */
  function ReplaceAll(p: Pattern, replacement: string, s: string): string
    requires WellFormed(p)
    decreases |s|
  {
    if s == [] then []
    else match MatchLength(p, s)
      case Some(n) => replacement + ReplaceAll(p, replacement, s[n..])
      case None => [s[0]] + ReplaceAll(p, replacement, s[1..])
  }

  /** No alternative name holds a `>`, so a tag ends at its first `>`. */
  predicate NoGt(names: seq<string>) {
    forall n :: n in names ==> '>' !in n
  }

  /** Attributes of an opening tag: nothing, or a space and then anything but `>`. */
  predicate IsAttributes(a: string) {
    a == [] || (a[0] == ' ' && '>' !in a)
  }

  /** `t` is one whole opening tag the pattern describes: `<`, one of `names`
      in any letter case, the attributes, `>`. */
  predicate IsOpenTag(names: seq<string>, t: string) {
    && 2 <= |t| && t[0] == '<' && t[|t| - 1] == '>'
    && exists n :: n in names && 1 + |n| < |t| && EqualIgnoringCase(t[1..1 + |n|], n)
                   && IsAttributes(t[1 + |n|..|t| - 1])
  }

  /** `t` is one whole closing tag the pattern describes: `</`, one of `names`
      in any letter case, `>`. */
  predicate IsCloseTag(names: seq<string>, t: string) {
    && 3 <= |t| && t[..2] == "</" && t[|t| - 1] == '>'
    && exists n :: n in names && |t| == 3 + |n| && EqualIgnoringCase(t[2..2 + |n|], n)
  }

  /** A character that folds to `>` is `>`. */
  lemma LowerAsciiGt(c: char)
    ensures LowerAscii(c) == '>' <==> c == '>'
  {
  }

  /** Which name of the alternation completed the match. */
  lemma {:induction false} AlternativesWitness(s: string, k: nat, names: seq<string>, closing: bool)
    requires k <= |s|
    requires Alternatives(s, k, names, closing).Some?
    ensures exists i :: 0 <= i < |names| && StartsWithIgnoringCase(s[k..], names[i])
                        && TagEnd(s, k + |names[i]|, closing) == Alternatives(s, k, names, closing)
    decreases |names|
  {
    var first := if StartsWithIgnoringCase(s[k..], names[0]) then TagEnd(s, k + |names[0]|, closing) else None;
    if first.None? {
      assert Alternatives(s, k, names, closing) == Alternatives(s, k, names[1..], closing);
      AlternativesWitness(s, k, names[1..], closing);
      var i :| 0 <= i < |names[1..]| && StartsWithIgnoringCase(s[k..], names[1..][i])
               && TagEnd(s, k + |names[1..][i]|, closing) == Alternatives(s, k, names[1..], closing);
      assert names[1..][i] == names[i + 1];
      assert StartsWithIgnoringCase(s[k..], names[i + 1])
          && TagEnd(s, k + |names[i + 1]|, closing) == Alternatives(s, k, names, closing);
    } else {
      assert Alternatives(s, k, names, closing) == first;
      assert StartsWithIgnoringCase(s[k..], names[0])
          && TagEnd(s, k + |names[0]|, closing) == Alternatives(s, k, names, closing);
    }
  }

  /** If some alternative completes a match, the alternation matches. */
  lemma {:induction false} AlternativesComplete(s: string, k: nat, names: seq<string>, closing: bool, i: nat)
    requires k <= |s| && i < |names|
    requires StartsWithIgnoringCase(s[k..], names[i]) && TagEnd(s, k + |names[i]|, closing).Some?
    ensures Alternatives(s, k, names, closing).Some?
    decreases |names|
  {
    if i > 0 {
      var first := if StartsWithIgnoringCase(s[k..], names[0]) then TagEnd(s, k + |names[0]|, closing) else None;
      if first.None? {
        assert names[1..][i - 1] == names[i];
        AlternativesComplete(s, k, names[1..], closing, i - 1);
      }
    }
  }

  /** Every match of the alternation ends just after the first `>` at or after `k`. */
  lemma AlternativesEndAtFirstGt(s: string, k: nat, names: seq<string>, closing: bool)
    requires k <= |s| && NoGt(names)
    requires Alternatives(s, k, names, closing).Some?
    ensures IndexOf(s, '>', k) == Some(Alternatives(s, k, names, closing).value - 1)
  {
    var x := Alternatives(s, k, names, closing).value;
    var i := AlternativesPick(s, k, names, closing);
    var n := names[i];
    assert n in names;
    NameHoldsNoGt(s, k, n);
    IndexOfFirst(s, '>', k, x - 1);
  }

  /** Text that spells a name without `>`, in any letter case, holds no `>`. */
  lemma NameHoldsNoGt(s: string, k: nat, n: string)
    requires k <= |s| && '>' !in n && StartsWithIgnoringCase(s[k..], n)
    ensures forall j :: k <= j < k + |n| ==> s[j] != '>'
  {
    forall j | k <= j < k + |n| ensures s[j] != '>' {
      assert s[k..][..|n|][j - k] == s[j];
      assert n[j - k] in n;
      LowerAsciiGt(s[j]);
      LowerAsciiGt(n[j - k]);
    }
  }

  /** A tag the pattern describes holds no `>` but its last character. */
  lemma TagShapeHasOneGt(names: seq<string>, t: string, closing: bool)
    requires NoGt(names)
    requires if closing then IsCloseTag(names, t) else IsOpenTag(names, t)
    ensures forall j :: 0 <= j < |t| - 1 ==> t[j] != '>'
  {
    var k := if closing then 2 else 1;
    var n :| n in names && k + |n| < |t| && EqualIgnoringCase(t[k..k + |n|], n);
    forall j | 0 <= j < |t| - 1 ensures t[j] != '>' {
      if k <= j < k + |n| {
        FoldedNameChar(t, k, n, j);
      } else if j >= k + |n| && !closing {
        assert t[k + |n|..|t| - 1][j - k - |n|] == t[j];
      } else if j < k && closing {
        assert t[..2][j] == t[j];
      }
    }
  }

  /** A letter of a name without `>`, written in any case, is not `>`. */
  lemma FoldedNameChar(t: string, k: nat, n: string, j: nat)
    requires k + |n| <= |t| && EqualIgnoringCase(t[k..k + |n|], n) && '>' !in n
    requires k <= j < k + |n|
    ensures t[j] != '>'
  {
    assert t[k..k + |n|][j - k] == t[j];
    assert n[j - k] in n;
    LowerAsciiGt(t[j]);
    LowerAsciiGt(n[j - k]);
  }

  /** A match of the opening-tag scanner is an opening tag the pattern describes. */
  lemma OpenTagMatchSound(names: seq<string>, s: string, m: nat)
    requires MatchLength(OpenTag(names), s) == Some(m)
    ensures m <= |s| && IsOpenTag(names, s[..m])
  {
    OpenMatchStarts(names, s, m);
    var i := AlternativesPick(s, 1, names, false);
    var n := names[i];
    assert AttributesEnd(s, 1 + |n|) == Some(m);
    AttributesShape(s, 1 + |n|, m);
    OpenTagIntro(names, s, m, n);
  }

  /** A match of the opening-tag scanner starts with `<` and is the alternation's. */
  lemma OpenMatchStarts(names: seq<string>, s: string, m: nat)
    requires MatchLength(OpenTag(names), s) == Some(m)
    ensures 1 <= |s| && s[0] == '<' && Alternatives(s, 1, names, false) == Some(m)
  {
  }

  /** The name of the alternation that completed the match. */
  lemma AlternativesPick(s: string, k: nat, names: seq<string>, closing: bool) returns (i: nat)
    requires k <= |s|
    requires Alternatives(s, k, names, closing).Some?
    ensures i < |names| && StartsWithIgnoringCase(s[k..], names[i])
    ensures TagEnd(s, k + |names[i]|, closing) == Alternatives(s, k, names, closing)
  {
    AlternativesWitness(s, k, names, closing);
    i :| 0 <= i < |names| && StartsWithIgnoringCase(s[k..], names[i])
         && TagEnd(s, k + |names[i]|, closing) == Alternatives(s, k, names, closing);
  }

  lemma OpenTagIntro(names: seq<string>, s: string, m: nat, n: string)
    requires n in names && 1 + |n| < m <= |s| && s[0] == '<' && s[m - 1] == '>'
    requires StartsWithIgnoringCase(s[1..], n)
    requires IsAttributes(s[1 + |n|..m - 1])
    ensures IsOpenTag(names, s[..m])
  {
    var t := s[..m];
    assert t[1..1 + |n|] == s[1..][..|n|];
    assert t[1 + |n|..|t| - 1] == s[1 + |n|..m - 1];
  }

  /** The tail the attribute scanner accepts is a `>` after attributes. */
  lemma AttributesShape(s: string, k: nat, m: nat)
    requires k <= |s| && AttributesEnd(s, k) == Some(m)
    ensures IsAttributes(s[k..m - 1])
  {
    var a := s[k..m - 1];
    if a != [] {
      assert a[0] == s[k];
      forall j | 0 <= j < |a| ensures a[j] != '>' {
        assert a[j] == s[k + j];
      }
    }
  }

  /** An opening tag the pattern describes, read off the text it starts. */
  lemma OpenTagElim(names: seq<string>, s: string, m: nat) returns (i: nat)
    requires NoGt(names)
    requires m <= |s| && IsOpenTag(names, s[..m])
    ensures i < |names| && 1 + |names[i]| < m && StartsWithIgnoringCase(s[1..], names[i])
    ensures IsAttributes(s[1 + |names[i]|..m - 1])
    ensures s[m - 1] == '>' && forall j :: 0 <= j < m - 1 ==> s[j] != '>'
  {
    var t := s[..m];
    TagShapeHasOneGt(names, t, false);
    i := OpenTagParts(names, t);
    var n := names[i];
    PrefixSlice(s, m, 1, 1 + |n|);
    PrefixSlice(s, m, 1 + |n|, m - 1);
    assert s[1..][..|n|] == s[1..1 + |n|];
    forall j | 0 <= j < m - 1 ensures s[j] != '>' { assert s[j] == t[j]; }
    assert s[m - 1] == t[m - 1];
  }

  /** The name and the attributes of an opening tag the pattern describes. */
  lemma OpenTagParts(names: seq<string>, t: string) returns (i: nat)
    requires IsOpenTag(names, t)
    ensures i < |names| && 1 + |names[i]| < |t| && EqualIgnoringCase(t[1..1 + |names[i]|], names[i])
    ensures IsAttributes(t[1 + |names[i]|..|t| - 1])
  {
    var n :| n in names && 1 + |n| < |t| && EqualIgnoringCase(t[1..1 + |n|], n)
             && IsAttributes(t[1 + |n|..|t| - 1]);
    i :| 0 <= i < |names| && names[i] == n;
  }

  /** A slice inside a prefix is the same slice of the whole text. */
  lemma PrefixSlice(s: string, m: nat, a: nat, b: nat)
    requires a <= b <= m <= |s|
    ensures s[..m][a..b] == s[a..b]
  {
  }

  /** An opening tag the pattern describes is matched by the scanner, whole. */
  lemma OpenTagMatchComplete(names: seq<string>, s: string, m: nat)
    requires NoGt(names)
    requires m <= |s| && IsOpenTag(names, s[..m])
    ensures MatchLength(OpenTag(names), s) == Some(m)
  {
    var i := OpenTagElim(names, s, m);
    var k := 1 + |names[i]|;
    var a := s[k..m - 1];
    if a != [] {
      assert s[k] == a[0];
      assert IndexOf(s, '>', k + 1) == Some(m - 1);
    }
    assert TagEnd(s, k, false).Some?;
    AlternativesComplete(s, 1, names, false, i);
    AlternativesEndAtFirstGt(s, 1, names, false);
    assert IndexOf(s, '>', 1) == Some(m - 1);
  }

  /** The opening-tag scanner matches exactly the opening tags the pattern describes. */
  lemma OpenTagMatch(names: seq<string>, s: string, m: nat)
    requires NoGt(names)
    ensures MatchLength(OpenTag(names), s) == Some(m) <==> (m <= |s| && IsOpenTag(names, s[..m]))
  {
    if MatchLength(OpenTag(names), s) == Some(m) {
      OpenTagMatchSound(names, s, m);
    }
    if m <= |s| && IsOpenTag(names, s[..m]) {
      OpenTagMatchComplete(names, s, m);
    }
  }

  /** A match of the closing-tag scanner is a closing tag the pattern describes. */
  lemma CloseTagMatchSound(names: seq<string>, s: string, m: nat)
    requires MatchLength(CloseTag(names), s) == Some(m)
    ensures m <= |s| && IsCloseTag(names, s[..m])
  {
    AlternativesWitness(s, 2, names, true);
    var i :| 0 <= i < |names| && StartsWithIgnoringCase(s[2..], names[i])
             && TagEnd(s, 2 + |names[i]|, true) == Some(m);
    CloseTagIntro(names, s, m, names[i]);
  }

  lemma CloseTagIntro(names: seq<string>, s: string, m: nat, n: string)
    requires n in names && m == 3 + |n| <= |s| && s[..2] == "</" && s[m - 1] == '>'
    requires StartsWithIgnoringCase(s[2..], n)
    ensures IsCloseTag(names, s[..m])
  {
    var t := s[..m];
    assert t[2..2 + |n|] == s[2..][..|n|];
    assert t[..2] == s[..2];
  }

  /** A closing tag the pattern describes, read off the text it starts. */
  lemma CloseTagElim(names: seq<string>, s: string, m: nat) returns (i: nat)
    requires NoGt(names)
    requires m <= |s| && IsCloseTag(names, s[..m])
    ensures i < |names| && m == 3 + |names[i]| && StartsWithIgnoringCase(s[2..], names[i])
    ensures s[..2] == "</" && s[m - 1] == '>' && forall j :: 0 <= j < m - 1 ==> s[j] != '>'
  {
    var t := s[..m];
    TagShapeHasOneGt(names, t, true);
    var n :| n in names && |t| == 3 + |n| && EqualIgnoringCase(t[2..2 + |n|], n);
    i :| 0 <= i < |names| && names[i] == n;
    assert s[2..][..|n|] == t[2..2 + |n|];
    assert s[..2] == t[..2];
    assert forall j :: 0 <= j < m ==> s[j] == t[j];
  }

  /** A closing tag the pattern describes is matched by the scanner, whole. */
  lemma CloseTagMatchComplete(names: seq<string>, s: string, m: nat)
    requires NoGt(names)
    requires m <= |s| && IsCloseTag(names, s[..m])
    ensures MatchLength(CloseTag(names), s) == Some(m)
  {
    var i := CloseTagElim(names, s, m);
    assert TagEnd(s, 2 + |names[i]|, true).Some?;
    AlternativesComplete(s, 2, names, true, i);
    AlternativesEndAtFirstGt(s, 2, names, true);
    assert IndexOf(s, '>', 2) == Some(m - 1);
  }

  /** The closing-tag scanner matches exactly the closing tags the pattern describes. */
  lemma CloseTagMatch(names: seq<string>, s: string, m: nat)
    requires NoGt(names)
    ensures MatchLength(CloseTag(names), s) == Some(m) <==> (m <= |s| && IsCloseTag(names, s[..m]))
  {
    if MatchLength(CloseTag(names), s) == Some(m) {
      CloseTagMatchSound(names, s, m);
    }
    if m <= |s| && IsCloseTag(names, s[..m]) {
      CloseTagMatchComplete(names, s, m);
    }
  }

  /** Patterns whose match cannot run past a `>`: tag patterns whose names hold
      no `>`, and literals without `>`. */
  predicate StopsAtGt(p: Pattern) {
    match p
    case OpenTag(names) => NoGt(names)
    case CloseTag(names) => NoGt(names)
    case Literal(t) => t != [] && '>' !in t
  }

  /** Whether a match starts at the front of `x` is decided within `x` when `x`
      ends with `>`: what follows cannot change it. */
  lemma MatchStopsAtGt(p: Pattern, x: string, y: string)
    requires StopsAtGt(p) && x != [] && x[|x| - 1] == '>'
    ensures MatchLength(p, x + y) == MatchLength(p, x)
  {
    match p
    case OpenTag(names) =>
      if MatchLength(p, x + y).Some? {
        OpenMatchWithinPrefix(names, x, y, MatchLength(p, x + y).value);
      } else if MatchLength(p, x).Some? {
        OpenMatchExtends(names, x, y, MatchLength(p, x).value);
      }
    case CloseTag(names) =>
      if MatchLength(p, x + y).Some? {
        CloseMatchWithinPrefix(names, x, y, MatchLength(p, x + y).value);
      } else if MatchLength(p, x).Some? {
        CloseMatchExtends(names, x, y, MatchLength(p, x).value);
      }
    case Literal(t) => LiteralStopsAtGt(t, x, y);
  }

  lemma PrefixOfConcat(x: string, y: string, m: nat)
    requires m <= |x|
    ensures (x + y)[..m] == x[..m]
  {
  }

  lemma OpenMatchWithinPrefix(names: seq<string>, x: string, y: string, m: nat)
    requires NoGt(names) && x != [] && x[|x| - 1] == '>'
    requires MatchLength(OpenTag(names), x + y) == Some(m)
    ensures MatchLength(OpenTag(names), x) == Some(m)
  {
    OpenTagMatchSound(names, x + y, m);
    var _ := OpenTagElim(names, x + y, m);
    assert (x + y)[|x| - 1] == '>';
    PrefixOfConcat(x, y, m);
    OpenTagMatchComplete(names, x, m);
  }

  lemma OpenMatchExtends(names: seq<string>, x: string, y: string, m: nat)
    requires NoGt(names)
    requires MatchLength(OpenTag(names), x) == Some(m)
    ensures MatchLength(OpenTag(names), x + y) == Some(m)
  {
    OpenTagMatchSound(names, x, m);
    PrefixOfConcat(x, y, m);
    OpenTagMatchComplete(names, x + y, m);
  }

  lemma CloseMatchWithinPrefix(names: seq<string>, x: string, y: string, m: nat)
    requires NoGt(names) && x != [] && x[|x| - 1] == '>'
    requires MatchLength(CloseTag(names), x + y) == Some(m)
    ensures MatchLength(CloseTag(names), x) == Some(m)
  {
    CloseTagMatchSound(names, x + y, m);
    var _ := CloseTagElim(names, x + y, m);
    assert (x + y)[|x| - 1] == '>';
    PrefixOfConcat(x, y, m);
    CloseTagMatchComplete(names, x, m);
  }

  lemma CloseMatchExtends(names: seq<string>, x: string, y: string, m: nat)
    requires NoGt(names)
    requires MatchLength(CloseTag(names), x) == Some(m)
    ensures MatchLength(CloseTag(names), x + y) == Some(m)
  {
    CloseTagMatchSound(names, x, m);
    PrefixOfConcat(x, y, m);
    CloseTagMatchComplete(names, x + y, m);
  }

  lemma LiteralStopsAtGt(t: string, x: string, y: string)
    requires t != [] && '>' !in t && x != [] && x[|x| - 1] == '>'
    ensures MatchLength(Literal(t), x + y) == MatchLength(Literal(t), x)
  {
    if |t| <= |x| {
      PrefixOfConcat(x, y, |t|);
    } else {
      var k := |x| - 1;
      assert t[k] in t;
      assert (x + y)[k] == '>';
      DiffersAt(x + y, t, k);
      DiffersAt(x, t, k);
    }
  }

  /** How far one step of the scan advances at the front of `s`. */
  function Advance(p: Pattern, s: string): (n: nat)
    requires WellFormed(p) && s != []
    ensures 0 < n <= |s|
  {
    match MatchLength(p, s)
    case Some(n) => n
    case None => 1
  }

  /** What one step of the scan emits at the front of `s`. */
  function Emit(p: Pattern, replacement: string, s: string): string
    requires WellFormed(p) && s != []
  {
    if MatchLength(p, s).Some? then replacement else [s[0]]
  }

  lemma ReplaceAllUnfold(p: Pattern, replacement: string, s: string)
    requires WellFormed(p) && s != []
    ensures ReplaceAll(p, replacement, s)
         == Emit(p, replacement, s) + ReplaceAll(p, replacement, s[Advance(p, s)..])
  {
  }

  /** Replacing in a text cut just after a `>` is replacing in each piece:
      no match straddles the cut. */
  lemma {:induction false} ReplaceAllSplit(p: Pattern, replacement: string, pre: string, rest: string)
    requires StopsAtGt(p)
    requires pre == [] || pre[|pre| - 1] == '>'
    ensures ReplaceAll(p, replacement, pre + rest)
         == ReplaceAll(p, replacement, pre) + ReplaceAll(p, replacement, rest)
    decreases |pre|
  {
    if pre == [] {
      assert pre + rest == rest;
    } else {
      MatchStopsAtGt(p, pre, rest);
      assert (pre + rest)[0] == pre[0];
      var n := Advance(p, pre);
      assert Advance(p, pre + rest) == n;
      assert Emit(p, replacement, pre + rest) == Emit(p, replacement, pre);
      ReplaceAllUnfold(p, replacement, pre);
      ReplaceAllUnfold(p, replacement, pre + rest);
      assert (pre + rest)[n..] == pre[n..] + rest;
      ReplaceAllSplit(p, replacement, pre[n..], rest);
      var out, a, b := Emit(p, replacement, pre), ReplaceAll(p, replacement, pre[n..]), ReplaceAll(p, replacement, rest);
      ConcatAssociative(out, a, b);
    }
  }

  /** A tag pattern on a text whose one `>` is its last character: every
      match ends at that `>`, so at most one match is replaced, and the text
      before it is kept. */
  lemma {:induction false} ReplaceAllOneGt(p: Pattern, replacement: string, s: string) returns (q: nat, hit: bool)
    requires (p.OpenTag? || p.CloseTag?) && NoGt(p.names)
    requires s != [] && s[|s| - 1] == '>' && forall j :: 0 <= j < |s| - 1 ==> s[j] != '>'
    ensures q < |s|
    ensures !hit ==> ReplaceAll(p, replacement, s) == s
    ensures hit ==> s[q] == '<' && ReplaceAll(p, replacement, s) == s[..q] + replacement
    ensures hit && q == 0 ==> MatchLength(p, s).Some?
    decreases |s|
  {
    match MatchLength(p, s)
    case Some(n) =>
      if p.OpenTag? {
        OpenTagMatchSound(p.names, s, n);
      } else {
        CloseTagMatchSound(p.names, s, n);
      }
      assert s[..n][n - 1] == s[n - 1];
      assert n == |s|;
      q, hit := 0, true;
    case None =>
      ReplaceAllNoMatchStep(p, replacement, s);
      if |s| == 1 {
        q, hit := 0, false;
      } else {
        var q', hit' := ReplaceAllOneGt(p, replacement, s[1..]);
        q, hit := q' + 1, hit';
        if hit {
          assert s[..q] == [s[0]] + s[1..][..q'];
        }
      }
  }

  /** A text that ends with `>` still ends with `>` after the replacement, when
      the replacement text does. */
  lemma {:induction false} ReplaceAllKeepsFinalGt(p: Pattern, replacement: string, s: string)
    requires StopsAtGt(p) && s != [] && s[|s| - 1] == '>'
    requires p.Literal? || (replacement != [] && replacement[|replacement| - 1] == '>')
    ensures var r := ReplaceAll(p, replacement, s); r != [] && r[|r| - 1] == '>'
    decreases |s|
  {
    match MatchLength(p, s)
    case Some(n) =>
      if n < |s| {
        ReplaceAllKeepsFinalGt(p, replacement, s[n..]);
      }
    case None =>
      if 1 < |s| {
        ReplaceAllKeepsFinalGt(p, replacement, s[1..]);
      }
  }

  /** A text in which no match starts is left as it is. */
  lemma {:induction false} ReplaceAllWithoutMatch(p: Pattern, replacement: string, s: string)
    requires WellFormed(p)
    requires forall i :: 0 <= i < |s| ==> MatchLength(p, s[i..]).None?
    ensures ReplaceAll(p, replacement, s) == s
    decreases |s|
  {
    if s != [] {
      assert s[0..] == s;
      forall i | 0 <= i < |s[1..]| ensures MatchLength(p, s[1..][i..]).None? {
        assert s[1..][i..] == s[i + 1..];
      }
      ReplaceAllWithoutMatch(p, replacement, s[1..]);
    }
  }

  /** A text without `<` is left as it is by a tag pattern, and a prefix without
      `<` passes through unchanged. */
  lemma {:induction false} ReplaceAllSkipsPlainText(p: Pattern, replacement: string, pre: string, rest: string)
    requires (p.OpenTag? || p.CloseTag?) && '<' !in pre
    ensures ReplaceAll(p, replacement, pre + rest) == pre + ReplaceAll(p, replacement, rest)
    decreases |pre|
  {
    if pre == [] {
      assert pre + rest == rest;
    } else {
      var s := pre + rest;
      assert pre[0] in pre;
      TagMissesPlainChar(p, s);
      ReplaceAllNoMatchStep(p, replacement, s);
      assert s[1..] == pre[1..] + rest;
      ReplaceAllSkipsPlainText(p, replacement, pre[1..], rest);
      assert [s[0]] + pre[1..] == pre;
    }
  }

  /** Where no match starts, the scan copies one character and moves on. */
  lemma ReplaceAllNoMatchStep(p: Pattern, replacement: string, s: string)
    requires WellFormed(p) && s != [] && MatchLength(p, s).None?
    ensures ReplaceAll(p, replacement, s) == [s[0]] + ReplaceAll(p, replacement, s[1..])
  {
  }

  /** A tag pattern does not match where the text does not start with `<`. */
  lemma TagMissesPlainChar(p: Pattern, s: string)
    requires (p.OpenTag? || p.CloseTag?) && s != [] && s[0] != '<'
    ensures MatchLength(p, s).None?
  {
  }

  /** A match at the front is replaced and the scan goes on after it. */
  lemma ReplaceAllAtMatch(p: Pattern, replacement: string, m: string, rest: string)
    requires WellFormed(p) && MatchLength(p, m + rest) == Some(|m|)
    ensures ReplaceAll(p, replacement, m + rest) == replacement + ReplaceAll(p, replacement, rest)
  {
    assert (m + rest)[|m|..] == rest;
  }

  /** A literal pattern leaves a text without an occurrence of it unchanged. */
  lemma LiteralAbsentUnchanged(t: string, replacement: string, s: string)
    requires t != [] && !Contains(s, t)
    ensures ReplaceAll(Literal(t), replacement, s) == s
  {
    forall i | 0 <= i < |s| ensures MatchLength(Literal(t), s[i..]).None? {
      if StartsWith(s[i..], t) {
        assert s[i..][..|t|] == s[i..i + |t|];
        assert OccursAt(s, t, i);
      }
    }
    ReplaceAllWithoutMatch(Literal(t), replacement, s);
  }

  /** No name of the alternation starts with the letter at `k`, in any case. */
  predicate FirstLetterDiffers(s: string, k: nat, names: seq<string>)
    requires k < |s|
  {
    forall i :: 0 <= i < |names| ==> names[i] != [] && LowerAscii(names[i][0]) != LowerAscii(s[k])
  }

  /** The alternation fails when no name starts with the letter at `k`. */
  lemma {:induction false} AlternativesNone(s: string, k: nat, names: seq<string>, closing: bool)
    requires k < |s| && FirstLetterDiffers(s, k, names)
    ensures Alternatives(s, k, names, closing).None?
    decreases |names|
  {
    if names != [] {
      var n := names[0];
      assert |n| <= |s[k..]| ==> s[k..][..|n|][0] == s[k];
      assert !StartsWithIgnoringCase(s[k..], n);
      AlternativesNone(s, k, names[1..], closing);
    }
  }

  /** A text with one `<`, at its front, where no tag of the pattern starts, is
      left as it is by a tag pattern. */
  lemma TagPatternKeeps(p: Pattern, replacement: string, s: string)
    requires (p.OpenTag? || p.CloseTag?) && s != [] && '<' !in s[1..]
    requires MatchLength(p, s).None?
    ensures ReplaceAll(p, replacement, s) == s
  {
    ReplaceAllSkipsPlainText(p, replacement, s[1..], []);
    assert s[1..] + [] == s[1..];
  }

  /** An opening-tag pattern leaves a lone tag alone when no name starts with
      its first letter. */
  lemma OpenTagKeeps(names: seq<string>, replacement: string, s: string)
    requires 2 <= |s| && '<' !in s[1..] && FirstLetterDiffers(s, 1, names)
    ensures ReplaceAll(OpenTag(names), replacement, s) == s
  {
    AlternativesNone(s, 1, names, false);
    TagPatternKeeps(OpenTag(names), replacement, s);
  }

  /** A closing-tag pattern leaves alone a lone tag that is not a closing tag,
      or whose name starts with a letter no name starts with. */
  lemma CloseTagKeeps(names: seq<string>, replacement: string, s: string)
    requires 2 <= |s| && '<' !in s[1..]
    requires s[1] != '/' || (3 <= |s| && FirstLetterDiffers(s, 2, names))
    ensures ReplaceAll(CloseTag(names), replacement, s) == s
  {
    if s[1] == '/' {
      AlternativesNone(s, 2, names, true);
    } else {
      assert !StartsWith(s, "</");
    }
    TagPatternKeeps(CloseTag(names), replacement, s);
  }

  /** A literal pattern leaves a text without the literal's first character as it is. */
  lemma LiteralFirstCharAbsent(t: string, replacement: string, s: string)
    requires t != [] && t[0] !in s
    ensures ReplaceAll(Literal(t), replacement, s) == s
  {
    forall i | 0 <= i < |s| ensures MatchLength(Literal(t), s[i..]).None? {
      assert s[i] in s;
      assert |t| <= |s[i..]| ==> s[i..][..|t|][0] == s[i];
    }
    ReplaceAllWithoutMatch(Literal(t), replacement, s);
  }

  /** A lone whole match is replaced by the replacement alone. */
  lemma ReplaceAllWhole(p: Pattern, replacement: string, m: string)
    requires WellFormed(p) && MatchLength(p, m) == Some(|m|)
    ensures ReplaceAll(p, replacement, m) == replacement
  {
    assert m + [] == m;
    ReplaceAllAtMatch(p, replacement, m, []);
    assert replacement + [] == replacement;
  }

  /** A lower-case name of letters and digits: what the alternations of the
      repair chain list. */
  predicate IsLowerWord(n: string) {
    n != [] && forall c :: c in n ==> 'a' <= c <= 'z' || '0' <= c <= '9'
  }

  /** The name `n` follows index `k`, in any letter case, and is followed by a
      space or `>`: the only way a tag pattern can complete a name. */
  predicate NameEndsAt(s: string, k: nat, n: string) {
    k <= |s| && StartsWithIgnoringCase(s[k..], n) && k + |n| < |s| && (s[k + |n|] == ' ' || s[k + |n|] == '>')
  }

  /** A match of a tag pattern completes one of its names. */
  lemma MatchEndsName(p: Pattern, s: string)
    requires p.OpenTag? || p.CloseTag?
    ensures MatchLength(p, s).Some? ==>
      exists i :: 0 <= i < |p.names| && NameEndsAt(s, if p.OpenTag? then 1 else 2, p.names[i])
  {
    if MatchLength(p, s).Some? {
      var k := if p.OpenTag? then 1 else 2;
      AlternativesWitness(s, k, p.names, p.CloseTag?);
      var i :| 0 <= i < |p.names| && StartsWithIgnoringCase(s[k..], p.names[i])
               && TagEnd(s, k + |p.names[i]|, p.CloseTag?) == Alternatives(s, k, p.names, p.CloseTag?);
      assert NameEndsAt(s, k, p.names[i]);
    }
  }

  /** Where one lower-case name ends, no other lower-case name ends: the two
      would have to agree letter for letter, and a space or `>` is neither a
      letter nor a digit. */
  lemma NameEndsUnique(s: string, k: nat, a: string, b: string)
    requires IsLowerWord(a) && IsLowerWord(b) && a != b
    requires NameEndsAt(s, k, b)
    ensures !NameEndsAt(s, k, a)
  {
    forall j | 0 <= j < |b| ensures LowerAscii(s[k + j]) == b[j] {
      assert s[k..][..|b|][j] == s[k + j];
      assert b[j] in b;
    }
    if |a| < |b| {
      assert b[|a|] in b;
      assert LowerAscii(s[k + |a|]) == b[|a|];
    } else if |a| > |b| {
      assert a[|b|] in a;
      assert |a| <= |s[k..]| ==> s[k..][..|a|][|b|] == s[k + |b|];
    } else {
      var j :| 0 <= j < |a| && a[j] != b[j];
      assert a[j] in a;
      assert |a| <= |s[k..]| ==> s[k..][..|a|][j] == s[k + j];
    }
  }

  /** Two alternations with no name in common never match at the same place. */
  lemma DisjointNames(p: Pattern, s: string, q: Pattern, i: nat)
    requires (p.OpenTag? && q.OpenTag?) || (p.CloseTag? && q.CloseTag?)
    requires forall n :: n in p.names ==> IsLowerWord(n) && n !in q.names
    requires i < |q.names| && IsLowerWord(q.names[i])
    requires NameEndsAt(s, if q.OpenTag? then 1 else 2, q.names[i])
    ensures MatchLength(p, s).None?
  {
    var k := if q.OpenTag? then 1 else 2;
    forall j | 0 <= j < |p.names| ensures !NameEndsAt(s, k, p.names[j]) {
      assert p.names[j] in p.names;
      NameEndsUnique(s, k, p.names[j], q.names[i]);
    }
    MatchEndsName(p, s);
  }

  /** An opening tag the pattern describes completes one of its names. */
  lemma OpenTagEndsName(names: seq<string>, t: string) returns (i: nat)
    requires NoGt(names) && IsOpenTag(names, t)
    ensures i < |names| && NameEndsAt(t, 1, names[i])
  {
    assert t[..|t|] == t;
    i := OpenTagElim(names, t, |t|);
    var a := t[1 + |names[i]|..|t| - 1];
    if a != [] {
      assert t[1 + |names[i]|] == a[0];
    }
  }

  /** A closing tag the pattern describes completes one of its names. */
  lemma CloseTagEndsName(names: seq<string>, t: string) returns (i: nat)
    requires NoGt(names) && IsCloseTag(names, t)
    ensures i < |names| && NameEndsAt(t, 2, names[i]) && |t| == 3 + |names[i]|
  {
    assert t[..|t|] == t;
    i := CloseTagElim(names, t, |t|);
  }

  /** A prefix without the literal's first character passes through a literal pattern unchanged. */
  lemma {:induction false} LiteralSkipsText(t: string, replacement: string, pre: string, rest: string)
    requires t != [] && t[0] !in pre
    ensures ReplaceAll(Literal(t), replacement, pre + rest) == pre + ReplaceAll(Literal(t), replacement, rest)
    decreases |pre|
  {
    if pre == [] {
      assert pre + rest == rest;
    } else {
      assert (pre + rest)[0] == pre[0];
      assert pre[0] in pre;
      assert |t| <= |pre + rest| ==> (pre + rest)[..|t|][0] == pre[0];
      assert (pre + rest)[1..] == pre[1..] + rest;
      LiteralSkipsText(t, replacement, pre[1..], rest);
    }
  }

  /** A literal that does not start the text, whose first character appears
      nowhere else in it, leaves the text as it is. */
  lemma LiteralMissesFront(t: string, replacement: string, s: string)
    requires t != [] && s != [] && !StartsWith(s, t) && t[0] !in s[1..]
    ensures ReplaceAll(Literal(t), replacement, s) == s
  {
    LiteralFirstCharAbsent(t, replacement, s[1..]);
    assert [s[0]] + s[1..] == s;
  }

  /** One occurrence of a literal, between texts without its first character,
      is the one thing a literal pattern replaces. */
  lemma LiteralInContext(t: string, replacement: string, pre: string, post: string)
    requires t != [] && t[0] !in pre && t[0] !in post
    ensures ReplaceAll(Literal(t), replacement, pre + t + post) == pre + replacement + post
  {
    assert pre + t + post == pre + (t + post);
    LiteralSkipsText(t, replacement, pre, t + post);
    assert (t + post)[..|t|] == t;
    ReplaceAllAtMatch(Literal(t), replacement, t, post);
    LiteralFirstCharAbsent(t, replacement, post);
  }

  /** A literal pattern leaves `pre + m + post` alone when `m` does not start
      an occurrence and its first character appears nowhere else. */
  lemma LiteralMissInContext(t: string, replacement: string, pre: string, m: string, post: string)
    requires t != [] && m != [] && t[0] !in pre && t[0] !in m[1..] && t[0] !in post
    requires !StartsWith(m + post, t)
    ensures ReplaceAll(Literal(t), replacement, pre + m + post) == pre + m + post
  {
    assert pre + m + post == pre + (m + post);
    LiteralSkipsText(t, replacement, pre, m + post);
    assert (m + post)[1..] == m[1..] + post;
    LiteralMissesFront(t, replacement, m + post);
  }

  /** A literal that does not match at the front of `m + post`, when `m`
      holds its first character only at its own front, leaves `m` as it is. */
  lemma LiteralMissPrefix(t: string, replacement: string, m: string, post: string)
    requires t != [] && m != [] && t[0] !in m[1..] && !StartsWith(m + post, t)
    ensures ReplaceAll(Literal(t), replacement, m + post) == m + ReplaceAll(Literal(t), replacement, post)
  {
    var s := m + post;
    ReplaceAllNoMatchStep(Literal(t), replacement, s);
    assert s[1..] == m[1..] + post;
    LiteralSkipsText(t, replacement, m[1..], post);
    ConcatAssociative([s[0]], m[1..], ReplaceAll(Literal(t), replacement, post));
    assert [s[0]] + m[1..] == m;
  }

  /** An opening tag assembled from a name of the alternation, in any letter
      case, and attributes. */
  lemma OpenTagBuilt(names: seq<string>, i: nat, name: string, attributes: string)
    requires i < |names| && EqualIgnoringCase(name, names[i]) && IsAttributes(attributes)
    ensures IsOpenTag(names, "<" + name + attributes + ">")
  {
    var t := "<" + name + attributes + ">";
    assert t[1..1 + |name|] == name;
    assert t[1 + |name|..|t| - 1] == attributes;
    assert names[i] in names;
  }

  /** A closing tag assembled from a name of the alternation, in any letter case. */
  lemma CloseTagBuilt(names: seq<string>, i: nat, name: string)
    requires i < |names| && EqualIgnoringCase(name, names[i])
    ensures IsCloseTag(names, "</" + name + ">")
  {
    var t := "</" + name + ">";
    assert t[2..2 + |name|] == name;
    assert t[..2] == "</";
    assert names[i] in names;
  }

  /** The letters of a lower-case name, in any case, are none of `<`, `/` and `>`. */
  lemma NameChars(s: string, k: nat, n: string)
    requires IsLowerWord(n) && NameEndsAt(s, k, n)
    ensures forall j :: k <= j < k + |n| ==> s[j] != '<' && s[j] != '/' && s[j] != '>'
  {
    forall j | k <= j < k + |n| ensures s[j] != '<' && s[j] != '/' && s[j] != '>' {
      assert s[k..][..|n|][j - k] == s[j];
      assert n[j - k] in n;
    }
  }

  /** A literal match that starts in `pre` stays inside it when the first
      character of `rest` occurs in the literal at most at its front. */
  lemma MatchStaysInside(t: string, pre: string, rest: string)
    requires t != [] && pre != [] && (rest == [] || rest[0] !in t[1..])
    requires StartsWith(pre + rest, t)
    ensures StartsWith(pre, t)
  {
    var s := pre + rest;
    MatchPastPre(t, pre, rest);
    assert s[..|t|] == pre[..|t|];
  }

  /** A match that starts in `pre` and runs past it holds the first
      character of `rest` after its own front. */
  lemma MatchPastPre(t: string, pre: string, rest: string)
    requires pre != [] && StartsWith(pre + rest, t)
    ensures |pre| < |t| ==> rest != [] && rest[0] in t[1..]
  {
    var s := pre + rest;
    if |pre| < |t| {
      assert s[..|t|][|pre|] == s[|pre|];
      assert t[1..][|pre| - 1] == rest[0];
    }
  }

  /** A text that starts with `t` still does with more after it. */
  lemma StartsWithConcat(pre: string, rest: string, t: string)
    ensures StartsWith(pre, t) ==> StartsWith(pre + rest, t)
  {
    if StartsWith(pre, t) {
      assert (pre + rest)[..|t|] == pre[..|t|];
    }
  }

  /** A literal pattern works separately on a text and on what follows it,
      when what follows starts with a character the literal holds at most at
      its front: no occurrence straddles the cut. */
  lemma {:induction false} LiteralSplit(t: string, replacement: string, pre: string, rest: string)
    requires t != [] && (rest == [] || rest[0] !in t[1..])
    ensures ReplaceAll(Literal(t), replacement, pre + rest)
         == ReplaceAll(Literal(t), replacement, pre) + ReplaceAll(Literal(t), replacement, rest)
    decreases |pre|
  {
    var p := Literal(t);
    if pre == [] {
      assert pre + rest == rest;
    } else {
      var s := pre + rest;
      StartsWithConcat(pre, rest, t);
      if StartsWith(s, t) {
        MatchStaysInside(t, pre, rest);
      }
      var n := Advance(p, pre);
      assert Advance(p, s) == n && Emit(p, replacement, s) == Emit(p, replacement, pre);
      ReplaceAllUnfold(p, replacement, s);
      ReplaceAllUnfold(p, replacement, pre);
      assert s[n..] == pre[n..] + rest;
      LiteralSplit(t, replacement, pre[n..], rest);
      ConcatAssociative(Emit(p, replacement, pre), ReplaceAll(p, replacement, pre[n..]), ReplaceAll(p, replacement, rest));
    }
  }

  /** A character that is neither in the text nor in the replacement is not
      in the result. */
  lemma {:induction false} ReplaceAllKeepsCharFree(p: Pattern, replacement: string, s: string, c: char)
    requires WellFormed(p) && c !in s && c !in replacement
    ensures c !in ReplaceAll(p, replacement, s)
    decreases |s|
  {
    if s != [] {
      var n := Advance(p, s);
      ReplaceAllUnfold(p, replacement, s);
      assert forall x :: x in s[n..] ==> x in s;
      ReplaceAllKeepsCharFree(p, replacement, s[n..], c);
    }
  }

  /** Up to the first character the replacement starts with, the result is a
      copy of the text: every replacement written starts with that character. */
  lemma {:induction false} CopiedUntilMark(p: Pattern, replacement: string, s: string, k: nat)
    requires WellFormed(p) && replacement != []
    requires k <= |ReplaceAll(p, replacement, s)|
    requires replacement[0] !in ReplaceAll(p, replacement, s)[..k]
    ensures k <= |s| && s[..k] == ReplaceAll(p, replacement, s)[..k]
    decreases |s|
  {
    if k > 0 {
      var out := ReplaceAll(p, replacement, s);
      ReplaceAllUnfold(p, replacement, s);
      assert out[..k][0] == out[0];
      if MatchLength(p, s).Some? {
        assert false;
      }
      var x := ReplaceAll(p, replacement, s[1..]);
      assert out == [s[0]] + x;
      assert x[..k - 1] == out[..k][1..];
      CopiedUntilMark(p, replacement, s[1..], k - 1);
      assert s[..k] == [s[0]] + s[1..][..k - 1];
    }
  }

  /** An occurrence in a suffix is an occurrence in the whole. */
  lemma ContainsSuffix(s: string, n: nat, u: string)
    requires n <= |s| && Contains(s[n..], u)
    ensures Contains(s, u)
  {
    var i :| 0 <= i <= |s[n..]| && OccursAt(s[n..], u, i);
    assert s[n..][i..i + |u|] == s[n + i..n + i + |u|];
    assert OccursAt(s, u, n + i);
  }

  /** A global literal replacement leaves no occurrence of `u` behind, when
      `u` is the literal itself or did not occur before, and `u` and the
      replacement share their first character and nothing else of the kind:
      `u` holds it only at its front, the replacement only at its front, and
      the replacement does not start with `u`. */
  lemma {:induction false} ReplaceAllAvoids(t: string, replacement: string, s: string, u: string)
    requires t != [] && u != [] && replacement != [] && replacement[0] == u[0]
    requires u[0] !in u[1..] && u[0] !in replacement[1..]
    requires |u| <= |replacement| && !StartsWith(replacement, u)
    requires u == t || !Contains(s, u)
    ensures !Contains(ReplaceAll(Literal(t), replacement, s), u)
    decreases |s|
  {
    var p := Literal(t);
    var out := ReplaceAll(p, replacement, s);
    if s != [] {
      var n, e := Advance(p, s), Emit(p, replacement, s);
      var x := ReplaceAll(p, replacement, s[n..]);
      ReplaceAllUnfold(p, replacement, s);
      if u != t && Contains(s[n..], u) {
        ContainsSuffix(s, n, u);
      }
      ReplaceAllAvoids(t, replacement, s[n..], u);
      forall i | 0 <= i <= |out| ensures !OccursAt(out, u, i) {
        if |e| <= i {
          OccursInTail(e, x, u, i);
        } else if e == replacement {
          NotInReplacement(replacement, x, u, i);
        } else {
          FrontOccurrence(t, replacement, s, u);
        }
      }
    }
  }

  /** An occurrence past the front piece is one in the rest. */
  lemma OccursInTail(e: string, x: string, u: string, i: nat)
    requires |e| <= i
    ensures OccursAt(e + x, u, i) ==> OccursAt(x, u, i - |e|)
  {
    if OccursAt(e + x, u, i) {
      assert (e + x)[i..i + |u|] == x[i - |e|..i - |e| + |u|];
    }
  }

  /** An occurrence of a non-empty text starts with its first character. */
  lemma OccursFirstChar(s: string, u: string, i: nat)
    requires u != []
    ensures OccursAt(s, u, i) ==> s[i] == u[0]
  {
    if OccursAt(s, u, i) {
      assert s[i..i + |u|][0] == s[i];
    }
  }

  /** No occurrence of `u` starts inside a replacement that holds `u`'s
      first character only at its front and does not start with `u`. */
  lemma NotInReplacement(replacement: string, x: string, u: string, i: nat)
    requires u != [] && replacement != [] && replacement[0] == u[0]
    requires u[0] !in replacement[1..]
    requires |u| <= |replacement| && !StartsWith(replacement, u)
    requires i < |replacement|
    ensures !OccursAt(replacement + x, u, i)
  {
    var out := replacement + x;
    if i == 0 {
      assert out[..|u|] == replacement[..|u|];
      assert out[0..|u|] == out[..|u|];
    } else {
      OccursFirstChar(out, u, i);
      assert replacement[1..][i - 1] == out[i];
    }
  }

  /** Where no match starts, an occurrence of `u` at the front of the result
      is one at the front of the text. */
  lemma FrontOccurrence(t: string, replacement: string, s: string, u: string)
    requires t != [] && u != [] && replacement != [] && replacement[0] == u[0]
    requires u[0] !in u[1..]
    requires s != [] && MatchLength(Literal(t), s).None?
    ensures OccursAt(ReplaceAll(Literal(t), replacement, s), u, 0) ==> u != t && OccursAt(s, u, 0)
  {
    var p := Literal(t);
    var out := ReplaceAll(p, replacement, s);
    if OccursAt(out, u, 0) {
      var x := ReplaceAll(p, replacement, s[1..]);
      ReplaceAllNoMatchStep(p, replacement, s);
      assert out == [s[0]] + x;
      assert out[..|u|] == out[0..|u|] == u;
      assert x[..|u| - 1] == u[1..];
      CopiedUntilMark(p, replacement, s[1..], |u| - 1);
      assert s[..|u|] == [s[0]] + s[1..][..|u| - 1];
      assert s[0..|u|] == s[..|u|];
    }
  }
}
