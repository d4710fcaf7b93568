/** `validateJSX`: the component whitelist. Every `<` followed by an upper-case
    letter must open a registry component, and no lower-case HTML tag of a
    short list may appear. */
module Validator {

  import opened Wrappers
  import opened Text
  import Schema

  /** `allowedComponents`: the registry names and, last, the empty string the
      source adds for the fragment shorthand. */
  function AllowedComponents(): seq<string> {
    Schema.RegistryNames() + [""]
  }

  /** The tag pattern /<([A-Z][a-zA-Z0-9]*)/ matches at `i`. */
  predicate TagStartAt(s: string, i: nat) {
    i + 1 < |s| && s[i] == '<' && IsUpperAscii(s[i + 1])
  }

  /** The end of the run of identifier characters starting at `j`. */
  function IdentEnd(s: string, j: nat): (k: nat)
    requires j <= |s|
    ensures j <= k <= |s|
    ensures forall m :: j <= m < k ==> IsIdentChar(s[m])
    ensures k == |s| || !IsIdentChar(s[k])
    decreases |s| - j
  {
    if j < |s| && IsIdentChar(s[j]) then IdentEnd(s, j + 1) else j
  }

  /** The captured tag name of a match at `i`. */
  function TagNameAt(s: string, i: nat): (name: string)
    requires TagStartAt(s, i)
    ensures 1 <= |name| && IsUpperAscii(name[0])
    ensures forall m :: 0 <= m < |name| ==> IsIdentChar(name[m])
  {
    s[i + 1..IdentEnd(s, i + 1)]
  }

  /** A match at `i` whose name the whitelist `allowed` lacks. */
  predicate NotAllowedAt(s: string, i: nat, allowed: seq<string>) {
    TagStartAt(s, i) && TagNameAt(s, i) !in allowed
  }

  /** A match at `i` whose name `allowedComponents` lacks. */
  predicate UnauthorizedAt(s: string, i: nat) {
    NotAllowedAt(s, i, AllowedComponents())
  }

  /** The `exec` loop from position `from`: each match moves `lastIndex` to the
      end of its name, and the first unauthorized name stops the loop. */
  function ScanTags(s: string, from: nat, allowed: seq<string>): (r: Option<nat>)
    requires from <= |s|
    ensures r.Some? ==> from <= r.value < |s| && NotAllowedAt(s, r.value, allowed)
    ensures r.Some? ==> forall j :: from <= j < r.value ==> !NotAllowedAt(s, j, allowed)
    ensures r.None? ==> forall j :: from <= j < |s| ==> !NotAllowedAt(s, j, allowed)
    decreases |s| - from
  {
    if from == |s| then None
    else if TagStartAt(s, from) then
      if TagNameAt(s, from) !in allowed then Some(from)
      else
        var next := IdentEnd(s, from + 1);
        assert forall j :: from < j < next ==> !TagStartAt(s, j) by {
          forall j | from < j < next ensures !TagStartAt(s, j) { assert IsIdentChar(s[j]); }
        }
        ScanTags(s, next, allowed)
    else ScanTags(s, from + 1, allowed)
  }

  /** The tag names of /<(?:div|p|span|button|a|img|script)(?=\s|>|\/)/. */
  const RawTags: seq<string> := ["div", "p", "span", "button", "a", "img", "script"]

  /** What the lookahead accepts after a raw tag name. */
  predicate IsRawFollower(c: char) {
    IsSpace(c) || c == '>' || c == '/'
  }

  /** Raw tag name `n` sits right after index `i`, and the lookahead holds. */
  predicate RawNameAt(s: string, i: nat, n: string) {
    i + 1 + |n| < |s| && s[i + 1..i + 1 + |n|] == n && IsRawFollower(s[i + 1 + |n|])
  }

  /** The raw-HTML pattern matches at `i`: the alternation backtracks, so any
      of the names will do. Matching is case-sensitive. */
  predicate RawTagAt(s: string, i: nat) {
    i < |s| && s[i] == '<' && exists j :: 0 <= j < |RawTags| && RawNameAt(s, i, RawTags[j])
  }

  function RawNameFrom(s: string, i: nat, j: nat): (b: bool)
    requires j <= |RawTags|
    ensures b <==> exists k :: j <= k < |RawTags| && RawNameAt(s, i, RawTags[k])
    decreases |RawTags| - j
  {
    if j == |RawTags| then false
    else RawNameAt(s, i, RawTags[j]) || RawNameFrom(s, i, j + 1)
  }

  /** `code.match(rawPattern)`: whether the raw-HTML pattern matches at or after `from`. */
  function FindRawTag(s: string, from: nat): (found: bool)
    requires from <= |s|
    ensures found <==> exists i :: from <= i < |s| && RawTagAt(s, i)
    decreases |s| - from
  {
    if from == |s| then false
    else
      var here := s[from] == '<' && RawNameFrom(s, from, 0);
      assert here <==> RawTagAt(s, from);
      here || FindRawTag(s, from + 1)
  }

  /** The prompt text and the whitelist come from one registry value: the
      prompt text serializes it, and a name is on the whitelist exactly when
      some entry of the registry carries it, the fragment entry aside. */
  lemma OneRegistry(stringify: seq<Schema.ComponentSpec> -> string, n: string)
    ensures Schema.SchemaPromptText(stringify) == stringify(Schema.ComponentSchema)
    ensures n != [] ==>
      (n in AllowedComponents() <==> exists i :: 0 <= i < |Schema.ComponentSchema| && Schema.ComponentSchema[i].name == n)
  {
    if n in Schema.RegistryNames() {
      var i :| 0 <= i < |Schema.RegistryNames()| && Schema.RegistryNames()[i] == n;
      assert Schema.ComponentSchema[i].name == n;
    }
  }

  /** The verdict `validateJSX` returns; `error` is absent on success. */
  datatype Verdict = Verdict(isValid: bool, error: Option<string>)

  function UnauthorizedMessage(tag: string): string {
    "Security Check Failed: The AI attempted to use an unauthorized tag: <" + tag + ">. Only "
    + Join(AllowedComponents(), ", ") + " are allowed."
  }

  const RawHtmlMessage := "Security Check Failed: The AI attempted to use raw HTML tags (div, p, etc). Visual consistency must be maintained."

  /** Every upper-case tag in `s` names a registry component. */
  predicate Whitelisted(s: string) {
    forall i :: 0 <= i < |s| && TagStartAt(s, i) ==> TagNameAt(s, i) in Schema.RegistryNames()
  }

  /** Some lower-case tag of the raw list appears in `s`. */
  predicate HasRawTag(s: string) {
    exists i :: 0 <= i < |s| && RawTagAt(s, i)
  }

  /** `s` passes both checks. */
  predicate Passes(s: string) {
    Whitelisted(s) && !HasRawTag(s)
  }

  /** `i` is the first unauthorized tag of `s`. */
  predicate FirstUnauthorized(s: string, i: nat) {
    i < |s| && UnauthorizedAt(s, i) && forall j :: 0 <= j < i ==> !UnauthorizedAt(s, j)
  }

  /** A scanned name is never empty, so the empty whitelist entry never
      matches and the whitelist is the registry. */
  lemma AllowedMeansRegistered(s: string, i: nat)
    requires TagStartAt(s, i)
    ensures TagNameAt(s, i) in AllowedComponents() <==> TagNameAt(s, i) in Schema.RegistryNames()
  {
  }

  lemma WhitelistedIff(s: string)
    ensures Whitelisted(s) <==> forall i :: 0 <= i < |s| ==> !UnauthorizedAt(s, i)
  {
    if Whitelisted(s) {
      forall i | 0 <= i < |s| ensures !UnauthorizedAt(s, i) {
        if TagStartAt(s, i) { AllowedMeansRegistered(s, i); }
      }
    }
    if forall i :: 0 <= i < |s| ==> !UnauthorizedAt(s, i) {
      forall i | 0 <= i < |s| && TagStartAt(s, i) ensures TagNameAt(s, i) in Schema.RegistryNames() {
        AllowedMeansRegistered(s, i);
        assert !UnauthorizedAt(s, i);
      }
    }
  }

  /** The scan reports the first unauthorized tag, and reports none exactly
      when the text is whitelisted. */
  lemma ScanFindsFirst(s: string)
    ensures ScanTags(s, 0, AllowedComponents()).None? <==> Whitelisted(s)
    ensures ScanTags(s, 0, AllowedComponents()).Some? ==> FirstUnauthorized(s, ScanTags(s, 0, AllowedComponents()).value)
  {
    WhitelistedIff(s);
  }

  /** There is at most one first unauthorized tag. */
  lemma FirstUnauthorizedUnique(s: string, i: nat, j: nat)
    requires FirstUnauthorized(s, i) && FirstUnauthorized(s, j)
    ensures i == j
  {
  }

  /** `validateJSX`. */
  function ValidateJsx(code: string): (v: Verdict)
    ensures v.isValid <==> v.error.None?
    ensures v.isValid <==> Passes(code)
    ensures forall i :: FirstUnauthorized(code, i) ==> v.error == Some(UnauthorizedMessage(TagNameAt(code, i)))
    ensures Whitelisted(code) && HasRawTag(code) ==> v.error == Some(RawHtmlMessage)
    ensures v.error.Some? ==> v.error.value != []
  {
    ScanFindsFirst(code);
    match ScanTags(code, 0, AllowedComponents())
    case Some(i) =>
      assert forall j :: FirstUnauthorized(code, j) ==> j == i by {
        forall j | FirstUnauthorized(code, j) ensures j == i { FirstUnauthorizedUnique(code, i, j); }
      }
      Verdict(false, Some(UnauthorizedMessage(TagNameAt(code, i))))
    case None =>
      if FindRawTag(code, 0) then Verdict(false, Some(RawHtmlMessage)) else Verdict(true, None)
  }

  /** Identifier runs are read to their end. */
  lemma {:induction false} IdentEndAt(s: string, j: nat, k: nat)
    requires j <= k <= |s|
    requires forall m :: j <= m < k ==> IsIdentChar(s[m])
    requires k == |s| || !IsIdentChar(s[k])
    ensures IdentEnd(s, j) == k
    decreases k - j
  {
    if j < k { IdentEndAt(s, j + 1, k); }
  }

  /** A tag of `a` keeps its name when text starting with `<` follows. */
  lemma TagNameLeft(a: string, b: string, i: nat)
    requires TagStartAt(a, i) && b != [] && b[0] == '<'
    ensures TagStartAt(a + b, i) && TagNameAt(a + b, i) == TagNameAt(a, i)
  {
    var k := IdentEnd(a, i + 1);
    IdentEndAt(a + b, i + 1, k);
    assert (a + b)[i + 1..k] == a[i + 1..k];
  }

  /** A tag of `b` keeps its name behind any text. */
  lemma TagNameRight(a: string, b: string, i: nat)
    requires TagStartAt(b, i)
    ensures TagStartAt(a + b, |a| + i) && TagNameAt(a + b, |a| + i) == TagNameAt(b, i)
  {
    var k := IdentEnd(b, i + 1);
    IdentEndAt(a + b, |a| + i + 1, |a| + k);
    assert (a + b)[|a| + i + 1..|a| + k] == b[i + 1..k];
  }

  lemma RawTagsLower()
    ensures forall j, d :: 0 <= j < |RawTags| && 0 <= d < |RawTags[j]| ==> 'a' <= RawTags[j][d] <= 'z'
  {
  }

  lemma RawNameInside(a: string, b: string, i: nat, n: string)
    requires b != [] && b[0] == '<' && i < |a| && RawNameAt(a + b, i, n)
    requires forall d :: 0 <= d < |n| ==> 'a' <= n[d] <= 'z'
    ensures RawNameAt(a, i, n)
  {
    assert forall m :: i + 1 <= m < i + 1 + |n| ==> 'a' <= (a + b)[m] <= 'z' by {
      forall m | i + 1 <= m < i + 1 + |n| ensures 'a' <= (a + b)[m] <= 'z' {
        assert (a + b)[i + 1..i + 1 + |n|][m - i - 1] == (a + b)[m];
      }
    }
    assert (a + b)[|a|] == '<';
    assert i + 1 + |n| < |a|;
    assert (a + b)[i + 1..i + 1 + |n|] == a[i + 1..i + 1 + |n|];
  }

  /** A raw tag that starts in `a` lies within `a` when `b` starts with `<`. */
  lemma RawLeft(a: string, b: string, i: nat)
    requires b != [] && b[0] == '<' && i < |a| && RawTagAt(a + b, i)
    ensures RawTagAt(a, i)
  {
    var j :| 0 <= j < |RawTags| && RawNameAt(a + b, i, RawTags[j]);
    RawTagsLower();
    RawNameInside(a, b, i, RawTags[j]);
  }

  /** A raw tag that starts in `b` is a raw tag of `b`. */
  lemma RawRight(a: string, b: string, i: nat)
    requires RawTagAt(a + b, |a| + i)
    ensures RawTagAt(b, i)
  {
    var j :| 0 <= j < |RawTags| && RawNameAt(a + b, |a| + i, RawTags[j]);
    var n := RawTags[j];
    assert (a + b)[|a| + i + 1..|a| + i + 1 + |n|] == b[i + 1..i + 1 + |n|];
    assert RawNameAt(b, i, n);
  }

  /** Joining two passing texts where the second starts a tag gives a passing text. */
  lemma PassesConcat(a: string, b: string)
    requires Passes(a) && Passes(b) && b != [] && b[0] == '<'
    ensures Passes(a + b)
  {
    forall i | 0 <= i < |a + b| && TagStartAt(a + b, i) ensures TagNameAt(a + b, i) in Schema.RegistryNames() {
      if i < |a| {
        assert TagStartAt(a, i);
        TagNameLeft(a, b, i);
      } else {
        assert TagStartAt(b, i - |a|);
        TagNameRight(a, b, i - |a|);
      }
    }
    forall i | 0 <= i < |a + b| ensures !RawTagAt(a + b, i) {
      if RawTagAt(a + b, i) {
        if i < |a| { RawLeft(a, b, i); } else { RawRight(a, b, i - |a|); }
      }
    }
  }

  /** Text without `<` in front of a passing text leaves it passing. */
  lemma PassesAfterPlainText(t: string, b: string)
    requires '<' !in t && Passes(b)
    ensures Passes(t + b)
  {
    forall i | 0 <= i < |t + b| && TagStartAt(t + b, i) ensures TagNameAt(t + b, i) in Schema.RegistryNames() {
      assert TagStartAt(b, i - |t|);
      TagNameRight(t, b, i - |t|);
    }
    forall i | 0 <= i < |t + b| ensures !RawTagAt(t + b, i) {
      if i < |t| { assert (t + b)[i] == t[i]; }
      else if RawTagAt(t + b, i) { RawRight(t, b, i - |t|); }
    }
  }

  /** `t` opens the component `n`: its name follows `<` and ends there. */
  predicate OpensComponent(t: string, n: string) {
    1 + |n| <= |t| && t[1..1 + |n|] == n && (1 + |n| == |t| || !IsIdentChar(t[1 + |n|]))
  }

  /** A stretch of markup from one `<` up to the next: a closing tag, a
      fragment token, or the opening tag of a registry component, with any
      text after it. */
  predicate IsMarkupPiece(t: string) {
    && 2 <= |t| && t[0] == '<' && '<' !in t[1..]
    && (t[1] == '/' || t[1] == '>'
        || exists k :: 0 <= k < |Schema.RegistryNames()| && OpensComponent(t, Schema.RegistryNames()[k]))
  }

  /** Closing tags and fragment tokens are seen by neither scan. */
  lemma ClosingAndFragmentIgnored(s: string, i: nat)
    requires i + 1 < |s| && s[i] == '<' && (s[i + 1] == '/' || s[i + 1] == '>')
    ensures !TagStartAt(s, i) && !RawTagAt(s, i)
  {
    RawTagsLower();
  }

  /** Only the first character of a piece can start a match. */
  lemma PieceRestIgnored(t: string)
    requires 1 <= |t| && '<' !in t[1..]
    ensures forall i :: 1 <= i < |t| ==> !TagStartAt(t, i) && !RawTagAt(t, i)
  {
    forall i | 1 <= i < |t| ensures t[i] != '<' { assert t[i] == t[1..][i - 1]; }
  }

  /** The opening tag of a registry component passes. */
  lemma OpeningPiecePasses(t: string, n: string)
    requires 1 <= |t| && t[0] == '<' && '<' !in t[1..]
    requires n in Schema.RegistryNames() && OpensComponent(t, n)
    ensures Passes(t)
  {
    PieceRestIgnored(t);
    RegisteredNameIsTagName(n);
    OpeningNameCaptured(t, n);
    OpeningNotRaw(t, n);
  }

  lemma RegisteredNameIsTagName(n: string)
    requires n in Schema.RegistryNames()
    ensures Schema.IsTagName(n)
  {
    Schema.RegistryNamesAreTagNames();
  }

  /** The tag scanner reads the whole component name at the start of its opening tag. */
  lemma OpeningNameCaptured(t: string, n: string)
    requires 1 <= |t| && t[0] == '<' && Schema.IsTagName(n) && OpensComponent(t, n)
    ensures TagStartAt(t, 0) && TagNameAt(t, 0) == n
  {
    assert t[1] == n[0];
    forall m | 1 <= m < 1 + |n| ensures IsIdentChar(t[m]) {
      assert t[m] == n[m - 1];
      assert n[m - 1] in n;
    }
    IdentEndAt(t, 1, 1 + |n|);
  }

  /** An opening tag whose name starts upper-case is no raw tag. */
  lemma OpeningNotRaw(t: string, n: string)
    requires 1 <= |t| && Schema.IsTagName(n) && OpensComponent(t, n)
    ensures !RawTagAt(t, 0)
  {
    assert t[1] == n[0];
    RawTagsLower();
  }

  lemma PiecePasses(t: string)
    requires IsMarkupPiece(t)
    ensures Passes(t)
  {
    if t[1] == '/' || t[1] == '>' {
      PieceRestIgnored(t);
      ClosingAndFragmentIgnored(t, 0);
    } else {
      var k :| 0 <= k < |Schema.RegistryNames()| && OpensComponent(t, Schema.RegistryNames()[k]);
      OpeningPiecePasses(t, Schema.RegistryNames()[k]);
    }
  }

  /** `<`, a registry name, then text without `<` that does not go on with
      the name: the opening tag of that component. */
  lemma ComponentPiece(n: string, rest: string)
    requires n in Schema.RegistryNames() && '<' !in rest
    requires rest == [] || !IsIdentChar(rest[0])
    ensures IsMarkupPiece("<" + n + rest)
  {
    var t := "<" + n + rest;
    Schema.RegistryNamesAreTagNames();
    assert t[1..1 + |n|] == n;
    assert t[1..] == n + rest;
    var k :| 0 <= k < |Schema.RegistryNames()| && Schema.RegistryNames()[k] == n;
    assert OpensComponent(t, Schema.RegistryNames()[k]);
  }

  /** `</`, then text without `<`: a closing tag. */
  lemma ClosingPiece(rest: string)
    requires '<' !in rest
    ensures IsMarkupPiece("</" + rest)
  {
    assert ("</" + rest)[1..] == "/" + rest;
  }

  /** The concatenation of a list of strings. */
  function Flatten(parts: seq<string>): (s: string)
    ensures parts != [] && parts[0] != [] ==> s != [] && s[0] == parts[0][0]
  {
    if parts == [] then [] else parts[0] + Flatten(parts[1..])
  }

  /** Markup built only from registry components, closing tags and fragment
      tokens passes the validator, whatever text leads it. */
  lemma {:induction false} MarkupPasses(lead: string, pieces: seq<string>)
    requires '<' !in lead
    requires forall k :: 0 <= k < |pieces| ==> IsMarkupPiece(pieces[k])
    ensures ValidateJsx(lead + Flatten(pieces)).isValid
    decreases |pieces|
  {
    PiecesPass(pieces);
    PassesAfterPlainText(lead, Flatten(pieces));
  }

  lemma {:induction false} PiecesPass(pieces: seq<string>)
    requires forall k :: 0 <= k < |pieces| ==> IsMarkupPiece(pieces[k])
    ensures Passes(Flatten(pieces))
    decreases |pieces|
  {
    if pieces != [] {
      PiecePasses(pieces[0]);
      PiecesPass(pieces[1..]);
      if pieces[1..] == [] {
        assert Flatten(pieces) == pieces[0];
      } else {
        PassesConcat(pieces[0], Flatten(pieces[1..]));
      }
    }
  }

  /** The raw-HTML check only sees lower-case names, so no text position is
      read by both scans. */
  lemma ScansDisjoint(s: string, i: nat)
    requires RawTagAt(s, i)
    ensures !TagStartAt(s, i)
  {
    RawTagsLower();
  }

  /** Joining a list with an empty last entry ends in a dangling separator. */
  lemma {:induction false} JoinTrailingEmpty(xs: seq<string>, sep: string)
    requires xs != []
    ensures Join(xs + [""], sep) == Join(xs, sep) + sep
    decreases |xs|
  {
    if |xs| == 1 {
      assert (xs + [""])[1..] == [""];
    } else {
      assert (xs + [""])[1..] == xs[1..] + [""];
      JoinTrailingEmpty(xs[1..], sep);
      ConcatAssociative(xs[0] + sep, Join(xs[1..], sep), sep);
    }
  }

  /** The rejection message lists the registry names and, because of the
      empty fragment entry, one separator too many. */
  lemma UnauthorizedMessageText(tag: string)
    ensures UnauthorizedMessage(tag) ==
      "Security Check Failed: The AI attempted to use an unauthorized tag: <" + tag
      + ">. Only " + Join(Schema.RegistryNames(), ", ") + ", " + " are allowed."
  {
    assert |Schema.RegistryNames()| == |Schema.ComponentSchema|;
    JoinTrailingEmpty(Schema.RegistryNames(), ", ");
    ConcatAssociative("Security Check Failed: The AI attempted to use an unauthorized tag: <" + tag + ">. Only ",
      Join(Schema.RegistryNames(), ", "), ", ");
  }
}
