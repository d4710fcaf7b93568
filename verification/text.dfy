/** Character classes and string helpers with JavaScript's meaning: the
    whitespace of `\s` and `String.prototype.trim`, `startsWith`, and the ASCII
    case folding that the `i` flag applies to the letter patterns of the source. */
module Text {

  import opened Wrappers

  /** A WhiteSpace or LineTerminator character of ECMAScript: exactly the
      characters `\s` matches in a regular expression and `trim` removes. */
  predicate IsSpace(c: char) {
    var n := c as int;
    || n == 0x09 || n == 0x0A || n == 0x0B || n == 0x0C || n == 0x0D
    || n == 0x20 || n == 0xA0 || n == 0x1680 || (0x2000 <= n <= 0x200A)
    || n == 0x2028 || n == 0x2029 || n == 0x202F || n == 0x205F
    || n == 0x3000 || n == 0xFEFF
  }

  predicate AllSpace(s: string) {
    forall i :: 0 <= i < |s| ==> IsSpace(s[i])
  }

  /** Neither begins nor ends with whitespace. */
  predicate Trimmed(s: string) {
    s == [] || (!IsSpace(s[0]) && !IsSpace(s[|s| - 1]))
  }

  /** `s` is `r` preceded by `a` whitespace characters and followed by whitespace only. */
  predicate Frames(s: string, a: nat, r: string) {
    && a + |r| <= |s|
    && s[a..a + |r|] == r
    && AllSpace(s[..a])
    && AllSpace(s[a + |r|..])
  }

  /** Where the run of whitespace starting at `i` ends (a greedy `\s*`). */
  function SkipSpaces(s: string, i: nat): (j: nat)
    requires i <= |s|
    ensures i <= j <= |s|
    ensures forall k :: i <= k < j ==> IsSpace(s[k])
    ensures j == |s| || !IsSpace(s[j])
    decreases |s| - i
  {
    if i < |s| && IsSpace(s[i]) then SkipSpaces(s, i + 1) else i
  }

  /** Where the run of whitespace ending at `hi` starts, never going below `lo`. */
  function SpaceRunStart(s: string, lo: nat, hi: nat): (e: nat)
    requires lo <= hi <= |s|
    ensures lo <= e <= hi
    ensures forall k :: e <= k < hi ==> IsSpace(s[k])
    ensures e == lo || !IsSpace(s[e - 1])
    decreases hi - lo
  {
    if lo < hi && IsSpace(s[hi - 1]) then SpaceRunStart(s, lo, hi - 1) else hi
  }

  /** `String.prototype.trim`. */
  function Trim(s: string): (r: string)
    ensures Trimmed(r)
    ensures Frames(s, SkipSpaces(s, 0), r)
  {
    var a := SkipSpaces(s, 0);
    var e := SpaceRunStart(s, a, |s|);
    assert s[..a] == s[0..a];
    s[a..e]
  }

  /** A trimmed string framed by whitespace is what `trim` returns: the
      result of `trim` is determined by the framing alone. */
  lemma TrimUnique(s: string, a: nat, m: string)
    requires Frames(s, a, m) && Trimmed(m)
    ensures Trim(s) == m
  {
    var a' := SkipSpaces(s, 0);
    var r := Trim(s);
    if m == [] {
      assert forall k :: 0 <= k < |s| ==> IsSpace(s[k]) by {
        forall k | 0 <= k < |s| ensures IsSpace(s[k]) {
          if k < a { assert s[..a][k] == s[k]; } else { assert s[a..][k - a] == s[k]; }
        }
      }
      assert a' == |s|;
    } else {
      assert s[a] == m[0];
      assert forall k :: 0 <= k < a ==> IsSpace(s[k]) by {
        forall k | 0 <= k < a ensures IsSpace(s[k]) { assert s[..a][k] == s[k]; }
      }
      assert a' == a;
      assert s[a + |m| - 1] == m[|m| - 1];
    }
  }

  /** `trim` is idempotent. */
  lemma TrimIdempotent(s: string)
    ensures Trim(Trim(s)) == Trim(s)
  {
    TrimTrimmed(Trim(s));
  }

  predicate StartsWith(s: string, prefix: string) {
    |prefix| <= |s| && s[..|prefix|] == prefix
  }

  /** A text that differs from `prefix` at some index of `prefix` does not start with it. */
  lemma DiffersAt(s: string, prefix: string, k: nat)
    requires k < |prefix| && (k >= |s| || s[k] != prefix[k])
    ensures !StartsWith(s, prefix)
  {
    if |prefix| <= |s| {
      assert s[..|prefix|][k] == s[k];
    }
  }

  predicate EndsWith(s: string, suffix: string) {
    |suffix| <= |s| && s[|s| - |suffix|..] == suffix
  }

  /** `t` occurs in `s` starting at index `i`. */
  predicate OccursAt(s: string, t: string, i: nat) {
    i + |t| <= |s| && s[i..i + |t|] == t
  }

  /** `t` occurs somewhere in `s`. */
  predicate Contains(s: string, t: string) {
    exists i :: 0 <= i <= |s| && OccursAt(s, t, i)
  }

  /** ASCII case folding: the only folding the `i` flag of a non-Unicode
      JavaScript regular expression applies when the pattern letters are ASCII. */
  function LowerAscii(c: char): (d: char)
    ensures 'A' <= c <= 'Z' ==> 'a' <= d <= 'z' && d as int == c as int + 32
    ensures !('A' <= c <= 'Z') ==> d == c
  {
    if 'A' <= c <= 'Z' then (c as int + 32) as char else c
  }

  predicate EqualIgnoringCase(a: string, b: string) {
    |a| == |b| && forall i :: 0 <= i < |a| ==> LowerAscii(a[i]) == LowerAscii(b[i])
  }

  predicate StartsWithIgnoringCase(s: string, prefix: string) {
    |prefix| <= |s| && EqualIgnoringCase(s[..|prefix|], prefix)
  }

  /** The first index at or after `from` holding `c`, as `indexOf` finds it. */
  function IndexOf(s: string, c: char, from: nat): (r: Option<nat>)
    requires from <= |s|
    ensures r.Some? ==> from <= r.value < |s| && s[r.value] == c
    ensures r.Some? ==> forall k :: from <= k < r.value ==> s[k] != c
    ensures r.None? ==> forall k :: from <= k < |s| ==> s[k] != c
    decreases |s| - from
  {
    if from == |s| then None
    else if s[from] == c then Some(from)
    else IndexOf(s, c, from + 1)
  }

  /** `indexOf` finds the first `c` at or after `from`. */
  lemma IndexOfFirst(s: string, c: char, from: nat, g: nat)
    requires from <= g < |s| && s[g] == c
    requires forall k :: from <= k < g ==> s[k] != c
    ensures IndexOf(s, c, from) == Some(g)
  {
  }

  /** `Array.prototype.join`. */
  function Join(parts: seq<string>, sep: string): string {
    if parts == [] then []
    else if |parts| == 1 then parts[0]
    else parts[0] + sep + Join(parts[1..], sep)
  }

  predicate IsUpperAscii(c: char) {
    'A' <= c <= 'Z'
  }

  predicate IsAsciiLetter(c: char) {
    'A' <= c <= 'Z' || 'a' <= c <= 'z'
  }

  /** A character of the class `[a-zA-Z0-9]`. */
  predicate IsIdentChar(c: char) {
    IsAsciiLetter(c) || '0' <= c <= '9'
  }

  /** Whitespace added around a text does not change what `trim` returns. */
  lemma TrimPadded(a: string, s: string, b: string)
    requires AllSpace(a) && AllSpace(b)
    ensures Trim(a + s + b) == Trim(s)
  {
    var x := SkipSpaces(s, 0);
    var m := Trim(s);
    var t := a + s + b;
    var y := |a| + x;
    assert x + |m| <= |s|;
    forall k | 0 <= k < |m| ensures t[y + k] == m[k] {
      assert t[y + k] == s[x + k];
      assert s[x..x + |m|][k] == s[x + k];
    }
    assert t[y..y + |m|] == m;
    forall k | 0 <= k < y ensures IsSpace(t[..y][k]) {
      if k < |a| {
        assert t[k] == a[k];
      } else {
        assert t[k] == s[k - |a|];
        assert s[..x][k - |a|] == s[k - |a|];
      }
    }
    var tail := t[y + |m|..];
    forall k | 0 <= k < |tail| ensures IsSpace(tail[k]) {
      var j := y + |m| + k;
      if j < |a| + |s| {
        assert t[j] == s[j - |a|];
        assert s[x + |m|..][j - |a| - x - |m|] == s[j - |a|];
      } else {
        assert t[j] == b[j - |a| - |s|];
      }
    }
    TrimUnique(t, y, m);
  }

  /** `trim` leaves a trimmed text as it is. */
  lemma TrimTrimmed(s: string)
    ensures Trimmed(s) ==> Trim(s) == s
  {
    if Trimmed(s) {
      assert s[..0] == [] && s[|s|..] == [] && s[0..|s|] == s;
      TrimUnique(s, 0, s);
    }
  }

  lemma ConcatAssociative(a: string, b: string, c: string)
    ensures a + (b + c) == (a + b) + c
  {
  }
}
