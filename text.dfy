/**
 * The parts of the Kotlin string library that the extraction engine relies on:
 * `lowercase()`, `trim()`, `contains`, `split(".")` and `replace(target, "")`.
 * Lower-casing is ASCII only; the whitespace predicate lists the characters that
 * Kotlin's `Char.isWhitespace()` accepts.
 */
module Text {

  /** Kotlin `Char.isWhitespace()`: Java whitespace or a Unicode space, line or paragraph separator. */
  predicate IsWhitespace(c: char) {
    || c == ' '
    || '\t' <= c <= '\r'
    || '\U{1C}' <= c <= '\U{1F}'
    || c == '\U{A0}' || c == '\U{1680}'
    || '\U{2000}' <= c <= '\U{200A}'
    || c == '\U{2028}' || c == '\U{2029}' || c == '\U{202F}' || c == '\U{205F}' || c == '\U{3000}'
  }

  predicate IsDigit(c: char) {
    '0' <= c <= '9'
  }

  function LowerChar(c: char): char {
    if 'A' <= c <= 'Z' then (c as int + 32) as char else c
  }

  /** `s.lowercase()`, restricted to ASCII letters: same length, and no upper-case ASCII letter is left. */
  function Lower(s: string): (r: string)
    ensures |r| == |s|
    ensures forall i :: 0 <= i < |r| ==> !('A' <= r[i] <= 'Z')
  {
    seq(|s|, i requires 0 <= i < |s| => LowerChar(s[i]))
  }


  predicate StartsWith(s: string, prefix: string) {
    |prefix| <= |s| && s[..|prefix|] == prefix
  }

  /** `s.contains(sub)`: `sub` occurs somewhere in `s`, so it is no longer than `s`. */
  predicate Contains(s: string, sub: string)
    ensures Contains(s, sub) ==> |sub| <= |s|
    decreases |s|
  {
    StartsWith(s, sub) || (|s| > 0 && Contains(s[1..], sub))
  }

  /** `sub` occurs in `s` starting at position `i`. */
  predicate OccursAt(s: string, sub: string, i: int) {
    0 <= i && i + |sub| <= |s| && s[i..i + |sub|] == sub
  }

  /** An occurrence at any position is found. */
  lemma {:induction false} ContainsAt(s: string, sub: string, i: nat)
    requires OccursAt(s, sub, i)
    ensures Contains(s, sub)
    decreases i
  {
    if i > 0 {
      assert s[1..][i - 1..i - 1 + |sub|] == s[i..i + |sub|];
      ContainsAt(s[1..], sub, i - 1);
    }
  }

  /** `contains` holds only where there is an occurrence. */
  lemma {:induction false} ContainsOccurs(s: string, sub: string)
    requires Contains(s, sub)
    ensures exists i :: OccursAt(s, sub, i)
    decreases |s|
  {
    if StartsWith(s, sub) {
      assert s[0..|sub|] == s[..|sub|];
      assert OccursAt(s, sub, 0);
    } else {
      ContainsOccurs(s[1..], sub);
      var i :| OccursAt(s[1..], sub, i);
      assert s[1..][i..i + |sub|] == s[i + 1..i + 1 + |sub|];
      assert OccursAt(s, sub, i + 1);
    }
  }

  /** `contains` is exactly the existence of an occurrence. */
  lemma ContainsIff(s: string, sub: string)
    ensures Contains(s, sub) <==> exists i :: OccursAt(s, sub, i)
  {
    if Contains(s, sub) {
      ContainsOccurs(s, sub);
    }
    if exists i :: OccursAt(s, sub, i) {
      var i :| OccursAt(s, sub, i);
      ContainsAt(s, sub, i);
    }
  }

  /** Removes the leading whitespace: the rest is a suffix of `s` starting at a non-blank character. */
  function TrimStart(s: string): (r: string)
    ensures |r| <= |s| && r == s[|s| - |r|..]
    ensures forall k :: 0 <= k < |s| - |r| ==> IsWhitespace(s[k])
    ensures r != [] ==> !IsWhitespace(r[0])
    decreases |s|
  {
    if |s| > 0 && IsWhitespace(s[0]) then TrimStart(s[1..]) else s
  }

  /** Removes the trailing whitespace: the rest is a prefix of `s` ending at a non-blank character. */
  function TrimEnd(s: string): (r: string)
    ensures |r| <= |s| && r == s[..|r|]
    ensures forall k :: |r| <= k < |s| ==> IsWhitespace(s[k])
    ensures r != [] ==> !IsWhitespace(r[|r| - 1])
    decreases |s|
  {
    if |s| > 0 && IsWhitespace(s[|s| - 1]) then TrimEnd(s[..|s| - 1]) else s
  }

  /**
   * `s.trim()`: the slice `s[lo..hi]` left after dropping the longest whitespace prefix and
   * the longest whitespace suffix.
   */
  function Trim(s: string): (r: string)
    ensures |r| <= |s|
    ensures exists lo, hi ::
      && 0 <= lo <= hi <= |s| && r == s[lo..hi]
      && (forall k :: 0 <= k < lo ==> IsWhitespace(s[k]))
      && (forall k :: hi <= k < |s| ==> IsWhitespace(s[k]))
    ensures r != [] ==> !IsWhitespace(r[0]) && !IsWhitespace(r[|r| - 1])
    ensures r == [] <==> forall k :: 0 <= k < |s| ==> IsWhitespace(s[k])
  {
    var a := TrimStart(s);
    var b := TrimEnd(a);
    var lo := |s| - |a|;
    assert b == s[lo..lo + |b|];
    b
  }

  /** Trimming keeps only characters of the original: a character absent from `s` is absent from `Trim(s)`. */
  lemma TrimKeepsAbsentChar(s: string, c: char)
    requires c !in s
    ensures c !in Trim(s)
  {
    var a := TrimStart(s);
    AbsentFromSlice(s, c, |s| - |a|, |s|);
    AbsentFromSlice(a, c, 0, |TrimEnd(a)|);
  }

  lemma AbsentFromSlice(s: string, c: char, lo: nat, hi: nat)
    requires lo <= hi <= |s| && c !in s
    ensures c !in s[lo..hi]
  {
    forall k | 0 <= k < hi - lo
      ensures s[lo..hi][k] != c
    {
      assert s[lo..hi][k] == s[lo + k];
    }
  }

  /** How often `c` occurs in `s`. */
  function Count(s: string, c: char): nat {
    if s == [] then 0 else (if s[0] == c then 1 else 0) + Count(s[1..], c)
  }

  /** Kotlin `s.split(sep)` for a one-character delimiter: every piece is kept, empty ones included. */
  function Split(s: string, sep: char): (parts: seq<string>)
    ensures |parts| == Count(s, sep) + 1
    ensures forall k :: 0 <= k < |parts| ==> sep !in parts[k]
    decreases |s|
  {
    if s == [] then [[]]
    else
      var rest := Split(s[1..], sep);
      if s[0] == sep then [[]] + rest
      else [[s[0]] + rest[0]] + rest[1..]
  }

  /** The pieces glued back together with `sep` between them. */
  function Join(parts: seq<string>, sep: char): string
    requires |parts| >= 1
  {
    if |parts| == 1 then parts[0] else parts[0] + [sep] + Join(parts[1..], sep)
  }

  /** Splitting loses nothing: joining the pieces with the delimiter gives the text back. */
  lemma {:induction false} JoinSplit(s: string, sep: char)
    ensures Join(Split(s, sep), sep) == s
    decreases |s|
  {
    if s != [] {
      var rest := Split(s[1..], sep);
      JoinSplit(s[1..], sep);
      if s[0] != sep {
        var parts := Split(s, sep);
        if |rest| == 1 {
          assert parts == [[s[0]] + rest[0]];
        } else {
          assert parts[1..] == rest[1..];
        }
      }
    }
  }

  /** Splitting distributes over a delimiter: the pieces of `a + sep + b` are those of `a` then those of `b`. */
  lemma {:induction false} SplitAppend(a: string, b: string, sep: char)
    ensures Split(a + [sep] + b, sep) == Split(a, sep) + Split(b, sep)
    decreases |a|
  {
    if a == [] {
      var s := a + [sep] + b;
      assert s == [sep] + b;
      assert s[1..] == b;
    } else {
      var c, t := a[0], a[1..];
      assert a == [c] + t;
      assert a + [sep] + b == [c] + (t + [sep] + b);
      SplitAppend(t, b, sep);
      SplitAppendStep(c, t, b, sep);
    }
  }

  /** The inductive step of `SplitAppend`: one more character in front. */
  lemma SplitAppendStep(c: char, t: string, b: string, sep: char)
    requires Split(t + [sep] + b, sep) == Split(t, sep) + Split(b, sep)
    ensures Split([c] + (t + [sep] + b), sep) == Split([c] + t, sep) + Split(b, sep)
  {
    SplitCons(c, t + [sep] + b, sep);
    SplitCons(c, t, sep);
    ConsPieceAppend(c, sep, Split(t, sep), Split(b, sep));
  }

  /** The pieces of `[c] + rest-text`, given the pieces `rest` of the rest: `c` either closes an empty first piece or joins the first piece. */
  function ConsPiece(c: char, sep: char, rest: seq<string>): seq<string>
    requires rest != []
  {
    if c == sep then [[]] + rest else [[c] + rest[0]] + rest[1..]
  }

  /** One step of `Split`. */
  lemma SplitCons(c: char, t: string, sep: char)
    ensures Split([c] + t, sep) == ConsPiece(c, sep, Split(t, sep))
  {
    assert ([c] + t)[0] == c;
    assert ([c] + t)[1..] == t;
  }

  /** Putting a character in front of the first piece commutes with appending more pieces. */
  lemma ConsPieceAppend(c: char, sep: char, x: seq<string>, y: seq<string>)
    requires x != []
    ensures ConsPiece(c, sep, x + y) == ConsPiece(c, sep, x) + y
  {
    assert (x + y)[0] == x[0];
    assert (x + y)[1..] == x[1..] + y;
  }

  /** A text without the delimiter is a single piece. */
  lemma {:induction false} SplitWithoutSeparator(s: string, sep: char)
    requires sep !in s
    ensures Split(s, sep) == [s]
    decreases |s|
  {
    if s != [] {
      assert sep !in s[1..];
      SplitWithoutSeparator(s[1..], sep);
      assert [s[0]] + s[1..] == s;
    }
  }

  /**
   * Kotlin `s.replace(target, "")`: every occurrence of `target`, found left to right without
   * overlapping, is removed. An empty `target` leaves `s` as it is.
   */
  function RemoveAll(s: string, target: string): (r: string)
    ensures |r| <= |s|
    ensures !Contains(s, target) ==> r == s
    decreases |s|
  {
    if |target| == 0 then s
    else if StartsWith(s, target) then RemoveAll(s[|target|..], target)
    else if s == [] then []
    else [s[0]] + RemoveAll(s[1..], target)
  }

  /** A slice from `k` is its first character followed by the slice from `k + 1`. */
  lemma SliceCons(s: string, k: nat, j: nat)
    requires k < j <= |s|
    ensures s[k..j] == [s[k]] + s[k + 1..j]
  {
  }

  /** Keeping one character in front of a kept prefix keeps the longer prefix. */
  lemma KeepInFront(c: char, kept: string, rest: string, tail: string, whole: string, prefix: string)
    requires tail == kept + rest && whole == [c] + tail && prefix == [c] + kept
    ensures whole == prefix + rest
  {
  }

  /** Where no occurrence starts, at position `k`, the scan keeps that character and moves on. */
  lemma RemoveAllSkip(s: string, t: string, k: nat)
    requires |t| > 0 && k < |s| && !StartsWith(s[k..], t)
    ensures RemoveAll(s[k..], t) == [s[k]] + RemoveAll(s[k + 1..], t)
  {
    assert s[k..][1..] == s[k + 1..];
  }

  /** Where an occurrence starts, at position `j`, the scan drops it and resumes after it. */
  lemma RemoveAllHit(s: string, t: string, j: nat)
    requires |t| > 0 && j <= |s| && StartsWith(s[j..], t)
    ensures j + |t| <= |s|
    ensures RemoveAll(s[j..], t) == RemoveAll(s[j + |t|..], t)
  {
    assert s[j..][|t|..] == s[j + |t|..];
  }

  /**
   * With the scan at `k` and the next occurrence of `t` starting at `j`, the text from `k`
   * to `j` is kept, the occurrence is removed, and the scan resumes right after it.
   */
  lemma {:induction false} RemoveAllFrom(s: string, t: string, k: nat, j: nat)
    requires |t| > 0 && k <= j <= |s| && StartsWith(s[j..], t)
    requires forall i :: k <= i < j ==> !StartsWith(s[i..], t)
    ensures j + |t| <= |s|
    ensures RemoveAll(s[k..], t) == s[k..j] + RemoveAll(s[j + |t|..], t)
    decreases j - k
  {
    if k == j {
      RemoveAllHit(s, t, j);
    } else {
      RemoveAllSkip(s, t, k);
      RemoveAllFrom(s, t, k + 1, j);
      SliceCons(s, k, j);
      KeepInFront(s[k], s[k + 1..j], RemoveAll(s[j + |t|..], t), RemoveAll(s[k + 1..], t), RemoveAll(s[k..], t), s[k..j]);
    }
  }

  /**
   * The scan keeps a prefix in which no occurrence starts, removes the leftmost occurrence,
   * and resumes right after it.
   */
  lemma RemoveAllLeftmost(x: string, t: string, y: string)
    requires |t| > 0
    requires forall i :: 0 <= i < |x| ==> !StartsWith((x + t + y)[i..], t)
    ensures RemoveAll(x + t + y, t) == x + RemoveAll(y, t)
  {
    var s := x + t + y;
    assert s[|x|..][..|t|] == t;
    RemoveAllFrom(s, t, 0, |x|);
    assert s[0..] == s;
    assert s[0..|x|] == x;
    assert s[|x| + |t|..] == y;
  }

  /** Removing an occurrence that is there makes the text strictly shorter. */
  lemma {:induction false} RemoveAllShortens(s: string, target: string)
    requires |target| > 0 && Contains(s, target)
    ensures |RemoveAll(s, target)| < |s|
    decreases |s|
  {
    if !StartsWith(s, target) {
      RemoveAllShortens(s[1..], target);
    }
  }
}
