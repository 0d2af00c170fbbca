/** The text operations the modules share, on ASCII text, as Python's str methods do them. */
module Strings {
  import opened Wrappers

  function LowerChar(c: char): char { if 'A' <= c <= 'Z' then c - 'A' + 'a' else c }

  function UpperChar(c: char): char { if 'a' <= c <= 'z' then c - 'a' + 'A' else c }

  function Lower(t: string): string { seq(|t|, i requires 0 <= i < |t| => LowerChar(t[i])) }

  function Upper(t: string): string { seq(|t|, i requires 0 <= i < |t| => UpperChar(t[i])) }

  predicate IsSpace(c: char) { c == ' ' || '\t' <= c <= '\r' || 28 as char <= c <= 31 as char }

  function Strip(t: string): string {
    if t == "" then "" else if IsSpace(t[0]) then Strip(t[1..])
    else if IsSpace(t[|t| - 1]) then Strip(t[..|t| - 1]) else t
  }

  function RStrip(t: string, c: char): string {
    if t != "" && t[|t| - 1] == c then RStrip(t[..|t| - 1], c) else t
  }

  function LStrip(t: string, c: char): string {
    if t != "" && t[0] == c then LStrip(t[1..], c) else t
  }

  predicate StartsWith(t: string, prefix: string) { |prefix| <= |t| && t[..|prefix|] == prefix }

  predicate OccursAt(text: string, needle: string, i: nat) {
    i + |needle| <= |text| && text[i..i + |needle|] == needle
  }

  predicate Contains(text: string, needle: string) {
    exists i: nat :: i <= |text| && OccursAt(text, needle, i)
  }

  function IndexOf(s: string, c: char): (r: Option<nat>)
    ensures r.Some? ==> r.value < |s| && s[r.value] == c
    ensures forall i: nat :: i < |s| && (r.Some? ==> i < r.value) ==> s[i] != c
  {
    if s == "" then None
    else if s[0] == c then Some(0)
    else match IndexOf(s[1..], c) case None => None case Some(i) => Some(i + 1)
  }

  /** The two ends of partition: all of the text and nothing when the separator is missing. */
  function Before(s: string, c: char): string { s[..IndexOf(s, c).GetOr(|s|)] }

  function After(s: string, c: char): string {
    match IndexOf(s, c) case None => "" case Some(i) => s[i + 1..]
  }

  function Split(s: string, c: char): (parts: seq<string>)
    ensures |parts| > 0
    decreases |s|
  {
    match IndexOf(s, c)
    case None => [s]
    case Some(i) => [s[..i]] + Split(s[i + 1..], c)
  }

  function WordLength(s: string): (n: nat)
    ensures n <= |s|
    ensures forall i :: 0 <= i < n ==> !IsSpace(s[i])
    ensures n < |s| ==> IsSpace(s[n])
  {
    if s == "" || IsSpace(s[0]) then 0 else 1 + WordLength(s[1..])
  }

  /** split() without a separator */
  function Words(s: string): seq<string>
    decreases |s|
  {
    if s == "" then []
    else if IsSpace(s[0]) then Words(s[1..])
    else [s[..WordLength(s)]] + Words(s[WordLength(s)..])
  }

  lemma PartitionAt(s: string, left: string, c: char, right: string)
    requires s == left + [c] + right && c !in left
    ensures Before(s, c) == left && After(s, c) == right
  {
    assert s[|left|] == c;
    assert forall i :: 0 <= i < |left| ==> s[i] == left[i];
    assert IndexOf(s, c) == Some(|left|);
  }

  lemma StartsWithPrefix(prefix: string, rest: string)
    ensures StartsWith(prefix + rest, prefix)
  {
  }

  lemma NotStartsWith(t: string, prefix: string, i: nat)
    requires i < |t| && i < |prefix| && t[i] != prefix[i]
    ensures !StartsWith(t, prefix)
  {
    if |prefix| <= |t| { assert t[..|prefix|][i] == t[i]; }
  }

  lemma SplitNone(s: string, c: char)
    requires c !in s
    ensures Split(s, c) == [s] && Before(s, c) == s && After(s, c) == ""
  {
    assert IndexOf(s, c).None?;
  }

  lemma StripFixed(s: string)
    requires s != "" ==> !IsSpace(s[0]) && !IsSpace(s[|s| - 1])
    ensures Strip(s) == s
  {
  }

  lemma {:induction false} StripEnds(s: string)
    ensures Strip(s) != "" ==> !IsSpace(Strip(s)[0]) && !IsSpace(Strip(s)[|Strip(s)| - 1])
    decreases |s|
  {
    if s != "" {
      if IsSpace(s[0]) { StripEnds(s[1..]); }
      else if IsSpace(s[|s| - 1]) { StripEnds(s[..|s| - 1]); }
    }
  }

  /** A text that starts with a word starts with it again when split. */
  lemma FirstWord(s: string)
    requires s != "" && !IsSpace(s[0])
    ensures |Words(s)| > 0 && |Words(s)[0]| > 0 && Words(s)[0][0] == s[0]
  {
  }

  lemma OneWord(s: string)
    requires s != "" && forall i :: 0 <= i < |s| ==> !IsSpace(s[i])
    ensures Words(s) == [s]
  {
    assert WordLength(s) == |s|;
    assert s[..|s|] == s;
  }

  lemma TwoWords(a: string, b: string)
    requires a != "" && b != ""
    requires forall i :: 0 <= i < |a| ==> !IsSpace(a[i])
    requires forall i :: 0 <= i < |b| ==> !IsSpace(b[i])
    ensures Words(a + " " + b) == [a, b]
  {
    var s := a + " " + b;
    assert forall i :: 0 <= i < |a| ==> s[i] == a[i];
    assert s[|a|] == ' ';
    assert WordLength(s) == |a|;
    assert s[..|a|] == a && s[|a|..] == " " + b && (" " + b)[1..] == b;
    OneWord(b);
  }

  lemma {:induction false} RStripPrefix(t: string, c: char)
    ensures |RStrip(t, c)| <= |t| && RStrip(t, c) == t[..|RStrip(t, c)|]
    ensures forall i :: |RStrip(t, c)| <= i < |t| ==> t[i] == c
  {
    if t != "" && t[|t| - 1] == c {
      RStripPrefix(t[..|t| - 1], c);
    }
  }

  lemma {:induction false} LStripSuffix(t: string, c: char)
    ensures |LStrip(t, c)| <= |t| && LStrip(t, c) == t[|t| - |LStrip(t, c)|..]
    ensures forall i :: 0 <= i < |t| - |LStrip(t, c)| ==> t[i] == c
  {
    if t != "" && t[0] == c {
      LStripSuffix(t[1..], c);
    }
  }

  // ----- parts of a text -----

  lemma SliceWithin(s: string, i: nat, j: nat)
    requires i <= j <= |s|
    ensures Contains(s, s[i..j])
  {
    assert OccursAt(s, s[i..j], i);
  }

  lemma SuffixWithin(s: string, i: nat)
    requires i <= |s|
    ensures Contains(s, s[i..])
  {
    assert s[i..] == s[i..|s|];
    SliceWithin(s, i, |s|);
  }

  lemma WithinTransitive(a: string, b: string, c: string)
    requires Contains(a, b) && Contains(b, c)
    ensures Contains(a, c)
  {
    var i: nat :| i <= |a| && OccursAt(a, b, i);
    var j: nat :| j <= |b| && OccursAt(b, c, j);
    forall k | 0 <= k < |c|
      ensures a[i + j + k] == c[k]
    {
      assert b[j + k] == a[i..i + |b|][j + k] && c[k] == b[j..j + |c|][k];
    }
    assert a[i + j..i + j + |c|] == c;
    assert OccursAt(a, c, i + j);
  }

  lemma WithinChars(s: string, t: string)
    requires Contains(s, t)
    ensures forall c :: c in t ==> c in s
  {
    var i: nat :| i <= |s| && OccursAt(s, t, i);
    forall k | 0 <= k < |t|
      ensures t[k] in s
    {
      assert t[k] == s[i + k];
    }
  }

  /** An occurrence that starts with a character the left part lacks lies in the right part. */
  lemma OccursRight(left: string, right: string, needle: string)
    requires needle != "" && needle[0] !in left && Contains(left + right, needle)
    ensures Contains(right, needle)
  {
    var i: nat :| i <= |left + right| && OccursAt(left + right, needle, i);
    assert (left + right)[i] == (left + right)[i..i + |needle|][0] == needle[0];
    assert i >= |left|;
    assert right[i - |left|..i - |left| + |needle|] == (left + right)[i..i + |needle|];
    assert OccursAt(right, needle, i - |left|);
  }

  lemma {:induction false} StripWithin(s: string)
    ensures Contains(s, Strip(s))
    decreases |s|
  {
    if s != "" && IsSpace(s[0]) {
      StripWithin(s[1..]);
      SuffixWithin(s, 1);
      WithinTransitive(s, s[1..], Strip(s));
    } else if s != "" && IsSpace(s[|s| - 1]) {
      StripWithin(s[..|s| - 1]);
      SliceWithin(s, 0, |s| - 1);
      assert s[0..|s| - 1] == s[..|s| - 1];
      WithinTransitive(s, s[..|s| - 1], Strip(s));
    } else {
      SuffixWithin(s, 0);
      assert s[0..] == s;
    }
  }

  lemma AfterWithin(s: string, c: char)
    ensures Contains(s, After(s, c))
  {
    SuffixWithin(s, match IndexOf(s, c) case None => |s| case Some(i) => i + 1);
  }

  /** The parts of a split lie in the text and do not hold the separator. */
  lemma {:induction false} SplitWithin(s: string, c: char, k: nat)
    requires k < |Split(s, c)|
    ensures Contains(s, Split(s, c)[k]) && c !in Split(s, c)[k]
    decreases |s|
  {
    match IndexOf(s, c)
    case None =>
      SuffixWithin(s, 0);
      assert s[0..] == s;
    case Some(i) =>
      if k == 0 {
        SliceWithin(s, 0, i);
        assert s[0..i] == s[..i] == Split(s, c)[0];
      } else {
        SplitWithin(s[i + 1..], c, k - 1);
        assert Split(s, c)[k] == Split(s[i + 1..], c)[k - 1];
        SuffixWithin(s, i + 1);
        WithinTransitive(s, s[i + 1..], Split(s, c)[k]);
      }
  }
}
