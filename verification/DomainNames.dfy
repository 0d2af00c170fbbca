/**
 Domain names as label sequences, leftmost label first, and the proof that the
 textual tests the program makes on dotted strings (`a == b`, `a.endswith("." + b)`,
 `"*." + name`) say exactly what the label-level tests below say.
 */
module DomainNames {

  type Name = n: seq<string> | n != [] witness ["localhost"]

  /** `q == d or q.endswith("." + d)` */
  predicate AtOrBelow(q: Name, d: Name) {
    |d| <= |q| && q[|q| - |d|..] == d
  }

  /** `q.endswith("." + d)` */
  predicate Below(q: Name, d: Name) {
    |d| < |q| && q[|q| - |d|..] == d
  }

  lemma SuffixOfSuffix(q: Name, i: nat, j: nat)
    requires i <= j < |q|
    ensures AtOrBelow(q[i..], q[j..])
    ensures i < j ==> Below(q[i..], q[j..])
  {
    assert q[i..][j - i..] == q[j..];
  }

  // ----- the dotted text of a name -----

  predicate IsLabel(l: string) {
    l != "" && '.' !in l && '*' !in l
  }

  predicate IsDomain(n: Name) {
    forall i :: 0 <= i < |n| ==> IsLabel(n[i])
  }

  function Text(n: Name): string {
    if |n| == 1 then n[0] else n[0] + "." + Text(n[1..])
  }

  predicate EndsWith(t: string, suffix: string) {
    |suffix| <= |t| && t[|t| - |suffix|..] == suffix
  }

  lemma {:induction false} TextNonEmpty(n: Name)
    requires IsDomain(n)
    ensures Text(n) != "" && Text(n)[0] != '.' && Text(n)[0] != '*'
  {
    assert IsLabel(n[0]);
  }

  /** A label prefix of a dotted text is determined by the text. */
  lemma {:induction false} LabelSplitUnique(a: string, s: string, b: string, t: string)
    requires '.' !in a && '.' !in b
    requires a + "." + s == b + "." + t
    ensures a == b && s == t
  {
    var x, y := a + "." + s, b + "." + t;
    assert x[|a|] == '.' && y[|b|] == '.';
    assert forall i :: 0 <= i < |a| ==> x[i] == a[i];
    assert forall i :: 0 <= i < |b| ==> y[i] == b[i];
    assert |a| == |b|;
    assert a == x[..|a|] == y[..|b|] == b;
    assert s == x[|a| + 1..] == y[|b| + 1..] == t;
  }

  lemma {:induction false} LabelHasNoDotSuffix(a: string, b: string, t: string)
    requires '.' !in a
    ensures a != b + "." + t
  {
    var y := b + "." + t;
    assert y[|b|] == '.';
  }

  /** Equal texts only come from equal names. */
  lemma {:induction false} TextInjective(m: Name, n: Name)
    requires IsDomain(m) && IsDomain(n)
    requires Text(m) == Text(n)
    ensures m == n
  {
    assert IsLabel(m[0]) && IsLabel(n[0]);
    if |m| == 1 && |n| == 1 {
    } else if |m| == 1 {
      LabelHasNoDotSuffix(m[0], n[0], Text(n[1..]));
    } else if |n| == 1 {
      LabelHasNoDotSuffix(n[0], m[0], Text(m[1..]));
    } else {
      LabelSplitUnique(m[0], Text(m[1..]), n[0], Text(n[1..]));
      TextInjective(m[1..], n[1..]);
      assert m == [m[0]] + m[1..] && n == [n[0]] + n[1..];
    }
  }

  lemma {:induction false} TextOfAppend(p: Name, d: Name)
    ensures Text(p + d) == Text(p) + "." + Text(d)
  {
    if |p| > 1 {
      TextOfAppend(p[1..], d);
      assert (p + d)[1..] == p[1..] + d;
    } else {
      assert (p + d)[1..] == d;
    }
  }

  /** Removing one label from both sides of an `endswith` test. */
  lemma {:induction false} EndsWithDropsLabel(a: string, s: string, d: string)
    requires '.' !in a
    requires EndsWith(a + "." + s, "." + d)
    ensures s == d || EndsWith(s, "." + d)
  {
    var x := a + "." + s;
    var k := |x| - |d| - 1;
    assert x[k] == x[k..][0] == '.';
    assert forall i :: 0 <= i < |a| ==> x[i] == a[i];
    assert k >= |a|;
    if k == |a| {
      assert x[k..][1..] == s && ("." + d)[1..] == d;
    } else {
      assert x[k..] == s[k - |a| - 1..];
    }
  }

  /** The textual subdomain test is the label-level one. */
  lemma {:induction false} EndsWithIsBelow(q: Name, d: Name)
    requires IsDomain(q) && IsDomain(d)
    ensures EndsWith(Text(q), "." + Text(d)) <==> Below(q, d)
  {
    if Below(q, d) {
      var p := q[..|q| - |d|];
      assert q == p + d;
      TextOfAppend(p, d);
    }
    if EndsWith(Text(q), "." + Text(d)) {
      assert IsLabel(q[0]);
      var k := |Text(q)| - |Text(d)| - 1;
      assert Text(q)[k] == Text(q)[k..][0] == '.';
      if |q| > 1 {
        var s := q[1..];
        EndsWithDropsLabel(q[0], Text(s), Text(d));
        if Text(s) == Text(d) {
          TextInjective(s, d);
        } else {
          EndsWithIsBelow(s, d);
          assert q[|q| - |d|..] == s[|s| - |d|..];
        }
      }
    }
  }

  // ----- owner names of the response-policy zone -----

  /** `name` or `*.name` */
  datatype Owner = Exact(name: Name) | Wildcard(name: Name)

  function OwnerText(o: Owner): string {
    match o
    case Exact(n) => Text(n)
    case Wildcard(n) => "*." + Text(n)
  }

  /** Distinct owners never share a line of the zone file. */
  lemma {:induction false} OwnerTextInjective(a: Owner, b: Owner)
    requires IsDomain(a.name) && IsDomain(b.name)
    requires OwnerText(a) == OwnerText(b)
    ensures a == b
  {
    TextNonEmpty(a.name);
    TextNonEmpty(b.name);
    assert a.Wildcard? <==> OwnerText(a)[0] == '*';
    assert b.Wildcard? <==> OwnerText(b)[0] == '*';
    if a.Wildcard? {
      assert Text(a.name) == OwnerText(a)[2..] == OwnerText(b)[2..] == Text(b.name);
    }
    TextInjective(a.name, b.name);
  }
}
