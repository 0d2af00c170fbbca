/**
 The nested-quantifier check on regular-expression text: a single left-to-right scan
 with a stack of flags, proved to compute a recursive property of the syntax tree
 the text was printed from.
 */
module RegexScanner {
  import opened Strings
  import opened Wrappers

  // ----- syntax trees and their text -----

  datatype Regex = One(items: Items) | Or(items: Items, rest: Regex)

  datatype Items = Nil | Cons(item: Item, tail: Items)

  datatype Item = Anchor(c: char) | Quantified(atom: Atom, quant: Quantifier)

  datatype Atom = Literal(c: char) | Escape(c: char) | Class(negated: bool, bracket: bool, body: seq<ClassItem>)
    | Group(inner: Regex)

  datatype ClassItem = Plain(c: char) | Escaped(c: char)

  datatype Quantifier = Once | Optional | Star | Plus | Braces(bounds: string)

  const META := ['\\', '[', '(', ')', '*', '+', '{', '|', '^', '$', '?']

  predicate ValidClass(negated: bool, bracket: bool, body: seq<ClassItem>) {
    && (forall x :: x in body && x.Plain? ==> x.c != ']' && x.c != '\\')
    && (bracket || body != [])
    && (!negated && !bracket ==> body[0] != Plain('^'))
  }

  predicate ValidAtom(a: Atom) {
    match a
    case Literal(c) => c !in META
    case Escape(_) => true
    case Class(n, b, body) => ValidClass(n, b, body)
    case Group(r) => Valid(r)
  }

  predicate ValidItem(i: Item) {
    match i
    case Anchor(c) => c == '^' || c == '$'
    case Quantified(a, q) => ValidAtom(a) && (q.Braces? ==> '}' !in q.bounds)
  }

  predicate ValidItems(l: Items) {
    l.Cons? ==> ValidItem(l.item) && ValidItems(l.tail)
  }

  predicate Valid(r: Regex) {
    ValidItems(r.items) && (r.Or? ==> Valid(r.rest))
  }

  function ClassBody(body: seq<ClassItem>): string {
    if body == [] then "" else
    (if body[0].Plain? then [body[0].c] else ['\\', body[0].c]) + ClassBody(body[1..])
  }

  function PrintAtom(a: Atom): string {
    match a
    case Literal(c) => [c]
    case Escape(c) => ['\\', c]
    case Class(negated, bracket, body) =>
      "[" + (if negated then "^" else "") + (if bracket then "]" else "") + ClassBody(body) + "]"
    case Group(r) => "(" + Print(r) + ")"
  }

  function PrintQuantifier(q: Quantifier): string {
    match q
    case Once => ""
    case Optional => "?"
    case Star => "*"
    case Plus => "+"
    case Braces(bounds) => "{" + bounds + "}"
  }

  function PrintItem(i: Item): string {
    match i
    case Anchor(c) => [c]
    case Quantified(a, q) => PrintAtom(a) + PrintQuantifier(q)
  }

  function PrintItems(l: Items): string {
    match l
    case Nil => ""
    case Cons(i, t) => PrintItem(i) + PrintItems(t)
  }

  function Print(r: Regex): string {
    match r
    case One(l) => PrintItems(l)
    case Or(l, r') => PrintItems(l) + "|" + Print(r')
  }

  // ----- the property -----

  predicate Repeats(q: Quantifier) { q.Star? || q.Plus? || q.Braces? }

  predicate RepeatedItem(i: Item) { i.Quantified? && Repeats(i.quant) }

  predicate RepeatedIn(l: Items) { l.Cons? && (RepeatedItem(l.item) || RepeatedIn(l.tail)) }

  /** Some atom directly inside r (not inside one of its groups) is repeated. */
  predicate HasRepeated(r: Regex) { RepeatedIn(r.items) || (r.Or? && HasRepeated(r.rest)) }

  predicate RiskyItem(i: Item) {
    i.Quantified? && i.atom.Group? && (Risky(i.atom.inner) || (Repeats(i.quant) && HasRepeated(i.atom.inner)))
  }

  predicate RiskyItems(l: Items) { l.Cons? && (RiskyItem(l.item) || RiskyItems(l.tail)) }

  /** Somewhere in r a repeated group directly contains a repeated atom. */
  predicate Risky(r: Regex) { RiskyItems(r.items) || (r.Or? && Risky(r.rest)) }

  // ----- the scan, as a function of the text still to be read -----

  /** Index of the bracket closing a class, searching from i. */
  function ClassTail(s: string, i: nat): (r: Option<nat>)
    ensures r.Some? ==> i <= r.value < |s| && s[r.value] == ']'
    decreases |s| - i
  {
    if i >= |s| then None
    else if s[i] == '\\' then (if i + 2 <= |s| then ClassTail(s, i + 2) else None)
    else if s[i] == ']' then Some(i)
    else ClassTail(s, i + 1)
  }

  /** A caret and a bracket right after the opening bracket do not close the class. */
  function ClassStart(s: string): nat {
    var i := if 1 < |s| && s[1] == '^' then 2 else 1;
    if i < |s| && s[i] == ']' then i + 1 else i
  }

  function ClassEndOf(s: string): Option<nat> { ClassTail(s, ClassStart(s)) }

  function Raised(stack: seq<bool>, raise: bool): seq<bool>
    requires |stack| > 0
  {
    if raise then stack[|stack| - 1 := true] else stack
  }

  function From(s: string, i: nat): string { if i <= |s| then s[i..] else "" }

  predicate QuantifierStart(c: char) { c == '*' || c == '+' || c == '{' }

  predicate Separator(c: char) { c == '|' || c == '^' || c == '$' }

  datatype Step = Stop(risk: bool) | Next(skip: nat, stack: seq<bool>, last: bool)

  /** What one turn of the scan does at the first character of s. */
  function StepAt(s: string, stack: seq<bool>, last: bool): (r: Step)
    requires |s| > 0 && |stack| > 0
    ensures r.Next? ==> r.skip > 0 && |r.stack| > 0
  {
    if s[0] == '\\' then Next(2, stack, true)
    else if s[0] == '[' then
      (match ClassEndOf(s) case None => Stop(false) case Some(e) => Next(e + 1, stack, true))
    else if s[0] == '(' then Next(1, stack + [false], false)
    else if s[0] == ')' then
      (if |stack| > 1 && stack[|stack| - 1] && |s| > 1 && QuantifierStart(s[1]) then Stop(true)
       else Next(1, if |stack| > 1 then stack[..|stack| - 1] else stack, true))
    else if s[0] == '*' || s[0] == '+' then Next(1, Raised(stack, last), false)
    else if s[0] == '{' then
      (match IndexOf(s, '}')
       case None => Next(1, stack, false)
       case Some(e) => Next(e + 1, Raised(stack, last), false))
    else if Separator(s[0]) then Next(1, stack, false)
    else Next(1, stack, true)
  }

  /** Does the scan of s report a risk, given the flags of the open groups and whether s follows an atom? */
  predicate Scan(s: string, stack: seq<bool>, last: bool)
    requires |stack| > 0
    decreases |s|
  {
    s != "" &&
    match StepAt(s, stack, last)
    case Stop(risk) => risk
    case Next(k, stack', last') => Scan(From(s, k), stack', last')
  }

  // ----- scanning printed pieces -----

  predicate FreeStart(s: string) { s == "" || !QuantifierStart(s[0]) }

  lemma {:induction false} IndexOfClosing(b: string, rest: string)
    requires '}' !in b
    ensures IndexOf(b + "}" + rest, '}') == Some(|b|)
  {
    if b != "" {
      assert (b + "}" + rest)[1..] == b[1..] + "}" + rest;
      IndexOfClosing(b[1..], rest);
    }
  }

  lemma {:induction false} ClassBodyEnds(pre: string, body: seq<ClassItem>, rest: string)
    requires forall x :: x in body && x.Plain? ==> x.c != ']' && x.c != '\\'
    ensures ClassTail(pre + ClassBody(body) + "]" + rest, |pre|) == Some(|pre| + |ClassBody(body)|)
    decreases body
  {
    var s := pre + ClassBody(body) + "]" + rest;
    if body == [] {
      assert s[|pre|] == ']';
    } else {
      var head := if body[0].Plain? then [body[0].c] else ['\\', body[0].c];
      assert body[0] in body;
      assert s == (pre + head) + ClassBody(body[1..]) + "]" + rest;
      assert s[|pre|] == head[0];
      ClassBodyEnds(pre + head, body[1..], rest);
    }
  }

  lemma {:induction false} ScanClass(a: Atom, rest: string, stack: seq<bool>, last: bool)
    requires a.Class? && ValidAtom(a) && |stack| > 0
    ensures Scan(PrintAtom(a) + rest, stack, last) == Scan(rest, stack, true)
  {
    var pre := "[" + (if a.negated then "^" else "") + (if a.bracket then "]" else "");
    var s := PrintAtom(a) + rest;
    assert s == pre + ClassBody(a.body) + "]" + rest;
    assert s[0] == '[';
    assert ClassStart(s) == |pre| by {
      if a.body != [] { assert a.body[0] in a.body; }
      assert s[|pre|..] == ClassBody(a.body) + "]" + rest;
    }
    ClassBodyEnds(pre, a.body, rest);
    assert s[|pre| + |ClassBody(a.body)| + 1..] == rest;
  }

  lemma {:induction false} ScanQuantifier(q: Quantifier, rest: string, stack: seq<bool>)
    requires |stack| > 0 && (q.Braces? ==> '}' !in q.bounds)
    ensures Scan(PrintQuantifier(q) + rest, stack, true) == Scan(rest, Raised(stack, Repeats(q)), !Repeats(q))
  {
    var s := PrintQuantifier(q) + rest;
    match q
    case Once => assert s == rest;
    case Braces(b) =>
      assert s == ("{" + b) + "}" + rest;
      IndexOfClosing("{" + b, rest);
      assert From(s, |b| + 2) == rest;
    case _ => assert s[1..] == rest;
  }

  lemma {:induction false} ScanAtom(a: Atom, q: Quantifier, rest: string, stack: seq<bool>, last: bool)
    requires ValidAtom(a) && |stack| > 0 && (q.Once? ==> FreeStart(rest))
    ensures var after := PrintQuantifier(q) + rest;
            Scan(PrintAtom(a) + after, stack, last)
            == (RiskyItem(Quantified(a, q)) || Scan(after, stack, true))
    decreases a, 0
  {
    var after := PrintQuantifier(q) + rest;
    var s := PrintAtom(a) + after;
    match a
    case Literal(c) => assert s[0] == c && s[1..] == after;
    case Escape(c) => assert s[0] == '\\' && From(s, 2) == after;
    case Class(_, _, _) => ScanClass(a, after, stack, last);
    case Group(r) =>
      assert s == "(" + (Print(r) + (")" + after));
      assert s[0] == '(' && From(s, 1) == Print(r) + (")" + after);
      var last' := ScanRegex(r, ")" + after, stack + [false], false);
      var inner := Raised(stack + [false], HasRepeated(r));
      assert (|after| > 0 && QuantifierStart(after[0])) == Repeats(q);
      ScanClosing(after, inner, last');
      assert inner[..|inner| - 1] == stack;
  }

  lemma {:induction false} ScanClosing(after: string, stack: seq<bool>, last: bool)
    requires |stack| > 1
    ensures Scan(")" + after, stack, last)
            == ((stack[|stack| - 1] && |after| > 0 && QuantifierStart(after[0]))
                 || Scan(after, stack[..|stack| - 1], true))
  {
    var s := ")" + after;
    assert s[0] == ')' && From(s, 1) == after;
    assert |s| > 1 ==> s[1] == after[0];
  }

  lemma {:induction false} ScanItem(i: Item, rest: string, stack: seq<bool>, last: bool) returns (last': bool)
    requires ValidItem(i) && |stack| > 0 && FreeStart(rest)
    ensures Scan(PrintItem(i) + rest, stack, last)
            == (RiskyItem(i) || Scan(rest, Raised(stack, RepeatedItem(i)), last'))
    decreases i, 1
  {
    match i
    case Anchor(c) =>
      assert (PrintItem(i) + rest)[0] == c && (PrintItem(i) + rest)[1..] == rest;
      last' := false;
    case Quantified(a, q) =>
      assert PrintItem(i) + rest == PrintAtom(a) + (PrintQuantifier(q) + rest);
      ScanAtom(a, q, rest, stack, last);
      ScanQuantifier(q, rest, stack);
      last' := !Repeats(q);
  }

  lemma RaisedTwice(stack: seq<bool>, a: bool, b: bool)
    requires |stack| > 0
    ensures Raised(Raised(stack, a), b) == Raised(stack, a || b)
  {
  }

  lemma {:induction false} ItemsStartFree(l: Items, rest: string)
    requires ValidItems(l) && FreeStart(rest)
    ensures FreeStart(PrintItems(l) + rest)
  {
    if l.Nil? {
      assert PrintItems(l) + rest == rest;
    }
  }

  lemma {:induction false} ScanItems(l: Items, rest: string, stack: seq<bool>, last: bool) returns (last': bool)
    requires ValidItems(l) && |stack| > 0 && FreeStart(rest)
    ensures Scan(PrintItems(l) + rest, stack, last)
            == (RiskyItems(l) || Scan(rest, Raised(stack, RepeatedIn(l)), last'))
    decreases l, 2
  {
    match l
    case Nil =>
      assert PrintItems(l) + rest == rest;
      last' := last;
    case Cons(i, t) =>
      assert PrintItems(l) + rest == PrintItem(i) + (PrintItems(t) + rest);
      ItemsStartFree(t, rest);
      last' := ScanItem(i, PrintItems(t) + rest, stack, last);
      last' := ScanItems(t, rest, Raised(stack, RepeatedItem(i)), last');
      RaisedTwice(stack, RepeatedItem(i), RepeatedIn(t));
  }

  lemma {:induction false} ScanRegex(r: Regex, rest: string, stack: seq<bool>, last: bool) returns (last': bool)
    requires Valid(r) && |stack| > 0 && FreeStart(rest)
    ensures Scan(Print(r) + rest, stack, last)
            == (Risky(r) || Scan(rest, Raised(stack, HasRepeated(r)), last'))
    decreases r, 3
  {
    match r
    case One(l) => last' := ScanItems(l, rest, stack, last);
    case Or(l, r') =>
      var after := "|" + Print(r') + rest;
      assert Print(r) + rest == PrintItems(l) + after;
      last' := ScanItems(l, after, stack, last);
      assert after[0] == '|' && after[1..] == Print(r') + rest;
      last' := ScanRegex(r', rest, Raised(stack, RepeatedIn(l)), false);
      RaisedTwice(stack, RepeatedIn(l), HasRepeated(r'));
  }

  /** The scan of a printed pattern reports a risk exactly when its syntax tree has one. */
  lemma ScannerDecidesNesting(r: Regex)
    requires Valid(r)
    ensures Scan(Print(r), [false], false) <==> Risky(r)
  {
    assert Print(r) + "" == Print(r);
    var _ := ScanRegex(r, "", [false], false);
  }

  // ----- the scanners as index loops -----

  lemma {:induction false} ClassTailShift(s: string, k: nat, i: nat)
    requires k <= i && k <= |s|
    ensures ClassTail(s, i) == match ClassTail(s[k..], i - k) case None => None case Some(e) => Some(e + k)
    decreases |s| - i
  {
    if i < |s| && i + 2 <= |s| && s[i] == '\\' {
      ClassTailShift(s, k, i + 2);
    } else if i < |s| && s[i] != '\\' && s[i] != ']' {
      ClassTailShift(s, k, i + 1);
    }
  }

  /** Index in the whole pattern of the bracket closing the class that opens at start. */
  method ClassEnd(pattern: string, start: nat) returns (end: Option<nat>)
    requires start < |pattern|
    ensures end == match ClassEndOf(pattern[start..]) case None => None case Some(e) => Some(start + e)
  {
    var i := start + 1;
    if i < |pattern| && pattern[i] == '^' { i := i + 1; }
    if i < |pattern| && pattern[i] == ']' { i := i + 1; }
    assert i == start + ClassStart(pattern[start..]);
    ClassTailShift(pattern, start, i);
    ghost var first := i;
    while i < |pattern|
      invariant first <= i <= |pattern| + 1
      invariant ClassTail(pattern, i) == ClassTail(pattern, first)
      decreases |pattern| - i
    {
      if pattern[i] == '\\' {
        i := i + 2;
      } else if pattern[i] == ']' {
        return Some(i);
      } else {
        i := i + 1;
      }
    }
    end := None;
  }

  /** Index of the first c at or after i. */
  method Find(pattern: string, c: char, i: nat) returns (end: Option<nat>)
    requires i <= |pattern|
    ensures end == match IndexOf(pattern[i..], c) case None => None case Some(e) => Some(i + e)
  {
    var j := i;
    while j < |pattern|
      invariant i <= j <= |pattern|
      invariant IndexOf(pattern[i..], c)
                == match IndexOf(pattern[j..], c) case None => None case Some(e) => Some(j - i + e)
    {
      if pattern[j] == c { return Some(j); }
      assert pattern[j..][1..] == pattern[j + 1..];
      j := j + 1;
    }
    end := None;
  }

  /** One turn of the scan at index i: how far to move and the flags afterwards. */
  method Turn(pattern: string, i: nat, stack: seq<bool>, last: bool) returns (step: Step)
    requires i < |pattern| && |stack| > 0
    ensures step == StepAt(pattern[i..], stack, last)
  {
    var ch := pattern[i];
    if ch == '\\' {
      return Next(2, stack, true);
    }
    if ch == '[' {
      var end := ClassEnd(pattern, i);
      return if end.None? then Stop(false) else Next(end.value + 1 - i, stack, true);
    }
    if ch == '(' {
      return Next(1, stack + [false], false);
    }
    if ch == ')' {
      var innerRisk := |stack| > 1 && stack[|stack| - 1];
      var popped := if |stack| > 1 then stack[..|stack| - 1] else stack;
      if i + 1 < |pattern| && QuantifierStart(pattern[i + 1]) && innerRisk { return Stop(true); }
      return Next(1, popped, true);
    }
    if ch == '*' || ch == '+' {
      return Next(1, Raised(stack, last), false);
    }
    if ch == '{' {
      var end := Find(pattern, '}', i);
      return if end.None? then Next(1, stack, false) else Next(end.value + 1 - i, Raised(stack, last), false);
    }
    return Next(1, stack, !Separator(ch));
  }

  /** The check itself: one flag per open group, raised when a repetition follows an atom. */
  method NestedQuantifierRisk(pattern: string) returns (risk: bool)
    ensures risk == Scan(pattern, [false], false)
  {
    var i, stack, last := 0, [false], false;
    while i < |pattern|
      invariant |stack| > 0
      invariant Scan(From(pattern, i), stack, last) == Scan(pattern, [false], false)
      decreases |pattern| - i
    {
      var step := Turn(pattern, i, stack, last);
      if step.Stop? { return step.risk; }
      assert From(From(pattern, i), step.skip) == From(pattern, i + step.skip);
      i, stack, last := i + step.skip, step.stack, step.last;
    }
    risk := false;
  }
}
