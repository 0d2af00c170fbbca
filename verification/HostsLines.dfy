/**
 Hosts-file lines with several names and a comment, in custom rules (app/custom_rules.py) and in
 blocklist sources (app/alderpointdns_compiler.py): each name counts as if it stood alone.
 */
module HostsLines {
  import opened Wrappers
  import opened Strings
  import opened DomainSyntax
  import opened RuleParser
  import opened RuleForms
  import opened NormalForm
  import opened SourceParser

  predicate Word(t: string) { t != "" && forall i :: 0 <= i < |t| ==> !IsSpace(t[i]) }

  predicate HostTokens(hosts: seq<string>) { forall k :: 0 <= k < |hosts| ==> TokenText(hosts[k]) }

  /** The names, each after a blank. */
  function Spaced(hosts: seq<string>): string {
    if |hosts| == 0 then "" else " " + hosts[0] + Spaced(hosts[1..])
  }

  function Remark(comment: string): string { if comment == "" then "" else " #" + comment }

  /** An address, its names, and a comment if there is one. */
  function HostsText(address: string, hosts: seq<string>, comment: string): string {
    address + Spaced(hosts) + Remark(comment)
  }

  predicate CommentText(t: string) {
    (forall c :: c in t ==> !Control(c)) && (t != "" ==> !IsSpace(t[0]) && !IsSpace(t[|t| - 1]))
  }

  lemma TokenWord(t: string)
    requires TokenText(t)
    ensures Word(t) && '#' !in t
  {
    assert forall i :: 0 <= i < |t| ==> t[i] in t;
  }

  lemma FirstWordOf(word: string, rest: string)
    requires Word(word) && (rest != "" ==> IsSpace(rest[0]))
    ensures Words(word + rest) == [word] + Words(rest)
  {
    var s := word + rest;
    assert s[0] == word[0];
    assert forall i :: 0 <= i < |word| ==> s[i] == word[i];
    assert rest != "" ==> s[|word|] == rest[0];
    assert WordLength(s) == |word|;
    assert s[..|word|] == word && s[|word|..] == rest;
  }

  lemma {:induction false} BlankWords(tail: string)
    requires forall i :: 0 <= i < |tail| ==> IsSpace(tail[i])
    ensures Words(tail) == []
    decreases |tail|
  {
    if tail != "" { BlankWords(tail[1..]); }
  }

  lemma {:induction false} SpacedWords(word: string, hosts: seq<string>, tail: string)
    requires Word(word) && HostTokens(hosts) && forall i :: 0 <= i < |tail| ==> IsSpace(tail[i])
    ensures Words(word + Spaced(hosts) + tail) == [word] + hosts
    decreases |hosts|
  {
    if |hosts| == 0 {
      assert word + Spaced(hosts) + tail == word + tail;
      FirstWordOf(word, tail);
      BlankWords(tail);
    } else {
      TokenWord(hosts[0]);
      SpacedWords(hosts[0], hosts[1..], tail);
      assert hosts == [hosts[0]] + hosts[1..];
      SpacedStep(word, hosts, tail);
    }
  }

  lemma SpacedStep(word: string, hosts: seq<string>, tail: string)
    requires Word(word) && |hosts| > 0 && Words(hosts[0] + Spaced(hosts[1..]) + tail) == hosts
    ensures Words(word + Spaced(hosts) + tail) == [word] + hosts
  {
    var more := hosts[0] + Spaced(hosts[1..]) + tail;
    assert word + Spaced(hosts) + tail == word + (" " + more);
    NextWords(word, more);
  }

  lemma NextWords(word: string, more: string)
    requires Word(word)
    ensures Words(word + (" " + more)) == [word] + Words(more)
  {
    FirstWordOf(word, " " + more);
    assert (" " + more)[1..] == more;
  }

  lemma {:induction false} SpacedChars(hosts: seq<string>, c: char)
    requires HostTokens(hosts) && c in Spaced(hosts)
    ensures c == ' ' || (!IsSpace(c) && !Control(c) && c != '#')
    decreases |hosts|
  {
    if |hosts| > 0 && c in Spaced(hosts[1..]) { SpacedChars(hosts[1..], c); }
  }

  lemma HostsHalves(address: string, hosts: seq<string>, comment: string)
    requires TokenText(address) && HostTokens(hosts) && CommentText(comment)
    ensures var raw := HostsText(address, hosts, comment);
            Words(Before(raw, '#')) == [address] + hosts && Strip(After(raw, '#')) == comment
  {
    var raw, left := HostsText(address, hosts, comment), address + Spaced(hosts);
    TokenWord(address);
    assert '#' !in left by {
      if '#' in Spaced(hosts) { SpacedChars(hosts, '#'); }
    }
    StripFixed(comment);
    if comment == "" {
      assert raw == left && left + "" == left;
      SplitNone(raw, '#');
      SpacedWords(address, hosts, "");
    } else {
      assert raw == (left + " ") + ['#'] + comment;
      PartitionAt(raw, left + " ", '#', comment);
      SpacedWords(address, hosts, " ");
    }
  }

  lemma HostsParts(lib: Libraries, a: Address, hosts: seq<string>, comment: string)
    requires Printed(lib, a) && TokenText(a.text) && HostTokens(hosts) && |hosts| > 0 && CommentText(comment)
    ensures ParseHosts(lib, HostsText(a.text, hosts, comment)) == HostRules(lib, a, a.text, hosts, comment)
  {
    HostsHalves(a.text, hosts, comment);
    assert ([a.text] + hosts)[1..] == hosts;
  }

  lemma {:induction false} SpacedEnd(hosts: seq<string>)
    requires HostTokens(hosts) && |hosts| > 0
    ensures Spaced(hosts) != "" && !IsSpace(Spaced(hosts)[|Spaced(hosts)| - 1])
    decreases |hosts|
  {
    TokenWord(hosts[0]);
    var s, rest := Spaced(hosts), Spaced(hosts[1..]);
    assert s == " " + hosts[0] + rest;
    if |hosts| > 1 {
      SpacedEnd(hosts[1..]);
      assert s[|s| - 1] == rest[|rest| - 1];
    } else {
      assert rest == "" && s == " " + hosts[0];
      assert s[|s| - 1] == hosts[0][|hosts[0]| - 1];
    }
  }

  lemma HostsEnds(address: string, hosts: seq<string>, comment: string)
    requires TokenText(address) && HostTokens(hosts) && |hosts| > 0 && CommentText(comment)
    ensures var raw := HostsText(address, hosts, comment);
            raw != "" && raw[0] == address[0] && !IsSpace(raw[0]) && !IsSpace(raw[|raw| - 1])
  {
    var raw := HostsText(address, hosts, comment);
    TokenWord(address);
    SpacedEnd(hosts);
    var body := address + Spaced(hosts);
    assert raw == body + Remark(comment);
    assert body[|body| - 1] == Spaced(hosts)[|Spaced(hosts)| - 1];
    assert raw[|raw| - 1] == if comment == "" then body[|body| - 1] else comment[|comment| - 1];
  }

  lemma HostsControl(address: string, hosts: seq<string>, comment: string)
    requires TokenText(address) && HostTokens(hosts) && CommentText(comment)
    ensures forall c :: c in HostsText(address, hosts, comment) ==> !Control(c)
  {
    forall c | c in HostsText(address, hosts, comment)
      ensures !Control(c)
    {
      if c in Spaced(hosts) { SpacedChars(hosts, c); }
      assert c in address || c in Spaced(hosts) || c in Remark(comment);
      assert c in Remark(comment) ==> c == ' ' || c == '#' || c in comment;
    }
  }

  lemma HostsKind(lib: Libraries, raw: string)
    requires raw != "" && (HexDigit(raw[0]) || raw[0] == ':') && !StartsWith(raw, "@@/")
    requires '\n' !in raw && '\r' !in raw && forall i :: 0 <= i < |raw| ==> !Control(raw[i])
    requires |ParseHosts(lib, raw)| > 0
    ensures Classify(lib, raw) == HostsLine
  {
  }

  lemma OneHostsLine(lib: Libraries, raw: string, plain: bool)
    requires raw != "" && Strip(raw) == raw && Classify(lib, raw) == HostsLine
    ensures ParseRule(lib, raw, plain) == ParseHosts(lib, raw)
  {
    assert ParseRule(lib, raw, plain) == ParseAs(lib, raw, HostsLine, plain);
  }

  lemma HostsClass(lib: Libraries, raw: string, plain: bool)
    requires raw != "" && Strip(raw) == raw && (HexDigit(raw[0]) || raw[0] == ':')
    requires (forall c :: c in raw ==> !Control(c)) && |ParseHosts(lib, raw)| > 0
    ensures ParseRule(lib, raw, plain) == ParseHosts(lib, raw)
  {
    PlainLine(raw);
    NotStartsWith(raw, "@@/", 0);
    HostsKind(lib, raw);
    OneHostsLine(lib, raw, plain);
  }

  lemma HostsParsed(lib: Libraries, a: Address, hosts: seq<string>, comment: string, plain: bool)
    requires Lawful(lib) && Printed(lib, a) && TokenText(a.text)
    requires HostTokens(hosts) && |hosts| > 0 && CommentText(comment)
    ensures ParseRule(lib, HostsText(a.text, hosts, comment), plain) == HostRules(lib, a, a.text, hosts, comment)
  {
    var raw := HostsText(a.text, hosts, comment);
    HostsParts(lib, a, hosts, comment);
    HostsEnds(a.text, hosts, comment);
    HostsControl(a.text, hosts, comment);
    StripFixed(raw);
    assert AddressShape(a.text);
    HostsClass(lib, raw, plain);
  }

  lemma OneHost(address: string, host: string)
    ensures HostsText(address, [host], "") == address + " " + host
  {
    assert Spaced([host]) == " " + host + "";
  }

  /**
   A hosts line gives one rule for each of its names, the rule its name alone would give, with the
   line's comment unless the name is no domain.
   */
  lemma HostsLineEach(lib: Libraries, a: Address, hosts: seq<string>, comment: string, plain: bool, k: nat)
    requires Lawful(lib) && Printed(lib, a) && TokenText(a.text) && HostTokens(hosts) && CommentText(comment)
    requires k < |hosts|
    ensures var rules, alone := ParseRule(lib, HostsText(a.text, hosts, comment), plain),
                                ParseRule(lib, a.text + " " + hosts[k], plain);
            && |rules| == |hosts| && |alone| == 1
            && (alone[0].state == Valid <==> Normalize(lib, hosts[k]).Some?)
            && rules[k] == if alone[0].state == Valid then alone[0].(comment := comment) else alone[0]
  {
    HostsParsed(lib, a, hosts, comment, plain);
    HostsParsed(lib, a, [hosts[k]], "", plain);
    OneHost(a.text, hosts[k]);
  }

  lemma SourceParts(lib: Libraries, a: Address, hosts: seq<string>, comment: string)
    requires Lawful(lib) && Printed(lib, a) && TokenText(a.text)
    requires HostTokens(hosts) && |hosts| > 0 && CommentText(comment)
    requires lib.ip(Words(HostsText(a.text, hosts, comment))[0]).Some?
    ensures LineResults(lib, HostsText(a.text, hosts, comment)) == HostResults(lib, hosts)
  {
    var raw := HostsText(a.text, hosts, comment);
    HostsHalves(a.text, hosts, comment);
    PrefilterExact(lib, raw);
    assert ([a.text] + hosts)[1..] == hosts;
  }

  lemma FirstToken(address: string, hosts: seq<string>, comment: string)
    requires TokenText(address)
    ensures |Words(HostsText(address, hosts, comment))| > 0 && Words(HostsText(address, hosts, comment))[0] == address
  {
    var rest := Spaced(hosts) + Remark(comment);
    assert HostsText(address, hosts, comment) == address + rest;
    TokenWord(address);
    FirstWordOf(address, rest);
  }

  lemma SourceParsed(lib: Libraries, a: Address, hosts: seq<string>, comment: string)
    requires Lawful(lib) && Printed(lib, a) && TokenText(a.text)
    requires HostTokens(hosts) && |hosts| > 0 && CommentText(comment)
    ensures LineResults(lib, HostsText(a.text, hosts, comment)) == HostResults(lib, hosts)
  {
    FirstToken(a.text, hosts, comment);
    SourceParts(lib, a, hosts, comment);
  }

  /** In a source such a line has the results its names would have each on a line of its own. */
  lemma SourceHostsEach(lib: Libraries, a: Address, hosts: seq<string>, comment: string, k: nat)
    requires Lawful(lib) && Printed(lib, a) && TokenText(a.text) && HostTokens(hosts) && CommentText(comment)
    requires k < |hosts|
    ensures var results, alone := LineResults(lib, HostsText(a.text, hosts, comment)),
                                  LineResults(lib, a.text + " " + hosts[k]);
            |results| == |hosts| && |alone| == 1 && results[k] == alone[0]
  {
    SourceParsed(lib, a, hosts, comment);
    SourceParsed(lib, a, [hosts[k]], "");
    OneHost(a.text, hosts[k]);
  }

  /** An address without a name is invalid in both. */
  lemma BareAddress(lib: Libraries, a: Address, plain: bool)
    requires Lawful(lib) && Printed(lib, a) && TokenText(a.text)
    ensures var rules := ParseRule(lib, a.text, plain); |rules| == 1 && rules[0].state == Invalid
    ensures LineResults(lib, a.text) == [Refused(true)]
  {
    var raw := a.text;
    TokenWord(raw);
    OneWord(raw);
    SplitNone(raw, '#');
    StripFixed(raw);
    assert AddressShape(raw);
    HostsClass(lib, raw, plain);
    PrefilterExact(lib, raw);
  }
}
