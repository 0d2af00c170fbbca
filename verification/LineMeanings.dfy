/**
 What the documented line shapes mean, stated on their text: the rules parse_rule
 (app/custom_rules.py) makes of them and what they contribute to a blocklist source
 (app/alderpointdns_compiler.py).
 */
module LineMeanings {
  import opened Wrappers
  import opened Strings
  import opened DomainSyntax
  import opened RuleParser
  import opened RuleForms
  import opened NormalForm

  // ----- domain lines -----

  /** A bare name, `|name^`, or `||name^`. */
  datatype Anchor = Bare | Exactly | WithSubdomains

  function Named(anchor: Anchor, d: string): string {
    match anchor
    case Bare => d
    case Exactly => "|" + d + "^"
    case WithSubdomains => "||" + d + "^"
  }

  /** A line of one of these shapes, after `@@` or not, with `$important` or not. */
  function DomainText(isAllow: bool, anchor: Anchor, d: string, important: bool): string {
    (if isAllow then "@@" else "") + Named(anchor, d) + (if important then "$" + "important" else "")
  }

  predicate MeansDomain(r: Rule, isAllow: bool, d: string, subdomains: bool, priority: nat) {
    && r.state == Valid && r.domain == Some(d) && r.subdomains == subdomains && r.priority == priority
    && r.kind == (if isAllow then Allow else Block) && r.action == (if isAllow then Allows else Blocks)
    && r.pattern.None? && r.address.None?
    && r.normalized == (if isAllow then "@@" else "") + ((if subdomains then "||" else "|") + d + "^")
  }

  lemma ImportantModifies(lib: Libraries, rule: Rule, word: string)
    requires word == "important" && rule.state == Valid
    ensures ModifyAll(lib, rule, Split(word, ',')) == rule.(priority := IMPORTANT_PRIORITY)
  {
    assert forall i :: 0 <= i < |word| ==> 'a' <= word[i] <= 'z';
    StripFixed(word);
    SplitNone(word, '=');
    assert Lower(word) == word;
    OneModifier(lib, rule, word);
  }

  lemma FinishedMeans(lib: Libraries, raw: string, isAllow: bool, d: string, subdomains: bool, word: string)
    requires IsImportant(word)
    ensures var rule := Unmodified(raw, isAllow, d, subdomains);
            MeansDomain(Finished(lib, rule, word), isAllow, d, subdomains, if word == "" then 0 else 100)
  {
    if word != "" { ImportantModifies(lib, Unmodified(raw, isAllow, d, subdomains), word); }
  }

  lemma CleanWord(word: string)
    requires word != "" && forall i :: 0 <= i < |word| ==> 'a' <= word[i] <= 'z' || word[i] == '-'
    ensures Clean(word)
  {
    assert '#' !in word;
    NotCosmetic(word);
  }

  /** No modifiers, or just this one. */
  predicate IsImportant(modifiers: string) { modifiers == "" || modifiers == "important" }

  lemma ImportantClean(modifiers: string)
    requires IsImportant(modifiers)
    ensures modifiers != "" ==> Clean(modifiers)
  {
    if modifiers != "" { CleanWord(modifiers); }
  }

  lemma BareVisible(d: string, modifiers: string)
    requires DomainShape(d) && IsImportant(modifiers)
    ensures var raw := d + (if modifiers == "" then "" else "$" + modifiers);
            Visible(raw) && raw[0] == d[0] && forall i :: 0 <= i < |raw| ==> !IsSpace(raw[i]) && raw[i] != ':'
  {
    assert forall i :: 0 <= i < |modifiers| ==> 'a' <= modifiers[i] <= 'z';
  }

  lemma DollarIsNoAddress(d: string, modifiers: string)
    requires ':' !in d && ':' !in modifiers && modifiers != ""
    ensures !AddressShape(d + ("$" + modifiers))
  {
    var raw := d + ("$" + modifiers);
    assert raw[|d|] == '$';
  }

  lemma BareNotHosts(lib: Libraries, d: string, modifiers: string)
    requires Lawful(lib) && DomainShape(d) && Normalize(lib, d) == Some(d)
    requires IsImportant(modifiers)
    ensures ParseHosts(lib, d + (if modifiers == "" then "" else "$" + modifiers)) == []
  {
    var raw := d + (if modifiers == "" then "" else "$" + modifiers);
    BareVisible(d, modifiers);
    VisibleLine(raw);
    OneWord(raw);
    if modifiers != "" { DollarIsNoAddress(d, modifiers); } else { DomainIsNoAddress(lib, d); }
  }

  lemma DomainIsNoAddress(lib: Libraries, d: string)
    requires Lawful(lib) && DomainShape(d) && Normalize(lib, d) == Some(d)
    ensures lib.ip(d).None?
  {
    PlainText(d);
    assert AddressShape(d) ==> LooksLikeIp(d);
  }

  lemma BareParsed(lib: Libraries, isAllow: bool, d: string, modifiers: string, plain: bool)
    requires Lawful(lib) && DomainShape(d) && Normalize(lib, d) == Some(d)
    requires IsImportant(modifiers)
    ensures var raw := AnchoredLine(isAllow, d, modifiers);
            ParseDomainRule(lib, raw, plain) == Finished(lib, Unmodified(raw, isAllow, d, plain), modifiers)
  {
    BareHead(isAllow, d, modifiers);
    BareName(d);
    NamedRule(lib, AnchoredLine(isAllow, d, modifiers), isAllow, d, modifiers, plain);
  }

  lemma BareHead(isAllow: bool, d: string, modifiers: string)
    requires DomainShape(d)
    ensures var raw := AnchoredLine(isAllow, d, modifiers);
            && StartsWith(raw, "@@") == isAllow && Strip(d) == d
            && Before(if isAllow then raw[2..] else raw, '$') == d
            && After(if isAllow then raw[2..] else raw, '$') == modifiers
  {
    BareVisible(d, "");
    AnchoredHead(isAllow, d, modifiers);
    StripFixed(d);
  }

  lemma NamedRule(lib: Libraries, raw: string, isAllow: bool, d: string, modifiers: string, plain: bool)
    requires StartsWith(raw, "@@") == isAllow && Normalize(lib, d) == Some(d)
    requires Before(if isAllow then raw[2..] else raw, '$') == d && Strip(d) == d
    requires After(if isAllow then raw[2..] else raw, '$') == modifiers
    requires !StartsWith(d, "||") && !StartsWith(d, "|") && NamePart(d) == Some(d)
    ensures ParseDomainRule(lib, raw, plain) == Finished(lib, Unmodified(raw, isAllow, d, plain), modifiers)
  {
  }

  lemma BareName(d: string)
    requires DomainShape(d)
    ensures !StartsWith(d, "||") && !StartsWith(d, "|") && NamePart(d) == Some(d)
  {
    NotStartsWith(d, "|", 0);
    assert !StartsWith(d, "||") by { NotStartsWith(d, "||", 0); }
    SplitNone(d, '^');
    SplitNone(d, '|');
  }

  lemma BareClassified(lib: Libraries, isAllow: bool, d: string, modifiers: string)
    requires Lawful(lib) && DomainShape(d) && Normalize(lib, d) == Some(d)
    requires IsImportant(modifiers)
    ensures var raw := AnchoredLine(isAllow, d, modifiers);
            raw != "" && Strip(raw) == raw && Classify(lib, raw) == DomainLine
  {
    BareLine(isAllow, d, modifiers);
    BareHostless(lib, isAllow, d, modifiers);
    DomainClassified(lib, AnchoredLine(isAllow, d, modifiers));
  }

  lemma BareLine(isAllow: bool, d: string, modifiers: string)
    requires DomainShape(d) && IsImportant(modifiers)
    ensures var raw := AnchoredLine(isAllow, d, modifiers);
            Clean(raw) && !StartsWith(raw, "@@/") && raw[0] != '/' && raw[0] != '!' && raw[0] != '#'
  {
    BareVisible(d, "");
    ImportantClean(modifiers);
    AnchoredClean(isAllow, d, modifiers);
    BareStart(isAllow, d, modifiers);
  }

  lemma BareHostless(lib: Libraries, isAllow: bool, d: string, modifiers: string)
    requires Lawful(lib) && DomainShape(d) && Normalize(lib, d) == Some(d)
    requires IsImportant(modifiers)
    ensures ParseHosts(lib, AnchoredLine(isAllow, d, modifiers)) == []
  {
    BareStart(isAllow, d, modifiers);
    if isAllow { NotHosts(lib, AnchoredLine(isAllow, d, modifiers)); } else { BareNotHosts(lib, d, modifiers); }
  }

  lemma BareStart(isAllow: bool, d: string, modifiers: string)
    requires DomainShape(d)
    ensures var raw := AnchoredLine(isAllow, d, modifiers);
            raw != "" && raw[0] == (if isAllow then '@' else d[0]) && !StartsWith(raw, "@@/")
    ensures !isAllow ==> AnchoredLine(isAllow, d, modifiers) == d + (if modifiers == "" then "" else "$" + modifiers)
  {
    var raw := AnchoredLine(isAllow, d, modifiers);
    assert isAllow ==> raw[2] == d[0];
    NotStartsWith(raw, "@@/", if isAllow then 2 else 0);
  }

  lemma BareMeans(lib: Libraries, isAllow: bool, d: string, word: string, plain: bool)
    requires Lawful(lib) && DomainShape(d) && Normalize(lib, d) == Some(d) && IsImportant(word)
    ensures var rules := ParseRule(lib, AnchoredLine(isAllow, d, word), plain);
            |rules| == 1 && MeansDomain(rules[0], isAllow, d, plain, if word == "" then 0 else 100)
  {
    var raw := AnchoredLine(isAllow, d, word);
    BareClassified(lib, isAllow, d, word);
    OneDomainRule(lib, raw, plain);
    BareParsed(lib, isAllow, d, word, plain);
    FinishedMeans(lib, raw, isAllow, d, plain, word);
  }

  lemma AnchoredMeans(lib: Libraries, isAllow: bool, subdomains: bool, d: string, word: string, plain: bool,
                      priority: nat)
    requires Lawful(lib) && DomainShape(d) && Normalize(lib, d) == Some(d) && (word != "" ==> Clean(word))
    requires var raw := AnchoredLine(isAllow, AnchoredName(subdomains, d), word);
             MeansDomain(Finished(lib, Unmodified(raw, isAllow, d, subdomains), word), isAllow, d, subdomains, priority)
    ensures var rules := ParseRule(lib, AnchoredLine(isAllow, AnchoredName(subdomains, d), word), plain);
            |rules| == 1 && MeansDomain(rules[0], isAllow, d, subdomains, priority)
  {
    ReparseLine(lib, isAllow, subdomains, d, word, plain);
  }

  lemma MarkedMeans(lib: Libraries, isAllow: bool, subdomains: bool, d: string, word: string, plain: bool)
    requires Lawful(lib) && DomainShape(d) && Normalize(lib, d) == Some(d) && IsImportant(word)
    ensures var rules := ParseRule(lib, AnchoredLine(isAllow, AnchoredName(subdomains, d), word), plain);
            |rules| == 1 && MeansDomain(rules[0], isAllow, d, subdomains, if word == "" then 0 else 100)
  {
    FinishedMeans(lib, AnchoredLine(isAllow, AnchoredName(subdomains, d), word), isAllow, d, subdomains, word);
    ImportantClean(word);
    AnchoredMeans(lib, isAllow, subdomains, d, word, plain, if word == "" then 0 else 100);
  }

  lemma DomainTextIs(isAllow: bool, anchor: Anchor, d: string, important: bool, word: string)
    requires word == if important then "important" else ""
    ensures DomainText(isAllow, anchor, d, important)
            == AnchoredLine(isAllow, if anchor.Bare? then d else AnchoredName(anchor.WithSubdomains?, d), word)
  {
  }

  /**
   A bare name, `|name^` and `||name^` block the name, or allow it after `@@`: the first with its
   subdomains exactly when the caller says so for bare names, the second never, the third always.
   `$important` raises the priority and changes nothing else.
   */
  lemma DomainLineMeans(lib: Libraries, isAllow: bool, anchor: Anchor, d: string, important: bool, plain: bool)
    requires Lawful(lib) && Normalize(lib, d) == Some(d)
    ensures var rules := ParseRule(lib, DomainText(isAllow, anchor, d, important), plain);
            && |rules| == 1
            && MeansDomain(rules[0], isAllow, d, if anchor.Bare? then plain else anchor.WithSubdomains?,
                           if important then 100 else 0)
  {
    NormalizeIdempotent(lib, d);
    var word := if important then "important" else "";
    DomainTextIs(isAllow, anchor, d, important, word);
    if anchor.Bare? {
      BareMeans(lib, isAllow, d, word, plain);
    } else {
      MarkedMeans(lib, isAllow, anchor.WithSubdomains?, d, word, plain);
    }
  }

  /**
   The stored text says nothing of the priority: a line and the same line with `$important` are
   duplicates of each other, although they differ in it.
   */
  lemma ImportanceNotStored(lib: Libraries, isAllow: bool, anchor: Anchor, d: string, plain: bool)
    requires Lawful(lib) && Normalize(lib, d) == Some(d)
    ensures var a, b := ParseRule(lib, DomainText(isAllow, anchor, d, false), plain),
                        ParseRule(lib, DomainText(isAllow, anchor, d, true), plain);
            && |a| == 1 && |b| == 1 && a[0].normalized == b[0].normalized && a[0].action == b[0].action
            && a[0].priority == 0 && b[0].priority == 100
  {
    DomainLineMeans(lib, isAllow, anchor, d, false, plain);
    DomainLineMeans(lib, isAllow, anchor, d, true, plain);
  }

  // ----- rewrite lines -----

  lemma SplitThree(x: string, y: string, z: string, c: char)
    requires c !in x && c !in y && c !in z
    ensures Split(x + [c] + (y + [c] + z), c) == [x, y, z]
  {
    SplitFirst(x, y + [c] + z, c);
    SplitFirst(y, z, c);
    SplitNone(z, c);
    assert [x] + ([y] + [z]) == [x, y, z];
  }

  lemma SplitFirst(x: string, rest: string, c: char)
    requires c !in x
    ensures Split(x + [c] + rest, c) == [x] + Split(rest, c)
  {
    var s := x + [c] + rest;
    assert s[|x|] == c && forall i :: 0 <= i < |x| ==> s[i] == x[i];
    assert IndexOf(s, c) == Some(|x|);
    assert s[..|x|] == x && s[|x| + 1..] == rest;
  }

  lemma CapitalWord(w: string)
    requires w != "" && forall i :: 0 <= i < |w| ==> 'A' <= w[i] <= 'Z'
    ensures Upper(Strip(w)) == w && ';' !in w && ',' !in w && '#' !in w && Clean(w)
  {
    StripFixed(w);
    NotCosmetic(w);
  }

  function Family(v4: bool): string { if v4 then "A" else "AAAA" }

  /** NOERROR, a record type and an address. */
  function LongForm(v4: bool, a: Address): string { "NOERROR" + ";" + (Family(v4) + ";" + a.text) }

  lemma ThreeParts(lib: Libraries, value: string, status: string, v4: bool, a: Address)
    requires Split(value, ';') == [status, Family(v4), a.text] && Upper(Strip(status)) == "NOERROR"
    requires Upper(Strip(Family(v4))) == Family(v4) && Family(true) != Family(false)
    requires Strip(a.text) == a.text && lib.ip(a.text) == Some(a)
    ensures ParseDnsRewrite(lib, value) == if v4 == a.v4 then Some(a) else None
  {
    var parts := Split(value, ';');
    assert parts[0] == status && parts[1] == Family(v4) && parts[2] == a.text;
  }

  lemma LongFormSplit(v4: bool, a: Address, status: string)
    requires status == "NOERROR" && ';' !in a.text
    ensures Split(LongForm(v4, a), ';') == [status, Family(v4), a.text]
    ensures Upper(Strip(status)) == status && Upper(Strip(Family(v4))) == Family(v4)
  {
    CapitalWord(status);
    CapitalWord(Family(v4));
    SplitThree(status, Family(v4), a.text, ';');
  }

  lemma LongFormParsed(lib: Libraries, v4: bool, a: Address)
    requires Printed(lib, a) && ModifierText(a.text)
    ensures ParseDnsRewrite(lib, LongForm(v4, a)) == if v4 == a.v4 then Some(a) else None
  {
    var status := "NOERROR";
    LongFormSplit(v4, a, status);
    FamiliesDiffer();
    StripFixed(a.text);
    ThreeParts(lib, LongForm(v4, a), status, v4, a);
  }

  lemma FamiliesDiffer()
    ensures Family(true) != Family(false)
  {
    assert |Family(true)| == 1 && |Family(false)| == 4;
  }

  lemma CleanAfter(left: string, right: string)
    requires Clean(left) && '#' !in left && Clean(right)
    ensures Clean(left + right)
  {
    var raw := left + right;
    assert raw[0] == left[0] && raw[|raw| - 1] == right[|right| - 1];
    if Cosmetic(raw) { CosmeticRight(left, right); }
  }

  lemma LongFormClean(v4: bool, a: Address)
    requires ModifierText(a.text)
    ensures Clean(LongForm(v4, a)) && ',' !in LongForm(v4, a)
  {
    CapitalWord("NOERROR");
    CapitalWord(Family(v4));
    CleanSign(";");
    CleanAfter("NOERROR", ";");
    CleanAfter(Family(v4), ";");
    CleanAfter(Family(v4) + ";", a.text);
    CleanAfter("NOERROR" + ";", Family(v4) + ";" + a.text);
  }

  lemma CleanSign(sign: string)
    requires |sign| == 1 && '!' <= sign[0] <= '~' && sign[0] != '#'
    ensures Clean(sign)
  {
    NotCosmetic(sign);
  }

  /** What `$dnsrewrite=` may be followed by: the address alone, or with its record type. */
  function RewriteOperand(a: Address, long: bool): string { if long then LongForm(a.v4, a) else a.text }

  lemma OperandParsed(lib: Libraries, a: Address, long: bool)
    requires Printed(lib, a) && ModifierText(a.text)
    ensures var value := RewriteOperand(a, long);
            ParseDnsRewrite(lib, value) == Some(a) && Clean(value) && ',' !in value
  {
    if long {
      LongFormParsed(lib, a.v4, a);
      LongFormClean(a.v4, a);
    } else {
      PlainDnsRewrite(lib, a);
    }
  }

  predicate MeansRewrite(r: Rule, d: string, subdomains: bool, a: Address) {
    && r.state == Valid && r.kind == Rewrite && r.action == Rewrites
    && r.domain == Some(d) && r.subdomains == subdomains && r.address == Some(a) && r.pattern.None? && r.priority == 0
    && r.normalized == ((if subdomains then "||" else "|") + d + "^") + "$dnsrewrite=" + a.text
  }

  /** `|name^$dnsrewrite=` and `||name^$dnsrewrite=` with either operand rewrite the name to the address. */
  lemma RewriteLineMeans(lib: Libraries, subdomains: bool, d: string, a: Address, long: bool, plain: bool)
    requires Lawful(lib) && Normalize(lib, d) == Some(d) && Printed(lib, a) && ModifierText(a.text)
    ensures var line := AnchoredLine(false, AnchoredName(subdomains, d), "dnsrewrite=" + RewriteOperand(a, long));
            var rules := ParseRule(lib, line, plain);
            |rules| == 1 && MeansRewrite(rules[0], d, subdomains, a)
  {
    NormalizeIdempotent(lib, d);
    var value := RewriteOperand(a, long);
    var line := AnchoredLine(false, AnchoredName(subdomains, d), "dnsrewrite=" + value);
    OperandParsed(lib, a, long);
    CleanModifier(value);
    ReparseLine(lib, false, subdomains, d, "dnsrewrite=" + value, plain);
    FinishedRewrite(lib, Unmodified(line, false, d, subdomains), a, value);
  }

  // ----- lines that are kept inactive -----

  predicate MeansInactive(r: Rule) { r.state == NotPreserved && r.kind == Unsupported && r.action == NoAction }

  lemma InactiveLine(lib: Libraries, isAllow: bool, subdomains: bool, d: string, modifier: string, plain: bool)
    requires Lawful(lib) && Normalize(lib, d) == Some(d) && Clean(modifier) && ',' !in modifier
    requires forall r: Rule :: r.state == Valid && (r.action == Allows <==> isAllow) ==>
                                 Modify(lib, r, modifier) == Inactive(r)
    ensures var rules := ParseRule(lib, AnchoredLine(isAllow, AnchoredName(subdomains, d), modifier), plain);
            |rules| == 1 && MeansInactive(rules[0])
  {
    NormalizeIdempotent(lib, d);
    var raw := AnchoredLine(isAllow, AnchoredName(subdomains, d), modifier);
    ReparseLine(lib, isAllow, subdomains, d, modifier, plain);
    SplitNone(modifier, ',');
    var rule := Unmodified(raw, isAllow, d, subdomains);
    assert Modify(lib, rule, modifier) == Inactive(rule);
  }

  /** A record type of the other family, or an exception with a rewrite, makes the rule inactive. */
  lemma UnfitRewriteInactive(lib: Libraries, isAllow: bool, subdomains: bool, d: string, a: Address, v4: bool,
                             plain: bool)
    requires Lawful(lib) && Normalize(lib, d) == Some(d) && Printed(lib, a) && ModifierText(a.text)
    requires isAllow || v4 != a.v4
    ensures var rules := ParseRule(lib, AnchoredLine(isAllow, AnchoredName(subdomains, d),
                                                     "dnsrewrite=" + LongForm(v4, a)), plain);
            |rules| == 1 && MeansInactive(rules[0])
  {
    var value := LongForm(v4, a);
    LongFormParsed(lib, v4, a);
    LongFormClean(v4, a);
    CleanModifier(value);
    RewritePiece(value);
    InactiveLine(lib, isAllow, subdomains, d, "dnsrewrite=" + value, plain);
  }

  lemma RewritePiece(value: string)
    requires Clean(value) && ',' !in value
    ensures var piece := "dnsrewrite=" + value;
            Strip(piece) == piece && ',' !in piece && piece != "" && Lower(Strip(Before(piece, '='))) == "dnsrewrite"
                && After(piece, '=') == value
  {
    assert "dnsrewrite=" + value == "dnsrewrite" + "=" + value;
    NamedPiece("dnsrewrite", value);
  }

  /** Any other modifier makes the rule inactive: nothing broader is put in its place. */
  lemma OtherModifierInactive(lib: Libraries, isAllow: bool, subdomains: bool, d: string, word: string, plain: bool)
    requires Lawful(lib) && Normalize(lib, d) == Some(d) && word != "important" && word != "dnsrewrite" && word != ""
    requires forall i :: 0 <= i < |word| ==> 'a' <= word[i] <= 'z' || word[i] == '-'
    ensures var rules := ParseRule(lib, AnchoredLine(isAllow, AnchoredName(subdomains, d), word), plain);
            |rules| == 1 && MeansInactive(rules[0])
  {
    CleanWord(word);
    StripFixed(word);
    SplitNone(word, '=');
    assert Lower(word) == word;
    InactiveLine(lib, isAllow, subdomains, d, word, plain);
  }

  // ----- hosts lines, patterns and comments -----

  /** A hosts line rewrites its name alone to the address; 0.0.0.0 and :: block it. */
  lemma HostsLineMeans(lib: Libraries, a: Address, d: string, plain: bool)
    requires Lawful(lib) && Normalize(lib, d) == Some(d) && Printed(lib, a) && TokenText(a.text)
    ensures var rules := ParseRule(lib, a.text + " " + d, plain);
            && |rules| == 1 && rules[0].state == Valid && rules[0].domain == Some(d) && !rules[0].subdomains
            && rules[0].priority == 0 && rules[0].pattern.None?
            && if a.text == "0.0.0.0" || a.text == "::"
               then rules[0].kind == Block && rules[0].action == Blocks && rules[0].address.None?
               else rules[0].kind == Rewrite && rules[0].action == Rewrites && rules[0].address == Some(a)
  {
    NormalizeIdempotent(lib, d);
    HostsReparsed(lib, a, d);
    HostsClean(a, d);
    assert AddressShape(a.text);
    HostsClassified(lib, a.text + " " + d);
  }

  /** `/pattern/` blocks what an accepted pattern matches, `@@/pattern/` lets it through. */
  lemma RegexLineMeans(lib: Libraries, isAllow: bool, pattern: string, plain: bool)
    requires pattern != "" && PatternAccepted(lib, pattern)
    ensures var rules := ParseRule(lib, (if isAllow then "@@" else "") + "/" + pattern + "/", plain);
            && |rules| == 1 && rules[0].state == Valid && rules[0].pattern == Some(pattern) && rules[0].domain.None?
            && rules[0].kind == (if isAllow then RegexAllow else RegexBlock)
            && rules[0].action == (if isAllow then Allows else Blocks) && rules[0].priority == 0
  {
    RegexClassified(lib, isAllow, pattern);
    RegexReparsed(lib, isAllow, pattern);
  }

  predicate Marks(t: string) { t != "" && forall i :: 0 <= i < |t| ==> t[i] == '!' || t[i] == '#' }

  lemma {:induction false} CommentMarks(marks: string, text: string)
    requires Marks(marks) && (text != "" ==> text[0] != '!' && text[0] != '#')
    ensures LStripMarks(marks + text) == text
    decreases |marks|
  {
    assert (marks + text)[1..] == marks[1..] + text;
    if |marks| > 1 {
      CommentMarks(marks[1..], text);
    } else {
      assert (marks + text)[1..] == text;
    }
  }

  lemma CommentRaw(marks: string, text: string)
    requires Marks(marks) && (text != "" ==> !IsSpace(text[|text| - 1]))
    requires forall i :: 0 <= i < |text| ==> !Control(text[i])
    ensures var raw := marks + text;
            && raw != "" && Strip(raw) == raw && (raw[0] == '!' || raw[0] == '#')
            && forall i :: 0 <= i < |raw| ==> !Control(raw[i])
  {
    var raw := marks + text;
    assert raw[0] == marks[0];
    assert forall i :: 0 <= i < |raw| ==> raw[i] == if i < |marks| then marks[i] else text[i - |marks|];
    StripFixed(raw);
  }

  lemma CommentParsed(lib: Libraries, raw: string, plain: bool)
    requires raw != "" && Strip(raw) == raw && (raw[0] == '!' || raw[0] == '#')
    requires forall i :: 0 <= i < |raw| ==> !Control(raw[i])
    ensures ParseRule(lib, raw, plain) == [CommentRule(raw)]
  {
    assert Control('\n') && Control('\r');
    assert Classify(lib, raw) == CommentLine;
    assert ParseRule(lib, raw, plain) == ParseAs(lib, raw, CommentLine, plain);
  }

  /** A line that starts with `!` or `#` is a comment and does nothing. */
  lemma CommentLineMeans(lib: Libraries, marks: string, text: string, plain: bool)
    requires Marks(marks) && forall i :: 0 <= i < |text| ==> !Control(text[i])
    requires text != "" ==> text[0] != '!' && text[0] != '#' && !IsSpace(text[|text| - 1])
    ensures var rules := ParseRule(lib, marks + text, plain);
            && |rules| == 1 && rules[0].state == Valid && rules[0].kind == Comment && rules[0].action == NoAction
            && rules[0].normalized == marks + text && rules[0].comment == Strip(text)
  {
    CommentRaw(marks, text);
    CommentMarks(marks, text);
    CommentParsed(lib, marks + text, plain);
  }
}
