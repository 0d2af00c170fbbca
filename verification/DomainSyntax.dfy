/**
 normalize_domain (app/alderpointdns_compiler.py) and the two library calls it and the
 rule parser depend on: IP address parsing and IDNA, taken as functions.
 */
module DomainSyntax {
  import opened Wrappers
  import opened Strings

  /** An address as ipaddress prints it. */
  datatype Address = Address(v4: bool, text: string)

  /** ipaddress.ip_address, the idna codec, and re.compile together with the POSIX check. */
  datatype Libraries = Libraries(
    ip: string -> Option<Address>,
    idna: string -> Option<string>,
    compiles: string -> bool)

  predicate Digit(c: char) { '0' <= c <= '9' }

  predicate HexDigit(c: char) { Digit(c) || 'a' <= c <= 'f' || 'A' <= c <= 'F' }

  predicate BaseChar(c: char) { HexDigit(c) || c == ':' || c == '.' }

  /** The printed text ends with t from k on: nothing, or a scope exactly as it was written. */
  predicate ScopeFrom(t: string, printed: string, k: nat) {
    && k <= |t| && |t| - k <= |printed|
    && printed[|printed| - (|t| - k)..] == t[k..]
    && forall i :: 0 <= i < |printed| - (|t| - k) ==> BaseChar(printed[i])
  }

  /** Canonical digits and separators, then the scope of the text that was parsed, if it has one. */
  predicate PrintedFrom(t: string, printed: string) {
    exists k: nat :: k <= |t| && ScopeFrom(t, printed, k)
  }

  /** The shapes of text that can be an address at all. */
  predicate AddressShape(t: string) {
    && t != ""
    && (if ':' in t then HexDigit(t[0]) || t[0] == ':'
        else '.' in t && Digit(t[0]) && Digit(t[|t| - 1]) && forall i :: 0 <= i < |t| ==> Digit(t[i]) || t[i] == '.')
  }

  /** What ipaddress promises: only these shapes parse, and printing then parsing gives the address back. */
  ghost predicate Lawful(lib: Libraries) {
    && (forall t :: lib.ip(t).Some? ==> AddressShape(t))
    && (forall t :: lib.ip(t).Some? ==> lib.ip(lib.ip(t).value.text) == lib.ip(t))
    && (forall t :: lib.ip(t).Some? ==> PrintedFrom(t, lib.ip(t).value.text))
  }

  predicate Edge(c: char) { 'a' <= c <= 'z' || Digit(c) || c == '_' }

  predicate LabelOk(l: string) {
    && 1 <= |l| <= 63
    && Edge(l[0]) && Edge(l[|l| - 1])
    && forall i :: 0 <= i < |l| ==> Edge(l[i]) || l[i] == '-'
  }

  /** DOMAIN_RE on the name with a dot appended: at least two labels, 253 characters in all. */
  predicate DomainPattern(v: string) {
    && |v| <= 253
    && |Split(v, '.')| >= 2
    && forall k :: 0 <= k < |Split(v, '.')| ==> LabelOk(Split(v, '.')[k])
  }

  predicate LooksLikeIp(v: string) {
    ':' in v || ('.' in v && forall i :: 0 <= i < |v| ==> Digit(v[i]) || v[i] == '.')
  }

  predicate Ascii(v: string) { forall i :: 0 <= i < |v| ==> v[i] < 128 as char }

  function StripDots(t: string): string { RStrip(LStrip(t, '.'), '.') }

  /** normalize_domain after stripping and lower-casing. */
  function NormalizeCore(lib: Libraries, value: string): (r: Option<string>)
    ensures r.Some? ==> DomainPattern(r.value) && !(LooksLikeIp(r.value) && lib.ip(r.value).Some?)
  {
    if value == "" || |value| > 253 then None
    else if '/' in value || ':' in value || '@' in value then None
    else
      match if Ascii(value) then Some(value) else lib.idna(value)
      case None => None
      case Some(v) =>
        if !DomainPattern(v) then None
        else if LooksLikeIp(v) && lib.ip(v).Some? then None
        else Some(v)
  }

  function Normalize(lib: Libraries, raw: string): (r: Option<string>)
    ensures r.Some? ==> DomainPattern(r.value) && !(LooksLikeIp(r.value) && lib.ip(r.value).Some?)
  {
    NormalizeCore(lib, Lower(StripDots(Strip(raw))))
  }

  // ----- which names are accepted, character by character -----

  predicate WordChar(c: char) { 'a' <= c <= 'z' || '0' <= c <= '9' || c == '_' }

  predicate DotWithin(v: string, i: nat) { exists j :: i <= j < i + 64 && j < |v| && v[j] == '.' }

  /** Words and hyphens between dots: no hyphen at a dot or at an end, nowhere 64 characters without a dot. */
  predicate DottedWords(v: string) {
    && v != "" && WordChar(v[0]) && WordChar(v[|v| - 1])
    && (forall i :: 0 <= i < |v| ==> WordChar(v[i]) || v[i] == '-' || v[i] == '.')
    && (forall i :: 0 < i < |v| - 1 && v[i] == '.' ==> WordChar(v[i - 1]) && WordChar(v[i + 1]))
    && (forall i :: 0 <= i <= |v| - 64 ==> DotWithin(v, i))
  }

  lemma OneLabelIff(l: string)
    requires '.' !in l
    ensures DottedWords(l) <==> LabelOk(l)
  {
    assert DottedWords(l) && |l| >= 64 ==> DotWithin(l, 0);
  }

  lemma DotBehind(left: string, rest: string, i: nat)
    requires DotWithin(left + rest, |left| + i)
    ensures DotWithin(rest, i)
  {
    var v, n := left + rest, |left|;
    var j :| n + i <= j < n + i + 64 && j < |v| && v[j] == '.';
    assert rest[j - n] == '.';
  }

  lemma FirstLabelParts(l: string, rest: string)
    requires '.' !in l && DottedWords(l + "." + rest)
    ensures LabelOk(l) && DottedWords(rest)
  {
    var v := l + "." + rest;
    var n := |l| + 1;
    assert v[|l|] == '.' && forall i :: 0 <= i < |l| ==> v[i] == l[i];
    assert forall i :: 0 <= i < |rest| ==> rest[i] == v[n + i];
    assert |rest| > 0 && |l| > 0;
    assert |v| >= 64 ==> DotWithin(v, 0);
    forall i | 0 <= i <= |rest| - 64
      ensures DotWithin(rest, i)
    {
      DotBehind(l + ".", rest, i);
    }
  }

  lemma FirstLabelWindow(l: string, rest: string, i: nat)
    requires LabelOk(l) && DottedWords(rest) && i + 64 <= |l + "." + rest|
    ensures DotWithin(l + "." + rest, i)
  {
    var v := l + "." + rest;
    var n := |l| + 1;
    if i >= n {
      assert DotWithin(rest, i - n);
      var j :| i - n <= j < i - n + 64 && j < |rest| && rest[j] == '.';
      assert v[n + j] == '.';
    } else {
      assert v[|l|] == '.';
    }
  }

  lemma FirstLabelJoins(l: string, rest: string)
    requires LabelOk(l) && DottedWords(rest)
    ensures DottedWords(l + "." + rest)
  {
    var v := l + "." + rest;
    var n := |l| + 1;
    assert v[|l|] == '.' && forall i :: 0 <= i < |l| ==> v[i] == l[i];
    assert forall i :: n <= i < |v| ==> v[i] == rest[i - n];
    forall i | 0 <= i <= |v| - 64
      ensures DotWithin(v, i)
    {
      FirstLabelWindow(l, rest, i);
    }
  }

  predicate LabelsOk(parts: seq<string>) { forall k :: 0 <= k < |parts| ==> LabelOk(parts[k]) }

  lemma LabelsCons(l: string, parts: seq<string>)
    ensures LabelsOk([l] + parts) <==> LabelOk(l) && LabelsOk(parts)
  {
    if LabelsOk([l] + parts) {
      assert LabelOk(([l] + parts)[0]);
      forall k | 0 <= k < |parts|
        ensures LabelOk(parts[k])
      {
        assert LabelOk(([l] + parts)[k + 1]);
      }
    }
  }

  lemma FirstLabelIff(l: string, rest: string)
    requires '.' !in l
    ensures DottedWords(l + "." + rest) <==> LabelOk(l) && DottedWords(rest)
  {
    if DottedWords(l + "." + rest) { FirstLabelParts(l, rest); }
    if LabelOk(l) && DottedWords(rest) { FirstLabelJoins(l, rest); }
  }

  lemma {:induction false} LabelsIff(v: string)
    ensures LabelsOk(Split(v, '.')) <==> DottedWords(v)
    ensures |Split(v, '.')| >= 2 <==> '.' in v
    decreases |v|
  {
    match IndexOf(v, '.')
    case None =>
      OneLabelIff(v);
      LabelsCons(v, []);
      assert [v] + [] == [v] && Split(v, '.') == [v];
    case Some(i) =>
      var l, rest := v[..i], v[i + 1..];
      assert v == l + "." + rest;
      LabelsIff(rest);
      LabelsCons(l, Split(rest, '.'));
      FirstLabelIff(l, rest);
  }

  lemma PatternIff(v: string)
    ensures DomainPattern(v) <==> |v| <= 253 && '.' in v && DottedWords(v)
  {
    LabelsIff(v);
  }

  // ----- normal forms -----

  /** Every character of a name, and its two ends. */
  predicate DomainShape(d: string) {
    && d != "" && Edge(d[0]) && Edge(d[|d| - 1])
    && forall i :: 0 <= i < |d| ==> Edge(d[i]) || d[i] == '-' || d[i] == '.'
  }

  lemma PlainText(d: string)
    requires DomainShape(d)
    ensures Strip(d) == d && StripDots(d) == d && Lower(d) == d && Ascii(d)
    ensures '/' !in d && ':' !in d && '@' !in d
  {
    assert forall i :: 0 <= i < |d| ==> LowerChar(d[i]) == d[i];
  }

  lemma NormalizeFixed(lib: Libraries, d: string)
    requires DomainPattern(d) && !(LooksLikeIp(d) && lib.ip(d).Some?)
    ensures DomainShape(d) && Normalize(lib, d) == Some(d)
  {
    PatternIff(d);
    PlainText(d);
  }

  /** A normalised name is in normal form: normalising it again returns it unchanged. */
  lemma NormalizeIdempotent(lib: Libraries, raw: string)
    requires Normalize(lib, raw).Some?
    ensures DomainShape(Normalize(lib, raw).value)
    ensures Normalize(lib, Normalize(lib, raw).value) == Normalize(lib, raw)
  {
    NormalizeFixed(lib, Normalize(lib, raw).value);
  }

  /** A text is its own normal form exactly when it is dotted words with a dot, not too long, and no address. */
  lemma NormalizedIff(lib: Libraries, v: string)
    ensures Normalize(lib, v) == Some(v)
            <==> |v| <= 253 && '.' in v && DottedWords(v) && !(LooksLikeIp(v) && lib.ip(v).Some?)
  {
    PatternIff(v);
    if DomainPattern(v) && !(LooksLikeIp(v) && lib.ip(v).Some?) { NormalizeFixed(lib, v); }
  }

  // ----- what normalising forgives -----

  /** The same letters, some of them in capitals. */
  predicate CaseOf(text: string, d: string) {
    |text| == |d| && forall i :: 0 <= i < |d| ==> text[i] == d[i] || ('a' <= d[i] <= 'z' && text[i] == d[i] - 'a' + 'A')
  }

  predicate AllAre(t: string, c: char) { forall i :: 0 <= i < |t| ==> t[i] == c }

  predicate Blank(t: string) { forall i :: 0 <= i < |t| ==> t[i] in " \t\n\r" }

  lemma {:induction false} LStripPadded(pad: string, t: string, c: char)
    requires AllAre(pad, c) && (t != "" ==> t[0] != c)
    ensures LStrip(pad + t, c) == t
    decreases |pad|
  {
    if pad == "" {
      assert pad + t == t;
    } else {
      assert (pad + t)[1..] == pad[1..] + t;
      LStripPadded(pad[1..], t, c);
    }
  }

  lemma {:induction false} RStripPadded(t: string, pad: string, c: char)
    requires AllAre(pad, c) && (t != "" ==> t[|t| - 1] != c)
    ensures RStrip(t + pad, c) == t
    decreases |pad|
  {
    if pad == "" {
      assert t + pad == t;
    } else {
      assert (t + pad)[..|t + pad| - 1] == t + pad[..|pad| - 1];
      RStripPadded(t, pad[..|pad| - 1], c);
    }
  }

  lemma {:induction false} StripPadded(left: string, t: string, right: string)
    requires Blank(left) && Blank(right) && t != "" && !IsSpace(t[0]) && !IsSpace(t[|t| - 1])
    ensures Strip(left + t + right) == t
    decreases |left| + |right|
  {
    var whole := left + t + right;
    if left != "" {
      assert whole[1..] == left[1..] + t + right && whole[0] == left[0];
      StripPadded(left[1..], t, right);
    } else if right != "" {
      assert whole[..|whole| - 1] == left + t + right[..|right| - 1] && whole[|whole| - 1] == right[|right| - 1];
      assert whole[0] == t[0];
      StripPadded(left, t, right[..|right| - 1]);
    } else {
      assert whole == t;
      StripFixed(t);
    }
  }

  lemma DotsStripped(before: string, text: string, after: string)
    requires AllAre(before, '.') && AllAre(after, '.') && text != "" && text[0] != '.' && text[|text| - 1] != '.'
    ensures StripDots(before + text + after) == text
  {
    assert before + text + after == before + (text + after);
    LStripPadded(before, text + after, '.');
    RStripPadded(text, after, '.');
  }

  lemma CaseLowered(text: string, d: string)
    requires DomainShape(d) && CaseOf(text, d)
    ensures Lower(text) == d && !IsSpace(text[0]) && !IsSpace(text[|text| - 1])
    ensures text[0] != '.' && text[|text| - 1] != '.'
  {
    assert forall i :: 0 <= i < |d| ==> LowerChar(text[i]) == d[i];
  }

  lemma DottedEnds(before: string, text: string, after: string)
    requires AllAre(before, '.') && AllAre(after, '.') && text != "" && !IsSpace(text[0]) && !IsSpace(text[|text| - 1])
    ensures var dotted := before + text + after;
            dotted != "" && !IsSpace(dotted[0]) && !IsSpace(dotted[|dotted| - 1])
  {
    var dotted := before + text + after;
    assert dotted[0] == (if before == "" then text[0] else '.');
    assert dotted[|dotted| - 1] == (if after == "" then text[|text| - 1] else '.');
  }

  lemma SameCore(lib: Libraries, raw: string, d: string)
    requires Lower(StripDots(Strip(raw))) == d == Lower(StripDots(Strip(d)))
    ensures Normalize(lib, raw) == Normalize(lib, d)
  {
  }

  /** A normalised name in any case, within any dots and blanks, normalises to that name. */
  lemma NormalizeVariants(lib: Libraries, d: string, text: string, before: string, after: string,
      left: string, right: string)
    requires Normalize(lib, d) == Some(d) && CaseOf(text, d)
    requires AllAre(before, '.') && AllAre(after, '.') && Blank(left) && Blank(right)
    ensures Normalize(lib, left + (before + text + after) + right) == Some(d)
  {
    NormalizeIdempotent(lib, d);
    CaseLowered(text, d);
    DottedEnds(before, text, after);
    StripPadded(left, before + text + after, right);
    DotsStripped(before, text, after);
    PlainText(d);
    SameCore(lib, left + (before + text + after) + right, d);
  }
}
