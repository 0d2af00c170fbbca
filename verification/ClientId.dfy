/**
 ClientIDs: canonical hexadecimal identifiers and the names that carry them, the
 DNS label (RFC 4648 section 6 base 32 when the hex does not fit), the SNI hostname
 and the DoH path.
 */
module ClientId {
  import opened Wrappers
  import opened Positional
  import opened Strings

  const SNI_SUFFIX := "clientid.alderpointdns.local"
  const LABEL_MAX := 63

  predicate IsHex(c: char) { '0' <= c <= '9' || 'a' <= c <= 'f' }

  predicate AllHex(t: string) { forall i :: 0 <= i < |t| ==> IsHex(t[i]) }

  /** What validate_clientid returns: lower-case hex of 192 or 256 bits. */
  predicate Canonical(h: string) { (|h| == 48 || |h| == 64) && AllHex(h) }

  function HexValue(c: char): nat
    requires IsHex(c)
  {
    if c <= '9' then (c - '0') as nat else (c - 'a') as nat + 10
  }

  function HexDigit(v: nat): char
    requires v < 16
  {
    if v < 10 then '0' + v as char else 'a' + (v - 10) as char
  }

  /** bytes.fromhex */
  function FromHex(h: string): (raw: seq<Byte>)
    requires AllHex(h) && |h| % 2 == 0
    ensures |raw| * 2 == |h|
  {
    if h == "" then [] else [HexValue(h[0]) * 16 + HexValue(h[1])] + FromHex(h[2..])
  }

  /** bytes.hex */
  function ToHex(raw: seq<Byte>): string {
    if raw == [] then "" else [HexDigit(raw[0] / 16), HexDigit(raw[0] % 16)] + ToHex(raw[1..])
  }

  lemma HexPair(a: char, b: char)
    requires IsHex(a) && IsHex(b)
    ensures var v := HexValue(a) * 16 + HexValue(b); v < 256 && HexDigit(v / 16) == a && HexDigit(v % 16) == b
  {
    assert HexDigit(HexValue(a)) == a && HexDigit(HexValue(b)) == b;
  }

  lemma {:induction false} HexRoundTrip(h: string)
    requires AllHex(h) && |h| % 2 == 0
    ensures ToHex(FromHex(h)) == h
  {
    if h != "" {
      HexPair(h[0], h[1]);
      HexRoundTrip(h[2..]);
      var raw := FromHex(h);
      assert raw[1..] == FromHex(h[2..]);
      assert h == [h[0], h[1]] + h[2..];
    }
  }

  // ----- base 32 -----

  function Char32(d: nat): char
    requires d < 32
  {
    if d < 26 then 'A' + d as char else '2' + (d - 26) as char
  }

  function Value32(c: char): Option<nat> {
    if 'A' <= c <= 'Z' then Some((c - 'A') as nat)
    else if '2' <= c <= '7' then Some((c - '2') as nat + 26)
    else None
  }

  function Chars32(ds: seq<nat>): string
    requires AllBelow(ds, 32)
  {
    seq(|ds|, i requires 0 <= i < |ds| => Char32(ds[i]))
  }

  /** The digits of a text, or None when some character is not in the alphabet. */
  function Values32(t: string): (r: Option<seq<nat>>)
    ensures r.Some? ==> |r.value| == |t| && AllBelow(r.value, 32)
  {
    if t == "" then Some([]) else
    match (Values32(t[..|t| - 1]), Value32(t[|t| - 1]))
    case (Some(ds), Some(d)) => Some(ds + [d])
    case _ => None
  }

  /** Pad characters standing for the unused tail of a quantum of r bytes, 0 < r < 5. */
  function PadChars(r: nat): nat {
    if r == 1 then 6 else if r == 2 then 4 else if r == 3 then 3 else 1
  }

  function Zeros(n: nat): seq<Byte> { seq(n, _ => 0) }

  function Quantum(raw: seq<Byte>): (ds: seq<nat>)
    requires |raw| == 5
    ensures |ds| == 8 && AllBelow(ds, 32)
  {
    DigitsShape(Value(raw, 256), 32, 8);
    Digits(Value(raw, 256), 32, 8)
  }

  /** Five bytes to eight digits at a time; the digits b32encode would pad with '=' are dropped. */
  function Encode32(raw: seq<Byte>): (ds: seq<nat>)
    ensures AllBelow(ds, 32)
  {
    if raw == [] then []
    else if |raw| < 5 then Quantum(raw + Zeros(5 - |raw|))[..8 - PadChars(|raw|)]
    else Quantum(raw[..5]) + Encode32(raw[5..])
  }

  function Bytes(v: nat): (raw: seq<Byte>)
    ensures |raw| == 5
  {
    DigitsShape(v, 256, 5);
    var ds := Digits(v, 256, 5);
    seq(5, i requires 0 <= i < 5 => ds[i])
  }

  /** Eight digits to five bytes at a time; a tail of 2, 4, 5 or 7 digits gives 1 to 4 bytes. */
  function Decode32(ds: seq<nat>): Option<seq<Byte>>
    requires AllBelow(ds, 32)
  {
    if ds == [] then Some([])
    else if |ds| >= 8 then
      (match Decode32(ds[8..]) case None => None case Some(rest) => Some(Bytes(Value(ds[..8], 32)) + rest))
    else
      var pad := 8 - |ds|;
      if pad in {1, 3, 4, 6} then Some(Bytes(Value(ds, 32) * Pow(32, pad))[..(43 - 5 * pad) / 8]) else None
  }

  lemma QuantumRoundTrip(raw: seq<Byte>)
    requires |raw| == 5
    ensures Value(Quantum(raw), 32) == Value(raw, 256)
    ensures Bytes(Value(raw, 256)) == raw
  {
    ValueBound(raw, 256);
    assert Pow(256, 5) == 0x100_0000_0000 == Pow(32, 8);
    ValueOfDigits(Value(raw, 256), 32, 8);
    DigitsOfValue(raw, 256);
  }

  lemma {:induction false} ZerosValue(raw: seq<Byte>, n: nat)
    ensures Value(raw + Zeros(n), 256) == Value(raw, 256) * Pow(256, n)
  {
    ValueOfConcat(raw, Zeros(n), 256);
    ZerosAreZero(n);
  }

  lemma {:induction false} ZerosAreZero(n: nat)
    ensures Value(Zeros(n), 256) == 0
  {
    if n > 0 {
      ZerosAreZero(n - 1);
      assert Zeros(n)[..n - 1] == Zeros(n - 1);
    }
  }

  lemma TailDivisible(x: nat, r: nat)
    requires 0 < r < 5
    ensures Pow(32, PadChars(r)) > 0 && (x * Pow(256, 5 - r)) % Pow(32, PadChars(r)) == 0
  {
    if r == 1 {
      assert Pow(256, 4) == 0x1_0000_0000 && Pow(32, 6) == 0x4000_0000;
      DivModOf(4 * x, 0x4000_0000, 0);
    } else if r == 2 {
      assert Pow(256, 3) == 0x100_0000 && Pow(32, 4) == 0x10_0000;
      DivModOf(16 * x, 0x10_0000, 0);
    } else if r == 3 {
      assert Pow(256, 2) == 0x1_0000 && Pow(32, 3) == 0x8000;
      DivModOf(2 * x, 0x8000, 0);
    } else {
      assert Pow(256, 1) == 256 && Pow(32, 1) == 32;
      DivModOf(8 * x, 32, 0);
    }
  }

  /** The dropped digits are zero, so decoding the kept ones gives the same quantum. */
  lemma TailRoundTrip(raw: seq<Byte>)
    requires 0 < |raw| < 5
    ensures Decode32(Encode32(raw)) == Some(raw)
  {
    var padded := raw + Zeros(5 - |raw|);
    TailDecodes(raw, padded);
    QuantumRoundTrip(padded);
    assert padded[..|raw|] == raw;
  }

  lemma TailDecodes(raw: seq<Byte>, padded: seq<Byte>)
    requires 0 < |raw| < 5 && padded == raw + Zeros(5 - |raw|)
    ensures Decode32(Encode32(raw)) == Some(Bytes(Value(padded, 256))[..|raw|])
  {
    TailLength(|raw|);
    KeptDigits(raw, padded);
    DecodeTail(Encode32(raw), PadChars(|raw|), Value(padded, 256));
  }

  lemma KeptDigits(raw: seq<Byte>, padded: seq<Byte>)
    requires 0 < |raw| < 5 && padded == raw + Zeros(5 - |raw|)
    ensures |Encode32(raw)| == 8 - PadChars(|raw|)
    ensures Value(Encode32(raw), 32) * Pow(32, PadChars(|raw|)) == Value(padded, 256)
  {
    QuantumRoundTrip(padded);
    ZerosValue(raw, 5 - |raw|);
    TailDivisible(Value(raw, 256), |raw|);
    LowDigitsZero(Quantum(padded), PadChars(|raw|), 32);
    EncodeTail(raw, padded);
  }

  lemma TailLength(r: nat)
    requires 0 < r < 5
    ensures PadChars(r) in {1, 3, 4, 6} && (43 - 5 * PadChars(r)) / 8 == r
  {
  }

  lemma EncodeTail(raw: seq<Byte>, padded: seq<Byte>)
    requires 0 < |raw| < 5 && padded == raw + Zeros(5 - |raw|)
    ensures Encode32(raw) == Quantum(padded)[..8 - PadChars(|raw|)]
  {
  }

  lemma DecodeTail(ds: seq<nat>, pad: nat, v: nat)
    requires AllBelow(ds, 32) && pad in {1, 3, 4, 6} && |ds| == 8 - pad
    requires Value(ds, 32) * Pow(32, pad) == v
    ensures Decode32(ds) == Some(Bytes(v)[..(43 - 5 * pad) / 8])
  {
  }

  /** Base 32 without padding loses nothing, for any byte string. */
  lemma {:induction false} Base32RoundTrip(raw: seq<Byte>)
    ensures Decode32(Encode32(raw)) == Some(raw)
  {
    if raw == [] {
    } else if |raw| < 5 {
      TailRoundTrip(raw);
    } else {
      Base32RoundTrip(raw[5..]);
      QuantumRoundTrip(raw[..5]);
      var ds := Encode32(raw);
      assert ds[..8] == Quantum(raw[..5]) && ds[8..] == Encode32(raw[5..]);
      assert raw == raw[..5] + raw[5..];
    }
  }

  lemma {:induction false} EncodedLength(raw: seq<Byte>)
    ensures |Encode32(raw)| == (|raw| / 5) * 8 + (if |raw| % 5 == 0 then 0 else 8 - PadChars(|raw| % 5))
  {
    if |raw| >= 5 {
      EncodedLength(raw[5..]);
    }
  }

  // ----- what the encoding is: the alphabets, and one number in two bases -----

  /** Lower-case hexadecimal digits. */
  lemma HexAlphabet(v: nat)
    requires v < 16
    ensures HexDigit(v) == "0123456789abcdef"[v] && IsHex(HexDigit(v)) && HexValue(HexDigit(v)) == v
  {
  }

  /** The alphabet of RFC 4648 section 6, in lower case. */
  lemma Base32Alphabet(v: nat)
    requires v < 32
    ensures LowerChar(Char32(v)) == "abcdefghijklmnopqrstuvwxyz234567"[v] && Value32(Char32(v)) == Some(v)
  {
  }

  /** Two hexadecimal digits a byte, the high one first. */
  lemma {:induction false} HexBytes(h: string, k: nat)
    requires AllHex(h) && |h| % 2 == 0 && k < |h| / 2
    ensures FromHex(h)[k] == 16 * HexValue(h[2 * k]) + HexValue(h[2 * k + 1])
  {
    if k > 0 { HexBytes(h[2..], k - 1); }
  }

  /** Bits added to make up the last digit. */
  predicate FillBits(raw: seq<Byte>, b: nat) { b < 5 && 5 * |Encode32(raw)| == 8 * |raw| + b }

  lemma TailNumber(raw: seq<Byte>) returns (b: nat)
    requires 0 < |raw| < 5
    ensures FillBits(raw, b) && Value(Encode32(raw), 32) == Value(raw, 256) * Pow(2, b)
  {
    var r, padded := |raw|, raw + Zeros(5 - |raw|);
    b := if r == 1 then 2 else if r == 2 then 4 else if r == 3 then 1 else 3;
    KeptDigits(raw, padded);
    ZerosValue(raw, 5 - r);
    TailRatio(r, b, Value(Encode32(raw), 32), Value(raw, 256));
  }

  lemma TailRatio(r: nat, b: nat, digits: nat, bytes: nat)
    requires 0 < r < 5 && b == if r == 1 then 2 else if r == 2 then 4 else if r == 3 then 1 else 3
    requires digits * Pow(32, PadChars(r)) == bytes * Pow(256, 5 - r)
    ensures digits == bytes * Pow(2, b)
  {
    if r == 1 {
      assert Pow(256, 4) == 0x1_0000_0000 && Pow(32, 6) == 0x4000_0000 && Pow(2, 2) == 4;
    } else if r == 2 {
      assert Pow(256, 3) == 0x100_0000 && Pow(32, 4) == 0x10_0000 && Pow(2, 4) == 16;
    } else if r == 3 {
      assert Pow(256, 2) == 0x1_0000 && Pow(32, 3) == 0x8000 && Pow(2, 1) == 2;
    } else {
      assert Pow(256, 1) == 256 && Pow(32, 1) == 32 && Pow(2, 3) == 8;
    }
  }

  lemma PowersMeet(m: nat, k: nat, b: nat)
    requires 5 * m == 8 * k + b
    ensures Pow(32, m) == Pow(256, k) * Pow(2, b)
  {
    assert Pow(2, 5) == 32 && Pow(2, 8) == 256;
    PowOfTwo(32, 5, m);
    PowOfTwo(256, 8, k);
    PowSum(2, 8 * k, b);
  }

  lemma Factor(a: nat, p: nat, c: nat, t: nat)
    ensures (a * p + c) * t == a * (p * t) + c * t
  {
    Regroup(a, p, c, t, 0);
    MulSwap(t, p);
  }

  lemma MulSwap(t: nat, p: nat)
    ensures t * p == p * t
  {
  }

  /**
   The digits are the number the bytes are, big-endian, followed by fewer than five zero bits:
   with the alphabet this is the encoding of RFC 4648 section 6 without its padding.
   */
  lemma {:induction false} Base32Number(raw: seq<Byte>) returns (b: nat)
    ensures FillBits(raw, b) && Value(Encode32(raw), 32) == Value(raw, 256) * Pow(2, b)
  {
    if raw == [] {
      b := 0;
    } else if |raw| < 5 {
      b := TailNumber(raw);
    } else {
      b := Base32Number(raw[5..]);
      WholeQuantum(raw, b);
    }
  }

  lemma WholeQuantum(raw: seq<Byte>, b: nat)
    requires |raw| >= 5 && FillBits(raw[5..], b)
    requires Value(Encode32(raw[5..]), 32) == Value(raw[5..], 256) * Pow(2, b)
    ensures FillBits(raw, b) && Value(Encode32(raw), 32) == Value(raw, 256) * Pow(2, b)
  {
    var head, rest := Quantum(raw[..5]), Encode32(raw[5..]);
    assert Encode32(raw) == head + rest;
    QuantumRoundTrip(raw[..5]);
    ValueOfConcat(head, rest, 32);
    assert raw == raw[..5] + raw[5..];
    ValueOfConcat(raw[..5], raw[5..], 256);
    PowersMeet(|rest|, |raw| - 5, b);
    assert Pow(256, |raw[5..]|) == Pow(256, |raw| - 5);
    Combined(Value(raw[..5], 256), Pow(256, |raw| - 5), Value(raw[5..], 256), Pow(2, b), Pow(32, |rest|),
             Value(Encode32(raw), 32), Value(raw, 256));
  }

  lemma Combined(a: nat, p: nat, c: nat, t: nat, q: nat, digits: nat, bytes: nat)
    requires digits == a * q + c * t && q == p * t && bytes == a * p + c
    ensures digits == bytes * t
  {
    Factor(a, p, c, t);
  }

  lemma {:induction false} CharsRoundTrip(ds: seq<nat>)
    requires AllBelow(ds, 32)
    ensures Values32(Chars32(ds)) == Some(ds)
  {
    if ds != [] {
      CharsRoundTrip(ds[..|ds| - 1]);
      assert Chars32(ds)[..|ds| - 1] == Chars32(ds[..|ds| - 1]);
      assert ds == ds[..|ds| - 1] + [ds[|ds| - 1]];
    }
  }

  // ----- the label -----

  function DnsLabel(h: string): string
    requires Canonical(h)
  {
    if |h| <= LABEL_MAX then h else Lower(Chars32(Encode32(FromHex(h))))
  }

  /** '=' signs added to reach a multiple of eight characters. */
  function PadOf(n: nat): nat { (n + 7) / 8 * 8 - n }

  /** b32decode of the upper-cased text padded with '=' to a multiple of eight. */
  function FromBase32(text: string): Result<string, string> {
    var digits := RStrip(Upper(text), '=');
    var padchars := PadOf(|text|) + (|text| - |digits|);
    match Values32(digits)
    case None => Err("not a valid ClientID or DNS-safe label")
    case Some(ds) =>
      if padchars !in {0, 1, 3, 4, 6} then Err("not a valid ClientID or DNS-safe label") else
      match Decode32(ds)
      case None => Err("not a valid ClientID or DNS-safe label")
      case Some(raw) => Ok(ToHex(raw))
  }

  function FromDnsLabel(dnsLabel: string): Result<string, string> {
    var text := Lower(Strip(dnsLabel));
    if text != "" && AllHex(text) && (|text| == 48 || |text| == 64) then Ok(text) else FromBase32(text)
  }

  lemma Base32Text(ds: seq<nat>)
    requires AllBelow(ds, 32) && ds != []
    ensures Upper(Lower(Chars32(ds))) == Chars32(ds)
    ensures Lower(Lower(Chars32(ds))) == Lower(Chars32(ds)) == Strip(Lower(Chars32(ds)))
    ensures RStrip(Chars32(ds), '=') == Chars32(ds)
    ensures '.' !in Lower(Chars32(ds))
  {
    var t := Chars32(ds);
    assert forall i :: 0 <= i < |t| ==> ('A' <= t[i] <= 'Z' || '2' <= t[i] <= '7');
    assert forall i :: 0 <= i < |t| ==> Lower(t)[i] == LowerChar(t[i]);
  }

  lemma HexText(h: string)
    requires Canonical(h)
    ensures Lower(h) == h == Strip(h) && '.' !in h
  {
  }

  lemma DigitsDecode(ds: seq<nat>, raw: seq<Byte>)
    requires AllBelow(ds, 32) && ds != [] && Decode32(ds) == Some(raw)
    requires PadOf(|ds|) < 5 && PadOf(|ds|) != 2 && |ds| != 48 && |ds| != 64
    ensures FromDnsLabel(Lower(Chars32(ds))) == Ok(ToHex(raw))
  {
    CharsRoundTrip(ds);
    Base32Text(ds);
  }

  lemma LongLabelRoundTrip(raw: seq<Byte>)
    requires |raw| == 32
    ensures FromDnsLabel(Lower(Chars32(Encode32(raw)))) == Ok(ToHex(raw))
  {
    EncodedLength(raw);
    var ds := Encode32(raw);
    assert |ds| == 52 && PadOf(52) == 4;
    assert Decode32(ds) == Some(raw) by { Base32RoundTrip(raw); }
    DigitsDecode(ds, raw);
  }

  /** Both label forms lead back to the identifier they came from. */
  lemma LabelRoundTrip(h: string)
    requires Canonical(h)
    ensures FromDnsLabel(DnsLabel(h)) == Ok(h)
  {
    HexText(h);
    if |h| == 64 {
      LongLabelRoundTrip(FromHex(h));
      HexRoundTrip(h);
    }
  }

  lemma LabelFits(h: string)
    requires Canonical(h)
    ensures |DnsLabel(h)| <= LABEL_MAX && '.' !in DnsLabel(h)
  {
    HexText(h);
    if |h| == 64 {
      EncodedLength(FromHex(h));
      Base32Text(Encode32(FromHex(h)));
    }
  }

  // ----- the names that carry an identifier -----

  function SniHostname(h: string): string
    requires Canonical(h)
  {
    DnsLabel(h) + "." + SNI_SUFFIX
  }

  function DohPath(base: string, h: string): string {
    RStrip(base, '/') + "/" + h
  }

  /** The leftmost label of the hostname leads back to the identifier; the rest is the service's name. */
  lemma SniLeadsBack(h: string)
    requires Canonical(h)
    ensures Before(SniHostname(h), '.') == DnsLabel(h) && FromDnsLabel(Before(SniHostname(h), '.')) == Ok(h)
    ensures After(SniHostname(h), '.') == SNI_SUFFIX
  {
    LabelFits(h);
    assert SniHostname(h) == DnsLabel(h) + ['.'] + SNI_SUFFIX;
    PartitionAt(SniHostname(h), DnsLabel(h), '.', SNI_SUFFIX);
    LabelRoundTrip(h);
  }

  /** A 192-bit label is the identifier itself; a 256-bit one is 52 digits of base 32, four zero bits at the end. */
  lemma LabelIs(h: string)
    requires Canonical(h)
    ensures |h| == 48 ==> DnsLabel(h) == h
    ensures |h| == 64 ==>
              var raw := FromHex(h);
              && |raw| == 32 && |DnsLabel(h)| == 52 && |Encode32(raw)| == 52
              && Value(Encode32(raw), 32) == 16 * Value(raw, 256)
              && forall i :: 0 <= i < 52 ==>
                               DnsLabel(h)[i] == "abcdefghijklmnopqrstuvwxyz234567"[Encode32(raw)[i]]
  {
    if |h| == 64 { LongLabelIs(FromHex(h)); }
  }

  lemma LongLength(raw: seq<Byte>)
    requires |raw| == 32
    ensures |Encode32(raw)| == 52
  {
    EncodedLength(raw);
  }

  lemma Sixteenfold(x: nat, y: nat, p: nat)
    requires x == y * p && p == 16
    ensures x == 16 * y
  {
  }

  lemma LongNumber(raw: seq<Byte>)
    requires |raw| == 32 && |Encode32(raw)| == 52
    ensures Value(Encode32(raw), 32) == 16 * Value(raw, 256)
  {
    var b := Base32Number(raw);
    FourBits(raw, b);
    Sixteenfold(Value(Encode32(raw), 32), Value(raw, 256), Pow(2, b));
  }

  lemma LongLabelIs(raw: seq<Byte>)
    requires |raw| == 32
    ensures var ds, text := Encode32(raw), Lower(Chars32(Encode32(raw)));
            && |ds| == 52 && |text| == 52 && Value(ds, 32) == 16 * Value(raw, 256)
            && forall i :: 0 <= i < 52 ==> text[i] == "abcdefghijklmnopqrstuvwxyz234567"[ds[i]]
  {
    LongLength(raw);
    LongNumber(raw);
    LowerDigits(Encode32(raw));
  }

  lemma FourBits(raw: seq<Byte>, b: nat)
    requires |raw| == 32 && |Encode32(raw)| == 52 && FillBits(raw, b)
    ensures b == 4 && Pow(2, b) == 16
  {
    assert Pow(2, 4) == 16;
  }

  lemma LowerDigits(ds: seq<nat>)
    requires AllBelow(ds, 32)
    ensures forall i :: 0 <= i < |ds| ==> Lower(Chars32(ds))[i] == "abcdefghijklmnopqrstuvwxyz234567"[ds[i]]
  {
    forall i | 0 <= i < |ds|
      ensures Lower(Chars32(ds))[i] == "abcdefghijklmnopqrstuvwxyz234567"[ds[i]]
    {
      Base32Alphabet(ds[i]);
    }
  }

  /** The path is the base without its trailing slashes, a slash and the identifier. */
  lemma {:induction false} DohPathIs(stem: string, n: nat, h: string)
    requires stem == "" || stem[|stem| - 1] != '/'
    ensures DohPath(stem + seq(n, _ => '/'), h) == stem + "/" + h
  {
    var base := stem + seq(n, _ => '/');
    if n == 0 {
      assert base == stem;
    } else {
      assert base[..|base| - 1] == stem + seq(n - 1, _ => '/');
      DohPathIs(stem, n - 1, h);
    }
  }

  lemma SniInjective(a: string, b: string)
    requires Canonical(a) && Canonical(b) && SniHostname(a) == SniHostname(b)
    ensures a == b
  {
    SameEnding(DnsLabel(a) + ".", DnsLabel(b) + ".", SNI_SUFFIX);
    SameEnding(DnsLabel(a), DnsLabel(b), ".");
    LabelRoundTrip(a);
    LabelRoundTrip(b);
  }

  lemma SameEnding(a: string, b: string, end: string)
    requires a + end == b + end
    ensures a == b
  {
    assert |a| == |b|;
    assert a == (a + end)[..|a|] && b == (b + end)[..|b|];
  }

  lemma DohPathInjective(base: string, a: string, b: string)
    requires DohPath(base, a) == DohPath(base, b)
    ensures a == b
  {
    var k := |RStrip(base, '/') + "/"|;
    assert DohPath(base, a)[k..] == a && DohPath(base, b)[k..] == b;
  }

  /** A request to the plain DoH path never looks like one that presents an identifier. */
  lemma PlainPathPresentsNothing(base: string, h: string)
    requires Canonical(h)
    ensures DohPath(base, h) != base
  {
    RStripPrefix(base, '/');
    var p := DohPath(base, h);
    assert p[|p| - 1] == h[|h| - 1] && IsHex(h[|h| - 1]);
    assert |p| > |RStrip(base, '/')|;
  }
}
