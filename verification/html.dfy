/** Escaping and unescaping HTML text (src/html/escape.go): in-place rewriting and the round trip. */
module Html {
  import opened Wrappers
  import opened Bits

  const AMP: byte := 38
  const HASH: byte := 35
  const SEMICOLON: byte := 59
  const EQUALS: byte := 61

  // ---- UTF-8 ----

  /** utf8.EncodeRune (section 3 of RFC 3629); what is not a code point becomes U+FFFD. */
  function EncodeRune(r: int): (bytes: seq<byte>)
    ensures 1 <= |bytes| <= 4
  {
    if 0 <= r <= 0x7f then [r]
    else if 0 <= r <= 0x7ff then [0xc0 + r / 64, 0x80 + r % 64]
    else
      var x := if r < 0 || r > 0x10ffff || 0xd800 <= r <= 0xdfff then 0xfffd else r;
      if x <= 0xffff then [0xe0 + x / 4096, 0x80 + x / 64 % 64, 0x80 + x % 64]
      else [0xf0 + x / 262144, 0x80 + x / 4096 % 64, 0x80 + x / 64 % 64, 0x80 + x % 64]
  }

  /** Is this a code point that UTF-8 can express? */
  predicate Scalar(r: int) { 0 <= r <= 0x10ffff && !(0xd800 <= r <= 0xdfff) }

  /** Reading UTF-8: the first byte says how many follow, each of which adds six bits. */
  function DecodeRune(bytes: seq<byte>): int
    requires 1 <= |bytes| <= 4
  {
    var b0: int := bytes[0];
    if |bytes| == 1 then b0
    else
      var b1: int := bytes[1];
      if |bytes| == 2 then (b0 - 0xc0) * 0x40 + (b1 - 0x80)
      else
        var b2: int := bytes[2];
        if |bytes| == 3 then (b0 - 0xe0) * 0x1000 + (b1 - 0x80) * 0x40 + (b2 - 0x80)
        else
          var b3: int := bytes[3];
          (b0 - 0xf0) * 0x4_0000 + (b1 - 0x80) * 0x1000 + (b2 - 0x80) * 0x40 + (b3 - 0x80)
  }

  /** Every code point is encoded in the shortest form and read back; anything else gives U+FFFD. */
  lemma EncodeDecodes(r: int)
    ensures Scalar(r) ==> DecodeRune(EncodeRune(r)) == r
    ensures !Scalar(r) ==> EncodeRune(r) == [0xef, 0xbf, 0xbd]
    ensures Scalar(r) ==>
      |EncodeRune(r)| == (if r <= 0x7f then 1 else if r <= 0x7ff then 2 else if r <= 0xffff then 3 else 4)
    ensures var bytes := EncodeRune(r);
            && (|bytes| == 1 ==> bytes[0] < 0x80) && (|bytes| == 2 ==> 0xc2 <= bytes[0] < 0xe0)
            && (|bytes| == 3 ==> 0xe0 <= bytes[0] < 0xf0) && (|bytes| == 4 ==> 0xf0 <= bytes[0] < 0xf5)
            && forall i :: 1 <= i < |bytes| ==> 0x80 <= bytes[i] < 0xc0
  {
    if Scalar(r) && r > 0xffff {
      var q1, q2, q3 := r / 64, r / 4096, r / 262144;
      assert q2 == q1 / 64 && q3 == q2 / 64;
      assert r == 64 * q1 + r % 64 && q1 == 64 * q2 + q1 % 64 && q2 == 64 * q3 + q2 % 64;
    } else if Scalar(r) && r > 0x7ff {
      var q1, q2 := r / 64, r / 4096;
      assert q2 == q1 / 64 && r == 64 * q1 + r % 64 && q1 == 64 * q2 + q1 % 64;
    }
  }

  // ---- The entity tables ----

  /** Names to one or two code points; a name in neither table looks up as zero. */
  datatype Tables = Tables(entity: map<seq<byte>, int>, entity2: map<seq<byte>, (int, int)>) {
    function One(name: seq<byte>): int { if name in entity then entity[name] else 0 }

    function Two(name: seq<byte>): (int, int) { if name in entity2 then entity2[name] else (0, 0) }

    /** No encoding is longer than '&' and the name, as the repository's entity test demands. */
    ghost predicate Fit() {
      && (forall name :: name in entity ==> |EncodeRune(entity[name])| <= 1 + |name|)
      && (forall name :: name in entity2 ==>
            |EncodeRune(entity2[name].0)| + |EncodeRune(entity2[name].1)| <= 1 + |name|)
    }

    /** The entries that escaping relies on. */
    ghost predicate HasBasics() {
      && One([97, 109, 112, 59]) == 38
      && One([108, 116, 59]) == 60
      && One([103, 116, 59]) == 62
    }
  }

  const LONGEST_ENTITY_WITHOUT_SEMICOLON := 6

  /** Windows-1252 replacements for 0x80 to 0x9f. */
  const REPLACEMENT_TABLE: seq<int> := [
    0x20ac, 0x81, 0x201a, 0x192, 0x201e, 0x2026, 0x2020, 0x2021, 0x2c6, 0x2030, 0x160, 0x2039, 0x152, 0x8d, 0x17d, 0x8f,
    0x90, 0x2018, 0x2019, 0x201c, 0x201d, 0x2022, 0x2013, 0x2014, 0x2dc, 0x2122, 0x161, 0x203a, 0x153, 0x9d,
    0x17e, 0x178]

  // ---- Unescaping, written to a fresh output ----

  /** int32 arithmetic wraps. */
  function Wrap32(v: int): int { (v + 0x8000_0000) % 0x1_0000_0000 - 0x8000_0000 }

  function DigitValue(c: byte, hex: bool): Option<int> {
    if 48 <= c <= 57 then Some(c - 48)
    else if hex && 97 <= c <= 102 then Some(c - 97 + 10)
    else if hex && 65 <= c <= 70 then Some(c - 65 + 10)
    else None
  }

  /** The number whose digits start at i, with x read so far, and the index after it and after one
      semicolon. */
  function Number(s: seq<byte>, i: nat, hex: bool, x: int): (r: (int, nat))
    requires i <= |s|
    ensures i <= r.1 <= |s|
    decreases |s| - i
  {
    if i == |s| then (x, i)
    else
      var d := DigitValue(s[i], hex);
      if d.Some? then Number(s, i + 1, hex, Wrap32((if hex then 16 else 10) * x + d.value))
      else (x, if s[i] == SEMICOLON then i + 1 else i)
  }

  predicate Alphanumeric(c: byte) { 97 <= c <= 122 || 65 <= c <= 90 || 48 <= c <= 57 }

  /** The index after the name that starts at i, one semicolon included. */
  function NameEnd(s: seq<byte>, i: nat): (r: nat)
    requires i <= |s|
    ensures i <= r <= |s|
    decreases |s| - i
  {
    if i == |s| then i
    else if Alphanumeric(s[i]) then NameEnd(s, i + 1)
    else if s[i] == SEMICOLON then i + 1
    else i
  }

  function Replaced(x: int): int {
    if 0x80 <= x <= 0x9f then REPLACEMENT_TABLE[x - 0x80]
    else if x == 0 || 0xd800 <= x <= 0xdfff || x > 0x10ffff then 0xfffd
    else x
  }

  /** The longest prefix of the name, from j down to two characters, that is an entity. */
  function LongestPrefix(t: Tables, name: seq<byte>, j: nat): (r: nat)
    requires j <= |name|
    ensures r <= j && (r > 0 ==> t.One(name[..r]) != 0)
  {
    if j <= 1 then 0 else if t.One(name[..j]) != 0 then j else LongestPrefix(t, name, j - 1)
  }

  /** No longer prefix is an entity. */
  lemma {:induction false} PrefixIsLongest(t: Tables, name: seq<byte>, j: nat)
    requires j <= |name|
    ensures var r := LongestPrefix(t, name, j);
            && r != 1 && (forall k :: 2 <= k <= j && r < k ==> t.One(name[..k]) == 0)
  {
    if j > 1 && t.One(name[..j]) == 0 { PrefixIsLongest(t, name, j - 1); }
  }

  /** What an entity at the front of s becomes, and how many bytes of s that takes. */
  function Entity(t: Tables, s: seq<byte>, attribute: bool): (r: (seq<byte>, nat))
    requires s != []
    ensures 1 <= r.1 <= |s|
  {
    if |s| <= 1 then (s[..1], 1)
    else if s[1] == HASH then
      if |s| <= 3 then (s[..1], 1)
      else
        var hex := s[2] == 120 || s[2] == 88;
        Numeric(s, hex)
    else
      var i := NameEnd(s, 1);
      Named(t, s, i, attribute)
  }

  /** A numeric reference; one digit without a semicolon after it is not taken for one. */
  function Numeric(s: seq<byte>, hex: bool): (r: (seq<byte>, nat))
    requires |s| > 3
    ensures 1 <= r.1 <= |s| && |r.0| <= r.1
  {
    var (x, i) := Number(s, if hex then 3 else 2, hex, 0);
    if i <= 3 then (s[..1], 1) else (EncodeRune(Replaced(x)), i)
  }

  /** A reference whose name is s[1..i]. */
  function Named(t: Tables, s: seq<byte>, i: nat, attribute: bool): (r: (seq<byte>, nat))
    requires 1 <= i <= |s|
    ensures 1 <= r.1 <= |s|
  {
    var name := s[1..i];
    if name == [] then (s[..i], i)
    else if attribute && name[|name| - 1] != SEMICOLON && |s| > i && s[i] == EQUALS then (s[..i], i)
    else if t.One(name) != 0 then (EncodeRune(t.One(name)), i)
    else if t.Two(name).0 != 0 then (EncodeRune(t.Two(name).0) + EncodeRune(t.Two(name).1), i)
    else if attribute then (s[..i], i)
    else
      var j := LongestPrefix(t, name, Min(|name| - 1, LONGEST_ENTITY_WITHOUT_SEMICOLON));
      if j > 0 then (EncodeRune(t.One(name[..j])), j + 1) else (s[..i], i)
  }

  /** No entity writes more bytes than it takes. */
  lemma EntityShrinks(t: Tables, s: seq<byte>, attribute: bool)
    requires t.Fit() && s != []
    ensures var (out, k) := Entity(t, s, attribute); |out| <= k
  {
  }

  /** Five of the Windows-1252 positions have no character and stay; the others become characters beyond
      Latin-1, in a few ranges of letters, accents, punctuation and symbols. */
  lemma ReplacementFacts()
    ensures |REPLACEMENT_TABLE| == 32
    ensures forall k :: 0 <= k < 32 ==>
      if k in {0x01, 0x0d, 0x0f, 0x10, 0x1d} then REPLACEMENT_TABLE[k] == 0x80 + k
      else 0x152 <= REPLACEMENT_TABLE[k] <= 0x192 || 0x2c6 <= REPLACEMENT_TABLE[k] <= 0x2dc
           || 0x2013 <= REPLACEMENT_TABLE[k] <= 0x2122
  {
  }

  /** Windows-1252 the other way round: its characters beyond Latin-1 by code point, each with its byte. */
  const WINDOWS_1252: seq<(int, nat)> := [
    (0x152, 0x8c), (0x153, 0x9c), (0x160, 0x8a), (0x161, 0x9a), (0x178, 0x9f), (0x17d, 0x8e), (0x17e, 0x9e),
    (0x192, 0x83), (0x2c6, 0x88), (0x2dc, 0x98), (0x2013, 0x96), (0x2014, 0x97), (0x2018, 0x91), (0x2019, 0x92),
    (0x201a, 0x82), (0x201c, 0x93), (0x201d, 0x94), (0x201e, 0x84), (0x2020, 0x86), (0x2021, 0x87), (0x2022, 0x95),
    (0x2026, 0x85), (0x2030, 0x89), (0x2039, 0x8b), (0x203a, 0x9b), (0x20ac, 0x80), (0x2122, 0x99)]

  /** Bytes 0x80 to 0x9f are read as Windows-1252, where five of them have no character. */
  lemma ReplacementsDecode(k: nat)
    requires k < |WINDOWS_1252|
    ensures |WINDOWS_1252| == 27 && Replaced(WINDOWS_1252[k].1) == WINDOWS_1252[k].0
    ensures k > 0 ==> WINDOWS_1252[k - 1].0 < WINDOWS_1252[k].0
  {
  }

  function DigitByte(d: nat): byte
    requires d < 16
  {
    if d < 10 then 48 + d else 97 + (d - 10)
  }

  /** The digits of n, most significant first. */
  function Digits(n: nat, base: nat): (ds: seq<byte>)
    requires base == 10 || base == 16
    ensures ds != []
  {
    (if n < base then [] else if base == 10 then Digits(n / 10, 10) else Digits(n / 16, 16)) + [DigitByte(n % base)]
  }

  lemma {:induction false} NumberReadsDigits(s: seq<byte>, i: nat, hex: bool, base: nat, ds: seq<byte>, n: nat)
    requires n <= 0x10ffff && base == (if hex then 16 else 10) && ds == Digits(n, base)
    requires i + |ds| <= |s| && forall k :: 0 <= k < |ds| ==> s[i + k] == ds[k]
    ensures Number(s, i, hex, 0) == Number(s, i + |ds|, hex, n)
    decreases n
  {
    hide Number, Digits, DigitValue, DigitByte, Wrap32;
    DigitsNext(n, base);
    assert s[i + (|ds| - 1)] == ds[|ds| - 1] == DigitByte(n % base);
    DigitReads(n % base, hex);
    WrapsNot(n);
    if n < base {
      NumberNext(s, i, hex, 0);
    } else {
      var front := Digits(n / base, base);
      assert |ds| == |front| + 1 && forall k :: 0 <= k < |front| ==> ds[k] == front[k];
      NumberReadsDigits(s, i, hex, base, front, n / base);
      NumberNext(s, i + |front|, hex, n / base);
    }
  }

  lemma DigitsNext(n: nat, base: nat)
    requires base == 10 || base == 16
    ensures Digits(n, base) == (if n < base then [] else Digits(n / base, base)) + [DigitByte(n % base)]
    ensures n < base ==> n % base == n
    ensures base * (n / base) + n % base == n
  {
    hide Digits;
    DigitsUnfold(n, base);
    if base == 10 { assert 10 * (n / 10) + n % 10 == n; } else { assert 16 * (n / 16) + n % 16 == n; }
  }

  lemma DigitsUnfold(n: nat, base: nat)
    requires base == 10 || base == 16
    ensures Digits(n, base) == (if n < base then [] else Digits(n / base, base)) + [DigitByte(n % base)]
  {
  }

  lemma WrapsNot(n: nat)
    requires n <= 0x10ffff
    ensures Wrap32(n) == n
  {
  }

  lemma DigitReads(d: nat, hex: bool)
    requires d < if hex then 16 else 10
    ensures DigitValue(DigitByte(d), hex) == Some(d)
  {
  }

  /** Every number has a numeric reference, decimal and hexadecimal, that is decoded to it. */
  lemma NumericReference(t: Tables, n: nat, hex: bool, rest: seq<byte>)
    requires n <= 0x10ffff
    ensures var s := (if hex then [38, 35, 120] else [38, 35]) + Digits(n, if hex then 16 else 10) + [59] + rest;
            && Unescape(t, s) == EncodeRune(Replaced(n)) + Unescape(t, rest)
            && (Scalar(n) && n != 0 && !(0x80 <= n <= 0x9f) ==> Replaced(n) == n)
            && (!Scalar(n) || n == 0 ==> Replaced(n) == 0xfffd)
  {
    hide EncodeRune, Replaced, Unescape, Number, Digits;
    var head: seq<byte>, ds := if hex then [38, 35, 120] else [38, 35], Digits(n, if hex then 16 else 10);
    var s := head + ds + [59] + rest;
    var i := |head| + |ds|;
    assert s[|head|..i] == ds && s[i] == 59 && s[i + 1..] == rest;
    assert s[0] == 38 && s[1] == 35 && (hex ==> s[2] == 120);
    assert !hex ==> s[2] == ds[0] && ds[0] != 120 && ds[0] != 88 by { DigitIsNoX(n, if hex then 16 else 10); }
    NumberReadsDigits(s, |head|, hex, if hex then 16 else 10, ds, n);
    NumberNext(s, i, hex, n);
    assert Entity(t, s, false) == (EncodeRune(Replaced(n)), i + 1);
    UnescapeStep(t, s);
    ReplacedIsSelf(n);
  }

  lemma {:induction false} DigitIsNoX(n: nat, base: nat)
    requires base == 10 || base == 16
    ensures forall k :: 0 <= k < |Digits(n, base)| ==> Digits(n, base)[k] != 120 && Digits(n, base)[k] != 88
    decreases n
  {
    if n >= base { DigitIsNoX(n / base, base); }
  }

  lemma ReplacedIsSelf(n: nat)
    ensures Scalar(n) && n != 0 && !(0x80 <= n <= 0x9f) ==> Replaced(n) == n
    ensures !Scalar(n) || n == 0 ==> Replaced(n) == 0xfffd
  {
  }

  /** The name of a reference: letters and digits up to a semicolon, which belongs to it, or up to
      something else. */
  ghost predicate IsName(s: seq<byte>, i: nat) {
    && 1 <= i <= |s|
    && if i > 1 && s[i - 1] == SEMICOLON then forall k :: 1 <= k < i - 1 ==> Alphanumeric(s[k])
       else (forall k :: 1 <= k < i ==> Alphanumeric(s[k])) && (i < |s| ==> !Alphanumeric(s[i]) && s[i] != SEMICOLON)
  }

  lemma {:induction false} NameEndIs(s: seq<byte>, from: nat)
    requires 1 <= from <= |s| && forall k :: 1 <= k < from ==> Alphanumeric(s[k])
    ensures IsName(s, NameEnd(s, from))
    decreases |s| - from
  {
    if from < |s| && Alphanumeric(s[from]) { NameEndIs(s, from + 1); }
  }

  /** What a named reference becomes, by the tables: the character or characters of its name; else, in
      text, the character of the longest front part of the name, of two to six letters, that has one;
      else itself. In an attribute a name without a semicolon before '=' stays as it is, too. */
  lemma NamedReference(t: Tables, s: seq<byte>, attribute: bool) returns (i: nat, j: nat)
    requires |s| > 1 && s[0] == AMP && s[1] != HASH
    ensures IsName(s, i)
    ensures var name := s[1..i];
            var known := name in t.entity && t.entity[name] != 0;
            var pair := name in t.entity2 && t.entity2[name].0 != 0;
            var stays := name == [] || (attribute && name[|name| - 1] != 59 && i < |s| && s[i] == 61);
            && (!stays && known ==> Entity(t, s, attribute) == (EncodeRune(t.entity[name]), i))
            && (!stays && !known && pair ==>
                  Entity(t, s, attribute) == (EncodeRune(t.entity2[name].0) + EncodeRune(t.entity2[name].1), i))
            && (stays || (!known && !pair && attribute) ==> Entity(t, s, attribute) == (s[..i], i))
            && (!stays && !known && !pair && !attribute ==>
                  && (j == 0 ==> Entity(t, s, attribute) == (s[..i], i))
                  && (j != 0 ==> 2 <= j < |name| && j <= 6 && name[..j] in t.entity && t.entity[name[..j]] != 0 &&
                                 Entity(t, s, attribute) == (EncodeRune(t.entity[name[..j]]), j + 1))
                  && (forall k :: 2 <= k < |name| && j < k <= 6 ==>
                        name[..k] !in t.entity || t.entity[name[..k]] == 0))
  {
    hide EncodeRune, LongestPrefix, NameEnd;
    NameEndIs(s, 1);
    i := NameEnd(s, 1);
    var name := s[1..i];
    j := 0;
    if name != [] {
      var max := Min(|name| - 1, LONGEST_ENTITY_WITHOUT_SEMICOLON);
      j := LongestPrefix(t, name, max);
      PrefixIsLongest(t, name, max);
    }
  }

  /** Where the digits would start, a numeric reference has a digit and then something that goes on with
      it or ends it; a hexadecimal one may also have its semicolon there. */
  predicate ReadsAsNumber(s: seq<byte>)
    requires |s| > 3
  {
    if s[2] == 120 || s[2] == 88 then DigitValue(s[3], true).Some? || s[3] == SEMICOLON
    else DigitValue(s[2], false).Some? && (DigitValue(s[3], false).Some? || s[3] == SEMICOLON)
  }

  /** A numeric reference is decoded exactly if it reads as a number. Otherwise the ampersand stands for
      itself, also before a single decimal digit without a semicolon. */
  lemma NumericDecoded(t: Tables, s: seq<byte>, attribute: bool)
    requires |s| > 3 && s[0] == AMP && s[1] == HASH
    ensures var hex := s[2] == 120 || s[2] == 88;
            var (x, i) := Number(s, if hex then 3 else 2, hex, 0);
            && (ReadsAsNumber(s) ==> i > 3 && Entity(t, s, attribute) == (EncodeRune(Replaced(x)), i))
            && (Entity(t, s, attribute) == ([AMP], 1) <==> !ReadsAsNumber(s))
  {
    hide EncodeRune, Replaced, Wrap32;
    var hex := s[2] == 120 || s[2] == 88;
    var first := if hex then 3 else 2;
    NumberNext(s, first, hex, 0);
    var d := DigitValue(s[first], hex);
    if !hex && d.Some? { NumberNext(s, 3, false, Wrap32(d.value)); }
    assert s[..1] == [AMP];
  }

  lemma NumberNext(s: seq<byte>, i: nat, hex: bool, x: int)
    requires i < |s|
    ensures var d := DigitValue(s[i], hex);
            Number(s, i, hex, x) ==
            if d.Some? then Number(s, i + 1, hex, Wrap32((if hex then 16 else 10) * x + d.value))
            else (x, if s[i] == SEMICOLON then i + 1 else i)
  {
  }

  /** "&#5 " is left alone, "&#5;" is the character five, and "&#x;" the replacement character. */
  lemma NumericInstances(t: Tables)
    ensures Unescape(t, [38, 35, 53, 32]) == [38, 35, 53, 32]
    ensures Unescape(t, [38, 35, 53, 59]) == [5]
    ensures Unescape(t, [38, 35, 120, 59]) == [0xef, 0xbf, 0xbd]
  {
    hide Unescape, Entity, Number;
    var plain, five, none: seq<byte> := [38, 35, 53, 32], [38, 35, 53, 59], [38, 35, 120, 59];
    NumericDecoded(t, plain, false);
    UnescapeStep(t, plain);
    UnescapePlain(t, plain[1..]);
    assert plain == [38] + plain[1..];
    NumericDecoded(t, five, false);
    NumberNext(five, 2, false, 0);
    NumberNext(five, 3, false, 5);
    LastEntity(t, five);
    NumericDecoded(t, none, false);
    NumberNext(none, 3, true, 0);
    LastEntity(t, none);
  }

  lemma LastEntity(t: Tables, s: seq<byte>)
    requires s != [] && s[0] == AMP && Entity(t, s, false).1 == |s|
    ensures Unescape(t, s) == Entity(t, s, false).0
  {
    hide Entity;
    assert Unescape(t, s[|s|..]) == [];
  }

  function Unescape(t: Tables, s: seq<byte>): seq<byte>
    decreases |s|
  {
    if s == [] then []
    else if s[0] == AMP then
      var (out, k) := Entity(t, s, false);
      out + Unescape(t, s[k..])
    else [s[0]] + Unescape(t, s[1..])
  }

  // ---- Unescaping in place ----

  /** s with x written over it at position at. */
  function Overwrite(s: seq<byte>, at: nat, x: seq<byte>): (r: seq<byte>)
    requires at + |x| <= |s|
    ensures |r| == |s| && r[..at] == s[..at] && r[at..at + |x|] == x && r[at + |x|..] == s[at + |x|..]
  {
    s[..at] + x + s[at + |x|..]
  }

  lemma OverwriteNothing(s: seq<byte>, at: nat, x: seq<byte>)
    requires at <= |s| && x == []
    ensures Overwrite(s, at, x) == s
  {
  }

  lemma OverwriteNext(s: seq<byte>, at: nat, x: seq<byte>, c: byte)
    requires at + |x| < |s|
    ensures Overwrite(s, at, x)[at + |x| := c] == Overwrite(s, at, x + [c])
  {
  }

  lemma OverwriteTwice(s: seq<byte>, at: nat, x: seq<byte>, y: seq<byte>)
    requires at + |x| + |y| <= |s|
    ensures Overwrite(Overwrite(s, at, x), at + |x|, y) == Overwrite(s, at, x + y)
  {
  }

  /** utf8.EncodeRune into b[at..]. */
  method PutRune(b: array<byte>, at: nat, r: int) returns (n: nat)
    requires at + |EncodeRune(r)| <= b.Length
    modifies b
    ensures n == |EncodeRune(r)| && b[..] == Overwrite(old(b[..]), at, EncodeRune(r))
  {
    var bytes := EncodeRune(r);
    n := 0;
    while n < |bytes|
      invariant n <= |bytes| && b[..] == Overwrite(old(b[..]), at, bytes[..n])
    {
      OverwriteNext(old(b[..]), at, bytes[..n], bytes[n]);
      assert bytes[..n + 1] == bytes[..n] + [bytes[n]];
      ghost var before := b[..];
      b[at + n] := bytes[n];
      assert b[..] == before[at + n := bytes[n]];
      n := n + 1;
    }
    assert bytes[..n] == bytes;
  }

  /** copy(b[dst:dst+k], b[src:src+k]) towards the front of one array. */
  method CopyDown(b: array<byte>, dst: nat, src: nat, k: nat)
    requires dst <= src && src + k <= b.Length
    modifies b
    ensures b[..] == Overwrite(old(b[..]), dst, old(b[src..src + k]))
  {
    hide Overwrite;
    var i := 0;
    ghost var s := b[..];
    OverwriteNothing(s, dst, s[src..src]);
    while i < k
      invariant i <= k && b[..] == Overwrite(s, dst, s[src..src + i])
    {
      assert b[src + i] == b[..][dst + i..][src - dst] == s[src + i];
      OverwriteNext(s, dst, s[src..src + i], s[src + i]);
      assert s[src..src + i + 1] == s[src..src + i] + [s[src + i]];
      ghost var before := b[..];
      b[dst + i] := b[src + i];
      assert b[..] == before[dst + i := s[src + i]];
      i := i + 1;
    }
    assert s[src..src + k] == old(b[src..src + k]);
  }

  method ScanNumber(b: array<byte>, src: nat, start: nat, hex: bool) returns (x: int, i: nat)
    requires src + start <= b.Length
    ensures (x, i) == Number(b[src..], start, hex, 0)
  {
    ghost var s := b[src..];
    x, i := 0, start;
    while src + i < b.Length
      invariant src + i <= b.Length && Number(s, start, hex, 0) == Number(s, i, hex, x)
    {
      var c := b[src + i];
      assert c == s[i];
      var d := DigitValue(c, hex);
      if d.None? {
        if c == SEMICOLON {
          i := i + 1;
        }
        return;
      }
      i := i + 1;
      x := Wrap32((if hex then 16 else 10) * x + d.value);
    }
  }

  method ScanName(b: array<byte>, src: nat) returns (i: nat)
    requires src + 1 <= b.Length
    ensures i == NameEnd(b[src..], 1)
  {
    ghost var s := b[src..];
    i := 1;
    while src + i < b.Length
      invariant src + i <= b.Length && NameEnd(s, 1) == NameEnd(s, i)
    {
      var c := b[src + i];
      assert c == s[i];
      if !Alphanumeric(c) {
        if c == SEMICOLON {
          i := i + 1;
        }
        return;
      }
      i := i + 1;
    }
  }

  /** The first j bytes are an entity and no more of them are, of two to six and not all; 0 stands for none. */
  ghost predicate IsLongest(t: Tables, name: seq<byte>, j: nat) {
    && (j == 0 || (2 <= j < |name| && j <= 6 && t.One(name[..j]) != 0))
    && forall k :: 2 <= k < |name| && j < k <= 6 ==> t.One(name[..k]) == 0
  }

  /** The loop over shorter and shorter names. */
  method FindPrefix(t: Tables, name: seq<byte>) returns (j: nat)
    requires name != []
    ensures j == LongestPrefix(t, name, Min(|name| - 1, LONGEST_ENTITY_WITHOUT_SEMICOLON))
    ensures IsLongest(t, name, j)
  {
    PrefixIsLongest(t, name, Min(|name| - 1, LONGEST_ENTITY_WITHOUT_SEMICOLON));
    j := |name| - 1;
    if j > LONGEST_ENTITY_WITHOUT_SEMICOLON {
      j := LONGEST_ENTITY_WITHOUT_SEMICOLON;
    }
    ghost var max := j;
    while j > 1
      invariant j <= |name| && LongestPrefix(t, name, max) == LongestPrefix(t, name, j)
    {
      if t.One(name[..j]) != 0 {
        return;
      }
      j := j - 1;
    }
    j := 0;
  }

  /** unescapeEntity: rewrite the entity at b[src] to b[dst..]. */
  method UnescapeEntity(t: Tables, b: array<byte>, dst: nat, src: nat, attribute: bool) returns (dst1: nat, src1: nat)
    requires t.Fit() && dst <= src < b.Length && b[src] == AMP
    modifies b
    ensures var (out, k) := Entity(t, old(b[src..]), attribute);
            && dst1 == dst + |out| <= src1 == src + k <= b.Length
            && dst + |out| <= b.Length && b[..] == Overwrite(old(b[..]), dst, out)
  {
    hide Number, NameEnd, EncodeRune, LongestPrefix, Wrap32;
    ghost var s := b[src..];
    EntityShrinks(t, s, attribute);
    assert s[0] == b[src] && s[..1] == b[src..src + 1] && (|s| > 1 ==> s[1] == b[src + 1]);
    var len := b.Length - src;
    if len <= 1 {
      CopyDown(b, dst, src, 1);
      return dst + 1, src + 1;
    }
    if b[src + 1] == HASH {
      if len <= 3 {
        CopyDown(b, dst, src, 1);
        return dst + 1, src + 1;
      }
      dst1, src1 := RewriteNumeric(b, dst, src);
      return;
    }
    var i := ScanName(b, src);
    dst1, src1 := RewriteNamed(t, b, dst, src, i, attribute);
  }

  method RewriteNumeric(b: array<byte>, dst: nat, src: nat) returns (dst1: nat, src1: nat)
    requires dst <= src && src + 3 < b.Length
    modifies b
    ensures var s := old(b[src..]);
            var (out, k) := Numeric(s, s[2] == 120 || s[2] == 88);
            && dst1 == dst + |out| && src1 == src + k
            && dst + |out| <= b.Length && b[..] == Overwrite(old(b[..]), dst, out)
  {
    hide EncodeRune, Number, Overwrite;
    ghost var s := b[src..];
    var c := b[src + 2];
    assert c == s[2] && s[..1] == b[src..src + 1];
    var hex := c == 120 || c == 88;
    var x, i := ScanNumber(b, src, if hex then 3 else 2, hex);
    if i <= 3 {
      CopyDown(b, dst, src, 1);
      return dst + 1, src + 1;
    }
    if 0x80 <= x <= 0x9f {
      x := REPLACEMENT_TABLE[x - 0x80];
    } else if x == 0 || 0xd800 <= x <= 0xdfff || x > 0x10ffff {
      x := 0xfffd;
    }
    var n := PutRune(b, dst, x);
    return dst + n, src + i;
  }

  method RewriteNamed(t: Tables, b: array<byte>, dst: nat, src: nat, i: nat, attribute: bool)
    returns (dst1: nat, src1: nat)
    requires t.Fit() && dst <= src && 1 <= i && src + i <= b.Length
    modifies b
    ensures var (out, k) := Named(t, old(b[src..]), i, attribute);
            && dst1 == dst + |out| && src1 == src + k
            && dst + |out| <= b.Length && b[..] == Overwrite(old(b[..]), dst, out)
  {
    hide EncodeRune, LongestPrefix, Overwrite, IsLongest;
    ghost var s := b[src..];
    var name := b[src + 1..src + i];
    assert name == s[1..i];
    if name == [] {
    } else if attribute && name[|name| - 1] != SEMICOLON && b.Length - src > i && b[src + i] == EQUALS {
    } else if t.One(name) != 0 {
      var n := PutRune(b, dst, t.One(name));
      return dst + n, src + i;
    } else if t.Two(name).0 != 0 {
      dst1 := PutTwo(b, dst, t.Two(name));
      return dst1, src + i;
    } else if !attribute {
      var j := FindPrefix(t, name);
      if j > 0 {
        var n := PutRune(b, dst, t.One(name[..j]));
        return dst + n, src + j + 1;
      }
    }
    CopyDown(b, dst, src, i);
    assert s[..i] == old(b[src..src + i]);
    return dst + i, src + i;
  }

  method PutTwo(b: array<byte>, dst: nat, x: (int, int)) returns (dst1: nat)
    requires dst + |EncodeRune(x.0)| + |EncodeRune(x.1)| <= b.Length
    modifies b
    ensures dst1 == dst + |EncodeRune(x.0)| + |EncodeRune(x.1)|
    ensures b[..] == Overwrite(old(b[..]), dst, EncodeRune(x.0) + EncodeRune(x.1))
  {
    hide EncodeRune;
    var n := PutRune(b, dst, x.0);
    OverwriteTwice(old(b[..]), dst, EncodeRune(x.0), EncodeRune(x.1));
    var m := PutRune(b, dst + n, x.1);
    dst1 := dst + n + m;
  }

  /** unescape: b[..n] becomes what the functional rewriter writes to a fresh output, and the
      writing cursor never passes the reading one. */
  method UnescapeInPlace(t: Tables, b: array<byte>) returns (n: nat)
    requires t.Fit()
    modifies b
    ensures n <= b.Length && b[..n] == Unescape(t, old(b[..]))
  {
    hide Unescape, Entity;
    var i := 0;
    assert b[..0] == [] && b[0..] == b[..];
    while i < b.Length
      invariant i <= b.Length && AMP !in b[..i] && b[..] == old(b[..])
      invariant b[..i] + Unescape(t, b[i..]) == Unescape(t, b[..])
    {
      if b[i] == AMP {
        n := Rewrite(t, b, i);
        return;
      }
      UnescapeNext(t, b[i..]);
      assert b[i..][1..] == b[i + 1..] && b[..i + 1] == b[..i] + [b[i]];
      i := i + 1;
    }
    assert b[..i] == b[..] && b[i..] == [];
    UnescapeStep(t, []);
    n := b.Length;
  }

  lemma UnescapeNext(t: Tables, s: seq<byte>)
    requires s != [] && s[0] != AMP
    ensures Unescape(t, s) == [s[0]] + Unescape(t, s[1..])
  {
  }

  /** The loop of unescape, from the first ampersand at i. */
  method Rewrite(t: Tables, b: array<byte>, i: nat) returns (n: nat)
    requires t.Fit() && i < b.Length && b[i] == AMP
    modifies b
    ensures n <= b.Length && b[..n] == old(b[..i] + Unescape(t, b[i..]))
  {
    hide Unescape, Entity, Overwrite;
    ghost var all := b[..i] + Unescape(t, b[i..]);
    var dst, src := i, i;
    while src < b.Length
      invariant dst <= src <= b.Length && b[..dst] + Unescape(t, b[src..]) == all
      decreases b.Length - src
    {
      ghost var before, s := b[..dst], b[src..];
      UnescapeStep(t, s);
      if b[src] == AMP {
        var d1, s1 := UnescapeEntity(t, b, dst, src, false);
        ghost var (out, k) := Entity(t, s, false);
        assert b[..d1] == b[..][..d1] == before + out by {
          assert b[..][..d1] == b[..][..dst] + b[..][dst..d1];
          assert b[..][..dst] == before;
        }
        assert b[s1..] == b[..][s1..] == s[k..];
        dst, src := d1, s1;
      } else {
        var c := b[src];
        b[dst] := c;
        assert b[..dst + 1] == before + [c] && b[src + 1..] == s[1..];
        dst, src := dst + 1, src + 1;
      }
    }
    UnescapeStep(t, b[src..]);
    n := dst;
  }

  lemma UnescapeStep(t: Tables, s: seq<byte>)
    ensures s == [] ==> Unescape(t, s) == []
    ensures s != [] && s[0] == AMP ==>
      var (out, k) := Entity(t, s, false); 1 <= k <= |s| && Unescape(t, s) == out + Unescape(t, s[k..])
    ensures s != [] && s[0] != AMP ==> Unescape(t, s) == [s[0]] + Unescape(t, s[1..])
  {
  }

  // ---- Escaping ----

  const QUOTE: byte := 39
  const DOUBLE: byte := 34
  const LESS: byte := 60
  const GREATER: byte := 62

  predicate Special(c: byte) { c == AMP || c == QUOTE || c == LESS || c == GREATER || c == DOUBLE }

  /** What replaces a special byte: &amp; &#39; &lt; &gt; &#34;. */
  function EscapeOf(c: byte): seq<byte>
    requires Special(c)
  {
    if c == AMP then [38, 97, 109, 112, 59]
    else if c == QUOTE then [38, 35, 51, 57, 59]
    else if c == LESS then [38, 108, 116, 59]
    else if c == GREATER then [38, 103, 116, 59]
    else [38, 35, 51, 52, 59]
  }

  function Escape(s: seq<byte>): seq<byte> {
    if s == [] then [] else (if Special(s[0]) then EscapeOf(s[0]) else [s[0]]) + Escape(s[1..])
  }

  /** A writer that fails after some number of successful calls, having taken part of the last. */
  class Output {
    var text: seq<byte>
    var calls: Option<nat>
    var taken: nat

    method WriteString(s: seq<byte>) returns (ok: bool)
      modifies this
      ensures ok ==> text == old(text) + s
      ensures !ok ==> old(text) <= text <= old(text) + s
      ensures old(calls) == None ==> ok && calls == None
    {
      if calls == Some(0) {
        text := text + s[..if taken < |s| then taken else |s|];
        return false;
      }
      if calls.Some? {
        calls := Some(calls.value - 1);
      }
      text := text + s;
      ok := true;
    }
  }

  /** strings.IndexAny for the five special bytes; being ASCII, they are found byte by byte. */
  method IndexSpecial(s: seq<byte>) returns (i: int)
    ensures i == -1 ==> forall k :: 0 <= k < |s| ==> !Special(s[k])
    ensures i != -1 ==> 0 <= i < |s| && Special(s[i]) && forall k :: 0 <= k < i ==> !Special(s[k])
  {
    i := 0;
    while i < |s|
      invariant 0 <= i <= |s| && forall k :: 0 <= k < i ==> !Special(s[k])
    {
      if Special(s[i]) {
        return;
      }
      i := i + 1;
    }
    i := -1;
  }

  lemma {:induction false} EscapePlain(s: seq<byte>, i: nat)
    requires i <= |s| && forall k :: 0 <= k < i ==> !Special(s[k])
    ensures Escape(s) == s[..i] + Escape(s[i..])
  {
    if i > 0 {
      EscapePlain(s[1..], i - 1);
      assert s[1..][i - 1..] == s[i..] && s[..i] == [s[0]] + s[1..][..i - 1];
    } else {
      assert s[0..] == s;
    }
  }

  /** escape: writes the escaped text, or a front part of it when the writer fails. */
  method EscapeTo(w: Output, s: seq<byte>) returns (ok: bool)
    modifies w
    ensures ok ==> w.text == old(w.text) + Escape(s)
    ensures !ok ==> old(w.text) <= w.text <= old(w.text) + Escape(s)
    ensures old(w.calls) == None ==> ok
  {
    hide Escape;
    var rest := s;
    ghost var all := w.text + Escape(s);
    var i := IndexSpecial(rest);
    while i != -1
      invariant i == -1 ==> forall k :: 0 <= k < |rest| ==> !Special(rest[k])
      invariant i != -1 ==> 0 <= i < |rest| && Special(rest[i]) && forall k :: 0 <= k < i ==> !Special(rest[k])
      invariant old(w.text) <= w.text && w.text + Escape(rest) == all
      invariant old(w.calls) == None ==> w.calls == None
      decreases |rest|
    {
      EscapePlain(rest, i);
      EscapeNext(rest[i..]);
      ghost var before := w.text;
      assert all == before + rest[..i] + (EscapeOf(rest[i]) + Escape(rest[i..][1..]));
      ok := w.WriteString(rest[..i]);
      if !ok {
        return;
      }
      var esc := EscapeOf(rest[i]);
      assert rest[i..][1..] == rest[i + 1..] && rest[i..][0] == rest[i];
      rest := rest[i + 1..];
      ok := w.WriteString(esc);
      assert all == before + rest[..0] + all[|before|..];
      if !ok {
        return;
      }
      i := IndexSpecial(rest);
    }
    EscapePlain(rest, |rest|);
    assert rest[..|rest|] == rest && rest[|rest|..] == [];
    EscapeEmpty();
    ok := w.WriteString(rest);
  }

  lemma EscapeEmpty()
    ensures Escape([]) == []
  {
  }

  lemma EscapeNext(s: seq<byte>)
    requires s != [] && Special(s[0])
    ensures Escape(s) == EscapeOf(s[0]) + Escape(s[1..])
  {
  }

  // ---- The round trip ----

  /** An escape at the front of a text is one entity, and it stands for the byte it replaced. */
  lemma EscapedIsEntity(t: Tables, c: byte, rest: seq<byte>)
    requires t.HasBasics() && Special(c)
    ensures Entity(t, EscapeOf(c) + rest, false) == ([c], |EscapeOf(c)|)
  {
    var s := EscapeOf(c) + rest;
    if c == QUOTE || c == DOUBLE {
      assert Number(s, 4, false, c as int) == (c as int, 5);
      assert Number(s, 3, false, 3) == Number(s, 4, false, c as int);
      assert Number(s, 2, false, 0) == Number(s, 3, false, 3);
    } else {
      var n := |EscapeOf(c)| - 1;
      assert NameEnd(s, n) == n + 1;
      assert NameEnd(s, n - 1) == n + 1;
      assert NameEnd(s, n - 2) == n + 1;
      assert NameEnd(s, 1) == n + 1;
      assert s[1..n + 1] == EscapeOf(c)[1..];
    }
  }

  /** Unescaping undoes escaping, for every byte string. */
  lemma {:induction false} RoundTrip(t: Tables, s: seq<byte>)
    requires t.HasBasics()
    ensures Unescape(t, Escape(s)) == s
  {
    if s != [] {
      RoundTrip(t, s[1..]);
      var rest := Escape(s[1..]);
      if Special(s[0]) {
        var esc := EscapeOf(s[0]);
        EscapedIsEntity(t, s[0], rest);
        assert Escape(s)[0] == AMP && Escape(s)[|esc|..] == rest;
      } else {
        assert Escape(s)[1..] == rest;
      }
    }
  }

  /** UnescapeString: a text without an ampersand is returned as it is. */
  method UnescapeString(t: Tables, s: seq<byte>) returns (r: seq<byte>)
    requires t.Fit()
    ensures r == Unescape(t, s)
  {
    if AMP in s {
      var b := new byte[|s|](i requires 0 <= i < |s| => s[i]);
      assert b[..] == s;
      var n := UnescapeInPlace(t, b);
      return b[..n];
    }
    UnescapePlain(t, s);
    r := s;
  }

  lemma {:induction false} UnescapePlain(t: Tables, s: seq<byte>)
    requires AMP !in s
    ensures Unescape(t, s) == s
  {
    if s != [] { UnescapePlain(t, s[1..]); }
  }

  /** EscapeString, then UnescapeString: nothing has changed. */
  method EscapeAndBack(t: Tables, s: seq<byte>) returns (escaped: seq<byte>, back: seq<byte>)
    requires t.Fit() && t.HasBasics()
    ensures escaped == Escape(s) && back == s
    ensures forall c :: c in escaped && Special(c) ==> c == AMP
  {
    var i := IndexSpecial(s);
    if i == -1 {
      EscapePlain(s, |s|);
      assert s[..|s|] == s && s[|s|..] == [];
      escaped := s;
    } else {
      var w := new Output;
      w.text, w.calls := [], None;
      var _ := EscapeTo(w, s);
      escaped := w.text;
    }
    back := UnescapeString(t, escaped);
    RoundTrip(t, s);
    OnlyAmpersands(s);
  }

  /** The escaped text has no special byte left but the ampersands of its entities. */
  lemma {:induction false} OnlyAmpersands(s: seq<byte>)
    ensures forall c :: c in Escape(s) && Special(c) ==> c == AMP
  {
    if s != [] { OnlyAmpersands(s[1..]); }
  }
}
