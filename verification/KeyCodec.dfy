/** API key text: base62 numerals over big-endian integers, the `sk-oai-{key_id}_{secret}`
    printer and parser, and the salted hash preimage (maas-api/internal/api_keys/keygen.go). */
module KeyCodec {
  import opened Strings

  type byte = x: int | 0 <= x < 256

  const KEY_PREFIX := "sk-oai-"
  const SEPARATOR := '_'
  const NUL: char := '\0'
  const KEY_ID_BYTES := 12
  const ENTROPY_BYTES := 32
  const DISPLAY_PREFIX_LENGTH := 12
  const DIGITS := "0123456789"
  const UPPER := "ABCDEFGHIJKLMNOPQRSTUVWXYZ"
  const LOWER := "abcdefghijklmnopqrstuvwxyz"
  const ALPHABET := DIGITS + UPPER + LOWER

  function Pow(b: nat, e: nat): nat {
    if e == 0 then 1 else b * Pow(b, e - 1)
  }

  /** `big.Int.SetBytes`. */
  function BigEndian(data: seq<byte>): nat {
    if data == [] then 0 else 256 * BigEndian(data[..|data| - 1]) + data[|data| - 1]
  }

  predicate IsDigit(c: char) {
    '0' <= c <= '9' || 'A' <= c <= 'Z' || 'a' <= c <= 'z'
  }

  predicate IsBase62(s: string) {
    forall i :: 0 <= i < |s| ==> IsDigit(s[i])
  }

  /** Weight of a base62 digit, read off the character ranges rather than the alphabet. */
  function DigitValue(c: char): (d: nat)
    requires IsDigit(c)
    ensures d < 62
  {
    if c <= '9' then c as int - '0' as int
    else if c <= 'Z' then c as int - 'A' as int + 10
    else c as int - 'a' as int + 36
  }

  /** Number denoted by a base62 numeral, most significant digit first. */
  function Value(s: string): nat
    requires IsBase62(s)
  {
    if s == [] then 0 else 62 * Value(s[..|s| - 1]) + DigitValue(s[|s| - 1])
  }

  /** A numeral with no leading zero, except for zero itself. */
  predicate Canonical(s: string) {
    s != "" && IsBase62(s) && (s[0] == '0' ==> s == "0")
  }

  /** `s` is the canonical base62 numeral of the big-endian integer `data`. */
  predicate Encodes(s: string, data: seq<byte>) {
    Canonical(s) && Value(s) == BigEndian(data)
  }

  lemma DigitAt(d: nat)
    requires d < 10
    ensures |DIGITS| == 10 && DIGITS[d] as int == '0' as int + d
  {
  }

  lemma UpperAt(d: nat)
    requires d < 26
    ensures |UPPER| == 26 && UPPER[d] as int == 'A' as int + d
  {
  }

  lemma LowerAt(d: nat)
    requires d < 26
    ensures |LOWER| == 26 && LOWER[d] as int == 'a' as int + d
  {
  }

  lemma AlphabetParts(digits: string, upper: string, lower: string, d: nat)
    requires |digits| == 10 && |upper| == 26 && |lower| == 26 && d < 62
    ensures (digits + upper + lower)[d] ==
            if d < 10 then digits[d] else if d < 36 then upper[d - 10] else lower[d - 36]
  {
  }

  /** The alphabet lists the digits in the order of their weights. */
  lemma AlphabetDigit(d: nat)
    requires d < 62
    ensures |ALPHABET| == 62 && IsDigit(ALPHABET[d]) && DigitValue(ALPHABET[d]) == d
    ensures ALPHABET[d] == '0' <==> d == 0
  {
    DigitAt(if d < 10 then d else 0);
    UpperAt(if 10 <= d < 36 then d - 10 else 0);
    LowerAt(if 36 <= d then d - 36 else 0);
    AlphabetParts(DIGITS, UPPER, LOWER, d);
  }

  lemma DigitValueInjective(c: char, c': char)
    requires IsDigit(c) && IsDigit(c') && DigitValue(c) == DigitValue(c')
    ensures c == c'
  {
  }

  /** The loop of `encodeBase62`: shrink the integer, prepend a digit. */
  method EncodeBase62(data: seq<byte>) returns (s: string)
    ensures Encodes(s, data)
  {
    var n := BigEndian(data);
    var result := "";
    while n > 0
      invariant IsBase62(result)
      invariant n == 0 && result != "" ==> result[0] != '0'
      invariant Shifted(n, result) == BigEndian(data)
      decreases n
    {
      var mod := n % 62;
      AlphabetDigit(mod);
      ghost var before, digits := n, result;
      n := n / 62;
      result := [ALPHABET[mod]] + result;
      ShiftStep(before, digits);
    }
    if result == "" {
      AlphabetDigit(0);
      assert [ALPHABET[0]][..0] == [];
      return [ALPHABET[0]];
    }
    assert Shifted(0, result) == Value(result) by { ShiftedZero(result); }
    return result;
  }

  /** Value of the digits of `s` written after the integer `n`. */
  ghost function Shifted(n: nat, s: string): nat
    requires IsBase62(s)
  {
    if s == [] then n else 62 * Shifted(n, s[..|s| - 1]) + DigitValue(s[|s| - 1])
  }

  lemma {:induction false} ShiftedZero(s: string)
    requires IsBase62(s)
    ensures Shifted(0, s) == Value(s)
  {
    if s != [] {
      ShiftedZero(s[..|s| - 1]);
    }
  }

  lemma {:induction false} ShiftStep(n: nat, s: string)
    requires IsBase62(s)
    ensures |ALPHABET| == 62 && IsBase62([ALPHABET[n % 62]] + s)
    ensures Shifted(n / 62, [ALPHABET[n % 62]] + s) == Shifted(n, s)
  {
    AlphabetDigit(n % 62);
    var t := [ALPHABET[n % 62]] + s;
    if s == [] {
      assert t[..0] == [];
      assert Shifted(n / 62, t) == 62 * Shifted(n / 62, []) + n % 62;
    } else {
      ShiftStep(n, s[..|s| - 1]);
      assert t[..|t| - 1] == [ALPHABET[n % 62]] + s[..|s| - 1];
    }
  }

  // ---- Numerals: one per number, of predictable length ----

  lemma {:induction false} ValueBounds(s: string)
    requires IsBase62(s)
    ensures Value(s) < Pow(62, |s|)
    ensures s != "" && s[0] != '0' ==> Pow(62, |s| - 1) <= Value(s)
  {
    if s != "" {
      var p := s[..|s| - 1];
      ValueBounds(p);
      if p != "" {
        assert p[0] == s[0];
      }
    }
  }

  lemma PowMonotone(a: nat, b: nat)
    requires a <= b
    ensures 1 <= Pow(62, a) <= Pow(62, b)
    decreases b
  {
    if a < b {
      PowMonotone(a, b - 1);
    } else if a > 0 {
      PowMonotone(a - 1, b - 1);
    }
  }

  /** A canonical numeral has at most `k` digits exactly when its number is below 62^k. */
  lemma LengthBound(s: string, k: nat)
    requires Canonical(s) && k >= 1
    ensures |s| <= k <==> Value(s) < Pow(62, k)
  {
    ValueBounds(s);
    if |s| <= k {
      PowMonotone(|s|, k);
    } else {
      PowMonotone(k, |s| - 1);
    }
  }

  lemma LastDigit(high: nat, digit: nat, high': nat, digit': nat)
    requires digit < 62 && digit' < 62 && 62 * high + digit == 62 * high' + digit'
    ensures high == high' && digit == digit'
  {
  }

  /** Two canonical numerals of the same number are the same text. */
  lemma {:induction false} CanonicalUnique(s: string, t: string)
    requires Canonical(s) && Canonical(t) && Value(s) == Value(t)
    ensures s == t
  {
    var p, q := s[..|s| - 1], t[..|t| - 1];
    var c, d := s[|s| - 1], t[|t| - 1];
    assert s == p + [c] && t == q + [d];
    LastDigit(Value(p), DigitValue(c), Value(q), DigitValue(d));
    DigitValueInjective(c, d);
    if p != "" {
      ValueBounds(p);
      PowMonotone(0, |p| - 1);
      assert p[0] == s[0];
    }
    if q != "" {
      ValueBounds(q);
      PowMonotone(0, |q| - 1);
      assert q[0] == t[0];
    }
    if p != "" && q != "" {
      CanonicalUnique(p, q);
    }
  }

  lemma {:induction false} BigEndianBound(data: seq<byte>)
    ensures BigEndian(data) < Pow(256, |data|)
  {
    if data != [] {
      BigEndianBound(data[..|data| - 1]);
    }
  }

  lemma {:induction false} BigEndianInjective(a: seq<byte>, b: seq<byte>)
    requires |a| == |b| && BigEndian(a) == BigEndian(b)
    ensures a == b
  {
    if a != [] {
      BigEndianInjective(a[..|a| - 1], b[..|b| - 1]);
      assert a == a[..|a| - 1] + [a[|a| - 1]] && b == b[..|b| - 1] + [b[|b| - 1]];
    }
  }

  /** `encodeBase62` is a function of its input, and one-to-one on inputs of one length. */
  lemma EncodingIsInjective(s: string, t: string, a: seq<byte>, b: seq<byte>)
    requires |a| == |b| && Encodes(s, a) && Encodes(t, b)
    ensures s == t <==> a == b
  {
    if s == t {
      BigEndianInjective(a, b);
    } else if a == b {
      CanonicalUnique(s, t);
    }
  }

  lemma PowSplit(b: nat, e: nat, f: nat)
    ensures Pow(b, e + f) == Pow(b, e) * Pow(b, f)
  {
    if e > 0 {
      PowSplit(b, e - 1, f);
      assert Pow(b, e + f) == b * Pow(b, e - 1 + f);
    }
  }

  lemma TwelveBytesFit()
    ensures Pow(256, 12) <= Pow(62, 17)
  {
    PowSplit(256, 6, 6);
    PowSplit(62, 8, 9);
    assert Pow(256, 6) == 281_474_976_710_656;
    assert Pow(62, 8) == 218_340_105_584_896;
    assert Pow(62, 9) == 62 * Pow(62, 8);
  }

  lemma PowersOf256()
    ensures Pow(256, 16) == 340_282_366_920_938_463_463_374_607_431_768_211_456
  {
    PowSplit(256, 8, 8);
    assert Pow(256, 8) == 18_446_744_073_709_551_616;
  }

  lemma PowersOf62()
    ensures Pow(62, 21) == 43_674_252_383_913_877_424_036_476_406_214_950_912
    ensures Pow(62, 22) == 2_707_803_647_802_660_400_290_261_537_185_326_956_544
  {
    PowSplit(62, 10, 11);
    assert Pow(62, 10) == 839_299_365_868_340_224;
    assert Pow(62, 11) == 62 * Pow(62, 10);
  }

  lemma ThirtyTwoBytesFit()
    ensures Pow(256, 32) <= Pow(62, 43)
  {
    PowSplit(256, 16, 16);
    PowSplit(62, 21, 22);
    PowersOf256();
    PowersOf62();
  }

  /** The widths the key format relies on. */
  lemma KeyWidths(s: string, data: seq<byte>)
    requires Encodes(s, data)
    ensures |data| == KEY_ID_BYTES ==> |s| <= 17
    ensures |data| == ENTROPY_BYTES ==> |s| <= 43
  {
    BigEndianBound(data);
    if |data| == KEY_ID_BYTES {
      TwelveBytesFit();
      LengthBound(s, 17);
    } else if |data| == ENTROPY_BYTES {
      ThirtyTwoBytesFit();
      LengthBound(s, 43);
    }
  }

  // ---- Printing and parsing ----

  function Print(keyId: string, secret: string): string {
    KEY_PREFIX + keyId + [SEPARATOR] + secret
  }

  /** What `hashWithSalt` feeds to SHA-256. */
  function Preimage(keyId: string, secret: string): string {
    keyId + [NUL] + secret
  }

  datatype ParseError = InvalidPrefix | MissingSeparator | EmptyPart
  datatype Parsed = Key(keyId: string, secret: string) | Bad(error: ParseError)

  function ParseApiKey(key: string): Parsed {
    if !(KEY_PREFIX <= key) then Bad(InvalidPrefix)
    else match Cut(key[|KEY_PREFIX|..], SEPARATOR)
      case None => Bad(MissingSeparator)
      case Some((keyId, secret)) =>
        if keyId == "" || secret == "" then Bad(EmptyPart) else Key(keyId, secret)
  }

  /** `HashAPIKey`; the digest function is a parameter. */
  function HashApiKey(key: string, sha: string -> string): string {
    match ParseApiKey(key)
    case Key(keyId, secret) => sha(Preimage(keyId, secret))
    case Bad(_) => ""
  }

  method ScanBase62(s: string) returns (ok: bool)
    ensures ok == IsBase62(s)
  {
    for i := 0 to |s|
      invariant IsBase62(s[..i])
    {
      var c := s[i];
      if (c < '0' || c > '9') && (c < 'A' || c > 'Z') && (c < 'a' || c > 'z') {
        return false;
      }
      assert s[..i + 1] == s[..i] + [c];
    }
    assert s[..|s|] == s;
    return true;
  }

  predicate IsValidKeyFormat(key: string) {
    KEY_PREFIX <= key &&
    match Cut(key[|KEY_PREFIX|..], SEPARATOR)
    case None => false
    case Some((keyId, secret)) => keyId != "" && secret != "" && IsBase62(keyId) && IsBase62(secret)
  }

  lemma Base62Avoids(s: string, c: char)
    requires IsBase62(s) && !IsDigit(c)
    ensures c !in s
  {
  }

  /** Parsing a printed key gives its parts back, for any separator-free key id. */
  lemma ParsePrint(keyId: string, secret: string)
    requires keyId != "" && secret != "" && SEPARATOR !in keyId
    ensures ParseApiKey(Print(keyId, secret)) == Key(keyId, secret)
  {
    var key := Print(keyId, secret);
    assert key[|KEY_PREFIX|..] == keyId + [SEPARATOR] + secret;
    CutGlue(keyId, SEPARATOR, secret);
  }

  /** Every key the parser accepts reprints to itself, so parsing loses nothing. */
  lemma PrintParse(key: string)
    requires ParseApiKey(key).Key?
    ensures var k := ParseApiKey(key);
            Print(k.keyId, k.secret) == key && SEPARATOR !in k.keyId && k.keyId != "" && k.secret != ""
  {
    assert key == KEY_PREFIX + key[|KEY_PREFIX|..];
  }

  /** The two acceptance tests differ only in the alphabet, so a key that passes the format
      check always parses and the empty-hash branch of validation is dead. */
  lemma FormatAgreesWithParser(key: string, sha: string -> string)
    requires forall p :: sha(p) != ""
    ensures IsValidKeyFormat(key) <==>
            var k := ParseApiKey(key); k.Key? && IsBase62(k.keyId) && IsBase62(k.secret)
    ensures IsValidKeyFormat(key) ==> HashApiKey(key, sha) != ""
    ensures HashApiKey(key, sha) == "" <==> ParseApiKey(key).Bad?
  {
  }

  /** The NUL delimiter: keys whose ids are NUL-free never share a preimage. */
  lemma PreimageInjective(key: string, key': string)
    requires ParseApiKey(key).Key? && ParseApiKey(key').Key?
    requires NUL !in ParseApiKey(key).keyId && NUL !in ParseApiKey(key').keyId
    requires Preimage(ParseApiKey(key).keyId, ParseApiKey(key).secret) ==
             Preimage(ParseApiKey(key').keyId, ParseApiKey(key').secret)
    ensures key == key'
  {
    var k, k' := ParseApiKey(key), ParseApiKey(key');
    GlueInjective(k.keyId, k.secret, k'.keyId, k'.secret, NUL);
    PrintParse(key);
    PrintParse(key');
  }

  /** Well-formed keys with one hash are one key, unless SHA-256 itself collided. */
  lemma HashIdentifiesKey(key: string, key': string, sha: string -> string)
    requires IsValidKeyFormat(key) && IsValidKeyFormat(key')
    requires HashApiKey(key, sha) == HashApiKey(key', sha)
    ensures key == key' || exists p, q :: p != q && sha(p) == sha(q)
  {
    var k, k' := ParseApiKey(key), ParseApiKey(key');
    Base62Avoids(k.keyId, NUL);
    Base62Avoids(k'.keyId, NUL);
    var p, q := Preimage(k.keyId, k.secret), Preimage(k'.keyId, k'.secret);
    if p == q {
      PreimageInjective(key, key');
    }
  }

  /** A NUL of the preimage where the parser would also accept a split: inside the key id, or inside the secret with
      no separator before it. */
  ghost predicate SecondSplit(keyId: string, secret: string) {
    || (exists i :: 1 <= i < |keyId| && keyId[i] == NUL)
    || (exists j :: 0 <= j < |secret| - 1 && secret[j] == NUL && SEPARATOR !in secret[..j])
  }

  ghost predicate SamePreimage(key: string, key': string) {
    var k, k' := ParseApiKey(key), ParseApiKey(key');
    k.Key? && k'.Key? && Preimage(k.keyId, k.secret) == Preimage(k'.keyId, k'.secret)
  }

  lemma SplitEarlier(keyId: string, secret: string, i: nat)
    requires 1 <= i < |keyId| && keyId[i] == NUL
    ensures Preimage(keyId[..i], keyId[i + 1..] + [NUL] + secret) == Preimage(keyId, secret)
  {
    assert keyId == keyId[..i] + [NUL] + keyId[i + 1..];
  }

  lemma SplitLater(keyId: string, secret: string, j: nat)
    requires j < |secret| && secret[j] == NUL
    ensures Preimage(keyId + [NUL] + secret[..j], secret[j + 1..]) == Preimage(keyId, secret)
  {
    assert secret == secret[..j] + [NUL] + secret[j + 1..];
  }

  lemma OtherSplit(key: string, keyId: string, secret: string)
    requires ParseApiKey(key).Key? && keyId != "" && secret != "" && SEPARATOR !in keyId
    requires Preimage(keyId, secret) == Preimage(ParseApiKey(key).keyId, ParseApiKey(key).secret)
    requires |keyId| != |ParseApiKey(key).keyId|
    ensures exists key' :: key' != key && SamePreimage(key, key')
  {
    ParsePrint(keyId, secret);
    assert SamePreimage(key, Print(keyId, secret));
  }

  /** Of two splits of one preimage, the one with the longer id has a NUL there and the shorter one in its secret. */
  lemma TwoSplits(a: string, b: string, a': string, b': string)
    requires Preimage(a, b) == Preimage(a', b') && |a| < |a'| && a != "" && b' != "" && SEPARATOR !in a'
    ensures SecondSplit(a, b) && SecondSplit(a', b')
  {
    var p := Preimage(a, b);
    assert p[|a|] == NUL && p[|a'|] == NUL && a == p[..|a|] && a' == p[..|a'|];
    assert a'[|a|] == NUL;
    var j := |a'| - |a| - 1;
    assert b == p[|a| + 1..];
    assert b[j] == NUL;
    assert b[..j] == a'[|a| + 1..];
  }

  lemma CollisionSplits(key: string, key': string)
    requires key != key' && SamePreimage(key, key')
    ensures SecondSplit(ParseApiKey(key).keyId, ParseApiKey(key).secret)
  {
    var k, k' := ParseApiKey(key), ParseApiKey(key');
    if |k.keyId| == |k'.keyId| {
      SameSplit(k.keyId, k.secret, k'.keyId, k'.secret);
    }
    PrintParse(key);
    PrintParse(key');
    if |k.keyId| < |k'.keyId| {
      TwoSplits(k.keyId, k.secret, k'.keyId, k'.secret);
    } else if |k'.keyId| < |k.keyId| {
      TwoSplits(k'.keyId, k'.secret, k.keyId, k.secret);
    }
  }

  lemma SameSplit(a: string, b: string, a': string, b': string)
    requires Preimage(a, b) == Preimage(a', b') && |a| == |a'|
    ensures a == a' && b == b'
  {
    var p := Preimage(a, b);
    assert a == p[..|a|] == a' && b == p[|a| + 1..] == b';
  }

  lemma SplitCollides(key: string)
    requires ParseApiKey(key).Key? && SecondSplit(ParseApiKey(key).keyId, ParseApiKey(key).secret)
    ensures exists key' :: key' != key && SamePreimage(key, key')
  {
    var k := ParseApiKey(key);
    PrintParse(key);
    if i :| 1 <= i < |k.keyId| && k.keyId[i] == NUL {
      SplitEarlier(k.keyId, k.secret, i);
      OtherSplit(key, k.keyId[..i], k.keyId[i + 1..] + [NUL] + k.secret);
    } else {
      var j :| 0 <= j < |k.secret| - 1 && k.secret[j] == NUL && SEPARATOR !in k.secret[..j];
      SplitLater(k.keyId, k.secret, j);
      OtherSplit(key, k.keyId + [NUL] + k.secret[..j], k.secret[j + 1..]);
    }
  }

  /** The parser alone is not enough, and exactly when: an accepted key shares its preimage with another accepted key
      if and only if its preimage can be split elsewhere. The base62 alphabet of the format check excludes it. */
  lemma CollidesIff(key: string)
    requires ParseApiKey(key).Key?
    ensures (exists key' :: key' != key && SamePreimage(key, key')) <==>
            SecondSplit(ParseApiKey(key).keyId, ParseApiKey(key).secret)
    ensures IsValidKeyFormat(key) ==> !SecondSplit(ParseApiKey(key).keyId, ParseApiKey(key).secret)
  {
    if key' :| key' != key && SamePreimage(key, key') {
      CollisionSplits(key, key');
    }
    if SecondSplit(ParseApiKey(key).keyId, ParseApiKey(key).secret) {
      SplitCollides(key);
    }
  }

  /** Two such keys. */
  lemma ParserAloneCollides()
    ensures SamePreimage(Print("a\0b", "c"), Print("a", "b\0c")) && Print("a\0b", "c") != Print("a", "b\0c")
  {
    var a, b := Print("a\0b", "c"), Print("a", "b\0c");
    ParsePrint("a\0b", "c");
    ParsePrint("a", "b\0c");
    assert Preimage("a\0b", "c") == "a\0b\0c" == Preimage("a", "b\0c");
    assert a[|KEY_PREFIX| + 1] == NUL && b[|KEY_PREFIX| + 1] == SEPARATOR;
  }

  /** The prefix shown to users: at most twelve characters of the key id. */
  function DisplayPrefix(key: string): string {
    match ParseApiKey(key)
    case Key(keyId, _) => KEY_PREFIX + (if |keyId| <= 12 then keyId else keyId[..12]) + "..."
    case Bad(_) => ""
  }

  /** `GenerateAPIKey` on given entropy. */
  method GenerateApiKey(idEntropy: seq<byte>, secretEntropy: seq<byte>, sha: string -> string)
    returns (plaintext: string, hash: string, prefix: string)
    requires |idEntropy| == KEY_ID_BYTES && |secretEntropy| == ENTROPY_BYTES
    ensures IsValidKeyFormat(plaintext)
    ensures var k := ParseApiKey(plaintext);
            k.Key? && Encodes(k.keyId, idEntropy) && Encodes(k.secret, secretEntropy) &&
            |k.keyId| <= 17 && |k.secret| <= 43 && plaintext == Print(k.keyId, k.secret)
    ensures hash == HashApiKey(plaintext, sha) && prefix == DisplayPrefix(plaintext)
  {
    var keyId := EncodeBase62(idEntropy);
    var secret := EncodeBase62(secretEntropy);
    plaintext := KEY_PREFIX + keyId + [SEPARATOR] + secret;
    hash := sha(Preimage(keyId, secret));
    if |keyId| >= DISPLAY_PREFIX_LENGTH {
      prefix := KEY_PREFIX + keyId[..DISPLAY_PREFIX_LENGTH] + "...";
    } else {
      prefix := KEY_PREFIX + keyId + "...";
    }
    Base62Avoids(keyId, SEPARATOR);
    ParsePrint(keyId, secret);
    KeyWidths(keyId, idEntropy);
    KeyWidths(secret, secretEntropy);
    assert keyId[..|keyId|] == keyId;
  }

  // ---- In terms of the text ----

  /** The digits are 0-9, A-Z and a-z, in this order. */
  lemma OneDigit(s: string, b: byte)
    requires Encodes(s, [b]) && b < 62
    ensures |s| == 1 && s[0] as int == if b < 10 then '0' as int + b else if b < 36 then 'A' as int + (b - 10)
                                       else 'a' as int + (b - 36)
  {
    assert [b][..0] == [];
    assert BigEndian([b]) == b;
    assert Pow(62, 1) == 62 * Pow(62, 0);
    LengthBound(s, 1);
    assert s[..0] == [];
    assert Value(s) == DigitValue(s[0]);
  }

  lemma ValueSnoc(s: string, c: char)
    requires IsBase62(s) && IsDigit(c)
    ensures IsBase62(s + [c]) && Value(s + [c]) == 62 * Value(s) + DigitValue(c)
  {
    assert (s + [c])[..|s|] == s;
  }

  lemma ShiftSum(base: nat, high: nat, weight: nat, low: nat, digit: nat)
    ensures base * (high * weight + low) + digit == high * (base * weight) + (base * low + digit)
  {
  }

  /** Positional notation: digits further left weigh 62 times as much per place. */
  lemma {:induction false} ValueConcat(s: string, t: string)
    requires IsBase62(s) && IsBase62(t)
    ensures IsBase62(s + t) && Value(s + t) == Value(s) * Pow(62, |t|) + Value(t)
  {
    if t == "" {
      assert s + t == s;
    } else {
      var init, last := t[..|t| - 1], t[|t| - 1];
      ValueConcat(s, init);
      assert s + t == s + init + [last];
      ValueSnoc(s + init, last);
      ValueSnoc(init, last);
      assert t == init + [last];
      ShiftSum(62, Value(s), Pow(62, |init|), Value(init), DigitValue(last));
    }
  }

  /** The first byte is the most significant. */
  lemma {:induction false} BigEndianConcat(a: seq<byte>, b: seq<byte>)
    ensures BigEndian(a + b) == BigEndian(a) * Pow(256, |b|) + BigEndian(b)
  {
    if b == [] {
      assert a + b == a;
    } else {
      var init := b[..|b| - 1];
      BigEndianConcat(a, init);
      assert (a + b)[..|a + b| - 1] == a + init;
      ShiftSum(256, BigEndian(a), Pow(256, |init|), BigEndian(init), b[|b| - 1]);
    }
  }

  lemma OneByte(b: byte)
    ensures BigEndian([b]) == b
  {
    assert [b][..0] == [];
  }

  /** Exactly the texts `sk-oai-{id}_{secret}` with two non-empty parts parse, and the id ends at the first
      underscore. */
  lemma ParseIff(key: string, keyId: string, secret: string)
    ensures ParseApiKey(key) == Key(keyId, secret) <==>
            key == "sk-oai-" + keyId + "_" + secret && keyId != "" && secret != "" && '_' !in keyId
  {
    if key == "sk-oai-" + keyId + "_" + secret && keyId != "" && secret != "" && '_' !in keyId {
      ParsePrint(keyId, secret);
      assert key == Print(keyId, secret);
    }
    if ParseApiKey(key) == Key(keyId, secret) {
      PrintParse(key);
    }
  }

  predicate Alphanumeric(s: string) {
    forall c :: c in s ==> '0' <= c <= '9' || 'A' <= c <= 'Z' || 'a' <= c <= 'z'
  }

  /** Exactly the texts `sk-oai-{id}_{secret}` with two non-empty alphanumeric parts are well-formed. */
  lemma FormatIff(key: string)
    ensures IsValidKeyFormat(key) <==>
            exists a, b :: key == "sk-oai-" + a + "_" + b && a != "" && b != "" && Alphanumeric(a) && Alphanumeric(b)
  {
    FormatIsParse(key);
    if a, b :| key == "sk-oai-" + a + "_" + b && a != "" && b != "" && Alphanumeric(a) && Alphanumeric(b) {
      AlphanumericIff(a);
      AlphanumericIff(b);
      ParseIff(key, a, b);
    }
    if IsValidKeyFormat(key) {
      var k := ParseApiKey(key);
      ParseIff(key, k.keyId, k.secret);
      AlphanumericIff(k.keyId);
      AlphanumericIff(k.secret);
    }
  }

  lemma FormatIsParse(key: string)
    ensures IsValidKeyFormat(key) <==>
            var k := ParseApiKey(key); k.Key? && IsBase62(k.keyId) && IsBase62(k.secret)
  {
  }

  lemma AlphanumericIff(s: string)
    ensures Alphanumeric(s) <==> IsBase62(s)
    ensures Alphanumeric(s) ==> '_' !in s
  {
    if Alphanumeric(s) {
      forall i | 0 <= i < |s| ensures IsDigit(s[i]) {
        assert s[i] in s;
      }
    }
  }

  /** What is hashed is the id, a NUL and the secret; what is shown is the prefix, the id cut to twelve characters,
      and three dots. */
  lemma KeyText(keyId: string, secret: string, sha: string -> string)
    requires keyId != "" && secret != "" && '_' !in keyId
    ensures var key := "sk-oai-" + keyId + "_" + secret;
            && HashApiKey(key, sha) == sha(keyId + "\0" + secret)
            && DisplayPrefix(key) == "sk-oai-" + (if |keyId| > 12 then keyId[..12] else keyId) + "..."
  {
    ParseIff("sk-oai-" + keyId + "_" + secret, keyId, secret);
  }
}
