/**
 Base-58 decoding on a big-endian byte buffer, and the standard encoder of section 4 of
 draft-msporny-base58-03 as its partner.
 */
module Base58 {
  import opened FloorMath
  import opened Positional
  import opened Wrappers

  const ALPHABET: string :=
    "123456789" + "ABCDEFGH" + "JKLMN" + "PQRSTUVWXYZ" + "abcdefghijk" + "mnopqrstuvwxyz"

  datatype DecodeError = InvalidCharacter

  // ---------- the alphabet ----------

  // The digit of a character of the alphabet.
  function Digit(c: char): (d: Option<nat>)
    ensures d.Some? ==> d.value < 58
  {
    if '1' <= c <= '9' then Some(c as int - '1' as int)
    else if 'A' <= c <= 'H' then Some(c as int - 'A' as int + 9)
    else if 'J' <= c <= 'N' then Some(c as int - 'J' as int + 17)
    else if 'P' <= c <= 'Z' then Some(c as int - 'P' as int + 22)
    else if 'a' <= c <= 'k' then Some(c as int - 'a' as int + 33)
    else if 'm' <= c <= 'z' then Some(c as int - 'm' as int + 44)
    else None
  }

  function Run(first: char, last: char): string
    requires first <= last < 128 as char
  {
    seq(last as int - first as int + 1, i requires 0 <= i <= last as int - first as int => (first as int + i) as char)
  }

  lemma AlphabetIsRuns()
    ensures ALPHABET == Run('1', '9') + Run('A', 'H') + Run('J', 'N') + Run('P', 'Z') + Run('a', 'k') + Run('m', 'z')
  {
    assert Run('1', '9') == "123456789";
    assert Run('A', 'H') == "ABCDEFGH";
    assert Run('J', 'N') == "JKLMN";
    assert Run('P', 'Z') == "PQRSTUVWXYZ";
    assert Run('a', 'k') == "abcdefghijk";
    assert Run('m', 'z') == "mnopqrstuvwxyz";
  }

  // How far a symbol's code is from its digit, run by run.
  function Offset(d: nat): int {
    if d < 9 then 49 else if d < 17 then 56 else if d < 22 then 57 else if d < 33 then 58 else if d < 44 then 64 else 65
  }

  lemma EarlySymbol(d: nat)
    requires d < 22
    ensures d < |ALPHABET| && ALPHABET[d] as int == d + Offset(d)
  {
    AlphabetIsRuns();
    if d < 9 {
      assert ALPHABET[d] == Run('1', '9')[d];
    } else if d < 17 {
      assert ALPHABET[d] == Run('A', 'H')[d - 9];
    } else {
      assert ALPHABET[d] == Run('J', 'N')[d - 17];
    }
  }

  lemma LateSymbol(d: nat)
    requires 22 <= d < 58
    ensures d < |ALPHABET| && ALPHABET[d] as int == d + Offset(d)
  {
    AlphabetIsRuns();
    if d < 33 {
      assert ALPHABET[d] == Run('P', 'Z')[d - 22];
    } else if d < 44 {
      assert ALPHABET[d] == Run('a', 'k')[d - 33];
    } else {
      assert ALPHABET[d] == Run('m', 'z')[d - 44];
    }
  }

  lemma DigitAt(d: nat)
    requires d < 58
    ensures |ALPHABET| == 58 && Digit(ALPHABET[d]) == Some(d)
  {
    if d < 22 {
      EarlySymbol(d);
    } else {
      LateSymbol(d);
    }
  }

  function Symbol(d: nat): (c: char)
    requires d < 58
    ensures Digit(c) == Some(d)
  {
    DigitAt(d);
    ALPHABET[d]
  }

  lemma DigitInjective(c: char, c': char)
    requires Digit(c) == Digit(c') && Digit(c).Some?
    ensures c == c'
  {
  }

  lemma SymbolOfDigit(c: char)
    ensures Digit(c).Some? ==> Symbol(Digit(c).value) == c
  {
    hide Digit, Symbol;
    if Digit(c).Some? {
      DigitInjective(Symbol(Digit(c).value), c);
    }
  }

  // The reverse lookup table, filled from the alphabet.
  method Indices() returns (indices: map<char, nat>)
    ensures forall c :: c in indices <==> Digit(c).Some?
    ensures forall c :: c in indices ==> Digit(c) == Some(indices[c])
  {
    hide Digit, Symbol;
    indices := map[];
    DigitAt(0);
    for i := 0 to |ALPHABET|
      invariant forall c :: c in indices <==> Digit(c).Some? && Digit(c).value < i
      invariant forall c :: c in indices ==> Digit(c) == Some(indices[c])
    {
      DigitAt(i);
      forall c ensures Digit(c) == Some(i) ==> c == ALPHABET[i] {
        if Digit(c) == Some(i) {
          DigitInjective(c, ALPHABET[i]);
        }
      }
      indices := indices[ALPHABET[i] := i];
    }
  }

  // ---------- decoding ----------

  // The source looks a character up by its low byte, so one beyond a byte stands for another.
  function LowByte(c: char): char {
    (c as int % 256) as char
  }

  predicate Accepted(s: string) {
    forall i :: 0 <= i < |s| ==> Digit(LowByte(s[i])).Some?
  }

  function DigitsOf(s: string): (ds: seq<nat>)
    requires Accepted(s)
    ensures |ds| == |s| && Below(ds, 58)
  {
    seq(|s|, i requires 0 <= i < |s| => Digit(LowByte(s[i])).value)
  }

  function LeadingOnes(s: string): (k: nat)
    ensures k <= |s|
    ensures forall i :: 0 <= i < k ==> s[i] == '1'
    ensures k < |s| ==> s[k] != '1'
  {
    if s != "" && s[0] == '1' then 1 + LeadingOnes(s[1..]) else 0
  }

  function Zeros(k: nat): seq<nat> {
    seq(k, _ => 0)
  }

  // One zero byte per leading '1', then the minimal big-endian bytes of the base-58 number.
  function Decoded(s: string): Result<seq<nat>, DecodeError> {
    var k := LeadingOnes(s);
    if Accepted(s[k..]) then Ok(Zeros(k) + Digits(Number(DigitsOf(s[k..]), 58), 256))
    else Err(InvalidCharacter)
  }

  lemma DigitIff(c: char)
    ensures Digit(c).Some? <==> c in ALPHABET
  {
    hide Symbol;
    if Digit(c).Some? {
      var d := Digit(c).value;
      DigitAt(d);
      DigitInjective(ALPHABET[d], c);
      assert ALPHABET[d] in ALPHABET;
    }
    if c in ALPHABET {
      var d :| 0 <= d < |ALPHABET| && ALPHABET[d] == c;
      DigitAt(0);
      DigitAt(d);
    }
  }

  lemma AcceptedIff(s: string)
    ensures Accepted(s) <==> forall i :: 0 <= i < |s| ==> LowByte(s[i]) in ALPHABET
  {
    hide Digit;
    forall i | 0 <= i < |s| ensures Digit(LowByte(s[i])).Some? <==> LowByte(s[i]) in ALPHABET {
      DigitIff(LowByte(s[i]));
    }
  }

  lemma OnesAreAccepted(s: string, k: nat)
    requires k <= |s| && forall i :: 0 <= i < k ==> s[i] == '1'
    ensures Accepted(s[k..]) <==> Accepted(s)
  {
    var rest := s[k..];
    assert LowByte('1') == '1' && Digit('1').Some?;
    hide Digit, LowByte;
    assert forall i :: k <= i < |s| ==> s[i] == rest[i - k];
    assert forall i :: 0 <= i < |rest| ==> rest[i] == s[i + k];
  }

  // A string is refused exactly when some character's low byte is not in the alphabet.
  lemma DecodesIff(s: string)
    ensures Decoded(s).Ok? <==> forall i :: 0 <= i < |s| ==> (s[i] as int % 256) as char in ALPHABET
  {
    hide Accepted, LeadingOnes, Digits, Number, Zeros;
    OnesAreAccepted(s, LeadingOnes(s));
    AcceptedIff(s);
  }

  lemma CarryStep(total: nat, carry: nat, b: nat, p: nat)
    requires total == carry + 58 * b
    ensures total % 256 * p + total / 256 * (256 * p) == carry * p + 58 * (b * p)
  {
    var q, r := total / 256, total % 256;
    assert total == 256 * q + r;
    assert r * p + q * (256 * p) == total * p;
    assert total * p == carry * p + 58 * b * p;
  }

  // Multiply the buffer by 58 and add a digit, from the last byte to the first; what does not fit
  // is left in the carry.
  method MultiplyAdd(buffer: seq<nat>, idx: nat) returns (result: seq<nat>, carry: nat)
    requires Below(buffer, 256)
    ensures |result| == |buffer| && Below(result, 256)
    ensures Number(result, 256) + carry * Power(256, |result|) == 58 * Number(buffer, 256) + idx
  {
    result, carry := buffer, idx;
    var n := |buffer|;
    assert result[n..] == buffer[n..] == [];
    for j := n downto 0
      invariant |result| == n && Below(result, 256)
      invariant result[..j] == buffer[..j]
      invariant Number(result[j..], 256) + carry * Power(256, n - j) == 58 * Number(buffer[j..], 256) + idx
    {
      ghost var tail := result[j + 1..];
      var total := carry + 58 * result[j];
      result := result[j := total % 256];
      assert result[j..] == [total % 256] + tail && buffer[j..] == [buffer[j]] + buffer[j + 1..];
      NumberCons(total % 256, tail, 256);
      NumberCons(buffer[j], buffer[j + 1..], 256);
      CarryStep(total, carry, buffer[j], Power(256, n - j - 1));
      carry := total / 256;
    }
    assert result[0..] == result && buffer[0..] == buffer;
  }

  // Put the carry in front of the buffer, byte by byte.
  method PrependCarry(buffer: seq<nat>, carry: nat) returns (result: seq<nat>)
    requires Below(buffer, 256) && (carry > 0 || Minimal(buffer))
    ensures Below(result, 256) && Minimal(result)
    ensures Number(result, 256) == Number(buffer, 256) + carry * Power(256, |buffer|)
  {
    result := buffer;
    var c := carry;
    while c > 0
      invariant c >= 0
      invariant Below(result, 256) && (c > 0 || Minimal(result))
      invariant Number(result, 256) + c * Power(256, |result|) == Number(buffer, 256) + carry * Power(256, |buffer|)
      decreases c
    {
      NumberCons(c % 256, result, 256);
      CarryStep(c, c, 0, Power(256, |result|));
      result := [c % 256] + result;
      c := c / 256;
    }
    assert 0 * Power(256, |result|) == 0;
  }

  // Growing the number keeps the leading byte of a minimal buffer nonzero.
  lemma StaysMinimal(buffer: seq<nat>, result: seq<nat>)
    requires Below(buffer, 256) && Below(result, 256) && |result| == |buffer|
    requires Minimal(buffer) && Number(result, 256) >= Number(buffer, 256)
    ensures Minimal(result)
  {
    if result != [] {
      MinimalIsLarge(buffer, 256);
      MinimalIsLarge(result, 256);
    }
  }

  // One round of the decoder: a minimal buffer takes one more base-58 digit.
  method PushDigit(buffer: seq<nat>, idx: nat) returns (result: seq<nat>)
    requires Below(buffer, 256) && Minimal(buffer)
    ensures Below(result, 256) && Minimal(result)
    ensures Number(result, 256) == Number(buffer, 256) * 58 + idx
  {
    var scaled, carry := MultiplyAdd(buffer, idx);
    if carry == 0 {
      StaysMinimal(buffer, scaled);
    }
    result := PrependCarry(scaled, carry);
  }

  lemma DigitsOfSnoc(s: string, i: nat, d: nat)
    requires i < |s| && Accepted(s[..i]) && Digit(LowByte(s[i])) == Some(d)
    ensures Accepted(s[..i + 1])
    ensures Number(DigitsOf(s[..i + 1]), 58) == Number(DigitsOf(s[..i]), 58) * 58 + d
  {
    assert s[..i + 1] == s[..i] + [s[i]];
    assert DigitsOf(s[..i + 1]) == DigitsOf(s[..i]) + [d];
    NumberSnoc(DigitsOf(s[..i]), d, 58);
  }

  method Base58Decode(s: string) returns (r: Result<seq<nat>, DecodeError>)
    ensures r == Decoded(s)
  {
    hide Number, Digits, Digit, LowByte;
    NumberOfNone(58);
    NumberOfNone(256);
    var indices := Indices();
    var result: seq<nat> := [];
    var leadingOnes := 0;
    while leadingOnes < |s| && s[leadingOnes] == '1'
      invariant leadingOnes <= |s|
      invariant LeadingOnes(s) == leadingOnes + LeadingOnes(s[leadingOnes..])
    {
      assert s[leadingOnes..][1..] == s[leadingOnes + 1..];
      leadingOnes := leadingOnes + 1;
    }
    var rest := s[leadingOnes..];
    for i := 0 to |rest|
      invariant Accepted(rest[..i])
      invariant Below(result, 256) && Minimal(result)
      invariant Number(result, 256) == Number(DigitsOf(rest[..i]), 58)
    {
      var c := LowByte(rest[i]);
      if c !in indices {
        return Err(InvalidCharacter);
      }
      DigitsOfSnoc(rest, i, indices[c]);
      result := PushDigit(result, indices[c]);
    }
    assert rest[..|rest|] == rest;
    DigitsOfNumber(result, 256);
    ghost var bytes := result;
    for i := 0 to leadingOnes
      invariant result == Zeros(i) + bytes
    {
      result := [0] + result;
      assert [0] + Zeros(i) == Zeros(i + 1);
    }
    return Ok(result);
  }

  // ---------- the standard encoder ----------

  function LeadingZeros(bytes: seq<nat>): (k: nat)
    ensures k <= |bytes|
    ensures forall i :: 0 <= i < k ==> bytes[i] == 0
    ensures k < |bytes| ==> bytes[k] != 0
  {
    if bytes != [] && bytes[0] == 0 then 1 + LeadingZeros(bytes[1..]) else 0
  }

  function Symbols(ds: seq<nat>): string
    requires Below(ds, 58)
  {
    seq(|ds|, i requires 0 <= i < |ds| => Symbol(ds[i]))
  }

  function Ones(k: nat): string {
    seq(k, _ => '1')
  }

  function Encoded(bytes: seq<nat>): string {
    var k := LeadingZeros(bytes);
    var n := Number(bytes[k..], 256);
    DigitsFacts(n, 58);
    Ones(k) + Symbols(Digits(n, 58))
  }

  // ---------- main results ----------

  lemma LowByteOfSymbol(c: char)
    requires Digit(c).Some?
    ensures LowByte(c) == c
  {
  }

  lemma SymbolsAreDigits(ds: seq<nat>)
    requires Below(ds, 58)
    ensures Accepted(Symbols(ds)) && DigitsOf(Symbols(ds)) == ds
    ensures forall i :: 0 <= i < |ds| ==> Symbols(ds)[i] == '1' ==> ds[i] == 0
  {
    var s := Symbols(ds);
    forall i | 0 <= i < |ds| ensures Digit(LowByte(s[i])) == Some(ds[i]) {
      assert Digit(s[i]) == Some(ds[i]);
      LowByteOfSymbol(s[i]);
    }
  }

  lemma LeadingOnesIs(s: string, k: nat)
    requires k <= |s| && (forall i :: 0 <= i < k ==> s[i] == '1') && (k < |s| ==> s[k] != '1')
    ensures LeadingOnes(s) == k
  {
    var j := LeadingOnes(s);
    if j < k {
      assert false;
    }
  }

  lemma LeadingZerosIs(bytes: seq<nat>, k: nat)
    requires k <= |bytes| && (forall i :: 0 <= i < k ==> bytes[i] == 0) && (k < |bytes| ==> bytes[k] != 0)
    ensures LeadingZeros(bytes) == k
  {
    var j := LeadingZeros(bytes);
    if j < k {
      assert false;
    }
  }

  // Decoding inverts the standard encoder on every byte string.
  lemma DecodeOfEncode(bytes: seq<nat>)
    requires Below(bytes, 256)
    ensures Decoded(Encoded(bytes)) == Ok(bytes)
  {
    hide Digits, Number, Digit, Symbol, LowByte;
    var k := LeadingZeros(bytes);
    var n := Number(bytes[k..], 256);
    var ds := Digits(n, 58);
    DigitsFacts(n, 58);
    SymbolsAreDigits(ds);
    var s := Encoded(bytes);
    LeadingOnesIs(s, k);
    assert s[k..] == Symbols(ds);
    DigitsOfNumber(bytes[k..], 256);
    assert bytes == Zeros(k) + bytes[k..];
  }

  predicate InAlphabet(s: string) {
    forall i :: 0 <= i < |s| ==> Digit(s[i]).Some?
  }

  lemma FirstDigitNonzero(s: string)
    requires s != "" && s[0] != '1' && Accepted(s) && InAlphabet(s)
    ensures DigitsOf(s)[0] != 0
  {
    LowByteOfSymbol(s[0]);
  }

  lemma SymbolsOfDigits(s: string)
    requires InAlphabet(s)
    ensures Accepted(s) && Symbols(DigitsOf(s)) == s
  {
    forall i | 0 <= i < |s| ensures LowByte(s[i]) == s[i] && Symbol(Digit(s[i]).value) == s[i] {
      LowByteOfSymbol(s[i]);
      SymbolOfDigit(s[i]);
    }
  }

  lemma EncodeOfAlphabet(s: string)
    requires InAlphabet(s)
    ensures Decoded(s).Ok? && Encoded(Decoded(s).value) == s
  {
    hide Digits, Number, Digit, Symbol, LowByte;
    var k := LeadingOnes(s);
    SymbolsOfDigits(s[k..]);
    var ds := DigitsOf(s[k..]);
    var n := Number(ds, 58);
    var bytes := Zeros(k) + Digits(n, 256);
    DigitsFacts(n, 256);
    LeadingZerosIs(bytes, k);
    assert bytes[k..] == Digits(n, 256);
    assert Minimal(ds) by {
      if k < |s| {
        FirstDigitNonzero(s[k..]);
      }
    }
    DigitsOfNumber(ds, 58);
    assert s == Ones(k) + s[k..];
  }

  lemma EncodedInAlphabet(bytes: seq<nat>)
    ensures InAlphabet(Encoded(bytes))
  {
    hide Digits, Number, Symbol;
    DigitsFacts(Number(bytes[LeadingZeros(bytes)..], 256), 58);
  }

  // Encoding inverts decoding on exactly the accepted strings written in the alphabet.
  lemma EncodeOfDecode(s: string)
    requires Decoded(s).Ok?
    ensures Encoded(Decoded(s).value) == s <==> InAlphabet(s)
  {
    hide Decoded, Encoded;
    if InAlphabet(s) {
      EncodeOfAlphabet(s);
    } else {
      EncodedInAlphabet(Decoded(s).value);
    }
  }

  // On strings written in the alphabet every string decodes, and no two decode alike.
  lemma DecodeInjective(s: string, t: string)
    requires InAlphabet(s) && InAlphabet(t)
    ensures Decoded(s).Ok? && Decoded(t).Ok?
    ensures Decoded(s) == Decoded(t) ==> s == t
  {
    hide Decoded, Encoded;
    EncodeOfAlphabet(s);
    EncodeOfAlphabet(t);
  }

  lemma NumberOfOne()
    ensures Number([1], 58) == 1 && Digits(1, 256) == [1]
  {
    assert [1][..0] == [];
    assert Number([1], 58) == Number([1], 256) == 1;
    DigitsOfNumber([1], 256);
  }

  lemma DecodesLikeTwo(s: string)
    requires |s| == 1 && s[0] != '1' && LowByte(s[0]) == '2'
    ensures Decoded(s) == Ok([1])
  {
    NumberOfOne();
    LeadingOnesIs(s, 0);
    assert s[0..] == s;
    assert DigitsOf(s) == [1];
    hide Digits, Number, DigitsOf, LeadingOnes;
    assert Zeros(0) + [1] == [1];
  }

  // Outside the alphabet it is not injective: U+0132 has the low byte of '2' and decodes like it.
  lemma NotInjectiveBeyondBytes()
    ensures Decoded("\U{0132}") == Decoded("2") == Ok([1])
  {
    hide Decoded;
    DecodesLikeTwo("\U{0132}");
    DecodesLikeTwo("2");
  }
}
