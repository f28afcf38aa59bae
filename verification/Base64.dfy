// Base64 text (sections 3.5 and 4 of RFC 4648), the strict acceptance test the TypeScript bridge puts
// on top of a lenient decoder.
module Base64 {
  import opened Prelude

  type Sextet = n: nat | n < 64

  function SextetChar(n: Sextet): char {
    if n < 26 then 'A' + n as char
    else if n < 52 then 'a' + (n - 26) as char
    else if n < 62 then '0' + (n - 52) as char
    else if n == 62 then '+' else '/'
  }

  /** The lenient alphabet also takes the URL-safe characters. */
  function CharSextet(c: char): Option<Sextet> {
    if 'A' <= c <= 'Z' then Some((c - 'A') as int)
    else if 'a' <= c <= 'z' then Some((c - 'a') as int + 26)
    else if '0' <= c <= '9' then Some((c - '0') as int + 52)
    else if c == '+' || c == '-' then Some(62)
    else if c == '/' || c == '_' then Some(63)
    else None
  }

  lemma SextetCharRoundTrip(n: Sextet)
    ensures CharSextet(SextetChar(n)) == Some(n) && SextetChar(n) != '='
  {
  }

  /******* Encoding *******/

  // The four sextets of three bytes a, b, c.
  function Sextet0(a: Byte): Sextet { a / 4 }

  function Sextet1(a: Byte, b: Byte): Sextet { a % 4 * 16 + b / 16 }

  function Sextet2(b: Byte, c: Byte): Sextet { b % 16 * 4 + c / 64 }

  function Sextet3(c: Byte): Sextet { c % 64 }

  /** The bits of `bs` in groups of six, the last group filled up with zero bits. */
  function Sextets(bs: Bytes): seq<Sextet> {
    if bs == [] then []
    else if |bs| == 1 then [Sextet0(bs[0]), Sextet1(bs[0], 0)]
    else if |bs| == 2 then [Sextet0(bs[0]), Sextet1(bs[0], bs[1]), Sextet2(bs[1], 0)]
    else [Sextet0(bs[0]), Sextet1(bs[0], bs[1]), Sextet2(bs[1], bs[2]), Sextet3(bs[2])] + Sextets(bs[3..])
  }

  function Text(sextets: seq<Sextet>): (text: string)
    ensures |text| == |sextets|
    ensures forall i | 0 <= i < |text| :: text[i] == SextetChar(sextets[i])
  {
    if sextets == [] then "" else [SextetChar(sextets[0])] + Text(sextets[1..])
  }

  /** The encoding of `bs` without its padding. */
  function Body(bs: Bytes): string {
    Text(Sextets(bs))
  }

  function Equals(n: nat): (text: string)
    ensures |text| == n
    ensures forall c | c in text :: c == '='
  {
    if n == 0 then "" else "=" + Equals(n - 1)
  }

  function PaddingLength(bs: Bytes): nat {
    (3 - |bs| % 3) % 3
  }

  function ToBase64(bs: Bytes): string {
    Body(bs) + Equals(PaddingLength(bs))
  }

  lemma {:induction false} SextetsLength(bs: Bytes)
    ensures (|Sextets(bs)| + PaddingLength(bs)) % 4 == 0
    ensures bs != [] ==> Sextets(bs) != []
  {
    hide Sextet0, Sextet1, Sextet2, Sextet3;
    if |bs| > 2 {
      var rest := bs[3..];
      SextetsLength(rest);
      assert |Sextets(bs)| == 4 + |Sextets(rest)|;
      assert |bs| % 3 == |rest| % 3;
    }
  }

  lemma BodyHasNoEquals(bs: Bytes)
    ensures forall c | c in Body(bs) :: c != '='
  {
    var sextets := Sextets(bs);
    forall c | c in Body(bs)
      ensures c != '='
    {
      var i :| 0 <= i < |sextets| && c == SextetChar(sextets[i]);
      SextetCharRoundTrip(sextets[i]);
    }
  }

  /******* Lenient decoding *******/

  /** Characters outside the alphabet are skipped. */
  function Symbols(text: string): seq<Sextet> {
    if text == "" then []
    else
      match CharSextet(text[0])
      case None => Symbols(text[1..])
      case Some(n) => [n] + Symbols(text[1..])
  }

  function First(a: Sextet, b: Sextet): Byte { a * 4 + b / 16 }

  function Second(b: Sextet, c: Sextet): Byte { b % 16 * 16 + c / 4 }

  function Third(c: Sextet, d: Sextet): Byte { c % 4 * 64 + d }

  /** Leftover bits that do not fill a byte are dropped. */
  function Pack(s: seq<Sextet>): Bytes {
    if |s| < 2 then []
    else if |s| == 2 then [First(s[0], s[1])]
    else if |s| == 3 then [First(s[0], s[1]), Second(s[1], s[2])]
    else [First(s[0], s[1]), Second(s[1], s[2]), Third(s[2], s[3])] + Pack(s[4..])
  }

  function LenientDecode(text: string): Bytes {
    Pack(Symbols(text))
  }

  /** Three bytes cut into sextets come back from them, bit for bit. */
  lemma BitsReturn(a: Byte, b: Byte, c: Byte)
    ensures First(Sextet0(a), Sextet1(a, b)) == a
    ensures Second(Sextet1(a, b), Sextet2(b, c)) == b
    ensures Third(Sextet2(b, c), Sextet3(c)) == c
  {
  }

  lemma PackOne(a: Byte)
    ensures Pack(Sextets([a])) == [a]
  {
    hide First, Second, Third, Sextet0, Sextet1, Sextet2, Sextet3;
    BitsReturn(a, 0, 0);
    var s := Sextets([a]);
    assert s == [Sextet0(a), Sextet1(a, 0)];
    assert Pack(s) == [First(s[0], s[1])];
  }

  lemma PackTwo(a: Byte, b: Byte)
    ensures Pack(Sextets([a, b])) == [a, b]
  {
    hide First, Second, Third, Sextet0, Sextet1, Sextet2, Sextet3;
    BitsReturn(a, b, 0);
    var s := Sextets([a, b]);
    assert s == [Sextet0(a), Sextet1(a, b), Sextet2(b, 0)];
    assert Pack(s) == [First(s[0], s[1]), Second(s[1], s[2])];
  }

  /** The first three bytes give the first four sextets, and the other way round. */
  lemma PackThree(a: Byte, b: Byte, c: Byte, rest: Bytes)
    ensures Pack(Sextets([a, b, c] + rest)) == [a, b, c] + Pack(Sextets(rest))
  {
    hide First, Second, Third, Sextet0, Sextet1, Sextet2, Sextet3;
    BitsReturn(a, b, c);
    var bs := [a, b, c] + rest;
    assert bs[3..] == rest;
    var sextets := Sextets(bs);
    assert sextets[4..] == Sextets(rest);
  }

  lemma {:induction false} PackInvertsSextets(bs: Bytes)
    ensures Pack(Sextets(bs)) == bs
  {
    if |bs| == 1 {
      PackOne(bs[0]);
      assert bs == [bs[0]];
    } else if |bs| == 2 {
      PackTwo(bs[0], bs[1]);
      assert bs == [bs[0], bs[1]];
    } else if |bs| > 2 {
      PackInvertsSextets(bs[3..]);
      PackThree(bs[0], bs[1], bs[2], bs[3..]);
      assert bs == [bs[0], bs[1], bs[2]] + bs[3..];
    }
  }

  lemma {:induction false} SymbolsOfText(s: seq<Sextet>, k: nat)
    ensures Symbols(Text(s) + Equals(k)) == s
    decreases |s|, k
  {
    var text := Text(s) + Equals(k);
    if s != [] {
      SextetCharRoundTrip(s[0]);
      SymbolsOfText(s[1..], k);
      assert text[1..] == Text(s[1..]) + Equals(k);
    } else if k > 0 {
      SymbolsOfText(s, k - 1);
      assert text[1..] == Text(s) + Equals(k - 1);
    }
  }

  /** The decoder recovers the bytes from their body followed by any number of equals signs. */
  lemma LenientDecodeInverts(bs: Bytes, k: nat)
    ensures LenientDecode(Body(bs) + Equals(k)) == bs
  {
    SymbolsOfText(Sextets(bs), k);
    PackInvertsSextets(bs);
  }

  /******* The strict test *******/

  function TrailingEquals(text: string): (n: nat)
    ensures n <= |text|
  {
    if text == "" || text[|text| - 1] != '=' then 0 else 1 + TrailingEquals(text[..|text| - 1])
  }

  function StripEquals(text: string): string {
    text[..|text| - TrailingEquals(text)]
  }

  lemma {:induction false} StripSplits(text: string)
    ensures text == StripEquals(text) + Equals(TrailingEquals(text))
    ensures StripEquals(text) == "" || StripEquals(text)[|StripEquals(text)| - 1] != '='
  {
    var n := TrailingEquals(text);
    TrailingAreEquals(text);
    assert forall i | 0 <= i < n :: Equals(n)[i] in Equals(n);
  }

  lemma {:induction false} TrailingAreEquals(text: string)
    ensures forall i | |text| - TrailingEquals(text) <= i < |text| :: text[i] == '='
    ensures var s := StripEquals(text); s == "" || s[|s| - 1] != '='
  {
    if text != "" && text[|text| - 1] == '=' {
      var front := text[..|text| - 1];
      TrailingAreEquals(front);
      assert forall i | 0 <= i < |front| :: text[i] == front[i];
      assert StripEquals(text) == StripEquals(front);
    }
  }

  /** A text without a final equals sign, followed by equals signs, splits in one way only. */
  lemma {:induction false} EqualsSplitUnique(a: string, m: nat, b: string, n: nat)
    requires a + Equals(m) == b + Equals(n)
    requires a == "" || a[|a| - 1] != '='
    requires b == "" || b[|b| - 1] != '='
    ensures a == b && m == n
  {
    var whole := a + Equals(m);
    assert forall i | |a| <= i < |whole| :: whole[i] in Equals(m);
    assert forall i | |b| <= i < |whole| :: (b + Equals(n))[i] in Equals(n);
    assert b != "" ==> whole[|b| - 1] == b[|b| - 1];
    assert a != "" ==> whole[|a| - 1] == a[|a| - 1];
    assert |a| == |b|;
    assert a == whole[..|a|];
    assert b == whole[..|a|];
  }

  datatype DtoError = EmptyField(field: string) | NotCanonical(field: string)

  /** The number of equals signs that would fill the text up to a multiple of four. */
  function Deficit(length: nat): nat {
    (4 - length % 4) % 4
  }

  /** The acceptance test, on a text and the re-encoding of what it decoded to. */
  predicate Accepts(value: string, nonEmpty: bool, normalized: string) {
    (nonEmpty && normalized == StripEquals(value) + Equals(Deficit(|value|))) || normalized == value
  }

  function DecodeBase64(value: string, field: string): Result<Bytes, DtoError> {
    if value == "" then Err(EmptyField(field))
    else
      var decoded := LenientDecode(value);
      if Accepts(value, decoded != [], ToBase64(decoded)) then Ok(decoded) else Err(NotCanonical(field))
  }

  /** `value` is the given body, give or take padding: none, the canonical one, or a multiple of four signs. */
  predicate CanonicalPadding(value: string, body: string, padding: nat) {
    StripEquals(value) == body && (TrailingEquals(value) == padding || TrailingEquals(value) % 4 == 0)
  }

  lemma AcceptsText(value: string, body: string, padding: nat)
    requires (|body| + padding) % 4 == 0 && padding < 3
    requires body == "" || body[|body| - 1] != '='
    ensures Accepts(value, true, body + Equals(padding)) <==> CanonicalPadding(value, body, padding)
  {
    var stripped, trailing := StripEquals(value), TrailingEquals(value);
    StripSplits(value);
    if stripped == body {
      PaddingIsDeficit(value, padding);
    }
    if body + Equals(padding) == value {
      EqualsSplitUnique(body, padding, stripped, trailing);
    } else if Accepts(value, true, body + Equals(padding)) {
      EqualsSplitUnique(body, padding, stripped, Deficit(|value|));
    }
  }

  predicate CanonicalText(value: string, bs: Bytes) {
    CanonicalPadding(value, Body(bs), PaddingLength(bs))
  }

  lemma BodyLength(bs: Bytes)
    ensures (|Body(bs)| + PaddingLength(bs)) % 4 == 0 && PaddingLength(bs) < 3
  {
    SextetsLength(bs);
  }

  lemma PaddingIsDeficit(value: string, padding: nat)
    requires (|StripEquals(value)| + padding) % 4 == 0 && padding < 3
    ensures Deficit(|value|) == padding <==> TrailingEquals(value) % 4 == 0
  {
    PaddingArithmetic(|StripEquals(value)|, padding, TrailingEquals(value));
  }

  lemma AcceptsEncoding(value: string, bs: Bytes)
    ensures Accepts(value, true, ToBase64(bs)) <==> CanonicalText(value, bs)
  {
    BodyEnds(bs);
    BodyLength(bs);
    AcceptsText(value, Body(bs), PaddingLength(bs));
  }

  lemma CanonicalDecodes(value: string, bs: Bytes)
    requires CanonicalText(value, bs)
    ensures LenientDecode(value) == bs
  {
    StripSplits(value);
    LenientDecodeInverts(bs, TrailingEquals(value));
  }

  /**
   * Which texts are accepted, and as what: canonical texts of non-empty bytes, so spare bits are zero and
   * characters outside the alphabet never pass.
   */
  lemma AcceptsExactly(value: string, field: string, bs: Bytes)
    ensures DecodeBase64(value, field) == Ok(bs) <==> bs != [] && CanonicalText(value, bs)
    ensures DecodeBase64(value, field).Err? ==>
              DecodeBase64(value, field) == Err(if value == "" then EmptyField(field) else NotCanonical(field))
  {
    hide Accepts, ToBase64, LenientDecode, Sextets, Text;
    AcceptsEncoding(value, bs);
    if CanonicalText(value, bs) {
      CanonicalDecodes(value, bs);
      BodyNotEmpty(bs);
    }
    EmptyIsRefused(value);
  }

  lemma EmptyIsRefused(value: string)
    ensures value != "" ==> !Accepts(value, false, ToBase64([]))
  {
    assert ToBase64([]) == "";
  }

  lemma BodyNotEmpty(bs: Bytes)
    ensures Body(bs) == "" <==> bs == []
  {
    SextetsLength(bs);
  }

  lemma BodyEnds(bs: Bytes)
    ensures Body(bs) == "" || Body(bs)[|Body(bs)| - 1] != '='
  {
    BodyHasNoEquals(bs);
  }

  /** The padding the acceptance test recomputes is the canonical one exactly when the surplus is a multiple of four. */
  lemma PaddingArithmetic(length: nat, padding: nat, trailing: nat)
    requires padding < 3
    ensures (length + padding) % 4 == 0 ==> (Deficit(length + trailing) == padding <==> trailing % 4 == 0)
  {
    var m, r := length % 4, trailing % 4;
    assert (length + padding) % 4 == (m + padding) % 4;
    assert (length + trailing) % 4 == (m + r) % 4;
  }

  lemma StripOfCanonical(bs: Bytes)
    ensures StripEquals(ToBase64(bs)) == Body(bs) && TrailingEquals(ToBase64(bs)) == PaddingLength(bs)
  {
    StripSplits(ToBase64(bs));
    BodyEnds(bs);
    EqualsSplitUnique(StripEquals(ToBase64(bs)), TrailingEquals(ToBase64(bs)), Body(bs), PaddingLength(bs));
  }

  /** Decoding inverts encoding on every non-empty byte string. */
  lemma DecodeInvertsEncode(bs: Bytes, field: string)
    ensures bs != [] ==> DecodeBase64(ToBase64(bs), field) == Ok(bs)
    ensures bs == [] ==> DecodeBase64(ToBase64(bs), field) == Err(EmptyField(field))
  {
    if bs != [] {
      StripOfCanonical(bs);
      AcceptsExactly(ToBase64(bs), field, bs);
    }
  }

  /** How much padding the text of one byte may carry: the canonical two signs, none, or any multiple of four. */
  lemma PaddingOfOneByte(k: nat, field: string)
    ensures DecodeBase64("YQ" + Equals(k), field) ==
              if k == 2 || k % 4 == 0 then Ok([0x61]) else Err(NotCanonical(field))
  {
    var value := "YQ" + Equals(k);
    OneByteBody();
    StripSplits(value);
    EqualsSplitUnique("YQ", k, StripEquals(value), TrailingEquals(value));
    AcceptsExactly(value, field, [0x61]);
    AcceptsExactly(value, field, LenientDecode(value));
    LenientDecodeInverts([0x61], k);
  }

  lemma OneByteBody()
    ensures Body([0x61]) == "YQ"
  {
    assert Sextets([0x61]) == [24, 16];
    assert [24, 16][1..] == [16] && [16][1..] == [];
    assert Text([16]) == "Q";
  }

  lemma OneByteText()
    ensures ToBase64([0x61]) == "YQ=="
  {
    hide Body;
    OneByteBody();
    assert Equals(2) == "==" && "YQ" + "==" == "YQ==";
  }

  /** Missing and surplus padding is accepted, but not every surplus. */
  lemma PaddingExamples()
    ensures DecodeBase64("YQ", "bytes") == DecodeBase64("YQ====", "bytes") == Ok([0x61])
    ensures DecodeBase64("YQ======", "bytes") == Err(NotCanonical("bytes"))
  {
    hide DecodeBase64;
    PaddingOfOneByte(0, "bytes");
    PaddingOfOneByte(4, "bytes");
    PaddingOfOneByte(6, "bytes");
    assert "YQ" + Equals(0) == "YQ";
    EqualsAre("====");
    EqualsAre("======");
    assert "YQ" + "====" == "YQ====" && "YQ" + "======" == "YQ======";
  }

  lemma EqualsAre(signs: string)
    requires forall i | 0 <= i < |signs| :: signs[i] == '='
    ensures Equals(|signs|) == signs
  {
    assert forall i | 0 <= i < |signs| :: Equals(|signs|)[i] in Equals(|signs|);
  }

  /** The alphabet, table 1 of RFC 4648. */
  lemma AlphabetTable()
    ensures SextetChar(0) == 'A' && SextetChar(1) == 'B' && SextetChar(2) == 'C' && SextetChar(3) == 'D'
    ensures SextetChar(4) == 'E' && SextetChar(5) == 'F' && SextetChar(6) == 'G' && SextetChar(7) == 'H'
    ensures SextetChar(8) == 'I' && SextetChar(9) == 'J' && SextetChar(10) == 'K' && SextetChar(11) == 'L'
    ensures SextetChar(12) == 'M' && SextetChar(13) == 'N' && SextetChar(14) == 'O' && SextetChar(15) == 'P'
    ensures SextetChar(16) == 'Q' && SextetChar(17) == 'R' && SextetChar(18) == 'S' && SextetChar(19) == 'T'
    ensures SextetChar(20) == 'U' && SextetChar(21) == 'V' && SextetChar(22) == 'W' && SextetChar(23) == 'X'
    ensures SextetChar(24) == 'Y' && SextetChar(25) == 'Z' && SextetChar(26) == 'a' && SextetChar(27) == 'b'
    ensures SextetChar(28) == 'c' && SextetChar(29) == 'd' && SextetChar(30) == 'e' && SextetChar(31) == 'f'
    ensures SextetChar(32) == 'g' && SextetChar(33) == 'h' && SextetChar(34) == 'i' && SextetChar(35) == 'j'
    ensures SextetChar(36) == 'k' && SextetChar(37) == 'l' && SextetChar(38) == 'm' && SextetChar(39) == 'n'
    ensures SextetChar(40) == 'o' && SextetChar(41) == 'p' && SextetChar(42) == 'q' && SextetChar(43) == 'r'
    ensures SextetChar(44) == 's' && SextetChar(45) == 't' && SextetChar(46) == 'u' && SextetChar(47) == 'v'
    ensures SextetChar(48) == 'w' && SextetChar(49) == 'x' && SextetChar(50) == 'y' && SextetChar(51) == 'z'
    ensures SextetChar(52) == '0' && SextetChar(53) == '1' && SextetChar(54) == '2' && SextetChar(55) == '3'
    ensures SextetChar(56) == '4' && SextetChar(57) == '5' && SextetChar(58) == '6' && SextetChar(59) == '7'
    ensures SextetChar(60) == '8' && SextetChar(61) == '9' && SextetChar(62) == '+' && SextetChar(63) == '/'
  {
  }

  /** The test vectors of section 10 of RFC 4648. */
  lemma TestVectors()
    ensures ToBase64([]) == ""
    ensures ToBase64([0x66]) == "Zg==" && ToBase64([0x66, 0x6F]) == "Zm8="
    ensures ToBase64([0x66, 0x6F, 0x6F]) == "Zm9v"
    ensures ToBase64([0x66, 0x6F, 0x6F, 0x62, 0x61, 0x72]) == "Zm9vYmFy"
  {
    ShortVectors();
    assert Equals(0) == "" && Equals(1) == "=" && Equals(2) == "==";
    var bs: Bytes := [0x66, 0x6F, 0x6F, 0x62, 0x61, 0x72];
    assert bs[3..] == [0x62, 0x61, 0x72];
    assert Sextets(bs) == [25, 38, 61, 47] + [24, 38, 5, 50];
    assert Text([25, 38, 61, 47] + [24, 38, 5, 50]) == "Zm9vYmFy";
  }

  lemma ShortVectors()
    ensures Body([0x66]) == "Zg" && Body([0x66, 0x6F]) == "Zm8" && Body([0x66, 0x6F, 0x6F]) == "Zm9v"
    ensures Sextets([0x66, 0x6F, 0x6F]) == [25, 38, 61, 47] && Sextets([0x62, 0x61, 0x72]) == [24, 38, 5, 50]
  {
    assert [0x66, 0x6F, 0x6F][3..] == [] && [0x62, 0x61, 0x72][3..] == [];
    assert Sextets([0x66, 0x6F, 0x6F]) == [25, 38, 61, 47] + Sextets([]);
    assert Sextets([0x62, 0x61, 0x72]) == [24, 38, 5, 50] + Sextets([]);
  }
}
