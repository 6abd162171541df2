/** The test vectors of unicode.c, stated as lemmas about the model and as
    methods that call string_to_ucs4 on a fresh array. */
module UnicodeTests {
  import opened Unicode

  /** "Aaß書." as UTF-8, NUL-terminated. */
  const T1: seq<byte> := [0x41, 0x61, 0xC3, 0x9F, 0xE6, 0x9B, 0xB8, 0x2E, 0x00]
  const T1Codepoints: seq<bv32> := [0x41, 0x61, 0xDF, 0x66F8, 0x2E]

  /** "\x94\x41\xe9\x42\xc8": a stray continuation byte, a truncated
      three-byte form and a truncated two-byte form around two letters. */
  const T2: seq<byte> := [0x94, 0x41, 0xE9, 0x42, 0xC8, 0x00]

  /** The first string is the RFC 3629 encoding of its expected code points. */
  lemma T1IsEncoded()
    ensures forall i :: 0 <= i < |T1Codepoints| ==> IsScalar(T1Codepoints[i]) && T1Codepoints[i] != 0
    ensures Encode(T1Codepoints) + [0] == T1
  {
    assert Utf8Encode(0x41) == [0x41];
    assert Utf8Encode(0x61) == [0x61];
    assert Utf8Encode(0xDF) == [0xC3, 0x9F];
    assert Utf8Encode(0x66F8) == [0xE6, 0x9B, 0xB8];
    assert Utf8Encode(0x2E) == [0x2E];
    assert Encode(T1Codepoints) == [0x41, 0x61, 0xC3, 0x9F, 0xE6, 0x9B, 0xB8, 0x2E] by {
      assert T1Codepoints[1..] == [0x61, 0xDF, 0x66F8, 0x2E];
      assert T1Codepoints[1..][1..] == [0xDF, 0x66F8, 0x2E];
      assert T1Codepoints[1..][1..][1..] == [0x66F8, 0x2E];
      assert T1Codepoints[1..][1..][1..][1..] == [0x2E];
      assert T1Codepoints[1..][1..][1..][1..][1..] == [];
    }
  }

  /** test1 on the first string, first step: 'A'. */
  lemma T1FirstStep()
    ensures Scan(T1) == Step(1, 0x41)
  {
    assert T1[..1] == [0x41];
    Pack1([0x41]);
    ScanMatchesGrammar(T1);
  }

  /** test1 on the first string, second step: 'a'. */
  lemma T1SecondStep()
    ensures Scan(T1[1..]) == Step(1, 0x61)
  {
    assert T1[1..][..1] == [0x61];
    Pack1([0x61]);
    ScanMatchesGrammar(T1[1..]);
  }

  /** test1 on the first string, the final '.' and the terminating NUL. */
  lemma T1PeriodSteps()
    ensures Scan(T1[7..]) == Step(1, 0x2E)
    ensures Scan(T1[8..]) == Step(1, 0)
  {
    assert T1[7..][..1] == [0x2E];
    Pack1([0x2E]);
    ScanMatchesGrammar(T1[7..]);
  }

  /** test1 on the first string, multi-byte steps: 'ß' packs to 0xC39F and
      '書' to 0xE69BB8, and packing and unpacking agree both ways. */
  lemma T1MultiByteSteps()
    ensures Scan(T1[2..]) == Step(2, 0xC39F)
    ensures Scan(T1[4..]) == Step(3, 0xE69BB8)
    ensures PackedToUcs4(0xC39F) == 0xDF && UcsToPacked(0xDF) == 0xC39F
    ensures PackedToUcs4(0xE69BB8) == 0x66F8 && UcsToPacked(0x66F8) == 0xE69BB8
  {
    assert Utf8Encode(0xDF) == [0xC3, 0x9F];
    assert T1[2..] == Utf8Encode(0xDF) + T1[4..];
    ScanEncoded(0xDF, T1[4..]);
    assert Utf8Encode(0x66F8) == [0xE6, 0x9B, 0xB8];
    assert T1[4..] == Utf8Encode(0x66F8) + T1[7..];
    ScanEncoded(0x66F8, T1[7..]);
    ScalarRoundTrip(0xDF);
    ScalarRoundTrip(0x66F8);
  }

  /** string_to_ucs4 decodes the first string to its five code points. */
  lemma T1Decodes()
    ensures Codepoints(T1) == T1Codepoints
  {
    T1IsEncoded();
    DecodeEncoded(T1Codepoints);
  }

  /** test1 on the second string, the malformed sequences: a stray
      continuation byte, a three-byte leader followed by 'B', and a two-byte
      leader followed by the NUL each consume one byte as U+FFFD. */
  lemma T2InvalidSteps()
    ensures Scan(T2) == Step(1, InvalidPacked)
    ensures Scan(T2[2..]) == Step(1, InvalidPacked)
    ensures Scan(T2[4..]) == Step(1, InvalidPacked)
  {
    assert T2[2..][..3] == [0xE9, 0x42, 0xC8];
    assert T2[4..][..2] == [0xC8, 0x00];
    ScanMatchesGrammar(T2);
    ScanMatchesGrammar(T2[2..]);
    ScanMatchesGrammar(T2[4..]);
  }

  /** test1 on the second string, the letters between the malformed
      sequences and the terminating NUL. */
  lemma T2AsciiSteps()
    ensures Scan(T2[1..]) == Step(1, 0x41)
    ensures Scan(T2[3..]) == Step(1, 0x42)
    ensures Scan(T2[5..]) == Step(1, 0)
  {
    assert T2[1..][..1] == [0x41];
    assert T2[3..][..1] == [0x42];
    Pack1([0x41]);
    Pack1([0x42]);
    ScanMatchesGrammar(T2[1..]);
    ScanMatchesGrammar(T2[3..]);
  }

  /** One decoding step on a test string: the code point read at its head
      followed by the code points of the rest. */
  lemma StepInto(s: seq<byte>, len: nat, packed: bv32, cp: bv32, rest: seq<bv32>)
    requires 0 in s && s[0] != 0 && Scan(s) == Step(len, packed) && PackedToUcs4(packed) == cp
    requires len <= |s| && 0 in s[len..] && Codepoints(s[len..]) == rest
    ensures Codepoints(s) == [cp] + rest
  {
    CodepointsStep(s);
  }

  /** The second string from its first 'B' on decodes to 'B', U+FFFD. */
  lemma T2DecodesFromB()
    ensures Codepoints(T2[3..]) == [0x42, InvalidCode]
  {
    assert [InvalidCode] + [] == [InvalidCode];
    assert [0x42] + [InvalidCode] == [0x42, InvalidCode];
    T2InvalidSteps();
    T2AsciiSteps();
    ReplacementAndAscii(0x42);
    CodepointsEmpty(T2[5..]);
    assert T2[4..][1..] == T2[5..];
    StepInto(T2[4..], 1, InvalidPacked, InvalidCode, []);
    assert T2[3..][1..] == T2[4..];
    StepInto(T2[3..], 1, 0x42, 0x42, [InvalidCode]);
  }

  /** The second string after its stray continuation byte decodes to 'A',
      U+FFFD, 'B', U+FFFD. */
  lemma T2DecodesFromA()
    ensures Codepoints(T2[1..]) == [0x41, InvalidCode, 0x42, InvalidCode]
  {
    assert [InvalidCode] + [0x42, InvalidCode] == [InvalidCode, 0x42, InvalidCode];
    assert [0x41] + [InvalidCode, 0x42, InvalidCode] == [0x41, InvalidCode, 0x42, InvalidCode];
    T2InvalidSteps();
    T2AsciiSteps();
    T2DecodesFromB();
    ReplacementAndAscii(0x41);
    assert T2[2..][1..] == T2[3..];
    StepInto(T2[2..], 1, InvalidPacked, InvalidCode, [0x42, InvalidCode]);
    assert T2[1..][1..] == T2[2..];
    StepInto(T2[1..], 1, 0x41, 0x41, [InvalidCode, 0x42, InvalidCode]);
  }

  /** string_to_ucs4 decodes the second string to U+FFFD, 'A', U+FFFD, 'B',
      U+FFFD. */
  lemma T2Decodes()
    ensures Codepoints(T2) == [InvalidCode, 0x41, InvalidCode, 0x42, InvalidCode]
  {
    assert [InvalidCode] + [0x41, InvalidCode, 0x42, InvalidCode] == [InvalidCode, 0x41, InvalidCode, 0x42, InvalidCode];
    T2InvalidSteps();
    T2DecodesFromA();
    ReplacementAndAscii(0x41);
    StepInto(T2, 1, InvalidPacked, InvalidCode, [0x41, InvalidCode, 0x42, InvalidCode]);
  }

  /** The first string_to_ucs4 call of the tests: ten elements of room, so
      the whole string is converted. */
  method WholeStringTest() returns (count: nat, complete: bool, decoded: seq<bv32>)
    ensures complete && count == 5 && decoded == T1Codepoints
  {
    T1Decodes();
    var cp := new bv32[10];
    count, complete := StringToUcs4(T1, cp, 10);
    decoded := cp[..count];
  }

  /** The second call: room for four code points only.  The conversion
      stops short, and the element after the fourth keeps its sentinel. */
  method TruncatedTest() returns (count: nat, complete: bool, decoded: seq<bv32>, sentinel: bv32)
    ensures !complete && count == 4 && decoded == T1Codepoints[..4]
    ensures sentinel == 0xFFFFFFFF
  {
    T1Decodes();
    var cp := new bv32[10];
    cp[4] := 0xFFFFFFFF;
    count, complete := StringToUcs4(T1, cp, 4);
    decoded := cp[..count];
    sentinel := cp[4];
  }
}
