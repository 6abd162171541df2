/** Strict UTF-8 decoding of NUL-terminated byte strings (unicode.c).

    A sequence is first "packed": its raw bytes are concatenated into one
    32-bit word, most significant byte first, so that "\xC3\x9F" packs to
    0xC39F.  The packed word is validated against fixed ranges (which is what
    rejects overlong forms, UTF-16 surrogates and values above U+10FFFF, see
    sections 3 and 4 of RFC 3629) and is then unpacked into a code point.
    Anything that fails becomes U+FFFD and consumes exactly one byte.

    Bytes are `bv8` and packed values and code points are `bv32`, the widths
    of the C `char` and `uint32_t` the source computes with.  The bit-vector
    facts are proved in small lemmas, one range at a time, to keep each proof
    obligation cheap for the solver. */
module Unicode {
  import opened Seqs

  type byte = bv8

  /** Packed form and code point of the replacement character U+FFFD. */
  const InvalidPacked: bv32 := 0xEFBFBD
  const InvalidCode: bv32 := 0xFFFD

  // =====================================================================
  // C strings

  /** Length of the C string `s`: the index of its first NUL byte. */
  function Strlen(s: seq<byte>): (n: nat)
    requires 0 in s
    ensures n < |s| && s[n] == 0
  {
    if s[0] == 0 then 0 else Strlen(s[1..]) + 1
  }

  /** No byte before the terminator is NUL. */
  lemma {:induction false} StrlenNoNul(s: seq<byte>, k: nat)
    requires 0 in s
    ensures k < Strlen(s) ==> s[k] != 0
  {
    if k < Strlen(s) && k > 0 {
      StrlenNoNul(s[1..], k - 1);
    }
  }

  /** Dropping k leading non-NUL bytes shortens the string by k. */
  lemma {:induction false} StrlenSuffix(s: seq<byte>, k: nat)
    requires 0 in s && k <= Strlen(s)
    ensures 0 in s[k..] && Strlen(s[k..]) == Strlen(s) - k
  {
    if k > 0 {
      assert s[1..][k - 1..] == s[k..];
      StrlenSuffix(s[1..], k - 1);
    }
  }

  // =====================================================================
  // The leader-byte table

  const Lengths: seq<nat> := [1, 1, 1, 1, 1, 1, 1, 1, 0, 0, 0, 0, 2, 2, 3, 4]

  /** Sequence length announced by a leader byte, looked up by its top
      nibble; 0 marks a continuation byte, which cannot lead. */
  function Utf8Length(b: byte): (n: nat)
    ensures b < 0x80 ==> n == 1
    ensures 0x80 <= b < 0xC0 ==> n == 0
    ensures 0xC0 <= b < 0xE0 ==> n == 2
    ensures 0xE0 <= b < 0xF0 ==> n == 3
    ensures 0xF0 <= b ==> n == 4
  {
    Lengths[((b & 0xF0) >> 4) as int]
  }

  // =====================================================================
  // Validation of packed values

  /** The range and bit-pattern check of a packed sequence. */
  predicate ValidatePacked(c: bv32) {
    if c <= 0x7F then true
    else if 0xC280 <= c <= 0xDFBF then c & 0xE0C0 == 0xC080
    else if 0xEDA080 <= c <= 0xEDBFBF then false
    else if 0xE0A080 <= c <= 0xEFBFBF then c & 0xF0C0C0 == 0xE08080
    else if 0xF0908080 <= c <= 0xF48FBFBF then c & 0xF8C0C0C0 == 0xF0808080
    else false
  }

  /** Every packed value in the surrogate block U+D800..U+DFFF is refused. */
  lemma SurrogatesRejected(c: bv32)
    requires 0xEDA080 <= c <= 0xEDBFBF
    ensures !ValidatePacked(c)
  {
  }

  /** Overlong and out-of-range packed values are refused: two-byte forms
      below 0xC280, three-byte forms below 0xE0A080 and four-byte forms
      outside 0xF0908080..0xF48FBFBF. */
  lemma OverlongRejected(c: bv32)
    requires || (0x7F < c < 0xC280)
             || (0xE00000 <= c < 0xE0A080)
             || (0xF0000000 <= c && !(0xF0908080 <= c <= 0xF48FBFBF))
    ensures !ValidatePacked(c)
  {
  }

  /** A Unicode scalar value: at most U+10FFFF and not a surrogate. */
  predicate IsScalar(cp: bv32) {
    cp <= 0x10FFFF && !(0xD800 <= cp <= 0xDFFF)
  }

  // =====================================================================
  // Unpacking and packing

  /** The payload bits of a packed multi-byte sequence; `mask` selects the
      leader's payload of a three-byte form or the second byte's payload of
      a four-byte form. */
  function Gather(c: bv32, mask: bv32): bv32 {
    ((c & 0x07000000) >> 6) | ((c & mask) >> 4) | ((c & 0x00003F00) >> 2) | (c & 0x0000003F)
  }

  /** From a packed sequence to its code point. */
  function PackedToUcs4(c: bv32): bv32 {
    if c <= 0x7F then c
    else if c <= 0x00EFBFBF then Gather(c, 0x000F0000)
    else Gather(c, 0x003F0000)
  }

  /** The payload bits of a code point spread over 6-bit groups. */
  function Spread(cp: bv32): bv32 {
    (cp & 0x0000003F) | ((cp & 0x00000FC0) << 2) | ((cp & 0x0003F000) << 4) | ((cp & 0x001C0000) << 6)
  }

  /** From a code point to its packed sequence (the inverse the tests use). */
  function UcsToPacked(cp: bv32): bv32 {
    if cp <= 0x7F then cp
    else if cp < 0x800 then Spread(cp) | 0x0000C080
    else if cp < 0x10000 then Spread(cp) | 0x00E08080
    else Spread(cp) | 0xF0808080
  }

  // Bit-level facts, one length at a time.  They are stated as implications
  // without preconditions, and each holds a single fact, so that no proof
  // obligation ever mixes several bit-vector facts.

  lemma ValidCases(p: bv32)
    ensures ValidatePacked(p) ==> || p <= 0x7F
                                  || (0xC280 <= p <= 0xDFBF && p & 0xE0C0 == 0xC080)
                                  || (0xE0A080 <= p <= 0xEFBFBF && !(0xEDA080 <= p <= 0xEDBFBF) && p & 0xF0C0C0 == 0xE08080)
                                  || (0xF0908080 <= p <= 0xF48FBFBF && p & 0xF8C0C0C0 == 0xF0808080)
  {
  }

  lemma UnpackFacts(c: bv32)
    ensures 0x7F < c <= 0x00EFBFBF ==> PackedToUcs4(c) == Gather(c, 0x000F0000)
    ensures 0x00EFBFBF < c ==> PackedToUcs4(c) == Gather(c, 0x003F0000)
  {
  }

  lemma PackFacts(cp: bv32)
    ensures 0x80 <= cp < 0x800 ==> UcsToPacked(cp) == Spread(cp) | 0x0000C080
    ensures 0x800 <= cp < 0x10000 ==> UcsToPacked(cp) == Spread(cp) | 0x00E08080
    ensures 0x10000 <= cp ==> UcsToPacked(cp) == Spread(cp) | 0xF0808080
  {
  }

  lemma GatherRange2(p: bv32)
    ensures 0xC280 <= p <= 0xDFBF && p & 0xE0C0 == 0xC080 ==> var cp := Gather(p, 0x000F0000); 0x80 <= cp < 0x800
  {
  }

  lemma GatherInverse2(p: bv32)
    ensures 0xC280 <= p <= 0xDFBF && p & 0xE0C0 == 0xC080 ==> Spread(Gather(p, 0x000F0000)) | 0x0000C080 == p
  {
  }

  lemma SpreadValid2(cp: bv32)
    ensures 0x80 <= cp < 0x800 ==> var p := Spread(cp) | 0x0000C080; 0xC280 <= p <= 0xDFBF && p & 0xE0C0 == 0xC080
  {
  }

  lemma SpreadInverse2(cp: bv32)
    ensures 0x80 <= cp < 0x800 ==> var p := Spread(cp) | 0x0000C080; 0x7F < p <= 0x00EFBFBF && Gather(p, 0x000F0000) == cp
  {
  }

  lemma GatherRange3(p: bv32)
    ensures 0xE0A080 <= p <= 0xEFBFBF && !(0xEDA080 <= p <= 0xEDBFBF) && p & 0xF0C0C0 == 0xE08080 ==> var cp := Gather(p, 0x000F0000); 0x800 <= cp < 0x10000 && !(0xD800 <= cp <= 0xDFFF)
  {
  }

  lemma GatherInverse3(p: bv32)
    ensures 0xE0A080 <= p <= 0xEFBFBF && !(0xEDA080 <= p <= 0xEDBFBF) && p & 0xF0C0C0 == 0xE08080 ==> Spread(Gather(p, 0x000F0000)) | 0x00E08080 == p
  {
  }

  lemma SpreadValid3(cp: bv32)
    ensures 0x800 <= cp < 0x10000 && !(0xD800 <= cp <= 0xDFFF) ==> var p := Spread(cp) | 0x00E08080; 0xE0A080 <= p <= 0xEFBFBF && !(0xEDA080 <= p <= 0xEDBFBF) && p & 0xF0C0C0 == 0xE08080
  {
  }

  lemma SpreadInverse3(cp: bv32)
    ensures 0x800 <= cp < 0x10000 && !(0xD800 <= cp <= 0xDFFF) ==> var p := Spread(cp) | 0x00E08080; 0x7F < p <= 0x00EFBFBF && Gather(p, 0x000F0000) == cp
  {
  }

  lemma GatherRange4(p: bv32)
    ensures 0xF0908080 <= p <= 0xF48FBFBF && p & 0xF8C0C0C0 == 0xF0808080 ==> var cp := Gather(p, 0x003F0000); 0x10000 <= cp <= 0x10FFFF
  {
  }

  lemma GatherInverse4(p: bv32)
    ensures 0xF0908080 <= p <= 0xF48FBFBF && p & 0xF8C0C0C0 == 0xF0808080 ==> Spread(Gather(p, 0x003F0000)) | 0xF0808080 == p
  {
  }

  lemma SpreadValid4(cp: bv32)
    ensures 0x10000 <= cp <= 0x10FFFF ==> var p := Spread(cp) | 0xF0808080; 0xF0908080 <= p <= 0xF48FBFBF && p & 0xF8C0C0C0 == 0xF0808080
  {
  }

  lemma SpreadInverse4(cp: bv32)
    ensures 0x10000 <= cp <= 0x10FFFF ==> var p := Spread(cp) | 0xF0808080; 0x00EFBFBF < p && Gather(p, 0x003F0000) == cp
  {
  }

  lemma PackedRoundTrip2(p: bv32)
    requires 0xC280 <= p <= 0xDFBF && p & 0xE0C0 == 0xC080
    ensures IsScalar(Gather(p, 0x000F0000)) && UcsToPacked(Gather(p, 0x000F0000)) == p
  {
    GatherRange2(p);
    GatherInverse2(p);
    PackFacts(Gather(p, 0x000F0000));
  }

  lemma ScalarRoundTrip2(cp: bv32)
    requires 0x80 <= cp < 0x800
    ensures var p := Spread(cp) | 0x0000C080; ValidatePacked(p) && Gather(p, 0x000F0000) == cp
  {
    SpreadValid2(cp);
    SpreadInverse2(cp);
  }

  lemma PackedRoundTrip3(p: bv32)
    requires 0xE0A080 <= p <= 0xEFBFBF && !(0xEDA080 <= p <= 0xEDBFBF) && p & 0xF0C0C0 == 0xE08080
    ensures IsScalar(Gather(p, 0x000F0000)) && UcsToPacked(Gather(p, 0x000F0000)) == p
  {
    GatherRange3(p);
    GatherInverse3(p);
    PackFacts(Gather(p, 0x000F0000));
  }

  lemma ScalarRoundTrip3(cp: bv32)
    requires 0x800 <= cp < 0x10000 && !(0xD800 <= cp <= 0xDFFF)
    ensures var p := Spread(cp) | 0x00E08080; ValidatePacked(p) && Gather(p, 0x000F0000) == cp
  {
    SpreadValid3(cp);
    SpreadInverse3(cp);
  }

  lemma PackedRoundTrip4(p: bv32)
    requires 0xF0908080 <= p <= 0xF48FBFBF && p & 0xF8C0C0C0 == 0xF0808080
    ensures IsScalar(Gather(p, 0x003F0000)) && UcsToPacked(Gather(p, 0x003F0000)) == p
  {
    GatherRange4(p);
    GatherInverse4(p);
    PackFacts(Gather(p, 0x003F0000));
  }

  lemma ScalarRoundTrip4(cp: bv32)
    requires 0x10000 <= cp <= 0x10FFFF
    ensures var p := Spread(cp) | 0xF0808080; ValidatePacked(p) && Gather(p, 0x003F0000) == cp
  {
    SpreadValid4(cp);
    SpreadInverse4(cp);
  }

  /** Unpacking a valid packed value yields a scalar value, and packing that
      scalar value again restores the packed value. */
  lemma PackedRoundTrip(p: bv32)
    requires ValidatePacked(p)
    ensures IsScalar(PackedToUcs4(p))
    ensures UcsToPacked(PackedToUcs4(p)) == p
  {
    ValidCases(p);
    UnpackFacts(p);
    if p <= 0x7F {
    } else if p <= 0xDFBF {
      PackedRoundTrip2(p);
    } else if p <= 0xEFBFBF {
      PackedRoundTrip3(p);
    } else {
      PackedRoundTrip4(p);
    }
  }

  /** Packing a scalar value yields a valid packed value that unpacks to it. */
  lemma ScalarRoundTrip(cp: bv32)
    requires IsScalar(cp)
    ensures ValidatePacked(UcsToPacked(cp))
    ensures PackedToUcs4(UcsToPacked(cp)) == cp
  {
    PackFacts(cp);
    if cp <= 0x7F {
    } else if cp < 0x800 {
      ScalarRoundTrip2(cp);
      UnpackFacts(Spread(cp) | 0x0000C080);
    } else if cp < 0x10000 {
      ScalarRoundTrip3(cp);
      UnpackFacts(Spread(cp) | 0x00E08080);
    } else {
      ScalarRoundTrip4(cp);
      UnpackFacts(Spread(cp) | 0xF0808080);
    }
  }

  /** The fixed points the tests check: U+FFFD and ASCII. */
  lemma ReplacementAndAscii(a: bv32)
    requires a <= 0x7F
    ensures PackedToUcs4(InvalidPacked) == InvalidCode
    ensures UcsToPacked(InvalidCode) == InvalidPacked
    ensures PackedToUcs4(a) == a && UcsToPacked(a) == a
  {
    UnpackFacts(InvalidPacked);
    PackFacts(InvalidCode);
  }

  // =====================================================================
  // Packing raw bytes

  /** The bytes of `bs` concatenated into one word, first byte most
      significant, as the packing loop of next_char builds it. */
  function Pack(bs: seq<byte>): bv32 {
    if bs == [] then 0 else (Pack(bs[..|bs| - 1]) << 8) | bs[|bs| - 1] as bv32
  }

  lemma PackSnoc(bs: seq<byte>, i: nat)
    requires i < |bs|
    ensures Pack(bs[..i + 1]) == (Pack(bs[..i]) << 8) | bs[i] as bv32
  {
    assert bs[..i + 1][..i] == bs[..i];
  }

  function Word2(b0: byte, b1: byte): bv32 {
    (b0 as bv32 << 8) | b1 as bv32
  }

  function Word3(b0: byte, b1: byte, b2: byte): bv32 {
    (b0 as bv32 << 16) | (b1 as bv32 << 8) | b2 as bv32
  }

  function Word4(b0: byte, b1: byte, b2: byte, b3: byte): bv32 {
    (b0 as bv32 << 24) | (b1 as bv32 << 16) | (b2 as bv32 << 8) | b3 as bv32
  }

  lemma Pack1(bs: seq<byte>)
    requires |bs| == 1
    ensures Pack(bs) == bs[0] as bv32
  {
    assert bs[..0] == [];
  }

  lemma Pack2(bs: seq<byte>)
    requires |bs| == 2
    ensures Pack(bs) == Word2(bs[0], bs[1])
  {
    Pack1(bs[..1]);
    Shift2(bs[0], bs[1]);
  }

  lemma Pack3(bs: seq<byte>)
    requires |bs| == 3
    ensures Pack(bs) == Word3(bs[0], bs[1], bs[2])
  {
    Pack2(bs[..2]);
    Shift3(bs[0], bs[1], bs[2]);
  }

  lemma Pack4(bs: seq<byte>)
    requires |bs| == 4
    ensures Pack(bs) == Word4(bs[0], bs[1], bs[2], bs[3])
  {
    Pack3(bs[..3]);
    Shift4(bs[0], bs[1], bs[2], bs[3]);
  }

  lemma Shift2(b0: byte, b1: byte)
    ensures ((b0 as bv32) << 8) | b1 as bv32 == Word2(b0, b1)
  {
  }

  lemma Shift3(b0: byte, b1: byte, b2: byte)
    ensures (Word2(b0, b1) << 8) | b2 as bv32 == Word3(b0, b1, b2)
  {
  }

  lemma Shift4(b0: byte, b1: byte, b2: byte, b3: byte)
    ensures (Word3(b0, b1, b2) << 8) | b3 as bv32 == Word4(b0, b1, b2, b3)
  {
  }

  // A leader announcing more bytes than there are before the terminating
  // NUL packs to a value that validation refuses.

  lemma Truncated1(b0: byte)
    ensures 0xC0 <= b0 ==> !ValidatePacked(b0 as bv32)
  {
  }

  lemma Truncated2(b0: byte, b1: byte)
    ensures 0xE0 <= b0 ==> !ValidatePacked(Word2(b0, b1))
  {
  }

  lemma Truncated3(b0: byte, b1: byte, b2: byte)
    ensures 0xF0 <= b0 ==> !ValidatePacked(Word3(b0, b1, b2))
  {
  }

  lemma LeaderKept(b0: byte, b1: byte, b2: byte, b3: byte)
    ensures b0 != 0 ==> Word2(b0, b1) != 0 && Word3(b0, b1, b2) != 0 && Word4(b0, b1, b2, b3) != 0
  {
  }

  function Min(a: nat, b: nat): nat {
    if a < b then a else b
  }

  /** Packing the bytes next_char reads from `s`: at most `len` of them,
      stopping at the NUL.  Validation accepts the result only when all
      `len` bytes were read, and it is then nonzero. */
  lemma PrefixFacts(s: seq<byte>, len: nat)
    requires 0 in s && len == Utf8Length(s[0])
    ensures s[0] != 0 && len != 0 && ValidatePacked(Pack(s[..Min(len, Strlen(s))])) ==>
              Min(len, Strlen(s)) == len && Pack(s[..len]) != 0
  {
    var n := Min(len, Strlen(s));
    if s[0] != 0 && len != 0 {
      assert 1 <= n;
      if n == 1 {
        Pack1(s[..1]);
        Truncated1(s[0]);
      } else if n == 2 {
        Pack2(s[..2]);
        Truncated2(s[0], s[1]);
        LeaderKept(s[0], s[1], 0, 0);
      } else if n == 3 {
        Pack3(s[..3]);
        Truncated3(s[0], s[1], s[2]);
        LeaderKept(s[0], s[1], s[2], 0);
      } else {
        Pack4(s[..4]);
        LeaderKept(s[0], s[1], s[2], s[3]);
      }
    }
  }

  // =====================================================================
  // next_char

  /** One step of the decoder: the number of bytes consumed and the packed
      value read. */
  datatype Step = Step(len: nat, packed: bv32)

  /** What next_char reads at the head of the C string `s`: a well-formed
      sequence with its length, or the replacement character consuming one
      byte.  At the terminating NUL it reports a length of 1 with packed 0. */
  function Scan(s: seq<byte>): (r: Step)
    requires 0 in s
    ensures 1 <= r.len <= 4
    ensures s[0] == 0 ==> r == Step(1, 0)
  {
    var len := Utf8Length(s[0]);
    var encoding := Pack(s[..Min(len, Strlen(s))]);
    if len == 0 || !ValidatePacked(encoding) then Step(1, InvalidPacked) else Step(len, encoding)
  }

  /** Away from the NUL, next_char consumes no more bytes than the string
      holds and yields a nonzero packed value. */
  lemma ScanBounds(s: seq<byte>)
    requires 0 in s
    ensures s[0] != 0 ==> Scan(s).len <= Strlen(s) && Scan(s).packed != 0
  {
    PrefixFacts(s, Utf8Length(s[0]));
  }

  /** Whatever next_char yields passes validate_packed. */
  lemma ScanValid(s: seq<byte>)
    requires 0 in s
    ensures ValidatePacked(Scan(s).packed)
  {
  }

  /** next_char: packs at most the announced number of bytes, stopping at
      a NUL, and replaces an invalid result by U+FFFD. */
  method NextChar(src: seq<byte>) returns (len: nat, packed: bv32)
    requires 0 in src
    ensures Step(len, packed) == Scan(src)
  {
    var encoding: bv32 := 0;
    len := Utf8Length(src[0]);
    var i := 0;
    while i < len && src[i] != 0
      invariant i <= len && i <= Strlen(src)
      invariant encoding == Pack(src[..i])
    {
      PackSnoc(src, i);
      encoding := (encoding << 8) | src[i] as bv32;
      i := i + 1;
    }
    StrlenNoNul(src, i);
    assert i == Min(len, Strlen(src));
    if len == 0 || !ValidatePacked(encoding) {
      encoding := InvalidPacked;
      len := 1;
    }
    packed := encoding;
  }

  // =====================================================================
  // The well-formed byte sequences of section 4 of RFC 3629

  predicate Tail(b: byte) { 0x80 <= b <= 0xBF }

  predicate WellFormed1(b0: byte) { b0 <= 0x7F }

  predicate WellFormed2(b0: byte, b1: byte) { 0xC2 <= b0 <= 0xDF && Tail(b1) }

  predicate WellFormed3(b0: byte, b1: byte, b2: byte) {
    && (|| (b0 == 0xE0 && 0xA0 <= b1 <= 0xBF)
        || (0xE1 <= b0 <= 0xEC && Tail(b1))
        || (b0 == 0xED && 0x80 <= b1 <= 0x9F)
        || (0xEE <= b0 <= 0xEF && Tail(b1)))
    && Tail(b2)
  }

  predicate WellFormed4(b0: byte, b1: byte, b2: byte, b3: byte) {
    && (|| (b0 == 0xF0 && 0x90 <= b1 <= 0xBF)
        || (0xF1 <= b0 <= 0xF3 && Tail(b1))
        || (b0 == 0xF4 && 0x80 <= b1 <= 0x8F))
    && Tail(b2) && Tail(b3)
  }

  /** `bs` is exactly one UTF8-char of the grammar in section 4 of RFC 3629. */
  predicate WellFormedChar(bs: seq<byte>) {
    if |bs| == 1 then WellFormed1(bs[0])
    else if |bs| == 2 then WellFormed2(bs[0], bs[1])
    else if |bs| == 3 then WellFormed3(bs[0], bs[1], bs[2])
    else if |bs| == 4 then WellFormed4(bs[0], bs[1], bs[2], bs[3])
    else false
  }

  /** Only the first byte of a well-formed character can be NUL. */
  lemma WellFormedTails(bs: seq<byte>)
    ensures WellFormedChar(bs) ==> forall k :: 1 <= k < |bs| ==> Tail(bs[k])
  {
  }

  /** The leader byte of a well-formed character announces its length. */
  lemma WellFormedLength(bs: seq<byte>)
    requires WellFormedChar(bs)
    ensures Utf8Length(bs[0]) == |bs|
  {
  }

  lemma Grammar2(b0: byte, b1: byte)
    ensures 0xC0 <= b0 <= 0xDF ==> (ValidatePacked(Word2(b0, b1)) <==> WellFormed2(b0, b1))
  {
  }

  lemma Grammar3(b0: byte, b1: byte, b2: byte)
    ensures 0xE0 <= b0 <= 0xEF ==> (ValidatePacked(Word3(b0, b1, b2)) <==> WellFormed3(b0, b1, b2))
  {
  }

  lemma Grammar4(b0: byte, b1: byte, b2: byte, b3: byte)
    ensures 0xF0 <= b0 ==> (ValidatePacked(Word4(b0, b1, b2, b3)) <==> WellFormed4(b0, b1, b2, b3))
  {
  }

  /** Validation of a packed sequence of the announced length accepts
      exactly the well-formed characters of RFC 3629. */
  lemma ValidIffWellFormed(bs: seq<byte>)
    requires 1 <= |bs| && |bs| == Utf8Length(bs[0])
    ensures ValidatePacked(Pack(bs)) <==> WellFormedChar(bs)
  {
    if |bs| == 1 {
      Pack1(bs);
    } else if |bs| == 2 {
      Pack2(bs);
      Grammar2(bs[0], bs[1]);
    } else if |bs| == 3 {
      Pack3(bs);
      Grammar3(bs[0], bs[1], bs[2]);
    } else {
      Pack4(bs);
      Grammar4(bs[0], bs[1], bs[2], bs[3]);
    }
  }

  /** next_char accepts the bytes its leader announces exactly when they
      form a well-formed character (which never includes the terminating
      NUL), and otherwise consumes one byte as U+FFFD. */
  lemma ScanMatchesGrammar(s: seq<byte>)
    requires 0 in s && s[0] != 0
    ensures var len := Utf8Length(s[0]);
      Scan(s) == if 1 <= len <= |s| && WellFormedChar(s[..len]) then Step(len, Pack(s[..len]))
                 else Step(1, InvalidPacked)
  {
    var len := Utf8Length(s[0]);
    var n := Min(len, Strlen(s));
    PrefixFacts(s, len);
    if len != 0 {
      if n < len {
        if len <= |s| {
          WellFormedTails(s[..len]);
          assert s[..len][n] == 0;
        }
      } else {
        ValidIffWellFormed(s[..len]);
      }
    }
  }

  // =====================================================================
  // The encoding of section 3 of RFC 3629

  /** The low eight bits of a word. */
  function Low(x: bv32): byte {
    (x & 0xFF) as byte
  }

  /** The UTF-8 encoding of a scalar value, byte by byte. */
  function Utf8Encode(cp: bv32): (bs: seq<byte>)
    requires IsScalar(cp)
    ensures 1 <= |bs| <= 4
  {
    if cp <= 0x7F then [Low(cp)]
    else if cp <= 0x7FF then [Low(0xC0 | (cp >> 6)), Low(0x80 | (cp & 0x3F))]
    else if cp <= 0xFFFF then
      [Low(0xE0 | (cp >> 12)), Low(0x80 | ((cp >> 6) & 0x3F)), Low(0x80 | (cp & 0x3F))]
    else
      [Low(0xF0 | (cp >> 18)), Low(0x80 | ((cp >> 12) & 0x3F)),
       Low(0x80 | ((cp >> 6) & 0x3F)), Low(0x80 | (cp & 0x3F))]
  }

  lemma EncodeGrammar1(cp: bv32)
    ensures cp <= 0x7F ==> WellFormed1(Low(cp)) && Low(cp) as bv32 == cp
  {
  }

  lemma EncodeGrammar2(cp: bv32)
    ensures 0x80 <= cp <= 0x7FF ==> WellFormed2(Low(0xC0 | (cp >> 6)), Low(0x80 | (cp & 0x3F)))
  {
  }

  lemma EncodeWord2(cp: bv32)
    ensures 0x80 <= cp <= 0x7FF ==>
      Word2(Low(0xC0 | (cp >> 6)), Low(0x80 | (cp & 0x3F))) == Spread(cp) | 0x0000C080
  {
  }

  lemma EncodeGrammar3(cp: bv32)
    ensures 0x800 <= cp <= 0xFFFF && !(0xD800 <= cp <= 0xDFFF) ==>
      WellFormed3(Low(0xE0 | (cp >> 12)), Low(0x80 | ((cp >> 6) & 0x3F)), Low(0x80 | (cp & 0x3F)))
  {
  }

  lemma EncodeWord3(cp: bv32)
    ensures cp <= 0xFFFF ==>
      Word3(Low(0xE0 | (cp >> 12)), Low(0x80 | ((cp >> 6) & 0x3F)), Low(0x80 | (cp & 0x3F)))
        == Spread(cp) | 0x00E08080
  {
    if cp <= 0xFFFF {
      Fields3(cp);
      Same3(Low(0xE0 | (cp >> 12)), Low(0x80 | ((cp >> 6) & 0x3F)), Low(0x80 | (cp & 0x3F)),
            Spread(cp) | 0x00E08080);
    }
  }

  /** Each encoded byte of a three-byte form is one byte of the packed word. */
  lemma Fields3(cp: bv32)
    requires cp <= 0xFFFF
    ensures [Low(0xE0 | (cp >> 12)), Low(0x80 | ((cp >> 6) & 0x3F)), Low(0x80 | (cp & 0x3F))]
         == [Low((Spread(cp) | 0x00E08080) >> 16), Low((Spread(cp) | 0x00E08080) >> 8),
             Low(Spread(cp) | 0x00E08080)]
  {
  }

  /** Three bytes taken from a 24-bit word pack back to that word. */
  lemma Same3(x0: byte, x1: byte, x2: byte, p: bv32)
    requires p <= 0xFFFFFF && [x0, x1, x2] == [Low(p >> 16), Low(p >> 8), Low(p)]
    ensures Word3(x0, x1, x2) == p
  {
    assert x0 == [x0, x1, x2][0];
    assert x1 == [x0, x1, x2][1];
  }

  lemma EncodeGrammar4(cp: bv32)
    ensures 0x10000 <= cp <= 0x10FFFF ==>
      WellFormed4(Low(0xF0 | (cp >> 18)), Low(0x80 | ((cp >> 12) & 0x3F)),
                  Low(0x80 | ((cp >> 6) & 0x3F)), Low(0x80 | (cp & 0x3F)))
  {
  }

  lemma EncodeWord4(cp: bv32)
    ensures cp & 0xFFE00000 == 0 ==>
      Word4(Low(0xF0 | (cp >> 18)), Low(0x80 | ((cp >> 12) & 0x3F)),
            Low(0x80 | ((cp >> 6) & 0x3F)), Low(0x80 | (cp & 0x3F)))
        == Spread(cp) | 0xF0808080
  {
    if cp & 0xFFE00000 == 0 {
      Fields4(cp);
      Same4(Low(0xF0 | (cp >> 18)), Low(0x80 | ((cp >> 12) & 0x3F)),
            Low(0x80 | ((cp >> 6) & 0x3F)), Low(0x80 | (cp & 0x3F)), Spread(cp) | 0xF0808080);
    }
  }

  /** Each encoded byte of a four-byte form is one byte of the packed word. */
  lemma Fields4(cp: bv32)
    requires cp & 0xFFE00000 == 0
    ensures [Low(0xF0 | (cp >> 18)), Low(0x80 | ((cp >> 12) & 0x3F)),
             Low(0x80 | ((cp >> 6) & 0x3F)), Low(0x80 | (cp & 0x3F))]
         == [Low((Spread(cp) | 0xF0808080) >> 24), Low((Spread(cp) | 0xF0808080) >> 16),
             Low((Spread(cp) | 0xF0808080) >> 8), Low(Spread(cp) | 0xF0808080)]
  {
  }

  /** Four bytes taken from a word pack back to that word. */
  lemma Same4(x0: byte, x1: byte, x2: byte, x3: byte, p: bv32)
    requires [x0, x1, x2, x3] == [Low(p >> 24), Low(p >> 16), Low(p >> 8), Low(p)]
    ensures Word4(x0, x1, x2, x3) == p
  {
    assert x0 == [x0, x1, x2, x3][0];
    assert x1 == [x0, x1, x2, x3][1];
    assert x2 == [x0, x1, x2, x3][2];
  }

  lemma TwentyOneBits(cp: bv32)
    ensures cp <= 0x10FFFF ==> cp & 0xFFE00000 == 0
  {
  }

  /** The RFC 3629 encoding of a scalar value is a well-formed character,
      and its bytes pack to the value ucs4_to_packed computes. */
  lemma EncodeIsPacked(cp: bv32)
    requires IsScalar(cp)
    ensures WellFormedChar(Utf8Encode(cp))
    ensures Pack(Utf8Encode(cp)) == UcsToPacked(cp)
  {
    var bs := Utf8Encode(cp);
    PackFacts(cp);
    if cp <= 0x7F {
      Pack1(bs);
      EncodeGrammar1(cp);
    } else if cp <= 0x7FF {
      Pack2(bs);
      EncodeGrammar2(cp);
      EncodeWord2(cp);
    } else if cp <= 0xFFFF {
      Pack3(bs);
      EncodeGrammar3(cp);
      EncodeWord3(cp);
    } else {
      Pack4(bs);
      EncodeGrammar4(cp);
      TwentyOneBits(cp);
      EncodeWord4(cp);
    }
  }

  /** next_char reads the RFC 3629 encoding of a nonzero scalar value back
      as one step that unpacks to that value. */
  lemma ScanEncoded(cp: bv32, rest: seq<byte>)
    requires IsScalar(cp) && cp != 0 && 0 in rest
    ensures 0 in Utf8Encode(cp) + rest
    ensures Scan(Utf8Encode(cp) + rest) == Step(|Utf8Encode(cp)|, UcsToPacked(cp))
    ensures PackedToUcs4(Scan(Utf8Encode(cp) + rest).packed) == cp
  {
    var bs := Utf8Encode(cp);
    var s := bs + rest;
    assert 0 in s by { var k :| 0 <= k < |rest| && rest[k] == 0; assert s[|bs| + k] == 0; }
    EncodeIsPacked(cp);
    WellFormedLength(bs);
    assert s[..|bs|] == bs;
    if s[0] == 0 {
      PackFacts(cp);
      Pack1(bs);
      assert false;
    }
    ScanMatchesGrammar(s);
    ScalarRoundTrip(cp);
  }

  // =====================================================================
  // string_to_ucs4

  /** The code points of the whole C string `s`, one per step of next_char. */
  function Codepoints(s: seq<byte>): (cps: seq<bv32>)
    requires 0 in s
    ensures |cps| <= Strlen(s)
    decreases Strlen(s)
  {
    if s[0] == 0 then []
    else
      var st := Scan(s);
      ScanBounds(s);
      StrlenSuffix(s, st.len);
      [PackedToUcs4(st.packed)] + Codepoints(s[st.len..])
  }

  /** Every decoded value is a nonzero Unicode scalar value: invalid input
      decodes to U+FFFD, never to a surrogate, to NUL or past U+10FFFF. */
  lemma {:induction false} CodepointsAreScalars(s: seq<byte>)
    requires 0 in s
    ensures forall i :: 0 <= i < |Codepoints(s)| ==> IsScalar(Codepoints(s)[i]) && Codepoints(s)[i] != 0
    decreases Strlen(s)
  {
    if s[0] != 0 {
      var st := Scan(s);
      ScanBounds(s);
      StrlenSuffix(s, st.len);
      PackedRoundTrip(st.packed);
      PackFacts(0);
      CodepointsAreScalars(s[st.len..]);
    }
  }

  /** One step of the decoding of a nonempty C string. */
  lemma CodepointsStep(s: seq<byte>)
    requires 0 in s && s[0] != 0
    ensures Scan(s).len < |s| && 0 in s[Scan(s).len..]
    ensures Codepoints(s) == [PackedToUcs4(Scan(s).packed)] + Codepoints(s[Scan(s).len..])
  {
    ScanBounds(s);
    StrlenSuffix(s, Scan(s).len);
  }

  /** The RFC 3629 encoding of a sequence of scalar values. */
  function Encode(cps: seq<bv32>): (bs: seq<byte>)
    requires forall i :: 0 <= i < |cps| ==> IsScalar(cps[i])
  {
    if cps == [] then [] else Utf8Encode(cps[0]) + Encode(cps[1..])
  }

  /** Decoding the encoding of a nonzero scalar value followed by a C
      string yields that value followed by the string's code points. */
  lemma DecodeCons(cp: bv32, rest: seq<byte>)
    requires IsScalar(cp) && cp != 0 && 0 in rest
    ensures 0 in Utf8Encode(cp) + rest
    ensures Codepoints(Utf8Encode(cp) + rest) == [cp] + Codepoints(rest)
  {
    var s := Utf8Encode(cp) + rest;
    ScanEncoded(cp, rest);
    assert s[0] != 0 by {
      CodepointsAreScalars(rest);
      assert Scan(s).packed != 0;
    }
    CodepointsStep(s);
    assert s[Scan(s).len..] == rest;
  }

  /** Decoding the encoding of nonzero scalar values, terminated by NUL,
      gives those values back. */
  lemma {:induction false} DecodeEncoded(cps: seq<bv32>)
    requires forall i :: 0 <= i < |cps| ==> IsScalar(cps[i]) && cps[i] != 0
    ensures 0 in Encode(cps) + [0]
    ensures Codepoints(Encode(cps) + [0]) == cps
  {
    if cps == [] {
      assert Encode(cps) + [0] == [0];
    } else {
      var rest := Encode(cps[1..]) + [0];
      DecodeEncoded(cps[1..]);
      AppendAssoc(Utf8Encode(cps[0]), Encode(cps[1..]), [0]);
      DecodeCons(cps[0], rest);
      HeadTail(cps);
    }
  }

  /** Decoding the encoding of nonzero scalar values followed by any C
      string yields those values followed by the string's code points. */
  lemma {:induction false} DecodeEncodedThen(cps: seq<bv32>, rest: seq<byte>)
    requires forall i :: 0 <= i < |cps| ==> IsScalar(cps[i]) && cps[i] != 0
    requires 0 in rest
    ensures 0 in Encode(cps) + rest
    ensures Codepoints(Encode(cps) + rest) == cps + Codepoints(rest)
  {
    if cps == [] {
      assert Encode(cps) + rest == rest;
    } else {
      var tail := Encode(cps[1..]) + rest;
      DecodeEncodedThen(cps[1..], rest);
      AppendAssoc(Utf8Encode(cps[0]), Encode(cps[1..]), rest);
      assert Encode(cps) + rest == Utf8Encode(cps[0]) + tail;
      DecodeCons(cps[0], tail);
      HeadTail(cps);
      AppendAssoc([cps[0]], cps[1..], Codepoints(rest));
    }
  }

  /** A C string decodes to no code points exactly when it is empty. */
  lemma CodepointsEmpty(s: seq<byte>)
    requires 0 in s
    ensures Codepoints(s) == [] <==> s[0] == 0
  {
  }

  /** Where the string_to_ucs4 loop's `src` points after `n` turns: each
      turn skips the bytes next_char consumed, and the NUL stops it. */
  ghost function Rest(s: seq<byte>, n: nat): (r: seq<byte>)
    requires 0 in s
    ensures 0 in r
  {
    if n == 0 || s[0] == 0 then s
    else
      ScanBounds(s);
      StrlenSuffix(s, Scan(s).len);
      Rest(s[Scan(s).len..], n - 1)
  }

  /** One more turn moves `src` past the bytes next_char consumes there. */
  lemma {:induction false} RestStep(s: seq<byte>, n: nat)
    requires 0 in s && Rest(s, n)[0] != 0
    ensures Scan(Rest(s, n)).len < |Rest(s, n)|
    ensures Rest(s, n + 1) == Rest(s, n)[Scan(Rest(s, n)).len..]
  {
    RestSucc(s, n);
    RestUnfold(Rest(s, n), 1);
  }

  /** Turn `n + 1` is one turn on the rest after `n` turns. */
  lemma {:induction false} RestSucc(s: seq<byte>, n: nat)
    requires 0 in s
    ensures Rest(s, n + 1) == Rest(Rest(s, n), 1)
    decreases n
  {
    if n == 0 {
      assert Rest(s, 0) == s;
    } else if s[0] == 0 {
      assert Rest(s, n) == s && Rest(s, n + 1) == s;
    } else {
      var t := RestShift(s, n);
      RestSucc(t, n - 1);
      assert Rest(Rest(s, n), 1) == Rest(Rest(t, n - 1), 1);
    }
  }

  /** Away from the NUL, turns `n` and `n + 1` on `s` are turns `n - 1` and
      `n` on what follows its first code point. */
  lemma RestShift(s: seq<byte>, n: nat) returns (t: seq<byte>)
    requires 0 in s && s[0] != 0 && n > 0
    ensures 0 in t && Rest(s, n) == Rest(t, n - 1) && Rest(s, n + 1) == Rest(t, n)
  {
    ScanBounds(s);
    t := s[Scan(s).len..];
    RestUnfold(s, n);
    RestUnfold(s, n + 1);
  }

  /** After `n` turns the rest of the string decodes to what is left of
      the whole string's code points after the first `n`. */
  lemma {:induction false} RestDecodes(s: seq<byte>, n: nat)
    requires 0 in s && n <= |Codepoints(s)|
    ensures Codepoints(Rest(s, n)) == Codepoints(s)[n..]
    decreases n
  {
    if n > 0 {
      var t := Advance(s, n);
      RestDecodes(t, n - 1);
    }
  }

  /** The rest of `s` after its first code point, in the terms RestDecodes
      needs. */
  lemma Advance(s: seq<byte>, n: nat) returns (t: seq<byte>)
    requires 0 in s && 0 < n <= |Codepoints(s)|
    ensures 0 in t && n - 1 <= |Codepoints(t)|
    ensures Rest(s, n) == Rest(t, n - 1)
    ensures Codepoints(s)[n..] == Codepoints(t)[n - 1..]
  {
    CodepointsEmpty(s);
    ScanBounds(s);
    t := s[Scan(s).len..];
    RestUnfold(s, n);
    CodepointsDrop(s, n);
  }

  lemma RestUnfold(s: seq<byte>, n: nat)
    requires 0 in s && s[0] != 0 && n > 0
    ensures Scan(s).len < |s| && 0 in s[Scan(s).len..]
    ensures Rest(s, n) == Rest(s[Scan(s).len..], n - 1)
  {
    ScanBounds(s);
    StrlenSuffix(s, Scan(s).len);
  }

  lemma CodepointsDrop(s: seq<byte>, n: nat)
    requires 0 in s && s[0] != 0 && 0 < n <= |Codepoints(s)|
    ensures Scan(s).len < |s| && 0 in s[Scan(s).len..]
    ensures n - 1 <= |Codepoints(s[Scan(s).len..])|
    ensures Codepoints(s)[n..] == Codepoints(s[Scan(s).len..])[n - 1..]
  {
    CodepointsStep(s);
    var c := Codepoints(s);
    DropHead(c, 1, PackedToUcs4(Scan(s).packed), Codepoints(s[Scan(s).len..]));
    assert c[n..] == c[1..][n - 1..];
  }

  /** A turn that finds no NUL reads the next code point of the string and
      moves `src` past the bytes next_char consumed. */
  lemma DecodeAt(s: seq<byte>, n: nat, len: nat, packed: bv32)
    requires 0 in s && n <= |Codepoints(s)| && Rest(s, n)[0] != 0
    requires Step(len, packed) == Scan(Rest(s, n))
    ensures n < |Codepoints(s)| && len < |Rest(s, n)|
    ensures Codepoints(s)[n] == PackedToUcs4(packed)
    ensures Rest(s, n + 1) == Rest(s, n)[len..]
  {
    RestDecodes(s, n);
    CodepointsStep(Rest(s, n));
    RestStep(s, n);
  }

  /** The loop meets the NUL exactly when every code point has been read. */
  lemma DecodeEnd(s: seq<byte>, n: nat)
    requires 0 in s && n <= |Codepoints(s)|
    ensures Rest(s, n)[0] == 0 <==> n == |Codepoints(s)|
  {
    RestDecodes(s, n);
    CodepointsEmpty(Rest(s, n));
  }

  /** The body of the string_to_ucs4 loop on the rest `src` of `s` after
      `n` turns: next_char, then packed_to_ucs4 on what it packed.  Away
      from the NUL this yields code point `n` of the string. */
  method ReadCodepoint(src: seq<byte>, ghost s: seq<byte>, ghost cps: seq<bv32>, ghost n: nat)
    returns (len: nat, packed: bv32, cp: bv32)
    requires 0 in s && cps == Codepoints(s) && n <= |cps| && src == Rest(s, n)
    ensures packed == 0 <==> src[0] == 0
    ensures packed != 0 ==> n < |cps| && cp == cps[n] && len < |src| && Rest(s, n + 1) == src[len..]
  {
    len, packed := NextChar(src);
    ScanBounds(src);
    cp := PackedToUcs4(packed);
    if src[0] != 0 {
      DecodeAt(s, n, len, packed);
    }
  }

  /** string_to_ucs4: decodes at most `max` code points into `codepoint`
      and reports whether the whole string was converted.  A missing array
      is refused and leaves the count as it was. */
  method StringToUcs4(s: seq<byte>, codepoint: array?<bv32>, max: nat)
    returns (count: nat, complete: bool)
    requires 0 in s
    requires codepoint != null ==> max <= codepoint.Length
    modifies codepoint
    ensures codepoint == null ==> count == max && !complete
    ensures codepoint != null ==>
      && count == Min(max, |Codepoints(s)|)
      && codepoint[..count] == Codepoints(s)[..count]
      && (forall k :: count <= k < codepoint.Length ==> codepoint[k] == old(codepoint[k]))
      && (complete <==> |Codepoints(s)| <= max)
  {
    if codepoint == null {
      return max, false;
    }
    var src;
    count, src := DecodeInto(s, Codepoints(s), codepoint, max);
    DecodeEnd(s, count);
    complete := src[0] == 0;
  }

  /** The string_to_ucs4 loop: decode into `codepoint` until `max` values
      are written or the NUL is reached, and leave `src` where it stopped. */
  method DecodeInto(s: seq<byte>, ghost cps: seq<bv32>, codepoint: array<bv32>, max: nat)
    returns (count: nat, src: seq<byte>)
    requires 0 in s && cps == Codepoints(s) && max <= codepoint.Length
    modifies codepoint
    ensures count <= max && count <= |cps|
    ensures src == Rest(s, count) && (count < max ==> src[0] == 0)
    ensures codepoint[..count] == cps[..count]
    ensures forall k :: count <= k < codepoint.Length ==> codepoint[k] == old(codepoint[k])
  {
    ghost var before := codepoint[..];
    count := 0;
    src := s;
    while count < max && src[0] != 0
      invariant count <= max && count <= |cps|
      invariant src == Rest(s, count)
      invariant forall k :: 0 <= k < count ==> codepoint[k] == cps[k]
      invariant forall k :: count <= k < codepoint.Length ==> codepoint[k] == before[k]
    {
      var len, packed, cp := ReadCodepoint(src, s, cps, count);
      if packed == 0 {
        break;
      }
      Store(codepoint, count, cp, cps, before);
      src := src[len..];
      count := count + 1;
    }
    assert codepoint[..count] == cps[..count];
  }

  /** Writes code point `i` into its slot, keeping the slots before it and
      leaving those after it as they were. */
  method Store(codepoint: array<bv32>, i: nat, v: bv32, ghost want: seq<bv32>, ghost before: seq<bv32>)
    requires i < codepoint.Length && i < |want| && v == want[i] && |before| == codepoint.Length
    requires forall k :: 0 <= k < i ==> codepoint[k] == want[k]
    requires forall k :: i <= k < codepoint.Length ==> codepoint[k] == before[k]
    modifies codepoint
    ensures forall k :: 0 <= k < i + 1 ==> codepoint[k] == want[k]
    ensures forall k :: i + 1 <= k < codepoint.Length ==> codepoint[k] == before[k]
  {
    codepoint[i] := v;
  }
}
