/** Unpadded base64url, section 5 of RFC 4648: the encoder's loop, a strict decoder, and the round trip. */
module Base64Url {
  import opened ByteStrings

  /** The character of a 6-bit value: A-Z, a-z, 0-9, '-', '_'. */
  function Letter(i: bv8): bv8
    requires i < 64
  {
    if i < 26 then i + 65
    else if i < 52 then i - 26 + 97
    else if i < 62 then i - 52 + 48
    else if i == 62 then 45
    else 95
  }

  function Pack(b0: bv8, b1: bv8, b2: bv8): bv32 {
    ((b0 as bv32) << 16) | ((b1 as bv32) << 8) | (b2 as bv32)
  }

  function Sextet(n: bv32, shift: bv6): bv8
    requires shift <= 18
    ensures Sextet(n, shift) < 64
  {
    ((n >> shift) & 0x3F) as bv8
  }

  /** The characters of one chunk of one, two or three bytes. */
  function Group(chunk: Bytes): Bytes
    requires 1 <= |chunk| <= 3
  {
    var n := Pack(chunk[0], if |chunk| > 1 then chunk[1] else 0, if |chunk| > 2 then chunk[2] else 0);
    [Letter(Sextet(n, 18)), Letter(Sextet(n, 12))]
    + (if |chunk| > 1 then [Letter(Sextet(n, 6))] else [])
    + (if |chunk| > 2 then [Letter(Sextet(n, 0))] else [])
  }

  function ChunkSize(data: Bytes): nat {
    if |data| < 3 then |data| else 3
  }

  function Encode(data: Bytes): (text: Bytes)
    ensures |text| == 4 * (|data| / 3) + (if |data| % 3 == 0 then 0 else |data| % 3 + 1)
    decreases |data|
  {
    if data == [] then [] else Group(data[..ChunkSize(data)]) + Encode(data[ChunkSize(data)..])
  }

  lemma EncodeChunkFirst(chunk: Bytes, rest: Bytes)
    requires 1 <= |chunk| <= 3 && (|chunk| == 3 || rest == [])
    ensures Encode(chunk + rest) == Group(chunk) + Encode(rest)
  {
  }

  lemma EncodeFrom(data: Bytes, i: nat, size: nat, before: Bytes)
    requires i < |data| && size == ChunkSize(data[i..])
    ensures before + Encode(data[i..]) == (before + Group(data[i..i + size])) + Encode(data[i + size..])
  {
    assert data[i..] == data[i..i + size] + data[i + size..];
    EncodeChunkFirst(data[i..i + size], data[i + size..]);
  }

  method Base64UrlEncode(data: Bytes) returns (result: Bytes)
    ensures result == Encode(data)
  {
    result := [];
    var i := 0;
    while i < |data|
      invariant 0 <= i <= |data|
      invariant result + Encode(data[i..]) == Encode(data)
    {
      var size := if |data| - i < 3 then |data| - i else 3;
      var chunk := data[i..i + size];
      EncodeFrom(data, i, size, result);
      var text := EncodeChunk(chunk);
      result := result + text;
      i := i + size;
    }
  }

  /** The body of the encoder's loop. */
  method EncodeChunk(chunk: Bytes) returns (text: Bytes)
    requires 1 <= |chunk| <= 3
    ensures text == Group(chunk)
  {
    var b1: bv8 := if |chunk| > 1 then chunk[1] else 0;
    var b2: bv8 := if |chunk| > 2 then chunk[2] else 0;
    var n := Pack(chunk[0], b1, b2);
    text := [Letter(Sextet(n, 18))];
    text := text + [Letter(Sextet(n, 12))];
    if |chunk| > 1 { text := text + [Letter(Sextet(n, 6))]; }
    if |chunk| > 2 { text := text + [Letter(Sextet(n, 0))]; }
  }

  // ---- decoding ----

  function Value(c: bv8): Option<bv8> {
    if 65 <= c <= 90 then Some(c - 65)
    else if 97 <= c <= 122 then Some(c - 97 + 26)
    else if 48 <= c <= 57 then Some(c - 48 + 52)
    else if c == 45 then Some(62)
    else if c == 95 then Some(63)
    else None
  }

  function Join(s0: bv8, s1: bv8, s2: bv8, s3: bv8): bv32 {
    ((s0 as bv32) << 18) | ((s1 as bv32) << 12) | ((s2 as bv32) << 6) | (s3 as bv32)
  }

  function Octet(n: bv32, shift: bv6): bv8
    requires shift <= 16
  {
    ((n >> shift) & 0xFF) as bv8
  }

  /** The value of character `i`, or of the zero bits that stand for a missing one. */
  function ValueAt(text: Bytes, i: nat): Option<bv8> {
    if i < |text| then Value(text[i]) else Some(0)
  }

  /** The bytes of one group of two, three or four characters; unused bits must be zero. */
  function Ungroup(text: Bytes): Option<Bytes>
    requires 2 <= |text| <= 4
  {
    var (v0, v1, v2, v3) := (ValueAt(text, 0), ValueAt(text, 1), ValueAt(text, 2), ValueAt(text, 3));
    if v0.None? || v1.None? || v2.None? || v3.None? then None else
      var n := Join(v0.value, v1.value, v2.value, v3.value);
      if (|text| == 2 && v1.value & 0x0F != 0) || (|text| == 3 && v2.value & 0x03 != 0) then None
      else Some([Octet(n, 16), Octet(n, 8), Octet(n, 0)][..|text| - 1])
  }

  function GroupSize(text: Bytes): nat {
    if |text| < 4 then |text| else 4
  }

  function Decode(text: Bytes): Option<Bytes>
    decreases |text|
  {
    if text == [] then Some([])
    else if |text| == 1 then None
    else
      match Ungroup(text[..GroupSize(text)])
      case None => None
      case Some(chunk) =>
        match Decode(text[GroupSize(text)..])
        case None => None
        case Some(rest) => Some(chunk + rest)
  }

  // ---- the round trip ----

  lemma LetterHasValue(i: bv8)
    requires i < 64
    ensures Value(Letter(i)) == Some(i)
  {
  }

  lemma ValueHasLetter(c: bv8)
    requires Value(c).Some?
    ensures Value(c).value < 64 && Letter(Value(c).value) == c
  {
  }

  lemma PackSplits(b0: bv8, b1: bv8, b2: bv8)
    ensures var n := Pack(b0, b1, b2);
            && Join(Sextet(n, 18), Sextet(n, 12), Sextet(n, 6), Sextet(n, 0)) == n
            && Octet(n, 16) == b0 && Octet(n, 8) == b1 && Octet(n, 0) == b2
            && (b2 == 0 ==> Sextet(n, 0) == 0 && Sextet(n, 6) & 0x03 == 0)
            && (b1 == 0 && b2 == 0 ==> Sextet(n, 6) == 0 && Sextet(n, 12) & 0x0F == 0)
  {
  }

  lemma JoinSplits(s0: bv8, s1: bv8, s2: bv8, s3: bv8)
    requires s0 < 64 && s1 < 64 && s2 < 64 && s3 < 64
    ensures var n := Join(s0, s1, s2, s3);
            && Pack(Octet(n, 16), Octet(n, 8), Octet(n, 0)) == n
            && Sextet(n, 18) == s0 && Sextet(n, 12) == s1 && Sextet(n, 6) == s2 && Sextet(n, 0) == s3
            && (s3 == 0 && s2 & 0x03 == 0 ==> Octet(n, 0) == 0)
            && (s3 == 0 && s2 == 0 && s1 & 0x0F == 0 ==> Octet(n, 0) == 0 && Octet(n, 8) == 0)
  {
  }

  lemma UngroupGroup(chunk: Bytes)
    requires 1 <= |chunk| <= 3
    ensures |Group(chunk)| == |chunk| + 1 && Ungroup(Group(chunk)) == Some(chunk)
  {
    var b1: bv8, b2: bv8 := if |chunk| > 1 then chunk[1] else 0, if |chunk| > 2 then chunk[2] else 0;
    var n := Pack(chunk[0], b1, b2);
    PackSplits(chunk[0], b1, b2);
    LetterHasValue(Sextet(n, 18));
    LetterHasValue(Sextet(n, 12));
    LetterHasValue(Sextet(n, 6));
    LetterHasValue(Sextet(n, 0));
    assert [chunk[0], b1, b2][..|chunk|] == chunk;
  }

  lemma GroupUngroup(text: Bytes)
    requires 2 <= |text| <= 4 && Ungroup(text).Some?
    ensures var chunk := Ungroup(text).value; |chunk| == |text| - 1 && Group(chunk) == text
  {
    ValueHasLetter(text[0]);
    ValueHasLetter(text[1]);
    if |text| > 2 { ValueHasLetter(text[2]); }
    if |text| > 3 { ValueHasLetter(text[3]); }
    JoinSplits(ValueAt(text, 0).value, ValueAt(text, 1).value, ValueAt(text, 2).value, ValueAt(text, 3).value);
  }

  /** Decoding an encoding gives the bytes back. */
  lemma {:induction false} DecodeEncode(data: Bytes)
    ensures Decode(Encode(data)) == Some(data)
    decreases |data|
  {
    if data != [] {
      var k := ChunkSize(data);
      var group, rest := Group(data[..k]), Encode(data[k..]);
      UngroupGroup(data[..k]);
      DecodeEncode(data[k..]);
      assert k < 3 ==> rest == [];
      assert (group + rest)[..|group|] == group && (group + rest)[|group|..] == rest;
      assert data[..k] + data[k..] == data;
    }
  }

  /** Whatever decodes is the encoding of what it decodes to. */
  lemma {:induction false} EncodeDecode(text: Bytes)
    requires Decode(text).Some?
    ensures Encode(Decode(text).value) == text
    decreases |text|
  {
    if text != [] {
      var k := GroupSize(text);
      var chunk, rest := Ungroup(text[..k]).value, Decode(text[k..]).value;
      GroupUngroup(text[..k]);
      EncodeDecode(text[k..]);
      assert k < 4 ==> rest == [];
      EncodeChunkFirst(chunk, rest);
      assert text[..k] + text[k..] == text;
    }
  }

  lemma EncodeInjective(a: Bytes, b: Bytes)
    ensures Encode(a) == Encode(b) <==> a == b
  {
    DecodeEncode(a);
    DecodeEncode(b);
  }

  /** Every output character is one of the 64. */
  lemma {:induction false} EncodeStaysInAlphabet(data: Bytes)
    ensures forall c | c in Encode(data) :: Value(c).Some?
    decreases |data|
  {
    if data != [] {
      var k := ChunkSize(data);
      UngroupGroup(data[..k]);
      var group := Group(data[..k]);
      forall c | c in group ensures Value(c).Some? {
        var i :| 0 <= i < |group| && group[i] == c;
        assert i == 0 || i == 1 || i == 2 || i == 3;
        assert ValueAt(group, i).Some?;
      }
      EncodeStaysInAlphabet(data[k..]);
    }
  }
}
