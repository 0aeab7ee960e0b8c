/** Label signatures in base 64: src/recommendation/atproto-subscribe-labels-client.ts and src/recommendation/atproto-labels.ts. */
module Base64 {
  import opened Options

  type Byte = b: nat | b < 256

  const ALPHABET := "ABCDEFGHIJKLMNOP" + "QRSTUVWXYZabcdef" + "ghijklmnopqrstuv" + "wxyz0123456789+/"
  const MAX_SIGNATURE_BYTES := 1_536
  const MAX_LABEL_SIGNATURE_LENGTH := 2_048

  /** The letters in their four ranges. */
  function Letter(n: nat): char
    requires n < 64
  {
    if n < 26 then 'A' + n as char
    else if n < 52 then 'a' + (n - 26) as char
    else if n < 62 then '0' + (n - 52) as char
    else if n == 62 then '+' else '/'
  }

  lemma AlphabetIsLetters(n: nat)
    requires n < 64
    ensures ALPHABET[n] == Letter(n)
  {
    if n < 16 {
      assert ALPHABET[n] == "ABCDEFGHIJKLMNOP"[n];
    } else if n < 32 {
      assert ALPHABET[n] == "QRSTUVWXYZabcdef"[n - 16];
    } else if n < 48 {
      assert ALPHABET[n] == "ghijklmnopqrstuv"[n - 32];
    } else {
      assert ALPHABET[n] == "wxyz0123456789+/"[n - 48];
    }
  }

  /** The three bytes of a group as one number; the shifts of the program are multiplications and divisions. */
  function Combined(first: Byte, second: Byte, third: Byte): (c: nat)
    ensures c < 0x100_0000
  {
    first * 0x1_0000 + second * 0x100 + third
  }

  function Quartet(first: Byte, second: Option<Byte>, third: Option<Byte>): (q: string)
    ensures |q| == 4
  {
    var combined := Combined(first, if second.Some? then second.value else 0, if third.Some? then third.value else 0);
    [Letter(combined / 0x4_0000 % 64), Letter(combined / 0x1000 % 64),
     if second.None? then '=' else Letter(combined / 64 % 64),
     if third.None? then '=' else Letter(combined % 64)]
  }

  /** The encoding of section 4 of RFC 4648: groups of three bytes, the last padded. */
  function Encoded(bytes: seq<Byte>): string {
    if bytes == [] then ""
    else if |bytes| == 1 then Quartet(bytes[0], None, None)
    else if |bytes| == 2 then Quartet(bytes[0], Some(bytes[1]), None)
    else Quartet(bytes[0], Some(bytes[1]), Some(bytes[2])) + Encoded(bytes[3..])
  }

  /** Nothing becomes nothing, up to three bytes become four letters, and three more bytes four more letters. */
  ghost predicate FourLettersEach(f: seq<Byte> -> string) {
    forall bytes ::
      && (|bytes| <= 3 ==> |f(bytes)| == if bytes == [] then 0 else 4)
      && (|bytes| > 3 ==> |f(bytes)| == 4 + |f(bytes[3..])|)
  }

  lemma {:induction false} GroupsOfFour(f: seq<Byte> -> string, bytes: seq<Byte>, groups: nat)
    requires FourLettersEach(f) && 3 * groups - 3 < |bytes| <= 3 * groups
    ensures |f(bytes)| == 4 * groups
    decreases groups
  {
    if groups > 1 {
      GroupsOfFour(f, bytes[3..], groups - 1);
    }
  }

  /** Four letters for every three bytes begun. */
  lemma EncodedLength(bytes: seq<Byte>)
    ensures |Encoded(bytes)| == 4 * ((|bytes| + 2) / 3)
  {
    forall some: seq<Byte>
      ensures |some| <= 3 ==> |Encoded(some)| == if some == [] then 0 else 4
      ensures |some| > 3 ==> |Encoded(some)| == 4 + |Encoded(some[3..])|
    {
      if |some| <= 3 {
        ShortLength(some);
      } else {
        LengthNext(some);
      }
    }
    GroupsOfFour(Encoded, bytes, (|bytes| + 2) / 3);
  }

  lemma ShortLength(bytes: seq<Byte>)
    requires |bytes| <= 3
    ensures |Encoded(bytes)| == if bytes == [] then 0 else 4
  {
    if |bytes| == 3 {
      LengthNext(bytes);
      assert bytes[3..] == [];
    }
  }

  lemma LengthNext(bytes: seq<Byte>)
    requires |bytes| >= 3
    ensures |Encoded(bytes)| == 4 + |Encoded(bytes[3..])|
  {
    var quartet := Quartet(bytes[0], Some(bytes[1]), Some(bytes[2]));
    assert |quartet + Encoded(bytes[3..])| == 4 + |Encoded(bytes[3..])|;
  }

  method EncodeBase64(bytes: seq<Byte>) returns (encoded: string)
    ensures encoded == Encoded(bytes)
  {
    encoded := "";
    var offset := 0;
    assert bytes[0..] == bytes;
    while offset < |bytes|
      invariant offset <= |bytes|
      invariant encoded + Encoded(bytes[offset..]) == Encoded(bytes)
    {
      var second := if offset + 1 < |bytes| then Some(bytes[offset + 1]) else None;
      var third := if offset + 2 < |bytes| then Some(bytes[offset + 2]) else None;
      var quartet := Quartet(bytes[offset], second, third);
      EncodedNext(bytes, offset, quartet);
      encoded := encoded + quartet;
      offset := if offset + 3 < |bytes| then offset + 3 else |bytes|;
    }
    assert bytes[offset..] == [] && encoded + "" == encoded;
  }

  lemma EncodedNext(bytes: seq<Byte>, offset: nat, quartet: string)
    requires offset < |bytes|
    requires quartet == Quartet(bytes[offset],
      if offset + 1 < |bytes| then Some(bytes[offset + 1]) else None,
      if offset + 2 < |bytes| then Some(bytes[offset + 2]) else None)
    ensures Encoded(bytes[offset..]) == quartet + Encoded(bytes[if offset + 3 < |bytes| then offset + 3 else |bytes|..])
  {
    var rest := bytes[offset..];
    if |rest| >= 3 {
      assert rest[3..] == bytes[offset + 3..];
      assert offset + 3 == |bytes| ==> bytes[|bytes|..] == bytes[offset + 3..];
    } else {
      assert bytes[|bytes|..] == [] && quartet + "" == quartet;
    }
  }

  // ---------------------------------------------------------------- decoding

  function ValueOf(c: char): Option<nat> {
    if 'A' <= c <= 'Z' then Some((c - 'A') as nat)
    else if 'a' <= c <= 'z' then Some(26 + (c - 'a') as nat)
    else if '0' <= c <= '9' then Some(52 + (c - '0') as nat)
    else if c == '+' then Some(62)
    else if c == '/' then Some(63)
    else None
  }

  lemma LetterRoundTrip(n: nat)
    requires n < 64
    ensures ValueOf(Letter(n)) == Some(n) && Letter(n) != '='
  {
  }

  /** The bytes of one group of four letters; with padding, bits beyond the bytes must be zero. */
  function GroupBytes(q: string): (r: Option<seq<Byte>>)
    requires |q| == 4
  {
    var a, b := ValueOf(q[0]), ValueOf(q[1]);
    if a.None? || b.None? then None
    else if q[2] == '=' && q[3] == '=' then
      if a.value < 64 && b.value < 64 && b.value % 16 == 0 then Some([a.value * 4 + b.value / 16]) else None
    else
      var c := ValueOf(q[2]);
      if c.None? then None
      else if q[3] == '=' then
        if c.value % 4 == 0 && a.value < 64 && b.value < 64 && c.value < 64
        then Some([a.value * 4 + b.value / 16, b.value % 16 * 16 + c.value / 4]) else None
      else
        var d := ValueOf(q[3]);
        if d.None? || a.value >= 64 || b.value >= 64 || c.value >= 64 || d.value >= 64 then None
        else Some([a.value * 4 + b.value / 16, b.value % 16 * 16 + c.value / 4, c.value % 4 * 64 + d.value])
  }

  /** Decodes groups of four letters; only the last may be padded. */
  function Decoded(text: string): Option<seq<Byte>> {
    if text == "" then Some([])
    else if |text| < 4 then None
    else
      var group, later := GroupBytes(text[..4]), Decoded(text[4..]);
      if group.None? || later.None? || (|group.value| < 3 && text[4..] != "") then None
      else Some(group.value + later.value)
  }

  /** The six-bit digits of a group. */
  lemma Sextets(first: Byte, second: Byte, third: Byte)
    ensures var c := Combined(first, second, third);
      && c / 0x4_0000 % 64 == first / 4 && c / 0x1000 % 64 == first % 4 * 16 + second / 16
      && c / 64 % 64 == second % 16 * 4 + third / 64 && c % 64 == third % 64
  {
    var c := Combined(first, second, third);
    assert c / 0x4_0000 == first / 4;
    assert c / 0x1000 == first * 16 + second / 16;
    assert c / 64 == first * 0x400 + second * 4 + third / 64;
  }

  /** The letters of a quartet stand for its six-bit digits. */
  lemma QuartetLetters(first: Byte, second: Byte, third: Byte)
    ensures var q := Quartet(first, Some(second), Some(third));
      && ValueOf(q[0]) == Some(first / 4) && ValueOf(q[1]) == Some(first % 4 * 16 + second / 16)
      && ValueOf(q[2]) == Some(second % 16 * 4 + third / 64) && ValueOf(q[3]) == Some(third % 64)
      && q[2] != '=' && q[3] != '='
  {
    Sextets(first, second, third);
    LetterRoundTrip(first / 4);
    LetterRoundTrip(first % 4 * 16 + second / 16);
    LetterRoundTrip(second % 16 * 4 + third / 64);
    LetterRoundTrip(third % 64);
  }

  lemma BytesOfSextets(first: Byte, second: Byte, third: Byte)
    ensures first / 4 * 4 + (first % 4 * 16 + second / 16) / 16 == first
    ensures (first % 4 * 16 + second / 16) % 16 * 16 + (second % 16 * 4 + third / 64) / 4 == second
    ensures (second % 16 * 4 + third / 64) % 4 * 64 + third % 64 == third
  {
    assert (first % 4 * 16 + second / 16) / 16 == first % 4 && (first % 4 * 16 + second / 16) % 16 == second / 16;
    assert (second % 16 * 4 + third / 64) / 4 == second % 16 && (second % 16 * 4 + third / 64) % 4 == third / 64;
  }

  /** The letters stand for these six-bit digits of the bytes. */
  predicate Spells(q: string, first: Byte, second: Byte, third: Byte)
    requires |q| == 4
  {
    && ValueOf(q[0]) == Some(first / 4) && ValueOf(q[1]) == Some(first % 4 * 16 + second / 16)
    && (q[2] != '=' ==> ValueOf(q[2]) == Some(second % 16 * 4 + third / 64))
    && (q[3] != '=' ==> ValueOf(q[3]) == Some(third % 64))
  }

  lemma FullGroup(q: string, first: Byte, second: Byte, third: Byte)
    requires |q| == 4 && Spells(q, first, second, third) && q[2] != '=' && q[3] != '='
    ensures GroupBytes(q) == Some([first, second, third])
  {
    BytesOfSextets(first, second, third);
  }

  lemma PairGroup(q: string, first: Byte, second: Byte)
    requires |q| == 4 && Spells(q, first, second, 0) && q[2] != '=' && q[3] == '='
    ensures GroupBytes(q) == Some([first, second])
  {
    BytesOfSextets(first, second, 0);
  }

  lemma SingleGroup(q: string, first: Byte)
    requires |q| == 4 && Spells(q, first, 0, 0) && q[2] == '=' && q[3] == '='
    ensures GroupBytes(q) == Some([first])
  {
    BytesOfSextets(first, 0, 0);
  }

  lemma QuartetSpells(first: Byte, second: Option<Byte>, third: Option<Byte>)
    requires second.None? ==> third.None?
    ensures var q := Quartet(first, second, third);
      && Spells(q, first, if second.Some? then second.value else 0, if third.Some? then third.value else 0)
      && (q[2] == '=' <==> second.None?) && (q[3] == '=' <==> third.None?)
  {
    QuartetLetters(first, if second.Some? then second.value else 0, if third.Some? then third.value else 0);
  }

  lemma QuartetDecodes(first: Byte, second: Option<Byte>, third: Option<Byte>)
    requires second.None? ==> third.None?
    ensures GroupBytes(Quartet(first, second, third)) ==
      Some(if second.None? then [first] else if third.None? then [first, second.value] else [first, second.value, third.value])
  {
    var q := Quartet(first, second, third);
    QuartetSpells(first, second, third);
    if second.None? {
      SingleGroup(q, first);
    } else if third.None? {
      PairGroup(q, first, second.value);
    } else {
      FullGroup(q, first, second.value, third.value);
    }
  }

  lemma DecodeNext(quartet: string, later: string, bytes: seq<Byte>, rest: seq<Byte>)
    requires |quartet| == 4 && GroupBytes(quartet) == Some(bytes) && Decoded(later) == Some(rest)
    requires |bytes| == 3 || later == ""
    ensures Decoded(quartet + later) == Some(bytes + rest)
  {
    assert (quartet + later)[..4] == quartet && (quartet + later)[4..] == later;
  }

  /** Decoding recovers every sequence of bytes. */
  lemma {:induction false} DecodeEncoded(bytes: seq<Byte>)
    ensures Decoded(Encoded(bytes)) == Some(bytes)
  {
    if |bytes| >= 3 {
      DecodeEncoded(bytes[3..]);
      QuartetDecodes(bytes[0], Some(bytes[1]), Some(bytes[2]));
      DecodeNext(Quartet(bytes[0], Some(bytes[1]), Some(bytes[2])), Encoded(bytes[3..]), [bytes[0], bytes[1], bytes[2]], bytes[3..]);
      assert bytes == [bytes[0], bytes[1], bytes[2]] + bytes[3..];
    } else if bytes != [] {
      DecodeLast(bytes);
    }
  }

  lemma DecodeLast(bytes: seq<Byte>)
    requires 1 <= |bytes| <= 2
    ensures Decoded(Encoded(bytes)) == Some(bytes)
  {
    QuartetDecodes(bytes[0], if |bytes| == 2 then Some(bytes[1]) else None, None);
    assert bytes == if |bytes| == 2 then [bytes[0], bytes[1]] else [bytes[0]];
    DecodeNext(Encoded(bytes), "", bytes, []);
    assert Encoded(bytes) + "" == Encoded(bytes) && bytes + [] == bytes;
  }

  // ---------------------------------------------------------------- label signatures

  /** Raw signatures that are too long are refused. */
  method NormalizeSignature(signature: seq<Byte>) returns (r: Option<string>)
    ensures r == if |signature| > MAX_SIGNATURE_BYTES then None else Some(Encoded(signature))
  {
    if |signature| > MAX_SIGNATURE_BYTES {
      return None;
    }
    var encoded := EncodeBase64(signature);
    r := Some(encoded);
  }

  /** A signature is short enough as a label signature exactly when its bytes are within their own limit. */
  lemma ByteLimitIsTextLimit(signature: seq<Byte>)
    ensures |signature| <= MAX_SIGNATURE_BYTES <==> |Encoded(signature)| <= MAX_LABEL_SIGNATURE_LENGTH
  {
    EncodedLength(signature);
    LimitsMatch(|signature|);
  }

  lemma LimitsMatch(n: nat)
    ensures n <= MAX_SIGNATURE_BYTES <==> 4 * ((n + 2) / 3) <= MAX_LABEL_SIGNATURE_LENGTH
  {
  }
}
