/**
 Base32 with the standard alphabet and padding (section 6 of RFC 4648): blocks of
 five bytes become eight characters; a last, shorter block is filled with zero
 bits and padded with '='. Bytes are numbers below 256.
 */
module Base32 {
  import opened Base
  import opened Digits

  function CharOf(q: nat): char
    requires q < 32
  {
    if q < 26 then 'A' + q as char else '2' + (q - 26) as char
  }

  function ValueOf(c: char): Option<nat> {
    if 'A' <= c <= 'Z' then Some((c - 'A') as nat)
    else if '2' <= c <= '7' then Some((c - '2') as nat + 26)
    else None
  }

  lemma CharRoundTrip(q: nat)
    requires q < 32
    ensures ValueOf(CharOf(q)) == Some(q) && CharOf(q) != '='
    ensures Upper(CharOf(q)) == CharOf(q)
  {
  }

  function Upper(c: char): char {
    if 'a' <= c <= 'z' then (c as int - 32) as char else c
  }

  function ToUpper(s: string): (t: string)
    ensures |t| == |s| && forall i | 0 <= i < |s| :: t[i] == Upper(s[i])
  {
    if s == [] then [] else [Upper(s[0])] + ToUpper(s[1..])
  }

  function Text(qs: seq<nat>): (s: string)
    requires InBase(qs, 32)
    ensures |s| == |qs| && forall i | 0 <= i < |qs| :: s[i] == CharOf(qs[i])
  {
    if qs == [] then [] else [CharOf(qs[0])] + Text(qs[1..])
  }

  function Values(s: string): (r: Option<seq<nat>>)
    ensures r.Some? ==> |r.value| == |s|
    ensures r.Some? ==> forall i | 0 <= i < |s| :: ValueOf(s[i]) == Some(r.value[i]) && r.value[i] < 32
  {
    if s == [] then Some([]) else
    match ValueOf(s[0])
    case None => None
    case Some(q) =>
      match Values(s[1..])
      case None => None
      case Some(qs) => Some([q] + qs)
  }

  function Pads(n: nat): (s: string)
    ensures |s| == n && forall i | 0 <= i < n :: s[i] == '='
  {
    if n == 0 then [] else ['='] + Pads(n - 1)
  }

  /** Characters that a block of n bytes needs: 2, 4, 5, 7 or 8. */
  function CharsFor(n: nat): (k: nat)
    requires 1 <= n <= 5
    ensures 2 <= k <= 8
  {
    if n == 1 then 2 else if n == 2 then 4 else if n == 3 then 5 else if n == 4 then 7 else 8
  }

  /** The quintets of a block of one to five bytes. */
  function Quintets(block: seq<nat>): (qs: seq<nat>)
    requires 1 <= |block| <= 5
    ensures |qs| == CharsFor(|block|) && InBase(qs, 32)
  {
    ToDigits(Number(block + Zeros(5 - |block|), 256), 32, 8)[..CharsFor(|block|)]
  }

  function Encode(bytes: seq<nat>): string {
    if bytes == [] then []
    else if |bytes| <= 5 then Text(Quintets(bytes)) + Pads(8 - CharsFor(|bytes|))
    else Text(Quintets(bytes[..5])) + Encode(bytes[5..])
  }

  /** The number of leading characters that are not padding. */
  function DataLength(group: string): (k: nat)
    ensures k <= |group| && forall i | 0 <= i < k :: group[i] != '='
    ensures k < |group| ==> group[k] == '='
  {
    if group == [] || group[0] == '=' then 0 else 1 + DataLength(group[1..])
  }

  /** Bytes that k characters hold: 8, 7, 5, 4, 2 characters hold 5, 4, 3, 2, 1. */
  function BytesIn(k: nat): (n: nat)
    ensures n <= 5
  {
    if k == 8 then 5 else if k == 7 then 4 else if k == 5 then 3 else if k == 4 then 2 else if k == 2 then 1 else 0
  }

  /** The bytes of one group of quintets, the missing ones taken as zero. */
  function BytesOf(qs: seq<nat>): seq<nat>
    requires |qs| <= 8
  {
    ToDigits(Number(qs + Zeros(8 - |qs|), 32), 256, 5)[..BytesIn(|qs|)]
  }

  /** One group of eight: full, or in last place 2, 4, 5 or 7 characters and nothing but padding after them. */
  function DecodeGroup(group: string, last: bool): Option<seq<nat>>
    requires |group| == 8
  {
    var k := DataLength(group);
    if k < 8 && !(last && k in {2, 4, 5, 7} && group[k..] == Pads(8 - k)) then None
    else match Values(group[..k])
         case None => None
         case Some(qs) => Some(BytesOf(qs))
  }

  function Decode(s: string): Option<seq<nat>>
    requires |s| % 8 == 0
  {
    if s == [] then Some([]) else
    Mod8(|s| - 8);
    match DecodeGroup(s[..8], |s| == 8)
    case None => None
    case Some(bytes) =>
      match Decode(s[8..])
      case None => None
      case Some(rest) => Some(bytes + rest)
  }

  /** strings.TrimRight(s, "="). */
  function TrimPads(s: string): string {
    if s != [] && s[|s| - 1] == '=' then TrimPads(s[..|s| - 1]) else s
  }

  /** How much padding a length calls for. */
  function PadFor(n: nat): (p: nat)
    ensures (n + p) % 8 == 0
  {
    (8 - n % 8) % 8
  }

  function Repad(s: string): (t: string)
    ensures |t| % 8 == 0
  {
    s + Pads(PadFor(|s|))
  }

  // ----- One block -----

  lemma {:induction false} ValuesOfText(qs: seq<nat>)
    requires InBase(qs, 32)
    ensures Values(Text(qs)) == Some(qs)
  {
    if qs != [] {
      CharRoundTrip(qs[0]);
      ValuesOfText(qs[1..]);
      assert Text(qs)[1..] == Text(qs[1..]);
      assert [qs[0]] + qs[1..] == qs;
    }
  }

  /** Characters of the alphabet. */
  ghost predicate IsData(s: string) {
    forall i | 0 <= i < |s| :: ValueOf(s[i]).Some?
  }

  lemma TextIsData(qs: seq<nat>)
    requires InBase(qs, 32)
    ensures IsData(Text(qs))
  {
    forall i | 0 <= i < |qs| ensures ValueOf(Text(qs)[i]).Some? {
      CharRoundTrip(qs[i]);
    }
  }

  lemma Powers()
    ensures Power(256, 5) == 0x100_0000_0000 && Power(32, 8) == 0x100_0000_0000
    ensures Power(256, 0) == 1 && Power(256, 1) == 0x100 && Power(256, 2) == 0x1_0000
    ensures Power(256, 3) == 0x100_0000 && Power(256, 4) == 0x1_0000_0000
    ensures Power(32, 0) == 1 && Power(32, 1) == 0x20 && Power(32, 3) == 0x8000
    ensures Power(32, 4) == 0x10_0000 && Power(32, 6) == 0x4000_0000
  {
    assert Power(32, 2) == 0x400;
    assert Power(32, 5) == 0x200_0000;
    assert Power(32, 7) == 0x8_0000_0000;
  }

  /** The zero bits of a short block, as a multiple of its unwritten quintets. */
  lemma FillBits(n: nat) returns (rest: nat)
    requires 1 <= n <= 5
    ensures Power(256, 5 - n) == rest * Power(32, 8 - CharsFor(n))
  {
    Powers();
    match n
    case 1 => rest := 4; // 32 zero bits: 6 quintets and 2 bits
    case 2 => rest := 16; // 24 zero bits: 4 quintets and 4 bits
    case 3 => rest := 2; // 16 zero bits: 3 quintets and 1 bit
    case 4 => rest := 8; // 8 zero bits: 1 quintet and 3 bits
    case 5 => rest := 1;
  }

  lemma FilledIsMultiple(block: seq<nat>) returns (w: nat)
    requires 1 <= |block| <= 5
    ensures Number(block + Zeros(5 - |block|), 256) == w * Power(32, 8 - CharsFor(|block|))
  {
    NumberWithZeros(block, 256, 5 - |block|);
    var rest := FillBits(|block|);
    MulAssoc(Number(block, 256), rest, Power(32, 8 - CharsFor(|block|)));
    w := Number(block, 256) * rest;
  }

  /** The quintets a short block does not write are all zero. */
  lemma UnwrittenAreZero(block: seq<nat>)
    requires 1 <= |block| <= 5
    ensures ToDigits(Number(block + Zeros(5 - |block|), 256), 32, 8) == Quintets(block) + Zeros(8 - CharsFor(|block|))
  {
    var m := 8 - CharsFor(|block|);
    var w := FilledIsMultiple(block);
    MultipleEndsInZeros(w, 32, 8, m);
    var ds := ToDigits(w, 32, 8 - m);
    assert (ds + Zeros(m))[..8 - m] == ds;
  }

  lemma BlockRoundTrip(block: seq<nat>)
    requires 1 <= |block| <= 5 && InBase(block, 256)
    ensures BytesOf(Quintets(block)) == block
  {
    var n, k := |block|, CharsFor(|block|);
    var full := block + Zeros(5 - n);
    var v := Number(full, 256);
    UnwrittenAreZero(block);
    DigitsOfNumber(full, 256);
    Powers();
    NumberOfDigits(v, 32, 8);
    assert Number(Quintets(block) + Zeros(8 - k), 32) == v;
    assert BytesIn(k) == n;
    assert ToDigits(v, 256, 5) == full;
    assert full[..n] == block;
  }

  lemma DataLengthIs(group: string, k: nat)
    requires k <= |group| && (forall i | 0 <= i < k :: group[i] != '=') && (k < |group| ==> group[k] == '=')
    ensures DataLength(group) == k
  {
  }

  lemma DecodeOfBlock(block: seq<nat>, last: bool)
    requires 1 <= |block| <= 5 && InBase(block, 256) && (last || |block| == 5)
    ensures DecodeGroup(Text(Quintets(block)) + Pads(8 - CharsFor(|block|)), last) == Some(block)
  {
    var qs, k := Quintets(block), CharsFor(|block|);
    var group := Text(qs) + Pads(8 - k);
    ValuesOfText(qs);
    TextIsData(qs);
    DataLengthIs(group, k);
    assert group[..k] == Text(qs) && group[k..] == Pads(8 - k);
    BlockRoundTrip(block);
  }

  // ----- The round trip -----

  lemma {:induction false} EncodeLength(bytes: seq<nat>)
    ensures |Encode(bytes)| % 8 == 0
    ensures bytes != [] ==> |Encode(bytes)| >= 8
  {
    if |bytes| > 5 {
      EncodeLength(bytes[5..]);
      Mod8(|Encode(bytes[5..])|);
    }
  }

  lemma {:induction false} DecodeOfEncode(bytes: seq<nat>)
    requires InBase(bytes, 256)
    ensures |Encode(bytes)| % 8 == 0 && Decode(Encode(bytes)) == Some(bytes)
  {
    EncodeLength(bytes);
    var s := Encode(bytes);
    if bytes == [] {
    } else if |bytes| <= 5 {
      DecodeOfBlock(bytes, true);
      assert s[..8] == s && s[8..] == [];
      assert bytes + [] == bytes;
    } else {
      var block, rest := bytes[..5], bytes[5..];
      DecodeOfBlock(block, false);
      EncodeLength(rest);
      DecodeOfEncode(rest);
      assert Text(Quintets(block)) + Pads(0) == Text(Quintets(block));
      assert s[..8] == Text(Quintets(block)) && s[8..] == Encode(rest);
      assert bytes == block + rest;
    }
  }

  lemma Mod8(n: nat)
    ensures (n + 8) % 8 == n % 8
  {
  }

  lemma RepadAfterBlock(block: string, data: string)
    requires |block| == 8
    ensures Repad(block + data) == block + Repad(data)
  {
    Mod8(|data|);
  }

  lemma SmallMod(n: nat)
    requires n < 8
    ensures n % 8 == n
  {
  }

  lemma PadForShort(n: nat)
    requires 1 <= n <= 8
    ensures PadFor(n) == 8 - n
  {
    if n < 8 {
      SmallMod(n);
      SmallMod(8 - n);
    }
  }

  lemma RepadShort(data: string)
    requires 1 <= |data| <= 8
    ensures Repad(data) == data + Pads(8 - |data|)
  {
    PadForShort(|data|);
  }

  lemma ShortIsPadded(bytes: seq<nat>)
    requires 1 <= |bytes| <= 5
    ensures Encode(bytes) == Repad(Text(Quintets(bytes)))
  {
    RepadShort(Text(Quintets(bytes)));
  }

  /** The encoding is characters of the alphabet, then the padding its length calls for. */
  lemma {:induction false} EncodeIsPadded(bytes: seq<nat>) returns (data: string)
    ensures Encode(bytes) == Repad(data) && IsData(data)
  {
    if bytes == [] {
      data := [];
    } else if |bytes| <= 5 {
      data := Text(Quintets(bytes));
      TextIsData(Quintets(bytes));
      ShortIsPadded(bytes);
    } else {
      var block := Text(Quintets(bytes[..5]));
      TextIsData(Quintets(bytes[..5]));
      var rest := EncodeIsPadded(bytes[5..]);
      data := block + rest;
      RepadAfterBlock(block, rest);
    }
  }

  lemma {:induction false} TrimOfPadded(data: string, n: nat)
    requires IsData(data)
    ensures TrimPads(data + Pads(n)) == data
  {
    var s := data + Pads(n);
    if n == 0 {
      assert s == data;
    } else {
      assert s[..|s| - 1] == data + Pads(n - 1);
      TrimOfPadded(data, n - 1);
    }
  }

  /** The alphabet of section 6 of RFC 4648. */
  lemma Alphabet(q: nat, c: char)
    requires q < 32
    ensures CharOf(q) == "ABCDEFGHIJKLMNOPQRSTUVWXYZ234567"[q]
    ensures ValueOf(c) == Some(q) <==> c == "ABCDEFGHIJKLMNOPQRSTUVWXYZ234567"[q]
    ensures ValueOf(c).None? || ValueOf(c).value < 32
  {
  }

  /** Upper-casing changes the small letters, each to its capital, and nothing else. */
  lemma UpperCase(k: nat, c: char)
    requires k < 26
    ensures Upper("abcdefghijklmnopqrstuvwxyz"[k]) == "ABCDEFGHIJKLMNOPQRSTUVWXYZ"[k]
    ensures !('a' <= c <= 'z') ==> Upper(c) == c
  {
  }

  /** The characters of a block spell, five bits each, the bits of its bytes and then zeros. */
  lemma BlockSpellsBits(block: seq<nat>)
    requires 1 <= |block| <= 5 && InBase(block, 256)
    ensures Number(Quintets(block) + Zeros(8 - CharsFor(|block|)), 32) == Number(block + Zeros(5 - |block|), 256)
  {
    UnwrittenAreZero(block);
    Powers();
    DigitsOfNumber(block + Zeros(5 - |block|), 256);
    NumberOfDigits(Number(block + Zeros(5 - |block|), 256), 32, 8);
  }

  /** Stripping the padding and computing it again from the length restores the encoding of any bytes. */
  lemma RepadRestores(bytes: seq<nat>)
    ensures Repad(TrimPads(Encode(bytes))) == Encode(bytes)
    ensures ToUpper(TrimPads(Encode(bytes))) == TrimPads(Encode(bytes))
  {
    var data := EncodeIsPadded(bytes);
    TrimOfPadded(data, PadFor(|data|));
  }

  /** So decoding a stored secret as the verifier does returns the bytes it was made from. */
  lemma StoredSecretDecodes(bytes: seq<nat>)
    requires InBase(bytes, 256)
    ensures Decode(Repad(ToUpper(TrimPads(Encode(bytes))))) == Some(bytes)
  {
    RepadRestores(bytes);
    DecodeOfEncode(bytes);
  }

  lemma {:induction false} ValuesIff(s: string)
    ensures Values(s).Some? <==> IsData(s)
  {
    if s != [] {
      ValuesIff(s[1..]);
      assert forall i | 1 <= i < |s| :: s[i] == s[1..][i - 1];
    }
  }

  lemma GroupIff(data: string, last: bool)
    requires 1 <= |data| <= 8 && forall i | 0 <= i < |data| :: data[i] != '='
    ensures DecodeGroup(data + Pads(8 - |data|), last).Some?
            <==> IsData(data) && (|data| == 8 || (last && |data| in {2, 4, 5, 7}))
  {
    var group, k := data + Pads(8 - |data|), |data|;
    DataLengthIs(group, k);
    assert group[..k] == data && group[k..] == Pads(8 - k);
    ValuesIff(data);
  }

  lemma DataJoins(a: string, b: string)
    ensures IsData(a + b) <==> IsData(a) && IsData(b)
  {
    assert forall i | 0 <= i < |a| :: a[i] == (a + b)[i];
    assert forall i | 0 <= i < |b| :: b[i] == (a + b)[|a| + i];
    assert forall k | 0 <= k < |a + b| :: (a + b)[k] == if k < |a| then a[k] else b[k - |a|];
  }

  lemma DecodeStep(first: string, rest: string)
    requires |first| == 8 && |rest| % 8 == 0
    ensures |first + rest| % 8 == 0
    ensures Decode(first + rest).Some? <==> DecodeGroup(first, rest == []).Some? && Decode(rest).Some?
  {
    Mod8(|rest|);
    var s := first + rest;
    assert s[..8] == first && s[8..] == rest;
  }

  /** What decodes, re-padded: characters of the alphabet, 0, 2, 4, 5 or 7 beyond a multiple of eight. */
  lemma {:induction false} DecodesIff(data: string)
    requires forall i | 0 <= i < |data| :: data[i] != '='
    ensures Decode(Repad(data)).Some? <==> IsData(data) && |data| % 8 in {0, 2, 4, 5, 7}
  {
    hide Decode, DecodeGroup, IsData, Repad;
    if data == [] {
      NothingDecodes(data);
    } else if |data| <= 8 {
      DecodesShort(data);
    } else {
      var block, rest := data[..8], data[8..];
      assert data == block + rest;
      DecodesIff(rest);
      DecodesLonger(block, rest);
    }
  }

  lemma NothingDecodes(data: string)
    requires data == []
    ensures Decode(Repad(data)).Some? && IsData(data)
  {
    assert Repad(data) == [];
  }

  lemma DecodesShort(data: string)
    requires 1 <= |data| <= 8 && forall i | 0 <= i < |data| :: data[i] != '='
    ensures Decode(Repad(data)).Some? <==> IsData(data) && |data| % 8 in {0, 2, 4, 5, 7}
  {
    RepadShort(data);
    GroupIff(data, true);
    DecodeStep(Repad(data), []);
    assert Repad(data) + [] == Repad(data);
  }

  lemma DecodesLonger(block: string, rest: string)
    requires |block| == 8 && rest != [] && forall i | 0 <= i < 8 :: block[i] != '='
    ensures Decode(Repad(block + rest)).Some? <==> IsData(block) && Decode(Repad(rest)).Some?
    ensures IsData(block + rest) <==> IsData(block) && IsData(rest)
    ensures |block + rest| % 8 == |rest| % 8
  {
    hide Decode, DecodeGroup;
    RepadAfterBlock(block, rest);
    DecodeStep(block, Repad(rest));
    assert block == block + Pads(0);
    GroupIff(block, false);
    DataJoins(block, rest);
    Mod8(|rest|);
  }

  /** Section 10 of RFC 4648: the encoding of "f". */
  lemma EncodingExample()
    ensures Encode([102]) == "MY======"
  {
    Powers();
    NumberWithZeros([102], 256, 4);
    NumberWithZeros([12, 24], 32, 6);
    NumberOfLonger([12], 32, 24);
    assert [12] + [24] == [12, 24];
    DigitsOfNumber([12, 24] + Zeros(6), 32);
    assert Quintets([102]) == [12, 24];
    assert Text([12, 24]) == "MY";
    assert Pads(6) == "======";
  }
}
