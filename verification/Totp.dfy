/**
 Time-based one-time codes (RFC 6238 over the truncation of RFC 4226): thirty-second
 counters, six decimal digits, one counter of tolerance on either side. `hmac`
 stands for HMAC-SHA1 of a key and a message. Times are non-negative seconds.
 */
module Totp {
  import opened Base
  import opened Digits
  import opened Base32

  const PERIOD: int := 30
  const CODES: nat := 1000000
  const TWO_64: int := 0x1_0000_0000_0000_0000

  ghost predicate IsDigest(sum: seq<nat>) {
    |sum| == 20 && InBase(sum, 256)
  }

  type Hmac = (seq<nat>, seq<nat>) -> seq<nat>

  /** HMAC-SHA1 gives twenty bytes, whatever it is given. */
  ghost predicate GivesDigests(hmac: Hmac) {
    forall key, message :: IsDigest(hmac(key, message))
  }

  /** The eight bytes of a counter converted to 64 bits; negative counters wrap. */
  function CounterBytes(counter: int): seq<nat> {
    ToDigits(counter % TWO_64, 256, 8)
  }

  /** Four bytes at the offset in the last byte's low half, without the top bit. */
  function Truncate(sum: seq<nat>): nat
    requires |sum| == 20
  {
    var offset := sum[19] % 16;
    Number(sum[offset..offset + 4], 256) % 0x8000_0000
  }

  function Digit(d: nat): char
    requires d < 10
  {
    '0' + d as char
  }

  function Decimal(ds: seq<nat>): (s: string)
    requires InBase(ds, 10)
    ensures |s| == |ds| && forall i | 0 <= i < |ds| :: s[i] == Digit(ds[i])
  {
    seq(|ds|, i requires 0 <= i < |ds| => Digit(ds[i]))
  }

  /** "%06d". */
  function CodeText(n: nat): string {
    Decimal(ToDigits(n, 10, 6))
  }

  /** Reading a decimal numeral. */
  function Parse(s: string): Option<nat> {
    if s == [] then Some(0) else
    var c := s[|s| - 1];
    match Parse(s[..|s| - 1])
    case None => None
    case Some(n) => if '0' <= c <= '9' then Some(n * 10 + (c - '0') as nat) else None
  }

  /** The key a stored secret stands for. */
  function KeyOf(secret: string): Option<seq<nat>> {
    Decode(Repad(ToUpper(secret)))
  }

  /** The stored form of a key. */
  function SecretOf(key: seq<nat>): string {
    TrimPads(Encode(key))
  }

  /** The code of a counter; empty if the secret is not base32. */
  function Code(hmac: Hmac, secret: string, counter: int): string
    requires GivesDigests(hmac)
  {
    match KeyOf(secret)
    case None => ""
    case Some(key) =>
      assert IsDigest(hmac(key, CounterBytes(counter)));
      CodeText(Truncate(hmac(key, CounterBytes(counter))) % CODES)
  }

  // ----- Truncation and the six digits -----

  /** The slice is always inside the digest and the truncated value below 2^31. */
  lemma TruncationInBounds(sum: seq<nat>)
    requires IsDigest(sum)
    ensures sum[19] % 16 + 4 <= 19 && |sum[sum[19] % 16..sum[19] % 16 + 4]| == 4
    ensures Truncate(sum) < 0x8000_0000
  {
  }

  lemma NumberOfFour(a: nat, b: nat, c: nat, d: nat)
    ensures Number([a, b, c, d], 256) == ((a * 256 + b) * 256 + c) * 256 + d
  {
    NumberOfLonger([a], 256, b);
    NumberOfLonger([a] + [b], 256, c);
    NumberOfLonger([a] + [b] + [c], 256, d);
    assert [a] + [b] + [c] + [d] == [a, b, c, d];
  }

  lemma DropTopBit(a: nat, rest: nat)
    requires rest < 0x100_0000
    ensures (a * 0x100_0000 + rest) % 0x8000_0000 == a % 128 * 0x100_0000 + rest
  {
    assert a * 0x100_0000 + rest == a / 128 * 0x8000_0000 + (a % 128 * 0x100_0000 + rest);
    ModOfBlock(a / 128, 0x8000_0000, a % 128 * 0x100_0000 + rest);
  }

  /** Dynamic truncation: four bytes from an offset, most significant first, without the top bit. */
  function TruncatedAt(sum: seq<nat>, offset: nat): int
    requires offset + 3 < |sum|
  {
    sum[offset] % 128 * 0x100_0000 + sum[offset + 1] * 0x1_0000 + sum[offset + 2] * 0x100 + sum[offset + 3]
  }

  /** For every digest the offset is the last byte's low half, as section 5.3 of RFC 4226 has it. */
  lemma TruncateIsDynamic(sum: seq<nat>)
    requires IsDigest(sum)
    ensures Truncate(sum) == TruncatedAt(sum, sum[19] % 16)
  {
    var o := sum[19] % 16;
    assert sum[o..o + 4] == [sum[o], sum[o + 1], sum[o + 2], sum[o + 3]];
    NumberOfFour(sum[o], sum[o + 1], sum[o + 2], sum[o + 3]);
    DropTopBit(sum[o], sum[o + 1] * 0x1_0000 + sum[o + 2] * 0x100 + sum[o + 3]);
  }

  /** The example of section 5.4 of RFC 4226: offset 10, value 0x50ef7f19, code 872921. */
  lemma TruncationExample(sum: seq<nat>)
    requires sum == [0x1f, 0x86, 0x98, 0x69, 0x0e, 0x02, 0xca, 0x16, 0x61, 0x85,
                     0x50, 0xef, 0x7f, 0x19, 0xda, 0x8e, 0x94, 0x5b, 0x55, 0x5a]
    ensures Truncate(sum) == 0x50ef7f19
    ensures Truncate(sum) % CODES == 872921
  {
    assert sum[19] % 16 == 10;
    assert sum[10..10 + 4] == [0x50, 0xef, 0x7f, 0x19];
    NumberOfFour(0x50, 0xef, 0x7f, 0x19);
    assert Number(sum[10..10 + 4], 256) == 0x50ef7f19;
    assert 0x50ef7f19 % CODES == 872921;
  }

  lemma {:induction false} ParseOfDecimal(ds: seq<nat>)
    requires InBase(ds, 10)
    ensures Parse(Decimal(ds)) == Some(Number(ds, 10))
  {
    if ds != [] {
      var n := |ds| - 1;
      ParseOfDecimal(ds[..n]);
      assert Decimal(ds)[..n] == Decimal(ds[..n]);
    }
  }

  /** The digits are the usual ones, most significant first. */
  lemma NumeralExample(d: nat)
    requires d < 10
    ensures Digit(d) == "0123456789"[d]
    ensures Parse("872921") == Some(872921)
  {
    var s := "872921";
    assert s[..5] == "87292" && "87292"[..4] == "8729" && "8729"[..3] == "872";
    assert "872"[..2] == "87" && "87"[..1] == "8" && "8"[..0] == "";
    assert Parse("87") == Some(87);
    assert Parse("8729") == Some(8729);
  }

  /** Exactly six decimal digits, leading zeros kept, that read back as the value. */
  lemma SixDigits(n: nat)
    requires n < CODES
    ensures |CodeText(n)| == 6 && forall i | 0 <= i < 6 :: '0' <= CodeText(n)[i] <= '9'
    ensures Parse(CodeText(n)) == Some(n)
  {
    ParseOfDecimal(ToDigits(n, 10, 6));
    assert Power(10, 6) == CODES by {
      assert Power(10, 3) == 1000;
    }
    NumberOfDigits(n, 10, 6);
  }

  lemma {:induction false} SameNumeral(a: string, b: string)
    requires |a| == |b| && Parse(a).Some? && Parse(a) == Parse(b)
    ensures a == b
  {
    if a != [] {
      var n := |a| - 1;
      SameNumeral(a[..n], b[..n]);
      assert a == a[..n] + [a[n]] && b == b[..n] + [b[n]];
    }
  }

  /** A text is the code of a value iff it has six characters and reads as that number. */
  lemma CodeTextIff(n: nat, text: string)
    requires n < CODES
    ensures text == CodeText(n) <==> |text| == 6 && Parse(text) == Some(n)
  {
    SixDigits(n);
    if |text| == 6 && Parse(text) == Some(n) {
      SameNumeral(text, CodeText(n));
    }
  }

  /**
   An enrolled secret's code at a counter, whatever the case of its letters: exactly
   the six digits that read as the dynamically truncated digest, under the original
   key, of the counter's bytes, modulo a million.
   */
  lemma EnrolledCode(hmac: Hmac, key: seq<nat>, secret: string, counter: int, text: string)
    requires GivesDigests(hmac) && InBase(key, 256) && ToUpper(secret) == SecretOf(key)
    ensures KeyOf(secret) == Some(key)
    ensures var sum := hmac(key, CounterBytes(counter));
            && IsDigest(sum)
            && (text == Code(hmac, secret, counter) <==>
                  |text| == 6 && Parse(text) == Some(TruncatedAt(sum, sum[19] % 16) % 1000000))
  {
    StoredSecretDecodes(key);
    RepadRestores(key);
    var sum := hmac(key, CounterBytes(counter));
    assert IsDigest(sum);
    TruncateIsDynamic(sum);
    CodeTextIff(Truncate(sum) % CODES, text);
  }

  /** Byte k of a counter: its k-th base-256 digit from the top, negative counters wrapped to 64 bits. */
  lemma CounterByte(counter: int, k: nat)
    requires k < 8
    ensures |CounterBytes(counter)| == 8
    ensures CounterBytes(counter)[k] == counter % 0x1_0000_0000_0000_0000 / Power(256, 7 - k) % 256
  {
    DigitAt(counter % TWO_64, 256, 8, k);
  }

  // ----- The window -----

  /** The counters a verification at time t compares with. */
  predicate Tried(t: nat, counter: int) {
    t / PERIOD - 1 <= counter <= t / PERIOD + 1
  }

  ghost predicate Accepts(hmac: Hmac, secret: string, code: string, t: nat)
    requires GivesDigests(hmac)
  {
    exists counter :: Tried(t, counter) && code == Code(hmac, secret, counter)
  }

  /** The code of a counter under a key, by the bytes of the digest. */
  ghost predicate IsCodeAt(hmac: Hmac, key: seq<nat>, counter: int, code: string) {
    var sum := hmac(key, CounterBytes(counter));
    IsDigest(sum) && |code| == 6 && Parse(code) == Some(TruncatedAt(sum, sum[19] % 16) % 1000000)
  }

  /** For an enrolled secret exactly the codes of these thirty seconds, of the last and of the next are accepted. */
  lemma AcceptsIff(hmac: Hmac, key: seq<nat>, secret: string, code: string, t: nat)
    requires GivesDigests(hmac) && InBase(key, 256) && ToUpper(secret) == SecretOf(key)
    ensures Accepts(hmac, secret, code, t) <==>
              || IsCodeAt(hmac, key, t / 30 - 1, code)
              || IsCodeAt(hmac, key, t / 30, code)
              || IsCodeAt(hmac, key, t / 30 + 1, code)
  {
    forall counter ensures IsCodeAt(hmac, key, counter, code) <==> code == Code(hmac, secret, counter) {
      EnrolledCode(hmac, key, secret, counter, code);
    }
    hide Code, IsCodeAt;
    assert Tried(t, t / 30 - 1) && Tried(t, t / 30) && Tried(t, t / 30 + 1);
    assert forall counter :: Tried(t, counter) ==> counter in {t / 30 - 1, t / 30, t / 30 + 1};
  }

  /** A code minted up to 30 seconds away is accepted. */
  lemma AcceptedWithinPeriod(hmac: Hmac, secret: string, s: nat, t: nat)
    requires GivesDigests(hmac) && -PERIOD <= t - s <= PERIOD
    ensures Accepts(hmac, secret, Code(hmac, secret, s / PERIOD), t)
  {
    assert Tried(t, s / PERIOD);
  }

  ghost predicate IsSixDigits(code: string) {
    |code| == 6 && forall i | 0 <= i < 6 :: '0' <= code[i] <= '9'
  }

  /** A secret that is not base32 has the empty code at every moment, a secret that is never has. */
  lemma EmptyAcceptedIff(hmac: Hmac, secret: string, t: nat)
    requires GivesDigests(hmac)
    ensures Accepts(hmac, secret, "", t) <==> KeyOf(secret).None?
  {
    assert Tried(t, t / PERIOD);
    if KeyOf(secret).Some? {
      forall counter ensures Code(hmac, secret, counter) != "" {
        CodeIsSixDigits(hmac, secret, counter);
      }
    }
  }

  /** Which secrets are base32: letters and the digits 2 to 7, 0, 2, 4, 5 or 7 of them beyond a multiple of eight. */
  lemma SecretDecodesIff(secret: string)
    requires forall i | 0 <= i < |secret| :: secret[i] != '='
    ensures KeyOf(secret).Some? <==>
              && |secret| % 8 in {0, 2, 4, 5, 7}
              && forall i | 0 <= i < |secret| ::
                   'A' <= secret[i] <= 'Z' || 'a' <= secret[i] <= 'z' || '2' <= secret[i] <= '7'
  {
    DecodesIff(ToUpper(secret));
    assert forall i | 0 <= i < |secret| :: ToUpper(secret)[i] == Upper(secret[i]);
  }

  /** Such secrets exist: a dollar sign is no base32 text. */
  lemma DollarIsNoSecret()
    ensures KeyOf("$").None?
  {
    var padded := Repad(ToUpper("$"));
    assert padded[0] == '$';
    assert ValueOf('$').None?;
  }

  /** No code with a character in it is ever accepted for a secret that is not base32. */
  lemma NoOtherAccepted(hmac: Hmac, secret: string, code: string, t: nat)
    requires GivesDigests(hmac) && KeyOf(secret).None? && code != ""
    ensures !Accepts(hmac, secret, code, t)
  {
    assert forall counter :: Code(hmac, secret, counter) == "";
  }

  lemma CodeIsSixDigits(hmac: Hmac, secret: string, counter: int)
    requires GivesDigests(hmac) && KeyOf(secret).Some?
    ensures IsSixDigits(Code(hmac, secret, counter))
  {
    var sum := hmac(KeyOf(secret).value, CounterBytes(counter));
    assert IsDigest(sum);
    SixDigits(Truncate(sum) % CODES);
  }

  /** Only six-digit codes are ever accepted if and only if the secret is base32. */
  lemma OnlySixDigitsIff(hmac: Hmac, secret: string)
    requires GivesDigests(hmac)
    ensures (forall t: nat, code: string | Accepts(hmac, secret, code, t) :: IsSixDigits(code)) <==> KeyOf(secret).Some?
  {
    if KeyOf(secret).Some? {
      forall t: nat, code: string | Accepts(hmac, secret, code, t) ensures IsSixDigits(code) {
        var counter :| Tried(t, counter) && code == Code(hmac, secret, counter);
        CodeIsSixDigits(hmac, secret, counter);
      }
    } else {
      EmptyAcceptedIff(hmac, secret, 0);
      assert !IsSixDigits("");
    }
  }

  /** Minted at s, tried at t? */
  predicate MintTried(s: nat, t: nat) {
    Tried(t, s / PERIOD)
  }

  /** At d seconds' distance the minting counter is always tried iff d <= 30, and ever tried iff d < 60. */
  lemma WindowExact(d: nat)
    ensures (forall s: nat, t: nat | t - s == d || s - t == d :: MintTried(s, t)) <==> d <= 30
    ensures (exists s: nat, t: nat :: (t - s == d || s - t == d) && MintTried(s, t)) <==> d < 60
  {
    if d < 60 {
      assert MintTried(0, d);
    }
    if d > 30 {
      assert !MintTried(29, 29 + d);
    }
  }

  lemma EightBytes()
    ensures Power(256, 8) == TWO_64
  {
    assert Power(256, 4) == 0x1_0000_0000;
  }

  lemma WrapInjective(a: int, b: int)
    requires -1 <= a < 0x8000_0000_0000_0000 && -1 <= b < 0x8000_0000_0000_0000
    ensures a % TWO_64 == b % TWO_64 ==> a == b
  {
  }

  /** Wrapping to 64 bits confuses no two counters: the bytes authenticated differ whenever the counters do. */
  lemma CounterBytesInjective(a: int, b: int)
    requires -1 <= a < 0x8000_0000_0000_0000 && -1 <= b < 0x8000_0000_0000_0000
    ensures CounterBytes(a) == CounterBytes(b) <==> a == b
  {
    EightBytes();
    WrapInjective(a, b);
    NumberOfDigits(a % TWO_64, 256, 8);
    NumberOfDigits(b % TWO_64, 256, 8);
  }

  // ----- The provider -----

  /** binary.BigEndian.PutUint64. */
  method PutUint64(buf: array<nat>, value: nat)
    requires buf.Length == 8
    modifies buf
    ensures buf[..] == ToDigits(value, 256, 8)
  {
    var v, i := value, 8;
    while i > 0
      invariant 0 <= i <= 8
      invariant ToDigits(value, 256, 8) == ToDigits(v, 256, i) + buf[i..]
    {
      i := i - 1;
      buf[i] := v % 256;
      assert ToDigits(v, 256, i + 1) == ToDigits(v / 256, 256, i) + [v % 256];
      v := v / 256;
    }
  }

  method ComputeTotp(hmac: Hmac, secret: string, counter: int) returns (code: string)
    requires GivesDigests(hmac)
    ensures code == Code(hmac, secret, counter)
  {
    var key := KeyOf(secret);
    if key.None? {
      return "";
    }
    var buf := new nat[8];
    PutUint64(buf, counter % TWO_64);
    var sum := hmac(key.value, buf[..]);
    assert IsDigest(sum);
    var offset := sum[19] % 16;
    var value := Number(sum[offset..offset + 4], 256) % 0x8000_0000;
    code := CodeText(value % CODES);
  }

  method Verify(hmac: Hmac, secret: string, code: string, now: nat) returns (ok: bool)
    requires GivesDigests(hmac)
    ensures ok <==> Accepts(hmac, secret, code, now)
  {
    hide Code;
    var slot := now / PERIOD;
    for delta := -1 to 2
      invariant forall counter | slot - 1 <= counter < slot + delta :: code != Code(hmac, secret, counter)
    {
      var expected := ComputeTotp(hmac, secret, slot + delta);
      if code == expected {
        assert Tried(now, slot + delta);
        return true;
      }
    }
    ok := false;
  }
}
