// Withdrawal credentials: built as 32 bytes by key generation, looked up as a
// string by the use command.
module Credentials {
  import opened Bytes
  import opened Seqs
  import opened Strings

  function HexChar(d: nat): char
    requires d < 16
  {
    if d < 10 then ('0' as int + d) as char else ('a' as int + d - 10) as char
  }

  predicate IsHexChar(c: char) {
    '0' <= c <= '9' || 'a' <= c <= 'f' || 'A' <= c <= 'F'
  }

  function HexValue(c: char): (d: nat)
    requires IsHexChar(c)
    ensures d < 16 && "0123456789abcdef"[d] == LowerChar(c)
  {
    if c <= '9' then c as int - '0' as int
    else if c <= 'F' then c as int - 'A' as int + 10
    else c as int - 'a' as int + 10
  }

  function ByteText(b: Byte): string {
    [HexChar(b / 16), HexChar(b % 16)]
  }

  function PairByte(c: char, d: char): Byte
    requires IsHexChar(c) && IsHexChar(d)
  {
    16 * HexValue(c) + HexValue(d)
  }

  lemma PairOfByteText(b: Byte)
    ensures IsHexChar(ByteText(b)[0]) && IsHexChar(ByteText(b)[1])
    ensures PairByte(ByteText(b)[0], ByteText(b)[1]) == b
  {
  }

  lemma TextOfPairByte(c: char, d: char)
    requires IsHexChar(c) && IsHexChar(d)
    ensures ByteText(PairByte(c, d)) == [LowerChar(c), LowerChar(d)]
  {
    assert PairByte(c, d) / 16 == HexValue(c) && PairByte(c, d) % 16 == HexValue(d);
  }

  // Buffer.toString("hex")
  function HexEncode(b: Bytes): (s: string)
    ensures |s| == 2 * |b|
  {
    if b == [] then "" else ByteText(b[0]) + HexEncode(b[1..])
  }

  // Buffer.from(s, "hex") stops at the first pair that is not hexadecimal.
  function HexDecode(s: string): Bytes {
    if |s| >= 2 && IsHexChar(s[0]) && IsHexChar(s[1])
    then [PairByte(s[0], s[1])] + HexDecode(s[2..])
    else []
  }

  lemma {:induction false} DecodeEncode(b: Bytes)
    ensures HexDecode(HexEncode(b)) == b
  {
    if b == [] {
    } else {
      var s := HexEncode(b);
      PairOfByteText(b[0]);
      assert s[0] == ByteText(b[0])[0] && s[1] == ByteText(b[0])[1];
      assert s[2..] == HexEncode(b[1..]);
      DecodeEncode(b[1..]);
    }
  }

  // Decoding and re-encoding hex text normalises its case and nothing else.
  lemma {:induction false} EncodeDecode(s: string)
    requires |s| % 2 == 0 && forall i :: 0 <= i < |s| ==> IsHexChar(s[i])
    ensures HexEncode(HexDecode(s)) == ToLower(s)
    ensures |HexDecode(s)| == |s| / 2
  {
    if s == "" {
    } else {
      EncodeDecode(s[2..]);
      TextOfPairByte(s[0], s[1]);
      var rest := HexDecode(s[2..]);
      assert HexDecode(s)[1..] == rest;
      assert ToLower(s) == [LowerChar(s[0]), LowerChar(s[1])] + ToLower(s[2..]);
    }
  }

  lemma {:induction false} EncodeConcat(a: Bytes, b: Bytes)
    ensures HexEncode(a + b) == HexEncode(a) + HexEncode(b)
  {
    if a == [] {
      assert a + b == b;
    } else {
      EncodeConcat(a[1..], b);
      assert (a + b)[0] == a[0] && (a + b)[1..] == a[1..] + b;
      Associative(ByteText(a[0]), HexEncode(a[1..]), HexEncode(b));
    }
  }

  // 0x and forty hexadecimal digits.
  predicate IsAddress(s: string) {
    |s| == 42 && s[0] == '0' && s[1] == 'x' && forall i :: 2 <= i < 42 ==> IsHexChar(s[i])
  }

  lemma AddressForm(s: string)
    ensures IsAddress(s) <==>
            exists digits :: s == "0x" + digits && |digits| == 40 && forall i :: 0 <= i < 40 ==> IsHexChar(digits[i])
  {
    if IsAddress(s) {
      var digits := s[2..];
      assert s == "0x" + digits;
      assert forall i :: 0 <= i < 40 ==> digits[i] == s[i + 2];
    }
    if exists digits :: s == "0x" + digits && |digits| == 40 && forall i :: 0 <= i < 40 ==> IsHexChar(digits[i]) {
      var digits :| s == "0x" + digits && |digits| == 40 && forall i :: 0 <= i < 40 ==> IsHexChar(digits[i]);
      assert forall i :: 2 <= i < 42 ==> s[i] == digits[i - 2];
    }
  }

  predicate IsWcType(t: string) {
    t == "0x01" || t == "0x02"
  }

  // The 32 bytes key generation signs.
  function WithdrawalCredentials(wcType: string, wcAddress: string): Bytes {
    [if wcType == "0x02" then 2 else 1] + Zeros(11) + HexDecode(wcAddress[if |wcAddress| < 2 then 0 else 2..])
  }

  // The string the use command filters on.
  function CredentialFilter(wcType: string, vault: string): string {
    ReplaceFirst(ToLower(vault), "0x", ReplaceFirst(wcType, "0x", "") + "0000000000000000000000")
  }

  lemma AddressBytes(a: string)
    requires IsAddress(a)
    ensures |HexDecode(a[2..])| == 20 && HexEncode(HexDecode(a[2..])) == ToLower(a[2..])
  {
    EncodeDecode(a[2..]);
  }

  lemma FilterText(wcType: string, a: string)
    requires IsAddress(a) && IsWcType(wcType)
    ensures CredentialFilter(wcType, a) == wcType[2..] + "0000000000000000000000" + ToLower(a[2..])
  {
    var low := ToLower(a);
    assert "0x" <= low by { assert low[0] == '0' && low[1] == 'x'; }
    assert ReplaceFirst(wcType, "0x", "") == wcType[2..];
    assert low[2..] == ToLower(a[2..]);
    assert low[..0] + (wcType[2..] + "0000000000000000000000") + low[2..] ==
           wcType[2..] + "0000000000000000000000" + low[2..];
  }

  lemma {:induction false} EncodeZeros(n: nat)
    ensures HexEncode(Zeros(n)) == seq(2 * n, _ => '0')
  {
    if n == 0 {
    } else {
      EncodeZeros(n - 1);
      assert Zeros(n)[1..] == Zeros(n - 1);
    }
  }

  lemma OneByteText(b: Byte)
    ensures HexEncode([b]) == ByteText(b)
  {
    assert [b][1..] == [];
  }

  lemma ElevenZeros()
    ensures seq(22, _ => '0') == "0000000000000000000000"
  {
  }

  lemma EncodePrefix(wcType: string)
    requires IsWcType(wcType)
    ensures HexEncode([if wcType == "0x02" then 2 else 1] + Zeros(11)) == wcType[2..] + "0000000000000000000000"
  {
    var t: Bytes := [if wcType == "0x02" then 2 else 1];
    EncodeConcat(t, Zeros(11));
    EncodeZeros(11);
    OneByteText(t[0]);
    assert ByteText(t[0]) == wcType[2..];
    ElevenZeros();
  }

  // Byte by byte: type, eleven zeros, then the address's twenty, two digits each with
  // the high one first.
  lemma CredentialLayout(wcType: string, a: string, i: nat)
    requires IsAddress(a) && IsWcType(wcType) && i < 32
    ensures |WithdrawalCredentials(wcType, a)| == 32
    ensures WithdrawalCredentials(wcType, a)[i] ==
            if i == 0 then (if wcType == "0x01" then 1 else 2)
            else if i < 12 then 0
            else 16 * HexValue(a[2 * i - 22]) + HexValue(a[2 * i - 21])
  {
    AddressBytes(a);
    LayoutAt(if wcType == "0x02" then 2 else 1, HexDecode(a[2..]), i);
    if i >= 12 {
      var digits := a[2..];
      DecodedByte(digits, i - 12);
      assert digits[2 * (i - 12)] == a[2 * i - 22] && digits[2 * (i - 12) + 1] == a[2 * i - 21];
    }
  }

  lemma LayoutAt(t: Byte, address: Bytes, i: nat)
    requires i < 12 + |address|
    ensures |[t] + Zeros(11) + address| == 12 + |address|
    ensures ([t] + Zeros(11) + address)[i] == if i == 0 then t else if i < 12 then 0 else address[i - 12]
  {
  }

  lemma {:induction false} DecodedByte(s: string, i: nat)
    requires |s| % 2 == 0 && 2 * i < |s| && forall k :: 0 <= k < |s| ==> IsHexChar(s[k])
    ensures i < |HexDecode(s)| && HexDecode(s)[i] == PairByte(s[2 * i], s[2 * i + 1])
    decreases |s|
  {
    if i == 0 {
    } else {
      DecodedByte(s[2..], i - 1);
      assert HexDecode(s)[i] == HexDecode(s[2..])[i - 1];
    }
  }

  // The hex of the generated bytes is exactly the string the use command looks for.
  lemma CredentialsAgree(wcType: string, a: string)
    requires IsAddress(a) && IsWcType(wcType)
    ensures |WithdrawalCredentials(wcType, a)| == 32
    ensures HexEncode(WithdrawalCredentials(wcType, a)) == CredentialFilter(wcType, a)
  {
    AddressBytes(a);
    FilterText(wcType, a);
    EncodePrefix(wcType);
    EncodeConcat([if wcType == "0x02" then 2 else 1] + Zeros(11), HexDecode(a[2..]));
  }

  // Two credentials are the same text exactly when the type and the address
  // bytes agree; letter case in the address never matters.
  lemma CredentialsDiscriminate(t: string, a: string, t': string, a': string)
    requires IsAddress(a) && IsAddress(a') && IsWcType(t) && IsWcType(t')
    ensures CredentialFilter(t, a) == CredentialFilter(t', a') <==> t == t' && HexDecode(a[2..]) == HexDecode(a'[2..])
  {
    CredentialsAgree(t, a);
    CredentialsAgree(t', a');
    var w, w' := WithdrawalCredentials(t, a), WithdrawalCredentials(t', a');
    AddressBytes(a);
    AddressBytes(a');
    DecodeEncode(w);
    DecodeEncode(w');
    assert w[12..] == HexDecode(a[2..]) && w'[12..] == HexDecode(a'[2..]);
    assert w[0] == (if t == "0x02" then 2 else 1) && w'[0] == (if t' == "0x02" then 2 else 1);
  }
}
