/** Device and phone numbers as text: hextostring and the STRINGTOHEX macro. */
module HexText {
  import opened Bytes

  /** One nibble as printed by HIGH_HEXTOSTRING / LOW_HEXTOSTRING and the correction above '9'. */
  function NibbleChar(n: nat): (c: char)
    requires n < 16
    ensures IsHexChar(c)
  {
    if n + 0x30 > 0x39 then (n - 10 + 0x41) as char else (n + 0x30) as char
  }

  predicate IsHexChar(c: char) {
    '0' <= c <= '9' || 'A' <= c <= 'F'
  }

  predicate IsDigit(c: char) {
    '0' <= c <= '9'
  }

  predicate AllDigits(s: string) {
    forall i :: 0 <= i < |s| ==> IsDigit(s[i])
  }

  /** The text hextostring writes for a byte string. */
  function Text(bytes: seq<Byte>): (t: string)
    ensures |t| == 2 * |bytes|
    ensures forall i :: 0 <= i < |t| ==> IsHexChar(t[i])
  {
    seq(2 * |bytes|, i requires 0 <= i < 2 * |bytes| =>
      NibbleChar(if i % 2 == 0 then bytes[i / 2] / 16 else bytes[i / 2] % 16))
  }

  /** STRINGTOHEX first replaces every character that is not a decimal digit by '0'. */
  function DigitOrZero(c: char): (d: char)
    ensures IsDigit(d)
  {
    if IsDigit(c) then c else '0'
  }

  function DigitsOnly(t: string): (r: string)
    ensures |r| == |t|
    ensures AllDigits(r)
  {
    seq(|t|, i requires 0 <= i < |t| => DigitOrZero(t[i]))
  }

  /** The byte STRINGTOHEX makes of two characters. */
  function PairByte(x: char, y: char): (b: Byte) {
    (DigitOrZero(x) as int - 0x30) * 16 + (DigitOrZero(y) as int - 0x30)
  }

  function FromText(t: string): (bytes: seq<Byte>)
    ensures |bytes| == |t| / 2
  {
    seq(|t| / 2, i requires 0 <= i < |t| / 2 => PairByte(t[2 * i], t[2 * i + 1]))
  }

  /** Both nibbles are decimal digits. */
  predicate IsBcdByte(b: Byte) {
    b / 16 < 10 && b % 16 < 10
  }

  predicate IsBcd(bytes: seq<Byte>) {
    forall i :: 0 <= i < |bytes| ==> IsBcdByte(bytes[i])
  }

  /** A byte with its letter nibbles set to zero. */
  function BcdPart(b: Byte): Byte {
    (if b / 16 < 10 then b / 16 else 0) * 16 + (if b % 16 < 10 then b % 16 else 0)
  }

  function BcdParts(bytes: seq<Byte>): (r: seq<Byte>)
    ensures |r| == |bytes|
  {
    seq(|bytes|, i requires 0 <= i < |bytes| => BcdPart(bytes[i]))
  }

  method HexToString(id: array<char>, hex: seq<Byte>, length: nat)
    requires length <= |hex| && 2 * length <= id.Length
    modifies id
    ensures id[..2 * length] == Text(hex[..length])
    ensures id[2 * length..] == old(id[2 * length..])
  {
    var i := 0;
    while i < length
      invariant 0 <= i <= length
      invariant forall k :: 0 <= k < 2 * i ==> id[k] == Text(hex[..length])[k]
      invariant forall k :: 2 * i <= k < id.Length ==> id[k] == old(id[k])
    {
      id[2 * i] := (hex[i] / 16 + 0x30) as char;
      id[2 * i + 1] := (hex[i] % 16 + 0x30) as char;
      if id[2 * i] > 0x39 as char { id[2 * i] := (hex[i] / 16 - 0x0A + 0x41) as char; }
      if id[2 * i + 1] > 0x39 as char { id[2 * i + 1] := (hex[i] % 16 - 0x0A + 0x41) as char; }
      assert Text(hex[..length])[2 * i] == NibbleChar(hex[i] / 16);
      assert Text(hex[..length])[2 * i + 1] == NibbleChar(hex[i] % 16);
      i := i + 1;
    }
  }

  /** The decoding loop of ApolloSynerAction and deviceHeartPacket; the macro overwrites its arguments. */
  method StringToHex(text: array<char>, count: nat) returns (bytes: seq<Byte>)
    requires 2 * count <= text.Length
    modifies text
    ensures bytes == FromText(old(text[..2 * count]))
    ensures text[..2 * count] == DigitsOnly(old(text[..2 * count]))
    ensures text[2 * count..] == old(text[2 * count..])
  {
    bytes := [];
    var i := 0;
    while i < count
      invariant 0 <= i <= count
      invariant bytes == FromText(old(text[..2 * count]))[..i]
      invariant forall k :: 0 <= k < 2 * i ==> text[k] == DigitOrZero(old(text[k]))
      invariant forall k :: 2 * i <= k < text.Length ==> text[k] == old(text[k])
    {
      text[2 * i] := DigitOrZero(text[2 * i]);
      text[2 * i + 1] := DigitOrZero(text[2 * i + 1]);
      bytes := bytes + [(text[2 * i] as int - 0x30) * 16 + (text[2 * i + 1] as int - 0x30)];
      i := i + 1;
    }
  }

  /** The text, digit by digit: the high half of each byte first, in capital hexadecimal digits. */
  lemma TextDigitAt(bytes: seq<Byte>, i: nat)
    requires i < |bytes|
    ensures Text(bytes)[2 * i] == "0123456789ABCDEF"[bytes[i] / 16]
    ensures Text(bytes)[2 * i + 1] == "0123456789ABCDEF"[bytes[i] % 16]
  {
    HexDigit(bytes[i] / 16);
    HexDigit(bytes[i] % 16);
  }

  lemma HexDigit(n: nat)
    requires n < 16
    ensures NibbleChar(n) == "0123456789ABCDEF"[n]
  {
    assert n == 0 || n == 1 || n == 2 || n == 3 || n == 4 || n == 5 || n == 6 || n == 7 || n == 8 || n == 9 ||
           n == 10 || n == 11 || n == 12 || n == 13 || n == 14 || n == 15;
  }

  /** hextostring loses nothing. */
  lemma TextInjective(a: seq<Byte>, b: seq<Byte>)
    requires Text(a) == Text(b)
    ensures a == b
  {
    assert |a| == |Text(a)| / 2 == |Text(b)| / 2 == |b|;
    forall i | 0 <= i < |a| ensures a[i] == b[i] {
      assert Text(a)[2 * i] == NibbleChar(a[i] / 16) && Text(b)[2 * i] == NibbleChar(b[i] / 16);
      assert Text(a)[2 * i + 1] == NibbleChar(a[i] % 16) && Text(b)[2 * i + 1] == NibbleChar(b[i] % 16);
      NibbleCharInjective(a[i] / 16, b[i] / 16);
      NibbleCharInjective(a[i] % 16, b[i] % 16);
    }
  }

  lemma NibbleCharInjective(m: nat, n: nat)
    requires m < 16 && n < 16 && NibbleChar(m) == NibbleChar(n)
    ensures m == n
  {
    assert NibbleChar(m) as int == NibbleChar(n) as int;
  }

  /** Decoding a printed number zeroes exactly the letter nibbles, so it returns the number if and
      only if the number is BCD. */
  lemma FromTextOfText(bytes: seq<Byte>)
    ensures FromText(Text(bytes)) == BcdParts(bytes)
    ensures FromText(Text(bytes)) == bytes <==> IsBcd(bytes)
  {
    var back := FromText(Text(bytes));
    forall i | 0 <= i < |bytes|
      ensures back[i] == BcdPart(bytes[i])
      ensures BcdPart(bytes[i]) == bytes[i] <==> IsBcdByte(bytes[i])
    {
      assert Text(bytes)[2 * i] == NibbleChar(bytes[i] / 16);
      assert Text(bytes)[2 * i + 1] == NibbleChar(bytes[i] % 16);
    }
    assert back == BcdParts(bytes);
    if back == bytes {
      forall i | 0 <= i < |bytes| ensures IsBcdByte(bytes[i]) {
        assert back[i] == bytes[i];
      }
    }
  }

  /** The digits of a BCD number are decimal digits, and only then. */
  lemma TextDigits(bytes: seq<Byte>)
    ensures AllDigits(Text(bytes)) <==> IsBcd(bytes)
  {
    forall i | 0 <= i < |bytes|
      ensures IsBcdByte(bytes[i]) <==> IsDigit(Text(bytes)[2 * i]) && IsDigit(Text(bytes)[2 * i + 1])
    {
      assert Text(bytes)[2 * i] == NibbleChar(bytes[i] / 16);
      assert Text(bytes)[2 * i + 1] == NibbleChar(bytes[i] % 16);
    }
    if IsBcd(bytes) {
      forall k | 0 <= k < 2 * |bytes| ensures IsDigit(Text(bytes)[k]) {
        assert IsBcdByte(bytes[k / 2]);
      }
    }
  }
}
