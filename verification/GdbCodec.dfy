/** Hex text conversions of the GDB stub (gdbserver/gdbserver.cpp). */
module GdbCodec {
  import opened Machine

  const HEXCHARS: string := "0123456789abcdef"

  /** The value of one hex digit, or -1. */
  function Hex(ch: char): (v: int)
    ensures -1 <= v < 16
  {
    if 'a' <= ch <= 'f' then ch as int - 'a' as int + 10
    else if '0' <= ch <= '9' then ch as int - '0' as int
    else if 'A' <= ch <= 'F' then ch as int - 'A' as int + 10
    else -1
  }

  predicate AllHex(text: string) {
    forall i :: 0 <= i < |text| ==> Hex(text[i]) >= 0
  }

  lemma HexOfDigit(n: nat)
    requires n < 16
    ensures Hex(HEXCHARS[n]) == n
    ensures HEXCHARS[n] !in ['$', '#', ':', '\0']
  {
    assert n in {0, 1, 2, 3, 4, 5, 6, 7, 8, 9, 10, 11, 12, 13, 14, 15};
  }

  /** Digits of either case, and nothing else, have a value, and it is their place in the alphabet. */
  lemma HexIsExact(ch: char)
    ensures Hex(ch) >= 0 <==> ch in "0123456789" || ch in "abcdef" || ch in "ABCDEF"
    ensures forall n :: 0 <= n < 10 && ch == "0123456789"[n] ==> Hex(ch) == n
    ensures forall n :: 0 <= n < 6 && (ch == "abcdef"[n] || ch == "ABCDEF"[n]) ==> Hex(ch) == 10 + n
  {
    if '0' <= ch <= '9' { assert ch == "0123456789"[ch as int - '0' as int]; }
    if 'a' <= ch <= 'f' { assert ch == "abcdef"[ch as int - 'a' as int]; }
    if 'A' <= ch <= 'F' { assert ch == "ABCDEF"[ch as int - 'A' as int]; }
  }

  /** The byte a pair of characters is packed into; -1 digits wrap like the source's char arithmetic. */
  function Pack(hi: char, lo: char): byte {
    (16 * Hex(hi) + Hex(lo)) % 256
  }

  lemma PackDigits(b: byte)
    ensures Pack(HEXCHARS[b / 16], HEXCHARS[b % 16]) == b
  {
    HexOfDigit(b / 16);
    HexOfDigit(b % 16);
  }

  /** Two lower-case digits per byte. */
  function HexText(bytes: seq<byte>): (text: string)
    ensures |text| == 2 * |bytes|
  {
    seq(2 * |bytes|, i requires 0 <= i < 2 * |bytes| =>
      if i % 2 == 0 then HEXCHARS[bytes[i / 2] / 16] else HEXCHARS[bytes[i / 2] % 16])
  }

  function Unhex(text: string): (bytes: seq<byte>)
    ensures |bytes| == |text| / 2
  {
    seq(|text| / 2, i requires 0 <= i < |text| / 2 => Pack(text[2 * i], text[2 * i + 1]))
  }

  lemma UnhexHexText(bytes: seq<byte>)
    ensures Unhex(HexText(bytes)) == bytes
    ensures AllHex(HexText(bytes))
  {
    var text := HexText(bytes);
    forall i | 0 <= i < |bytes| ensures Unhex(text)[i] == bytes[i] {
      PackDigits(bytes[i]);
      assert text[2 * i] == HEXCHARS[bytes[i] / 16];
      assert text[2 * i + 1] == HEXCHARS[bytes[i] % 16];
    }
    forall j | 0 <= j < |text| ensures Hex(text[j]) >= 0 {
      HexOfDigit(bytes[j / 2] / 16);
      HexOfDigit(bytes[j / 2] % 16);
    }
  }

  /** None of the characters that frame a packet or end a C string can come out of HexText. */
  lemma HexTextIsPlain(bytes: seq<byte>)
    ensures forall j :: 0 <= j < |HexText(bytes)| ==> HexText(bytes)[j] !in ['$', '#', ':', '\0']
  {
    forall j | 0 <= j < |HexText(bytes)| ensures HexText(bytes)[j] !in ['$', '#', ':', '\0'] {
      HexOfDigit(bytes[j / 2] / 16);
      HexOfDigit(bytes[j / 2] % 16);
    }
  }

  /** The mathematical value of a digit string. */
  function HexValue(digits: string): nat
    requires AllHex(digits)
  {
    if digits == [] then 0 else 16 * HexValue(digits[..|digits| - 1]) + Hex(digits[|digits| - 1])
  }

  /** What an int holds after arithmetic modulo 2^32. */
  function Int32(v: int): (r: int)
    ensures -0x8000_0000 <= r < 0x8000_0000
  {
    (v + 0x8000_0000) % 0x1_0000_0000 - 0x8000_0000
  }

  lemma Int32Wraps(v: int)
    ensures (Int32(v) - v) % 0x1_0000_0000 == 0
  {
  }

  /** The first position from p on whose character is not a hex digit. */
  function SkipHex(s: string, p: nat): (q: nat)
    requires p <= |s|
    ensures p <= q <= |s|
    ensures forall k :: p <= k < q ==> Hex(s[k]) >= 0
    ensures q < |s| ==> Hex(s[q]) < 0
    decreases |s| - p
  {
    if p < |s| && Hex(s[p]) >= 0 then SkipHex(s, p + 1)
    else p
  }

  lemma {:induction false} SkipHexUnique(s: string, p: nat, q: nat)
    requires p <= q <= |s| && AllHex(s[p..q])
    requires q < |s| ==> Hex(s[q]) < 0
    ensures SkipHex(s, p) == q
    decreases q - p
  {
    if p < q {
      assert s[p..q][0] == s[p];
      assert s[p + 1..q] == s[p..q][1..];
      SkipHexUnique(s, p + 1, q);
    }
  }

  lemma Int32Step(x: int, h: int)
    ensures Int32(Int32(x) * 16 + h) == Int32(16 * x + h)
  {
    var k := (x + 0x8000_0000) / 0x1_0000_0000;
    assert Int32(x) == x - 0x1_0000_0000 * k;
  }

  method Mem2Hex(mem: array<byte>, at: nat, buf: array<char>, start: nat, count: nat) returns (end: nat)
    requires at + count <= mem.Length && start + 2 * count < buf.Length
    modifies buf
    ensures end == start + 2 * count
    ensures buf[start..end] == HexText(mem[at..at + count]) && buf[end] == '\0'
    ensures buf[..start] == old(buf[..start]) && buf[end + 1..] == old(buf[end + 1..])
  {
    end := start;
    ghost var text := HexText(mem[at..at + count]);
    for i := 0 to count
      invariant end == start + 2 * i
      invariant forall j :: 0 <= j < 2 * i ==> buf[start + j] == text[j]
      invariant forall j :: 0 <= j < start || end <= j < buf.Length ==> buf[j] == old(buf[j])
    {
      var ch := mem[at + i];
      buf[end] := HEXCHARS[ch / 16];
      buf[end + 1] := HEXCHARS[ch % 16];
      end := end + 2;
    }
    buf[end] := '\0';
  }

  method Hex2Mem(buf: array<char>, start: nat, mem: array<byte>, at: nat, count: nat)
    requires at + count <= mem.Length && start + 2 * count <= buf.Length
    modifies mem
    ensures mem[..] == Patch(old(mem[..]), at, Unhex(buf[..][start..start + 2 * count]))
  {
    ghost var text := buf[..][start..start + 2 * count];
    for i := 0 to count
      invariant forall j :: 0 <= j < i ==> mem[at + j] == Pack(text[2 * j], text[2 * j + 1])
      invariant forall j :: 0 <= j < at || at + i <= j < mem.Length ==> mem[j] == old(mem[j])
    {
      hide Pack;
      mem[at + i] := Pack(buf[start + 2 * i], buf[start + 2 * i + 1]);
    }
  }

  /** The int denoted by the digits at p, wrapped to 32 bits. */
  function Num(s: string, p: nat): int
    requires p <= |s|
  {
    Int32(HexValue(s[p..SkipHex(s, p)]))
  }

  /** Reads hex digits from p up to the first other character; value wraps like a 32-bit int. */
  method HexToInt(buf: array<char>, p: nat) returns (numChars: nat, value: int, next: nat)
    requires p < buf.Length && buf[buf.Length - 1] == '\0'
    ensures next == SkipHex(buf[..], p) && next < buf.Length
    ensures numChars == next - p
    ensures value == Num(buf[..], p)
  {
    ghost var s := buf[..];
    numChars, value, next := 0, 0, p;
    while buf[next] != '\0'
      invariant p <= next < buf.Length
      invariant numChars == next - p
      invariant AllHex(s[p..next]) && value == Int32(HexValue(s[p..next]))
      decreases buf.Length - next
    {
      var hexValue := Hex(buf[next]);
      if hexValue < 0 { break; }
      HexValueNext(s, p, next);
      value := Int32(value * 16 + hexValue);
      numChars := numChars + 1;
      next := next + 1;
    }
    SkipHexUnique(s, p, next);
  }

  lemma HexValueNext(s: string, p: nat, q: nat)
    requires p <= q < |s| && AllHex(s[p..q]) && Hex(s[q]) >= 0
    ensures AllHex(s[p..q + 1])
    ensures Int32(HexValue(s[p..q + 1])) == Int32(Int32(HexValue(s[p..q])) * 16 + Hex(s[q]))
  {
    assert s[p..q + 1][..q - p] == s[p..q];
    Int32Step(HexValue(s[p..q]), Hex(s[q]));
  }
}
