/** Bytes and the little-endian 32-bit encoding used by BinaryReader and BinaryWriter. */
module Bytes {

  type byte = x: int | 0 <= x < 0x100

  /** An unsigned 32-bit value (`uint`). */
  type u32 = x: int | 0 <= x < 0x1_0000_0000

  /** A signed 32-bit value (`int`). */
  type i32 = x: int | -0x8000_0000 <= x < 0x8000_0000

  /** The bit pattern of a signed value (two's complement), as `(uint)v` gives it. */
  function AsUnsigned(v: i32): (u: u32)
    ensures AsSigned(u) == v
  {
    if v < 0 then v + 0x1_0000_0000 else v
  }

  /** The signed value of a bit pattern, as `(int)u` gives it. */
  function AsSigned(u: u32): (v: i32)
    ensures v % 0x1_0000_0000 == u
    ensures v < 0 <==> u >= 0x8000_0000
  {
    if u < 0x8000_0000 then u else u - 0x1_0000_0000
  }

  /** `(uint)(int)u` is `u` again: the two casts are inverse in both directions. */
  lemma SignedRoundTrip(u: u32)
    ensures AsUnsigned(AsSigned(u)) == u
  {
  }

  /** The result of unchecked 32-bit `int` arithmetic whose exact value is `x`. */
  function Wrap32(x: int): (v: i32)
    ensures -0x8000_0000 <= x < 0x8000_0000 ==> v == x
    ensures (v - x) % 0x1_0000_0000 == 0
  {
    AsSigned(x % 0x1_0000_0000)
  }

  /** The four bytes `BinaryWriter.Write(uint)` emits, least significant first. */
  function LeU32(v: u32): (r: seq<byte>)
    ensures |r| == 4
  {
    [v % 0x100, v / 0x100 % 0x100, v / 0x100 / 0x100 % 0x100, v / 0x100 / 0x100 / 0x100]
  }

  /** The four bytes `BinaryWriter.Write(int)` emits. */
  function LeI32(v: i32): (r: seq<byte>)
    ensures |r| == 4
  {
    LeU32(AsUnsigned(v))
  }

  /** The value `BinaryReader.ReadUInt32` returns when positioned at `i`. */
  function U32At(s: seq<byte>, i: nat): u32
    requires i + 4 <= |s|
  {
    (s[i] as int) + 0x100 * ((s[i + 1] as int) + 0x100 * ((s[i + 2] as int) + 0x100 * (s[i + 3] as int)))
  }

  /** The value `BinaryReader.ReadInt32` returns when positioned at `i`. */
  function I32At(s: seq<byte>, i: nat): i32
    requires i + 4 <= |s|
  {
    AsSigned(U32At(s, i))
  }

  /** Reading back what was written gives the value written. */
  lemma LeU32RoundTrip(v: u32)
    ensures U32At(LeU32(v), 0) == v
  {
    var a := v / 0x100;
    var b := a / 0x100;
    assert v == v % 0x100 + 0x100 * a;
    assert a == a % 0x100 + 0x100 * b;
    assert b == b % 0x100 + 0x100 * (b / 0x100);
  }

  lemma LeI32RoundTrip(v: i32)
    ensures I32At(LeI32(v), 0) == v
  {
    LeU32RoundTrip(AsUnsigned(v));
  }

  /** Writing back what was read gives the bytes read. */
  lemma U32AtEncodes(s: seq<byte>, i: nat)
    requires i + 4 <= |s|
    ensures LeU32(U32At(s, i)) == s[i..i + 4]
  {
    var c: int := s[i + 2] as int + 0x100 * (s[i + 3] as int);
    var b: int := s[i + 1] as int + 0x100 * c;
    var v: int := s[i] as int + 0x100 * b;
    assert v / 0x100 == b && v % 0x100 == s[i];
    assert b / 0x100 == c && b % 0x100 == s[i + 1];
    assert c / 0x100 == s[i + 3] && c % 0x100 == s[i + 2];
  }

  /** A read only looks at the four bytes it reads. */
  lemma U32AtSlice(s: seq<byte>, i: nat, t: seq<byte>, j: nat)
    requires i + 4 <= |s| && j + 4 <= |t|
    requires s[i..i + 4] == t[j..j + 4]
    ensures U32At(s, i) == U32At(t, j)
  {
    assert s[i] == s[i..i + 4][0] == t[j..j + 4][0] == t[j];
    assert s[i + 1] == s[i..i + 4][1] == t[j..j + 4][1] == t[j + 1];
    assert s[i + 2] == s[i..i + 4][2] == t[j..j + 4][2] == t[j + 2];
    assert s[i + 3] == s[i..i + 4][3] == t[j..j + 4][3] == t[j + 3];
  }

  /** Reading a value that sits at offset `i` in a buffer gives that value. */
  lemma U32AtWritten(s: seq<byte>, i: nat, v: u32)
    requires i + 4 <= |s| && s[i..i + 4] == LeU32(v)
    ensures U32At(s, i) == v
  {
    LeU32RoundTrip(v);
    U32AtSlice(s, i, LeU32(v), 0);
  }

  /** A slice of a slice is a slice. */
  lemma SubSlice<T>(s: seq<T>, i: nat, j: nat, a: nat, b: nat)
    requires i <= j <= |s| && a <= b <= j - i
    ensures s[i..j][a..b] == s[i + a..i + b]
  {
    assert |s[i..j][a..b]| == b - a == |s[i + a..i + b]|;
    forall k | 0 <= k < b - a ensures s[i..j][a..b][k] == s[i + a..i + b][k] {
    }
  }

  /** Seven-bit ASCII characters, the only ones whose UTF-8 form is one byte. */
  predicate IsAscii(c: char) {
    c as int < 0x80
  }

  predicate AsciiBytes(s: seq<byte>) {
    forall k | 0 <= k < |s| :: s[k] < 0x80
  }

  /** The bytes `BinaryWriter.Write(char[])` emits for ASCII characters. */
  function AsciiEncode(cs: seq<char>): (r: seq<byte>)
    requires forall k | 0 <= k < |cs| :: IsAscii(cs[k])
    ensures |r| == |cs|
    ensures forall k | 0 <= k < |cs| :: r[k] == cs[k] as int
  {
    if cs == [] then [] else assert IsAscii(cs[0]); var b: byte := cs[0] as int; [b] + AsciiEncode(cs[1..])
  }

  /** The characters `BinaryReader.ReadChars` returns for ASCII bytes. */
  function AsciiDecode(s: seq<byte>): (r: seq<char>)
    requires AsciiBytes(s)
    ensures |r| == |s|
    ensures forall k | 0 <= k < |s| :: r[k] as int == s[k] && IsAscii(r[k])
  {
    if s == [] then [] else [s[0] as char] + AsciiDecode(s[1..])
  }

  lemma AsciiRoundTrip(cs: seq<char>)
    requires forall k | 0 <= k < |cs| :: IsAscii(cs[k])
    ensures AsciiBytes(AsciiEncode(cs)) && AsciiDecode(AsciiEncode(cs)) == cs
  {
  }

  lemma AsciiEncodeDecode(s: seq<byte>)
    requires AsciiBytes(s)
    ensures AsciiEncode(AsciiDecode(s)) == s
  {
  }

  /** `n` zero bytes, as a freshly allocated `byte[]` holds. */
  function Zeros(n: nat): (r: seq<byte>)
    ensures |r| == n && forall k | 0 <= k < n :: r[k] == 0
  {
    seq(n, _ => 0)
  }
}
