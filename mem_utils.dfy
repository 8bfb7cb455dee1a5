/**
 * The byte routines of more-exercises/advanced_concepts.c: fill, compare
 * and a hexadecimal dump. Buffers are byte arrays; the dump's stream is the
 * text it would receive.
 */
module MemoryUtils {
  import opened Common
  import Text

  /** The buffer after its first n bytes are set to c. */
  function Filled(s: seq<byte>, c: byte, n: nat): (r: seq<byte>)
    requires n <= |s|
    ensures |r| == |s|
    ensures forall i :: 0 <= i < n ==> r[i] == c
    ensures r[n..] == s[n..]
  {
    seq(n, _ => c) + s[n..]
  }

  /** upo_mem_set: write c into each of the first n bytes, one at a time. */
  method MemSet(p: array<byte>, c: byte, n: nat)
    requires n <= p.Length
    modifies p
    ensures p[..] == Filled(old(p[..]), c, n)
  {
    for i := 0 to n
      invariant p[..] == Filled(old(p[..]), c, i)
    {
      p[i] := c;
      assert p[..] == Filled(old(p[..]), c, i + 1) by {
        assert forall k :: 0 <= k < p.Length ==> p[..][k] == Filled(old(p[..]), c, i + 1)[k];
      }
    }
  }

  /** The length of the C string held in a buffer: the index of its first NUL, or the whole buffer when there is none. */
  function StrLen(s: seq<byte>): (r: nat)
    ensures r <= |s|
    ensures forall i :: 0 <= i < r ==> s[i] != 0
    ensures r < |s| ==> s[r] == 0
  {
    if s == [] || s[0] == 0 then 0 else 1 + StrLen(s[1..])
  }

  /** The first index holding NUL determines the string length. */
  lemma {:induction false} StrLenAt(s: seq<byte>, k: nat)
    requires k <= |s| && (forall i :: 0 <= i < k ==> s[i] != 0) && (k < |s| ==> s[k] == 0)
    ensures StrLen(s) == k
  {
    if s != [] && s[0] != 0 {
      StrLenAt(s[1..], k - 1);
    }
  }

  /** Overwriting the characters of a string with a non-NUL byte keeps its length. */
  lemma FillKeepsStrLen(s: seq<byte>, c: byte)
    requires c != 0
    ensures StrLen(Filled(s, c, StrLen(s))) == StrLen(s)
  {
    StrLenAt(Filled(s, c, StrLen(s)), StrLen(s));
  }

  /** Filling a non-empty buffer with NUL leaves the empty string. */
  lemma FillNulEmpties(s: seq<byte>, n: nat)
    requires 0 < n <= |s|
    ensures StrLen(Filled(s, 0, n)) == 0
  {
  }

  /** The unsigned char array of the source's test: half of it set to 127. */
  method MemSetExample() returns (r: seq<byte>)
    ensures r == [127, 127, 127, 32, 16, 8]
  {
    var a := new byte[] [255, 128, 64, 32, 16, 8];
    MemSet(a, 127, a.Length / 2);
    r := a[..];
  }

  /** The sign of a - b. */
  function Sign(a: int, b: int): (r: int)
    ensures r == 1 <==> a > b
    ensures r == -1 <==> a < b
    ensures r == 0 <==> a == b
  {
    (if a > b then 1 else 0) - (if b > a then 1 else 0)
  }

  /** What upo_mem_cmp adds up: the sign of every byte pair, not only the first that differs. */
  function SignSum(p: seq<byte>, q: seq<byte>): int
    requires |p| == |q|
  {
    if p == [] then 0 else SignSum(p[..|p| - 1], q[..|q| - 1]) + Sign(p[|p| - 1], q[|q| - 1])
  }

  /** upo_mem_cmp as written: add the sign of each of the first n byte pairs. */
  method MemCmp(p1: array<byte>, p2: array<byte>, n: nat) returns (value: int)
    requires n <= p1.Length && n <= p2.Length
    ensures value == SignSum(p1[..n], p2[..n])
  {
    value := 0;
    for i := 0 to n
      invariant value == SignSum(p1[..i], p2[..i])
    {
      value := value + Sign(p1[i], p2[i]);
      assert p1[..i + 1][..i] == p1[..i] && p2[..i + 1][..i] == p2[..i];
    }
  }

  /** Swapping the buffers negates the sum. */
  lemma {:induction false} SignSumAntisymmetric(p: seq<byte>, q: seq<byte>)
    requires |p| == |q|
    ensures SignSum(p, q) == -SignSum(q, p)
  {
    if p != [] {
      SignSumAntisymmetric(p[..|p| - 1], q[..|q| - 1]);
    }
  }

  /** Identical buffers sum to 0, and the sum is never larger than the count of bytes. */
  lemma {:induction false} SignSumBounds(p: seq<byte>, q: seq<byte>)
    requires |p| == |q|
    ensures -|p| <= SignSum(p, q) <= |p|
    ensures p == q ==> SignSum(p, q) == 0
  {
    if p != [] {
      SignSumBounds(p[..|p| - 1], q[..|q| - 1]);
    }
  }

  /**
   * What memcmp computes, and what the library's tests compare upo_mem_cmp
   * against: the sign of the first byte pair that differs, 0 when none do.
   */
  function FirstDifference(p: seq<byte>, q: seq<byte>): (r: int)
    requires |p| == |q|
    ensures -1 <= r <= 1
    ensures r == 0 <==> p == q
  {
    if p == [] then 0
    else if p[0] != q[0] then Sign(p[0], q[0])
    else
      var r := FirstDifference(p[1..], q[1..]);
      assert r == 0 ==> p == [p[0]] + p[1..] == [q[0]] + q[1..] == q;
      r
  }

  /** The intended comparison stops at the first difference: it is the sign there, whatever follows. */
  lemma {:induction false} FirstDifferenceAt(p: seq<byte>, q: seq<byte>, k: nat)
    requires |p| == |q| && k < |p| && p[..k] == q[..k] && p[k] != q[k]
    ensures FirstDifference(p, q) == Sign(p[k], q[k])
  {
    if k > 0 {
      assert p[0] == p[..k][0];
      assert p[1..][..k - 1] == p[..k][1..] && q[1..][..k - 1] == q[..k][1..];
      FirstDifferenceAt(p[1..], q[1..], k - 1);
    }
  }

  /** The corrected comparison: walk the bytes until the first pair that differs and return its sign. */
  method MemCmpFirstDifference(p1: array<byte>, p2: array<byte>, n: nat) returns (value: int)
    requires n <= p1.Length && n <= p2.Length
    ensures value == FirstDifference(p1[..n], p2[..n])
  {
    for i := 0 to n
      invariant p1[..i] == p2[..i]
    {
      if p1[i] != p2[i] {
        assert p1[..n][..i] == p1[..i] && p2[..n][..i] == p2[..i];
        FirstDifferenceAt(p1[..n], p2[..n], i);
        return Sign(p1[i], p2[i]);
      }
      assert p1[..i + 1] == p1[..i] + [p1[i]] && p2[..i + 1] == p2[..i] + [p2[i]];
    }
    return 0;
  }

  /** The sum disagrees with memcmp: [1, 0, 0] is above [0, 1, 1], yet the sum says below. */
  lemma SignSumMisordered()
    ensures FirstDifference([1, 0, 0], [0, 1, 1]) == 1
    ensures SignSum([1, 0, 0], [0, 1, 1]) == -1
  {
    var p: seq<byte>, q: seq<byte> := [1, 0, 0], [0, 1, 1];
    assert p[..2] == [1, 0] && p[..2][..1] == [1] && [1][..0] == [];
    assert q[..2] == [0, 1] && q[..2][..1] == [0] && [0][..0] == [];
  }

  /** The two comparisons agree on the library's own test of "Ciao" against itself. */
  lemma CiaoExample(s: seq<byte>)
    requires s == [67, 105, 97, 111]
    ensures SignSum(s, s) == FirstDifference(s, s) == 0
  {
    SignSumBounds(s, s);
  }

  /** One hexadecimal digit, upper case. */
  function HexDigit(d: nat): (r: char)
    requires d < 16
    ensures '0' <= r <= '9' || 'A' <= r <= 'F'
  {
    "0123456789ABCDEF"[d]
  }

  /** The value of a hexadecimal digit. */
  function DigitValue(c: char): nat
  {
    if '0' <= c <= '9' then c as nat - '0' as nat
    else if 'A' <= c <= 'F' then c as nat - 'A' as nat + 10
    else 0
  }

  /** printf's %X of a byte: upper case, no leading zeros, so one digit below 16 and two from 16 on. */
  function HexByte(b: byte): (r: string)
    ensures |r| == (if b < 16 then 1 else 2)
    ensures r[0] != '0' || b == 0
  {
    if b < 16 then [HexDigit(b)] else [HexDigit(b / 16), HexDigit(b % 16)]
  }

  /** Reading the digits back. */
  function ParseHex(s: string): nat
  {
    if s == [] then 0 else ParseHex(s[..|s| - 1]) * 16 + DigitValue(s[|s| - 1])
  }

  /** Every digit reads back as the value it was written for. */
  lemma HexDigitValue(d: nat)
    requires d < 16
    ensures DigitValue(HexDigit(d)) == d
  {
  }

  /** The text written for a byte reads back as that byte. */
  lemma HexByteRoundTrip(b: byte)
    ensures ParseHex(HexByte(b)) == b
  {
    var r := HexByte(b);
    if b < 16 {
      HexDigitValue(b);
      assert r[..0] == [];
    } else {
      HexDigitValue(b / 16);
      HexDigitValue(b % 16);
      assert r[..1] == [HexDigit(b / 16)] && r[..1][..0] == [];
      assert ParseHex(r[..1]) == b / 16;
      assert ParseHex(r) == ParseHex(r[..1]) * 16 + DigitValue(r[1]);
    }
  }

  /** The tokens the dump writes, one per byte. */
  function HexTokens(bytes: seq<byte>): (r: seq<string>)
    ensures |r| == |bytes| && forall i :: 0 <= i < |bytes| ==> r[i] == HexByte(bytes[i])
  {
    seq(|bytes|, i requires 0 <= i < |bytes| => HexByte(bytes[i]))
  }

  /** upo_hex_fprint: each byte in hexadecimal, a space after every byte but the last, then a newline. */
  method HexFprint(p: array<byte>, n: nat) returns (out: string)
    requires n <= p.Length
    ensures out == Text.Join(HexTokens(p[..n]), " ") + "\n"
  {
    ghost var tokens := HexTokens(p[..n]);
    out := [];
    for i := 0 to n
      invariant out == Text.Written(tokens, " ", i)
    {
      Text.WrittenStep(tokens, " ", i);
      out := out + HexByte(p[i]);
      if i < n - 1 {
        out := out + " ";
      }
    }
    Text.WrittenAll(tokens, " ");
    out := out + "\n";
  }

  /** The last test of the source: the bytes 255, 128, 64, 32, 16 are written "FF 80 40 20 10". */
  method HexExample() returns (out: string)
    ensures out == "FF 80 40 20 10\n"
  {
    var a := new byte[] [255, 128, 64, 32, 16];
    out := HexFprint(a, 5);
    assert a[..5] == a[..];
    HexExampleTokens(a[..]);
    HexExampleJoin(HexTokens(a[..]));
  }

  /** The hex tokens of the last test's bytes. */
  lemma HexExampleTokens(bytes: seq<byte>)
    requires bytes == [255, 128, 64, 32, 16]
    ensures HexTokens(bytes) == ["FF", "80", "40", "20", "10"]
  {
    var t := HexTokens(bytes);
    assert t[0] == "FF" && t[1] == "80" && t[2] == "40";
    assert t[3] == "20" && t[4] == "10";
  }

  /** The tokens of the last test joined by spaces. */
  lemma HexExampleJoin(t: seq<string>)
    requires t == ["FF", "80", "40", "20", "10"]
    ensures Text.Join(t, " ") == "FF 80 40 20 10"
  {
    assert t[4..] == ["10"];
    Text.JoinFrom(t, " ", 3, "10");
    assert "20" + " " + "10" == "20 10";
    Text.JoinFrom(t, " ", 2, "20 10");
    assert "40" + " " + "20 10" == "40 20 10";
    Text.JoinFrom(t, " ", 1, "40 20 10");
    assert "80" + " " + "40 20 10" == "80 40 20 10";
    Text.JoinFrom(t, " ", 0, "80 40 20 10");
    assert "FF" + " " + "80 40 20 10" == "FF 80 40 20 10";
    assert t[0..] == t;
  }

  /** The hex tokens of the second half of "GNU is Not Unix" with its NUL. */
  lemma HexNulTokens(bytes: seq<byte>)
    requires bytes == [111, 116, 32, 85, 110, 105, 120, 0]
    ensures HexTokens(bytes) == ["6F", "74", "20", "55", "6E", "69", "78", "0"]
  {
    var t := HexTokens(bytes);
    assert t[0] == "6F" && t[1] == "74" && t[2] == "20" && t[3] == "55";
    assert t[4] == "6E" && t[5] == "69" && t[6] == "78" && t[7] == "0";
  }

  /** Those tokens joined by spaces. */
  lemma HexNulJoin(t: seq<string>)
    requires t == ["6F", "74", "20", "55", "6E", "69", "78", "0"]
    ensures Text.Join(t, " ") == "6F 74 20 55 6E 69 78 0"
  {
    HexNulJoinMiddle(t);
    Text.JoinFrom(t, " ", 0, "74 20 55 6E 69 78 0");
    assert "6F" + " " + "74 20 55 6E 69 78 0" == "6F 74 20 55 6E 69 78 0";
    assert t[0..] == t;
  }

  lemma HexNulJoinMiddle(t: seq<string>)
    requires t == ["6F", "74", "20", "55", "6E", "69", "78", "0"]
    ensures Text.Join(t[1..], " ") == "74 20 55 6E 69 78 0"
  {
    HexNulJoinTail(t);
    Text.JoinFrom(t, " ", 2, "55 6E 69 78 0");
    assert "20" + " " + "55 6E 69 78 0" == "20 55 6E 69 78 0";
    Text.JoinFrom(t, " ", 1, "20 55 6E 69 78 0");
    assert "74" + " " + "20 55 6E 69 78 0" == "74 20 55 6E 69 78 0";
  }

  lemma HexNulJoinTail(t: seq<string>)
    requires t == ["6F", "74", "20", "55", "6E", "69", "78", "0"]
    ensures Text.Join(t[3..], " ") == "55 6E 69 78 0"
  {
    assert t[7..] == ["0"];
    Text.JoinFrom(t, " ", 6, "0");
    assert "78" + " " + "0" == "78 0";
    Text.JoinFrom(t, " ", 5, "78 0");
    assert "69" + " " + "78 0" == "69 78 0";
    Text.JoinFrom(t, " ", 4, "69 78 0");
    assert "6E" + " " + "69 78 0" == "6E 69 78 0";
    Text.JoinFrom(t, " ", 3, "6E 69 78 0");
    assert "55" + " " + "6E 69 78 0" == "55 6E 69 78 0";
  }

  /** The second half of "GNU is Not Unix" with its NUL: the NUL is written as a bare "0". */
  method HexNulExample() returns (out: string)
    ensures out == "6F 74 20 55 6E 69 78 0\n"
  {
    var a := new byte[] [111, 116, 32, 85, 110, 105, 120, 0];
    out := HexFprint(a, 8);
    assert a[..8] == a[..];
    HexNulTokens(a[..]);
    HexNulJoin(HexTokens(a[..]));
  }
}
