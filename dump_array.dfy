/**
 * The array printer of intro-exercises/cptrs-ex03-dump_array/dump_array.c.
 * The stream is the text written to it, and the element printer is a
 * function from an element to its text.
 */
module DumpArray {
  import Text

  /** The digit character for 0 to 9. */
  function Digit(d: nat): (r: char)
    requires d < 10
    ensures '0' <= r <= '9' && r as int - '0' as int == d
  {
    (d + '0' as int) as char
  }

  /** printf's %d of a natural number: decimal digits, no leading zeros. */
  function Decimal(n: nat): (r: string)
    ensures r != [] && forall i :: 0 <= i < |r| ==> '0' <= r[i] <= '9'
    ensures r[0] == '0' ==> n == 0
  {
    if n < 10 then [Digit(n)] else Decimal(n / 10) + [Digit(n % 10)]
  }

  /** printf's %d: a minus sign before the digits of a negative value. */
  function DumpInt(n: int): (r: string)
    ensures r != []
  {
    if n < 0 then "-" + Decimal(-n) else Decimal(n)
  }

  /** dump_string: the string itself. */
  function DumpString(s: string): string
  {
    s
  }

  /** Reading decimal digits back. */
  function ParseDecimal(s: string): nat
  {
    if s == [] then 0 else ParseDecimal(s[..|s| - 1]) * 10 + (if '0' <= s[|s| - 1] <= '9' then s[|s| - 1] as int - '0' as int else 0)
  }

  /** Reading back what %d wrote, sign included. */
  function ParseInt(s: string): int
  {
    if s != [] && s[0] == '-' then -(ParseDecimal(s[1..]) as int) else ParseDecimal(s)
  }

  /** The digits written for n read back as n. */
  lemma {:induction false} DecimalRoundTrip(n: nat)
    ensures ParseDecimal(Decimal(n)) == n
  {
    var r := Decimal(n);
    if n < 10 {
      assert r[..0] == [];
    } else {
      DecimalRoundTrip(n / 10);
      assert r[..|r| - 1] == Decimal(n / 10);
    }
  }

  /** The text written for any int reads back as that int. */
  lemma DumpIntRoundTrip(n: int)
    ensures ParseInt(DumpInt(n)) == n
  {
    if n < 0 {
      DecimalRoundTrip(-n);
      assert ("-" + Decimal(-n))[1..] == Decimal(-n);
    } else {
      DecimalRoundTrip(n);
    }
  }

  /** The element texts, in index order. */
  function Rendered<T>(s: seq<T>, dumpElement: T -> string): (r: seq<string>)
    ensures |r| == |s| && forall i :: 0 <= i < |s| ==> r[i] == dumpElement(s[i])
  {
    seq(|s|, i requires 0 <= i < |s| => dumpElement(s[i]))
  }

  /**
   * dump_array: "[", then each element as `dumpElement` writes it with ", "
   * after every element but the last, then "]".
   */
  method Dump<T>(a: array<T>, dumpElement: T -> string) returns (out: string)
    ensures out == "[" + Text.Join(Rendered(a[..], dumpElement), ", ") + "]"
  {
    ghost var parts := Rendered(a[..], dumpElement);
    out := "[";
    var body := [];
    for i := 0 to a.Length
      invariant body == Text.Written(parts, ", ", i)
    {
      Text.WrittenStep(parts, ", ", i);
      body := body + dumpElement(a[i]);
      if i < a.Length - 1 {
        body := body + ", ";
      }
    }
    Text.WrittenAll(parts, ", ");
    out := out + body + "]";
  }

  /** An empty array is written "[]". */
  lemma DumpEmpty<T>(s: seq<T>, dumpElement: T -> string)
    requires s == []
    ensures "[" + Text.Join(Rendered(s, dumpElement), ", ") + "]" == "[]"
  {
  }

  /** A one-element array is written with no separator. */
  lemma DumpSingle<T>(x: T, dumpElement: T -> string)
    ensures "[" + Text.Join(Rendered([x], dumpElement), ", ") + "]" == "[" + dumpElement(x) + "]"
  {
  }

  /** The strings of the source's driver joined by ", ". */
  lemma JoinStrings(t: seq<string>)
    requires t == ["e01", "e02", "e03", "e04", "e05", "e06"]
    ensures Text.Join(t, ", ") == "e01, e02, e03, e04, e05, e06"
  {
    JoinLastFour(t);
    assert "e03" + ", " + ("e04" + ", " + ("e05" + ", " + "e06")) == "e03, e04, e05, e06";
    Text.JoinFrom(t, ", ", 1, "e03, e04, e05, e06");
    StringsSecond();
    Text.JoinFrom(t, ", ", 0, "e02, e03, e04, e05, e06");
    StringsFirst();
    assert t[0..] == t;
  }

  /** The last two steps of the join of the driver's strings, spelt out. */
  lemma StringsSecond()
    ensures "e02" + ", " + "e03, e04, e05, e06" == "e02, e03, e04, e05, e06"
  {
  }

  lemma StringsFirst()
    ensures "e01" + ", " + "e02, e03, e04, e05, e06" == "e01, e02, e03, e04, e05, e06"
  {
  }

  /** The join of the last four of six texts, spelt out one separator at a time. */
  lemma JoinLastFour(t: seq<string>)
    requires |t| == 6
    ensures Text.Join(t[2..], ", ") == t[2] + ", " + (t[3] + ", " + (t[4] + ", " + t[5]))
  {
    assert t[5..] == [t[5]];
    Text.JoinFrom(t, ", ", 4, t[5]);
    Text.JoinFrom(t, ", ", 3, t[4] + ", " + t[5]);
    Text.JoinFrom(t, ", ", 2, t[3] + ", " + (t[4] + ", " + t[5]));
  }

  /** The strings of the source's driver are written "[e01, e02, e03, e04, e05, e06]". */
  lemma StringsExample(s: seq<string>)
    requires s == ["e01", "e02", "e03", "e04", "e05", "e06"]
    ensures "[" + Text.Join(Rendered(s, DumpString), ", ") + "]" == "[e01, e02, e03, e04, e05, e06]"
  {
    var t := Rendered(s, DumpString);
    assert t == s;
    JoinStrings(t);
    Bracketed(Text.Join(t, ", "));
  }

  lemma Bracketed(j: string)
    requires j == "e01, e02, e03, e04, e05, e06"
    ensures "[" + j + "]" == "[e01, e02, e03, e04, e05, e06]"
  {
  }

  /** The decimal texts of the source driver's ints. */
  lemma IntsRendered(s: seq<int>)
    requires s == [1, 20, 25, 32, 76, 123]
    ensures Rendered(s, DumpInt) == ["1", "20", "25", "32", "76", "123"]
  {
    var t := Rendered(s, DumpInt);
    assert t[0] == "1" && t[1] == "20" && t[2] == "25";
    assert t[3] == "32" && t[4] == "76";
    assert Decimal(12) == "12";
    assert t[5] == "123";
  }

  /** Those texts joined by ", ". */
  lemma JoinInts(t: seq<string>)
    requires t == ["1", "20", "25", "32", "76", "123"]
    ensures Text.Join(t, ", ") == "1, 20, 25, 32, 76, 123"
  {
    JoinLastFour(t);
    assert "25" + ", " + ("32" + ", " + ("76" + ", " + "123")) == "25, 32, 76, 123";
    Text.JoinFrom(t, ", ", 1, "25, 32, 76, 123");
    IntsSecond();
    Text.JoinFrom(t, ", ", 0, "20, 25, 32, 76, 123");
    IntsFirst();
    assert t[0..] == t;
  }

  /** The last two steps of the join of the driver's ints, spelt out. */
  lemma IntsSecond()
    ensures "20" + ", " + "25, 32, 76, 123" == "20, 25, 32, 76, 123"
  {
  }

  lemma IntsFirst()
    ensures "1" + ", " + "20, 25, 32, 76, 123" == "1, 20, 25, 32, 76, 123"
  {
  }

  /** The ints of the source's driver are written "[1, 20, 25, 32, 76, 123]". */
  lemma IntsExample(s: seq<int>)
    requires s == [1, 20, 25, 32, 76, 123]
    ensures "[" + Text.Join(Rendered(s, DumpInt), ", ") + "]" == "[1, 20, 25, 32, 76, 123]"
  {
    IntsRendered(s);
    JoinInts(Rendered(s, DumpInt));
    IntsBracketed(Text.Join(Rendered(s, DumpInt), ", "));
  }

  lemma IntsBracketed(j: string)
    requires j == "1, 20, 25, 32, 76, 123"
    ensures "[" + j + "]" == "[1, 20, 25, 32, 76, 123]"
  {
  }
}
