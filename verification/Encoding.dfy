/** UTF-8 as `str.encode()` produces it. Its byte order is the code-point order of the text,
    so sorting by encoded locator (tools/run_full_repair_qualification.py:259) and sorting the
    locators themselves agree. */
module Encoding {
  import opened Prelude
  import opened Sorting

  function EncodeChar(c: char): (r: Bytes)
    ensures r != []
  {
    var n := c as int;
    if n < 0x80 then [n as byte]
    else if n < 0x800 then [(0xC0 + n / 64) as byte, (0x80 + n % 64) as byte]
    else if n < 0x1_0000 then
      [(0xE0 + n / 4096) as byte, (0x80 + n / 64 % 64) as byte, (0x80 + n % 64) as byte]
    else
      [(0xF0 + n / 262144) as byte, (0x80 + n / 4096 % 64) as byte, (0x80 + n / 64 % 64) as byte,
        (0x80 + n % 64) as byte]
  }

  function Encode(text: string): (r: Bytes)
    ensures r == [] <==> text == []
  {
    if text == [] then [] else EncodeChar(text[0]) + Encode(text[1..])
  }

  predicate BytesLess(a: Bytes, b: Bytes)
    decreases |a|
  {
    b != [] && (a == [] || a[0] < b[0] || (a[0] == b[0] && BytesLess(a[1..], b[1..])))
  }

  /** The first position at which two strings differ decides. */
  lemma {:induction false} FirstDifferenceDecides(a: Bytes, b: Bytes, k: nat)
    requires k < |a| && k < |b| && a[..k] == b[..k] && a[k] < b[k]
    ensures BytesLess(a, b) && !BytesLess(b, a)
    decreases k
  {
    if k > 0 {
      assert a[0] == a[..k][0] == b[..k][0] == b[0];
      assert a[1..][..k - 1] == a[..k][1..] == b[..k][1..] == b[1..][..k - 1];
      FirstDifferenceDecides(a[1..], b[1..], k - 1);
    }
  }

  /** How many bytes a character takes; a wider class starts with a larger byte. */
  function Width(c: char): nat {
    var n := c as int;
    if n < 0x80 then 1 else if n < 0x800 then 2 else if n < 0x1_0000 then 3 else 4
  }

  lemma LeadByte(c: char)
    ensures |EncodeChar(c)| == Width(c)
    ensures Width(c) == 1 ==> EncodeChar(c)[0] < 0x80
    ensures Width(c) == 2 ==> 0xC0 <= EncodeChar(c)[0] < 0xE0
    ensures Width(c) == 3 ==> 0xE0 <= EncodeChar(c)[0] < 0xF0
    ensures Width(c) == 4 ==> 0xF0 <= EncodeChar(c)[0]
  {
  }

  lemma DigitsDecide(m: nat, n: nat)
    requires m < n
    ensures m / 64 < n / 64 || (m / 64 == n / 64 && m % 64 < n % 64)
  {
  }

  lemma QuotientsNest(n: nat)
    ensures n / 64 / 64 == n / 4096 && n / 4096 / 64 == n / 262144
  {
  }

  predicate DiffersAt(c: char, d: char, k: nat) {
    && k < |EncodeChar(c)| && k < |EncodeChar(d)|
    && EncodeChar(c)[..k] == EncodeChar(d)[..k] && EncodeChar(c)[k] < EncodeChar(d)[k]
  }

  lemma TwoByteChars(c: char, d: char) returns (k: nat)
    requires c < d && Width(c) == Width(d) == 2
    ensures DiffersAt(c, d, k)
  {
    var m, n := c as int, d as int;
    DigitsDecide(m, n);
    k := if m / 64 == n / 64 then 1 else 0;
  }

  lemma ThreeByteChars(c: char, d: char) returns (k: nat)
    requires c < d && Width(c) == Width(d) == 3
    ensures DiffersAt(c, d, k)
  {
    var m, n := c as int, d as int;
    QuotientsNest(m);
    QuotientsNest(n);
    DigitsDecide(m, n);
    if m / 64 < n / 64 {
      DigitsDecide(m / 64, n / 64);
    }
    k := if m / 64 == n / 64 then 2 else if m / 4096 == n / 4096 then 1 else 0;
  }

  lemma FourByteChars(c: char, d: char) returns (k: nat)
    requires c < d && Width(c) == Width(d) == 4
    ensures DiffersAt(c, d, k)
  {
    var m, n := c as int, d as int;
    QuotientsNest(m);
    QuotientsNest(n);
    DigitsDecide(m, n);
    if m / 64 < n / 64 {
      DigitsDecide(m / 64, n / 64);
      if m / 4096 < n / 4096 {
        DigitsDecide(m / 4096, n / 4096);
      }
    }
    k := if m / 64 == n / 64 then 3 else if m / 4096 == n / 4096 then 2 else if m / 262144 == n / 262144 then 1 else 0;
  }

  /** Where the encodings of two characters first differ. */
  lemma CharsDiffer(c: char, d: char) returns (k: nat)
    requires c < d
    ensures DiffersAt(c, d, k)
  {
    LeadByte(c);
    LeadByte(d);
    k := 0;
    if Width(c) == Width(d) {
      match Width(c) {
        case 2 => k := TwoByteChars(c, d);
        case 3 => k := ThreeByteChars(c, d);
        case 4 => k := FourByteChars(c, d);
        case _ =>
      }
    }
  }

  /** A smaller code point has a smaller encoding, whatever follows either. */
  lemma SmallerCharFirst(c: char, d: char, s: Bytes, t: Bytes)
    requires c < d
    ensures BytesLess(EncodeChar(c) + s, EncodeChar(d) + t) && !BytesLess(EncodeChar(d) + t, EncodeChar(c) + s)
  {
    var k := CharsDiffer(c, d);
    assert (EncodeChar(c) + s)[..k] == EncodeChar(c)[..k];
    assert (EncodeChar(d) + t)[..k] == EncodeChar(d)[..k];
    FirstDifferenceDecides(EncodeChar(c) + s, EncodeChar(d) + t, k);
  }

  lemma {:induction false} CommonPrefix(p: Bytes, a: Bytes, b: Bytes)
    ensures BytesLess(p + a, p + b) <==> BytesLess(a, b)
    decreases |p|
  {
    if p == [] {
      assert p + a == a && p + b == b;
    } else {
      assert (p + a)[1..] == p[1..] + a && (p + b)[1..] == p[1..] + b;
      CommonPrefix(p[1..], a, b);
    }
  }

  /** Byte order of the encodings is code-point order of the texts. */
  lemma {:induction false} EncodePreservesOrder(a: string, b: string)
    ensures BytesLess(Encode(a), Encode(b)) <==> LexLess(a, b)
    decreases |a|
  {
    if a != [] && b != [] {
      if a[0] == b[0] {
        CommonPrefix(EncodeChar(a[0]), Encode(a[1..]), Encode(b[1..]));
        EncodePreservesOrder(a[1..], b[1..]);
      } else if a[0] < b[0] {
        SmallerCharFirst(a[0], b[0], Encode(a[1..]), Encode(b[1..]));
      } else {
        SmallerCharFirst(b[0], a[0], Encode(b[1..]), Encode(a[1..]));
      }
    }
  }

  /** Different texts have different encodings. */
  lemma EncodeInjective(a: string, b: string)
    requires Encode(a) == Encode(b)
    ensures a == b
  {
    EncodePreservesOrder(a, b);
    EncodePreservesOrder(b, a);
    EncodePreservesOrder(a, a);
    LexIrreflexive(a);
    LexTotal(a, b);
  }
}
