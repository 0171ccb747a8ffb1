/** The UTF-8 encoding of text (RFC 3629, section 3): Go's len counts its bytes, and Go's order on
    strings, which compares bytes, is the order on characters. */
module Utf8 {
  import opened GoStrings
  import opened Ordering

  // ----- The encoding -----

  function Encode(c: char): seq<int> {
    var n := c as int;
    if n < 0x80 then [n]
    else if n < 0x800 then [0xC0 + n / 0x40, 0x80 + n % 0x40]
    else if n < 0x10000 then [0xE0 + n / 0x1000, 0x80 + n / 0x40 % 0x40, 0x80 + n % 0x40]
    else [0xF0 + n / 0x40000, 0x80 + n / 0x1000 % 0x40, 0x80 + n / 0x40 % 0x40, 0x80 + n % 0x40]
  }

  function Bytes(s: string): seq<int> {
    if s == [] then [] else Encode(s[0]) + Bytes(s[1..])
  }

  // The code of the character whose encoding b is.
  function Decode(b: seq<int>): int
    requires 1 <= |b| <= 4
  {
    if |b| == 1 then b[0]
    else if |b| == 2 then (b[0] - 0xC0) * 0x40 + (b[1] - 0x80)
    else if |b| == 3 then (b[0] - 0xE0) * 0x1000 + (b[1] - 0x80) * 0x40 + (b[2] - 0x80)
    else (b[0] - 0xF0) * 0x40000 + (b[1] - 0x80) * 0x1000 + (b[2] - 0x80) * 0x40 + (b[3] - 0x80)
  }

  lemma EncodeLength(c: char)
    ensures |Encode(c)| == RuneLen(c)
  {
  }

  lemma Digits(n: nat)
    ensures n == n / 0x40 * 0x40 + n % 0x40
    ensures n / 0x40 == n / 0x1000 * 0x40 + n / 0x40 % 0x40
    ensures n / 0x1000 == n / 0x40000 * 0x40 + n / 0x1000 % 0x40
  {
  }

  // Decoding gives the character back, so the encoding has the right bytes.
  lemma DecodeEncode(c: char)
    ensures Decode(Encode(c)) == c as int
  {
    Digits(c as int);
  }

  // Every byte is one, and those after the first are continuation bytes.
  lemma EncodeBytes(c: char)
    ensures forall i :: 0 <= i < |Encode(c)| ==> 0 <= Encode(c)[i] < 0x100
    ensures forall i :: 1 <= i < |Encode(c)| ==> 0x80 <= Encode(c)[i] < 0xC0
  {
  }

  // Go's len of a string is the number of its bytes.
  lemma {:induction false} LenIsBytes(s: string)
    ensures |Bytes(s)| == Len(s)
  {
    if s != [] {
      EncodeLength(s[0]);
      LenIsBytes(s[1..]);
    }
  }

  // ----- The order -----

  // The lexicographic order on bytes.
  ghost predicate BytesLess(a: seq<int>, b: seq<int>) {
    exists k: nat :: k <= |a| && k <= |b| && a[..k] == b[..k] &&
      ((k == |a| && k < |b|) || (k < |a| && k < |b| && a[k] < b[k]))
  }

  // A smaller character has a smaller byte where the encodings first differ.
  lemma EncodeOrder(c: char, d: char) returns (k: nat)
    requires c < d
    ensures k < |Encode(c)| && k < |Encode(d)|
    ensures Encode(c)[..k] == Encode(d)[..k] && Encode(c)[k] < Encode(d)[k]
  {
    var e, f := Encode(c), Encode(d);
    if e[0] < f[0] {
      k := 0;
    } else {
      SameLead(c, d);
      k := if e[1] < f[1] then 1 else if e[2] < f[2] then 2 else 3;
    }
  }

  // Characters with the same lead byte have encodings of the same length.
  lemma SameLead(c: char, d: char)
    requires c < d && Encode(c)[0] >= Encode(d)[0]
    ensures var e, f := Encode(c), Encode(d);
            && e[0] == f[0] && |e| == |f| > 1 && e[1] <= f[1]
            && (e[1] == f[1] ==> |e| > 2 && e[2] <= f[2] && (e[2] == f[2] ==> |e| > 3 && e[3] < f[3]))
  {
    DecodeEncode(c);
    DecodeEncode(d);
    EncodeBytes(c);
    EncodeBytes(d);
  }

  lemma PrefixedBytes(x: seq<int>, a: seq<int>, b: seq<int>)
    ensures BytesLess(x + a, x + b) <==> BytesLess(a, b)
  {
    var p, q := x + a, x + b;
    forall k: nat | k <= |a| && k <= |b| && a[..k] == b[..k]
      ensures p[..|x| + k] == q[..|x| + k]
    {
      assert p[..|x| + k] == x + a[..k] && q[..|x| + k] == x + b[..k];
    }
    forall k: nat | k <= |p| && k <= |q| && p[..k] == q[..k] && k >= |x|
      ensures a[..k - |x|] == b[..k - |x|]
    {
      assert a[..k - |x|] == p[..k][|x|..] && b[..k - |x|] == q[..k][|x|..];
    }
    if BytesLess(a, b) {
      var k: nat :| k <= |a| && k <= |b| && a[..k] == b[..k] &&
        ((k == |a| && k < |b|) || (k < |a| && k < |b| && a[k] < b[k]));
      assert p[..|x| + k] == q[..|x| + k];
    }
    if BytesLess(p, q) {
      var k: nat :| k <= |p| && k <= |q| && p[..k] == q[..k] &&
        ((k == |p| && k < |q|) || (k < |p| && k < |q| && p[k] < q[k]));
      assert k >= |x|;
      assert a[..k - |x|] == b[..k - |x|];
    }
  }

  // Strings that start with different characters.
  lemma HeadsDecide(c: char, d: char, a: seq<int>, b: seq<int>)
    requires c < d
    ensures BytesLess(Encode(c) + a, Encode(d) + b) && !BytesLess(Encode(d) + b, Encode(c) + a)
  {
    var k := EncodeOrder(c, d);
    var p, q := Encode(c) + a, Encode(d) + b;
    assert p[..k] == Encode(c)[..k] && q[..k] == Encode(d)[..k];
    assert p[k] < q[k];
    NotGreater(p, q, k);
  }

  lemma NotGreater(p: seq<int>, q: seq<int>, k: nat)
    requires k < |p| && k < |q| && p[..k] == q[..k] && p[k] < q[k]
    ensures !BytesLess(q, p)
  {
    forall m: nat | m <= |q| && m <= |p| && q[..m] == p[..m]
      ensures !((m == |q| && m < |p|) || (m < |q| && m < |p| && q[m] < p[m]))
    {
      if m < k {
        assert p[..k][m] == q[..k][m];
      }
    }
  }

  // The order on characters is the order on bytes.
  lemma {:induction false} LessIsBytesLess(a: string, b: string)
    ensures Less(a, b) <==> BytesLess(Bytes(a), Bytes(b))
  {
    if a == [] {
      EmptyBytes(b);
    } else if b == [] {
      assert Bytes(b) == [];
    } else if a[0] == b[0] {
      LessIsBytesLess(a[1..], b[1..]);
      PrefixedBytes(Encode(a[0]), Bytes(a[1..]), Bytes(b[1..]));
    } else if a[0] < b[0] {
      HeadsDecide(a[0], b[0], Bytes(a[1..]), Bytes(b[1..]));
    } else {
      HeadsDecide(b[0], a[0], Bytes(b[1..]), Bytes(a[1..]));
    }
  }

  lemma EmptyBytes(b: string)
    ensures BytesLess([], Bytes(b)) <==> b != []
  {
    if b != [] {
      assert |Encode(b[0])| > 0;
      assert Bytes(b)[..0] == [];
    }
  }
}
