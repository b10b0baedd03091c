/**
  Bytes and the UTF-8 encoding that both sinks apply to every string they
  are asked to append (`string.data(using: .utf8)`).
*/
module Utf8 {

  /** An octet, as Foundation's `Data` holds it. */
  type byte = x: int | 0 <= x < 0x100

  type Bytes = seq<byte>

  /** A 7-bit character, encoded as the single byte of the same value. */
  predicate IsAscii(s: string) {
    forall i :: 0 <= i < |s| ==> s[i] as int < 0x80
  }

  /** A byte that can only appear after the first byte of a scalar's encoding. */
  predicate IsContinuation(x: byte) {
    0x80 <= x < 0xC0
  }

  /** The UTF-8 encoding of one Unicode scalar value (RFC 3629, section 3). */
  function EncodeScalar(c: char): (r: Bytes)
    ensures 1 <= |r| <= 4
    ensures |r| == 1 <==> c as int < 0x80
    ensures |r| == 1 ==> r[0] == c as int
    ensures |r| > 1 ==> 0xC2 <= r[0] <= 0xF4
    ensures forall i :: 1 <= i < |r| ==> IsContinuation(r[i])
    ensures |r| == (if c as int < 0x80 then 1 else if c as int < 0x800 then 2
                    else if c as int < 0x10000 then 3 else 4)
  {
    var n := c as int;
    if n < 0x80 then [n]
    else if n < 0x800 then [0xC0 + n / 0x40, 0x80 + n % 0x40]
    else if n < 0x10000 then [0xE0 + n / 0x1000, 0x80 + (n / 0x40) % 0x40, 0x80 + n % 0x40]
    else [0xF0 + n / 0x40000, 0x80 + (n / 0x1000) % 0x40, 0x80 + (n / 0x40) % 0x40, 0x80 + n % 0x40]
  }

  /** The UTF-8 encoding of a string: its scalars' encodings, in order. */
  function Encode(s: string): (r: Bytes)
    ensures |s| <= |r| <= 4 * |s|
    ensures s == [] <==> r == []
    decreases |s|
  {
    if s == [] then [] else Encode(s[..|s| - 1]) + EncodeScalar(s[|s| - 1])
  }

  /** Encoding distributes over concatenation, so appending the pieces of a
      string one after another writes the same bytes as appending it whole. */
  lemma {:induction false} EncodeConcat(a: string, b: string)
    ensures Encode(a + b) == Encode(a) + Encode(b)
    decreases |b|
  {
    if b == [] {
      assert a + b == a;
    } else {
      var init, last := b[..|b| - 1], b[|b| - 1];
      assert (a + b)[..|a + b| - 1] == a + init;
      assert (a + b)[|a + b| - 1] == last;
      EncodeConcat(a, init);
      AppendAssociates(Encode(a), Encode(init), EncodeScalar(last));
    }
  }

  lemma AppendAssociates(a: Bytes, b: Bytes, c: Bytes)
    ensures a + b + c == a + (b + c)
  {
  }

  /** A 7-bit string encodes to exactly its character codes, one byte each. */
  lemma {:induction false} EncodeAscii(s: string)
    requires IsAscii(s)
    ensures |Encode(s)| == |s|
    ensures forall i :: 0 <= i < |s| ==> Encode(s)[i] == s[i] as int
    decreases |s|
  {
    if s != [] {
      var init := s[..|s| - 1];
      assert IsAscii(init) by {
        forall i | 0 <= i < |init| ensures init[i] as int < 0x80 {
          assert init[i] == s[i];
        }
      }
      EncodeAscii(init);
      forall i | 0 <= i < |s| ensures Encode(s)[i] == s[i] as int {
        if i < |init| {
          assert Encode(s)[i] == Encode(init)[i];
          assert init[i] == s[i];
        }
      }
    }
  }
}
