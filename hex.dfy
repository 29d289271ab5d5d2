/** Lower-case hexadecimal rendering of a byte string, as Go's `fmt.Sprintf("%x", digest)`
    prints a `[32]byte`: two characters per byte, high nibble first. */
module HexEncoding {

  newtype byte = b: int | 0 <= b < 256

  /** The lower-case hex digit of a nibble. */
  function HexDigit(n: nat): (c: char)
    requires n < 16
    ensures c == '0' <==> n == 0
  {
    "0123456789abcdef"[n]
  }

  /** `%x` of a byte string. */
  function Hex(s: seq<byte>): (r: string)
    ensures |r| == 2 * |s|
  {
    if s == [] then []
    else [HexDigit(s[0] as int / 16), HexDigit(s[0] as int % 16)] + Hex(s[1..])
  }

  /** Character 2i of the rendering is byte i's high nibble, character 2i+1 its low nibble. */
  lemma {:induction false} HexAt(s: seq<byte>, i: nat)
    requires i < |s|
    ensures Hex(s)[2 * i] == HexDigit(s[i] as int / 16)
    ensures Hex(s)[2 * i + 1] == HexDigit(s[i] as int % 16)
  {
    if i > 0 {
      HexAt(s[1..], i - 1);
      assert Hex(s) == [HexDigit(s[0] as int / 16), HexDigit(s[0] as int % 16)] + Hex(s[1..]);
    }
  }

  /** The first `d` hex characters are all '0'. */
  ghost predicate ZeroHexPrefix(s: seq<byte>, d: nat)
    requires d <= 2 * |s|
  {
    forall k :: 0 <= k < d ==> Hex(s)[k] == '0'
  }

  /** The first `d / 2` bytes are zero and, when `d` is odd, the next byte is below 16. */
  ghost predicate ZeroNibblePrefix(s: seq<byte>, d: nat)
    requires d <= 2 * |s|
  {
    (forall i :: 0 <= i < d / 2 ==> s[i] == 0) && (d % 2 == 1 ==> s[d / 2] < 16)
  }

  /** "The first d hex digits are zero" is a statement about the leading bytes. */
  lemma ZeroHexPrefixBytes(s: seq<byte>, d: nat)
    requires d <= 2 * |s|
    ensures ZeroHexPrefix(s, d) <==> ZeroNibblePrefix(s, d)
  {
    if ZeroHexPrefix(s, d) {
      forall i | 0 <= i < d / 2 ensures s[i] == 0 {
        HexAt(s, i);
        assert Hex(s)[2 * i] == '0' && Hex(s)[2 * i + 1] == '0';
      }
      if d % 2 == 1 {
        HexAt(s, d / 2);
        assert Hex(s)[2 * (d / 2)] == '0';
      }
    }
    if ZeroNibblePrefix(s, d) {
      forall k | 0 <= k < d ensures Hex(s)[k] == '0' {
        HexAt(s, k / 2);
        if k / 2 < d / 2 {
          assert s[k / 2] == 0;
        } else {
          assert k == 2 * (d / 2) && s[d / 2] < 16;
        }
      }
    }
  }
}
