/**
 * Byte order of words (rc6.c:57-93): bswap for the 64-bit word, the host
 * byte order, and bswap_if_be, which together make every word the cipher
 * reads from or writes to memory little-endian on any host.
 *
 * The source asks the host for its byte order by type punning through a
 * union (rc6.c:91); here the host order is a parameter.
 */
module ByteOrder {
  import opened Words

  type byte = x: int | 0 <= x < 256

  /** Bytes per word, sizeof(WORD). */
  const BPW: nat := 8

  datatype Endian = Little | Big

  function Pow256(n: nat): (r: nat)
    ensures r >= 1
  {
    if n == 0 then 1 else 256 * Pow256(n - 1)
  }

  /** The n low-order bytes of x, least significant first. */
  function ToLE(x: nat, n: nat): (m: seq<byte>)
    ensures |m| == n
  {
    if n == 0 then [] else [x % 256] + ToLE(x / 256, n - 1)
  }

  /** The number whose little-endian bytes are m. */
  function FromLE(m: seq<byte>): (x: nat)
    ensures x < Pow256(|m|)
  {
    if |m| == 0 then 0 else m[0] + 256 * FromLE(m[1..])
  }

  lemma {:induction false} FromLEToLE(x: nat, n: nat)
    requires x < Pow256(n)
    ensures FromLE(ToLE(x, n)) == x
  {
    if n > 0 {
      var m := ToLE(x, n);
      assert m[1..] == ToLE(x / 256, n - 1);
      DivBelow(x, 256, Pow256(n - 1));
      FromLEToLE(x / 256, n - 1);
    }
  }

  lemma {:induction false} ToLEFromLE(m: seq<byte>)
    ensures ToLE(FromLE(m), |m|) == m
  {
    if |m| > 0 {
      var rest := FromLE(m[1..]);
      DivModOf(rest, m[0], 256);
      ToLEFromLE(m[1..]);
    }
  }

  function Reverse<T>(s: seq<T>): (r: seq<T>)
    ensures |r| == |s|
    ensures forall i :: 0 <= i < |s| ==> r[i] == s[|s| - 1 - i]
  {
    seq(|s|, i requires 0 <= i < |s| => s[|s| - 1 - i])
  }

  lemma ReverseReverse<T>(s: seq<T>)
    ensures Reverse(Reverse(s)) == s
  {
  }

  /** The word whose little-endian bytes are the eight bytes m. */
  function WordOf(m: seq<byte>): (x: Word)
    requires |m| == BPW
    ensures ToLE(x, BPW) == m
  {
    ToLEFromLE(m);
    FromLE(m)
  }

  /** The eight little-endian bytes of x. */
  function BytesOf(x: Word): (m: seq<byte>)
    ensures |m| == BPW
    ensures WordOf(m) == x
  {
    FromLEToLE(x, BPW);
    ToLE(x, BPW)
  }

  /** bswap (rc6.c:73): reverse the order of the bytes of a word. */
  function BSwap(x: Word): (r: Word)
    ensures BytesOf(r) == Reverse(BytesOf(x))
  {
    WordOf(Reverse(BytesOf(x)))
  }

  lemma BSwapInvolution(x: Word)
    ensures BSwap(BSwap(x)) == x
  {
    ReverseReverse(BytesOf(x));
  }

  /** The word a host reads from eight bytes of memory. */
  function Load(host: Endian, m: seq<byte>): Word
    requires |m| == BPW
  {
    match host
    case Little => WordOf(m)
    case Big => WordOf(Reverse(m))
  }

  /** The eight bytes a host writes to memory for a word. */
  function Store(host: Endian, x: Word): (m: seq<byte>)
    ensures |m| == BPW
  {
    match host
    case Little => BytesOf(x)
    case Big => Reverse(BytesOf(x))
  }

  /** bswap_if_be (rc6.c:90-93). */
  function BSwapIfBE(host: Endian, x: Word): Word
  {
    if host == Little then x else BSwap(x)
  }

  /** Loading then normalizing reads the bytes as little-endian on either host. */
  lemma LoadLE(host: Endian, m: seq<byte>)
    requires |m| == BPW
    ensures BSwapIfBE(host, Load(host, m)) == WordOf(m)
  {
    if host == Big {
      ReverseReverse(m);
    }
  }

  /** Normalizing then storing writes little-endian bytes on either host. */
  lemma StoreLE(host: Endian, x: Word)
    ensures Store(host, BSwapIfBE(host, x)) == BytesOf(x)
  {
    if host == Big {
      ReverseReverse(BytesOf(x));
    }
  }
}
