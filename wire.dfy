/** Bytes on the wire: the byte type, an Option type, and the big-endian
    integers that `htonl`/`ntohl` and `ntohs` produce and read. */
module Wire {

  /** One octet of a socket stream. */
  type byte = b: int | 0 <= b < 256

  datatype Option<+T> = None | Some(value: T)

  const TWO_TO_THE_16: nat := 0x1_0000
  const TWO_TO_THE_32: nat := 0x1_0000_0000

  /** `n` as a C `uint32_t`: the source adds packed lengths in 32-bit
      unsigned arithmetic, which wraps. */
  function U32(n: nat): (r: nat)
    ensures r < TWO_TO_THE_32
    ensures n < TWO_TO_THE_32 ==> r == n
  {
    n % TWO_TO_THE_32
  }

  /** The four bytes `htonl(n)` puts on the wire, most significant first. */
  function BigEndian32(n: nat): (r: seq<byte>)
    requires n < TWO_TO_THE_32
  {
    [n / 0x100_0000, n / 0x1_0000 % 0x100, n / 0x100 % 0x100, n % 0x100]
  }

  /** The value `ntohl` reads from four bytes. */
  function FromBigEndian32(s: seq<byte>): (n: nat)
    requires |s| == 4
  {
    s[0] as int * 0x100_0000 + s[1] as int * 0x1_0000 + s[2] as int * 0x100 + s[3] as int
  }

  /** The two bytes of a big-endian `uint16_t`. */
  function BigEndian16(n: nat): (r: seq<byte>)
    requires n < TWO_TO_THE_16
  {
    [n / 0x100, n % 0x100]
  }

  /** The value `ntohs` reads from two bytes. */
  function FromBigEndian16(s: seq<byte>): (n: nat)
    requires |s| == 2
  {
    s[0] as int * 0x100 + s[1] as int
  }

  /** Reading back a written 32-bit length gives the length; the encoding
      is four bytes long. */
  lemma BigEndian32RoundTrip(n: nat)
    requires n < TWO_TO_THE_32
    ensures |BigEndian32(n)| == 4
    ensures FromBigEndian32(BigEndian32(n)) == n
  {
    var a, b, c, d := n / 0x100_0000, n / 0x1_0000 % 0x100, n / 0x100 % 0x100, n % 0x100;
    assert n / 0x100 == (n / 0x1_0000) * 0x100 + c;
    assert n / 0x1_0000 == a * 0x100 + b;
    assert n == (n / 0x100) * 0x100 + d;
  }

  /** Every four bytes are the encoding of the value read from them, so the
      32-bit reader and writer are mutually inverse. */
  lemma FromBigEndian32RoundTrip(s: seq<byte>)
    requires |s| == 4
    ensures FromBigEndian32(s) < TWO_TO_THE_32
    ensures BigEndian32(FromBigEndian32(s)) == s
  {
    var n := FromBigEndian32(s);
    assert n / 0x100 == s[0] as int * 0x1_0000 + s[1] as int * 0x100 + s[2] as int;
    assert n / 0x1_0000 == s[0] as int * 0x100 + s[1] as int;
    assert n / 0x100_0000 == s[0];
  }

  /** The 16-bit reader and writer are mutually inverse. */
  lemma BigEndian16RoundTrip(n: nat, s: seq<byte>)
    requires n < TWO_TO_THE_16 && |s| == 2
    ensures |BigEndian16(n)| == 2 && FromBigEndian16(BigEndian16(n)) == n
    ensures FromBigEndian16(s) < TWO_TO_THE_16 && BigEndian16(FromBigEndian16(s)) == s
  {
  }

  /** The bytes of a list of buffers sent one after the other. */
  function Concat(parts: seq<seq<byte>>): (r: seq<byte>)
  {
    if parts == [] then [] else parts[0] + Concat(parts[1..])
  }

  /** Appending is associative; stated on its own so that proofs with much
      else in scope can use it without searching for it. */
  lemma AppendAssoc(a: seq<byte>, b: seq<byte>, c: seq<byte>)
    ensures a + b + c == a + (b + c)
  {
  }

  /** The front and the back of a suffix, as slices of the whole. */
  lemma SuffixSlices(s: seq<byte>, i: nat, n: nat)
    requires i + n <= |s|
    ensures s[i..][..n] == s[i..i + n]
    ensures s[i..][n..] == s[i + n..]
  {
  }

  /** Two adjacent slices make up the slice that spans them. */
  lemma AdjacentSlices(s: seq<byte>, i: nat, j: nat, k: nat)
    requires i <= j <= k <= |s|
    ensures s[i..j] + s[j..k] == s[i..k]
  {
  }
}
