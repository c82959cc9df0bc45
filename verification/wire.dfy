/** Byte-level vocabulary shared by the rewriter: optional values, the
    big-endian 16-bit reads of the DNS message format (section 4.1 of
    RFC 1035), the in-place byte copy, and the replacement address types. */
module Wire {

  datatype Option<T> = None | Some(value: T)

  /** An octet of the datagram. */
  newtype byte = b: int | 0 <= b < 0x100

  /** Size of the fixed DNS message header (ID, flags, four counts). */
  const HEADER_SIZE: nat := 12

  /** RR TYPE codes: A (section 3.4.1 of RFC 1035), AAAA (section 2.1 of RFC 3596). */
  const TYPE_A: nat := 1
  const TYPE_AAAA: nat := 28

  /** An IPv4 address in network byte order. */
  type Ipv4Address = s: seq<byte> | |s| == 4 witness [0, 0, 0, 0]

  /** An IPv6 address in network byte order. */
  type Ipv6Address = s: seq<byte> | |s| == 16 witness [0, 0, 0, 0, 0, 0, 0, 0, 0, 0, 0, 0, 0, 0, 0, 0]

  /** The big-endian 16-bit value stored at `at` and `at + 1`. */
  function Be16(p: seq<byte>, at: nat): (v: nat)
    requires at + 2 <= |p|
    ensures v < 0x1_0000
  {
    p[at] as nat * 256 + p[at + 1] as nat
  }

  /** The big-endian two-byte form of a 16-bit value. */
  function U16(v: nat): (e: seq<byte>)
    requires v < 0x1_0000
    ensures |e| == 2 && Be16(e, 0) == v
  {
    [(v / 256) as byte, (v % 256) as byte]
  }

  /** `p` with the bytes of `src` copied over positions `at .. at + |src|`
      (the effect of a bounded memcpy into the buffer). */
  function Overwrite(p: seq<byte>, at: nat, src: seq<byte>): (q: seq<byte>)
    requires at + |src| <= |p|
    ensures |q| == |p|
    ensures q[at..at + |src|] == src
    ensures forall i :: 0 <= i < |p| && !(at <= i < at + |src|) ==> q[i] == p[i]
  {
    p[..at] + src + p[at + |src|..]
  }

  /** Copies `src` into `buffer` at `at`, byte by byte. */
  method CopyInto(buffer: array<byte>, at: nat, src: seq<byte>)
    requires at + |src| <= buffer.Length
    modifies buffer
    ensures buffer[..] == Overwrite(old(buffer[..]), at, src)
  {
    for k := 0 to |src|
      invariant forall i :: 0 <= i < k ==> buffer[at + i] == src[i]
      invariant forall i :: 0 <= i < buffer.Length && !(at <= i < at + k) ==> buffer[i] == old(buffer[i])
    {
      buffer[at + k] := src[k];
    }
    assert buffer[..] == Overwrite(old(buffer[..]), at, src);
  }
}
