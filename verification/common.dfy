/** Shared value types of the converter: bytes, optional values, error
    outcomes and the little-endian integer packing used by the Ogg header. */
module Common {

  type byte = b: int | 0 <= b < 256

  datatype Option<+T> = None | Some(value: T)

  /** The conditions under which the converter raises an exception. */
  datatype Error =
    | Truncated                     // an unpack or read ran past the available bytes
    | UnsupportedConfig(config: nat) // an Opus config without a known frame duration
    | EmptyPage                     // a segment list indexed while empty
    | SpanningPacket                // the last lacing value of a page is 255
    | SegmentCountOverflow(count: nat) // more than 255 lacing values on one page
    | FieldOutOfRange               // a header field does not fit its packed width
    | MissingPacketInfo             // the TOC fields of a packet were never decoded
    | NotCodeThree                  // padding requested on a packet that is not code 3
    | AlreadyPadded                 // padding requested on a packet that already has some
    | NotPacketStart                // a packet rewrite at a fragment that does not begin a packet
    | PageTooLarge                  // padding requested for a page already over its target
    | NoPacketBegin                 // the backward scan for a packet start ran off the page
    | ImpossibleToPad               // no packet can absorb a single byte
    | RecursionLimit                // the padding recursion ran out of depth
    | InvalidHeader(reason: string) // an identification-header assertion failed

  datatype Result<+T> = Ok(value: T) | Err(error: Error)

  function Min(a: int, b: int): int
  {
    if a < b then a else b
  }

  /** `n` zero bytes. */
  function Zeros(n: nat): (z: seq<byte>)
    ensures |z| == n
    ensures forall i :: 0 <= i < n ==> z[i] == 0
  {
    seq(n, _ => 0)
  }

  function Pow256(k: nat): (p: nat)
    ensures p >= 1
  {
    if k == 0 then 1 else 256 * Pow256(k - 1)
  }

  /** The `k`-byte little-endian encoding of `n` (struct.pack with `<B`, `<L`, `<Q`). */
  function LE(n: nat, k: nat): (s: seq<byte>)
    requires n < Pow256(k)
    ensures |s| == k
  {
    if k == 0 then [] else [n % 256] + LE(n / 256, k - 1)
  }

  /** The unsigned value of little-endian bytes (struct.unpack). */
  function FromLE(s: seq<byte>): nat
  {
    if s == [] then 0 else s[0] + 256 * FromLE(s[1..])
  }

  lemma {:induction false} FromLEOfLE(n: nat, k: nat)
    requires n < Pow256(k)
    ensures FromLE(LE(n, k)) == n
  {
    if k > 0 {
      FromLEOfLE(n / 256, k - 1);
      assert LE(n, k)[1..] == LE(n / 256, k - 1);
    }
  }

  lemma {:induction false} FromLEBound(s: seq<byte>)
    ensures FromLE(s) < Pow256(|s|)
  {
    if s != [] {
      FromLEBound(s[1..]);
    }
  }
}
