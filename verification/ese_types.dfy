/**
 * Types shared by the eSE library layers: the ESESTATUS codes, the chip
 * generation switch and an Option wrapper for values that may be absent.
 */
module EseTypes {

  datatype Option<T> = None | Some(value: T)

  /** The ESESTATUS codes that the T=1 engine and the library API return. */
  datatype EseStatus =
    | SUCCESS
    | FAILED
    | TRANSCEIVE_FAILED
    | INVALID_PARAMETER
    | NOT_INITIALISED
    | BUSY
    | RECOVERY_STARTED
    | FEATURE_NOT_SUPPORTED

  /** The global chipType: SN100X (the default) or the legacy PN80T. */
  datatype ChipType = SN100X | PN80T

  /** A one-bit sequence number N(S) / N(R). */
  type Bit = b: int | 0 <= b <= 1

  /** `b ^ 1` on a one-bit sequence number. */
  function Flip(b: Bit): (r: Bit)
    ensures r != b
  {
    1 - b
  }

  /** Byte `i` of a buffer, reading 0x00 past its end. */
  function At(p: seq<bv8>, i: nat): (b: bv8)
    ensures i < |p| ==> b == p[i]
    ensures i >= |p| ==> b == 0
  {
    if i < |p| then p[i] else 0
  }

  /** `n` bytes of `p` from `offset`, reading 0x00 past its end. */
  function Window(p: seq<bv8>, offset: nat, n: nat): (w: seq<bv8>)
    ensures |w| == n
    ensures forall k :: 0 <= k < n ==> w[k] == At(p, offset + k)
    ensures offset + n <= |p| ==> w == p[offset..offset + n]
  {
    seq(n, k requires 0 <= k < n => At(p, offset + k))
  }

  /** Two adjacent windows read the same bytes as one window over both. */
  lemma WindowSplit(p: seq<bv8>, offset: nat, a: nat, b: nat)
    ensures Window(p, offset, a) + Window(p, offset + a, b) == Window(p, offset, a + b)
  {
    var lhs := Window(p, offset, a) + Window(p, offset + a, b);
    forall k | 0 <= k < a + b
      ensures lhs[k] == Window(p, offset, a + b)[k]
    {
      if k >= a {
        assert lhs[k] == Window(p, offset + a, b)[k - a];
      }
    }
  }
}
