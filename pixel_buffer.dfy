/** Packed multi-channel pixel buffers, row-major, a fixed number of byte
    channels per pixel.  The controller reads its RGBA32 readback through local
    helpers with 4 channels; the mesher goes through a TextureDataUtility over a
    3-channel copy.  Both use the same index arithmetic, so it is defined here
    once, parameterised by the channel count. */
module PixelBuffer {

  type byte = b: int | 0 <= b < 256

  /** Channel order of the mesher's buffer (MapChannelCode); the controller's
      readback has a fourth channel, the active mask. */
  const HEIGHT: nat := 0
  const CLUSTER_ID: nat := 1
  const VISITED: nat := 2
  const MASK: nat := 3

  datatype Int2 = Int2(x: int, y: int) {
    function Plus(d: Int2): Int2 { Int2(x + d.x, y + d.y) }
  }

  /** First byte of the channel run of pixel `p` in a buffer `width` pixels wide. */
  function PixelIndex(width: int, channels: nat, p: Int2): int {
    (p.x + p.y * width) * channels
  }

  predicate InImage(size: Int2, p: Int2) {
    0 <= p.x < size.x && 0 <= p.y < size.y
  }

  /** The buffer holds exactly one channel run per pixel of the image. */
  predicate WellFormed(length: int, size: Int2, channels: nat) {
    size.x >= 0 && size.y >= 0 && channels > 0 && length == size.x * size.y * channels
  }

  /** Outcome of IsPixelInRange: the boolean result and the `out int index`. */
  datatype RangeCheck = RangeCheck(inRange: bool, index: int)

  /** IsPixelInRange: coordinates outside the image give index -1 and false;
      otherwise the index is computed and checked against the buffer length. */
  function PixelInRange(length: int, size: Int2, channels: nat, p: Int2): RangeCheck {
    if p.x < 0 || p.x >= size.x || p.y < 0 || p.y >= size.y then
      RangeCheck(false, -1)
    else
      var index := PixelIndex(size.x, channels, p);
      RangeCheck(!(index < 0 || index >= length), index)
  }

  /** GetPixelValues: the channel run starting at `index`, or the empty array
      its exception handler returns when any byte of the run is out of range. */
  function PixelValues(data: seq<byte>, index: int, channels: nat): seq<byte> {
    if 0 <= index && index + channels <= |data| then data[index..index + channels] else []
  }

  /** Channel `c` of pixel `p`; 0 when that byte is outside the buffer. */
  function Channel(data: seq<byte>, size: Int2, channels: nat, p: Int2, c: nat): byte {
    var i := PixelIndex(size.x, channels, p) + c;
    if 0 <= i < |data| then data[i] else 0
  }

  /** Mathf.Abs / Math.Abs on integers. */
  function Abs(x: int): nat { if x < 0 then -x else x }

  /** Concatenation regroups freely. */
  lemma AppendAssociative<T>(a: seq<T>, b: seq<T>, c: seq<T>)
    ensures (a + b) + c == a + (b + c)
  {
  }

  /** Writing channel c of pixel p changes that channel of that pixel and no
      other channel of any pixel of the image. */
  lemma WriteChannel(d: seq<byte>, size: Int2, channels: nat, p: Int2, c: nat, v: byte)
    requires WellFormed(|d|, size, channels) && InImage(size, p) && c < channels
    ensures 0 <= PixelIndex(size.x, channels, p) + c < |d|
    ensures forall q: Int2, k: nat {:trigger Channel(d[PixelIndex(size.x, channels, p) + c := v], size, channels, q, k)} :: InImage(size, q) && k < channels ==>
      (Channel(d[PixelIndex(size.x, channels, p) + c := v], size, channels, q, k) ==
        (if q == p && k == c then v else Channel(d, size, channels, q, k)))
  {
    PixelRunInside(size, channels, p);
    forall q: Int2, k: nat | InImage(size, q) && k < channels {
      WriteChannelAt(d, size, channels, p, c, v, q, k);
    }
  }

  lemma WriteChannelAt(d: seq<byte>, size: Int2, channels: nat, p: Int2, c: nat, v: byte, q: Int2, k: nat)
    requires WellFormed(|d|, size, channels) && InImage(size, p) && c < channels
    requires InImage(size, q) && k < channels
    ensures 0 <= PixelIndex(size.x, channels, p) + c < |d|
    ensures Channel(d[PixelIndex(size.x, channels, p) + c := v], size, channels, q, k) ==
      if q == p && k == c then v else Channel(d, size, channels, q, k)
  {
    PixelRunInside(size, channels, p);
    PixelRunInside(size, channels, q);
    if PixelIndex(size.x, channels, q) + k == PixelIndex(size.x, channels, p) + c {
      PixelRunsDisjoint(size, channels, q, k, p, c);
    }
  }

  /** The channel run of a pixel inside the image lies inside a well-formed buffer. */
  lemma PixelRunInside(size: Int2, channels: nat, p: Int2)
    requires size.x >= 0 && size.y >= 0 && InImage(size, p)
    ensures 0 <= PixelIndex(size.x, channels, p)
    ensures PixelIndex(size.x, channels, p) + channels <= size.x * size.y * channels
  {
    var lin := p.x + p.y * size.x;
    MulNonNegative(p.y, size.x);
    MulMonotone(p.y + 1, size.y, size.x);
    assert lin + 1 <= size.x * size.y;
    MulNonNegative(lin, channels);
    MulMonotone(lin + 1, size.x * size.y, channels);
  }

  lemma MulNonNegative(a: int, b: int)
    requires 0 <= a && 0 <= b
    ensures 0 <= a * b
  {
  }

  lemma MulMonotone(a: int, b: int, c: int)
    requires a <= b && 0 <= c
    ensures a * c <= b * c
  {
    MulNonNegative(b - a, c);
    assert b * c - a * c == (b - a) * c;
  }

  /** On a well-formed buffer IsPixelInRange succeeds exactly on the image,
      fails with index -1 outside it, and a successful index starts a whole run. */
  lemma InRangeIffInImage(length: int, size: Int2, channels: nat, p: Int2)
    requires WellFormed(length, size, channels)
    ensures PixelInRange(length, size, channels, p).inRange <==> InImage(size, p)
    ensures !InImage(size, p) ==> PixelInRange(length, size, channels, p).index == -1
    ensures InImage(size, p) ==>
      var i := PixelInRange(length, size, channels, p).index;
      i == PixelIndex(size.x, channels, p) && 0 <= i && i + channels <= length
  {
    if InImage(size, p) {
      PixelRunInside(size, channels, p);
    }
  }

  /** Distinct pixels of the image own disjoint channel runs. */
  lemma PixelRunsDisjoint(size: Int2, channels: nat, p: Int2, c: nat, q: Int2, d: nat)
    requires InImage(size, p) && InImage(size, q) && c < channels && d < channels
    requires PixelIndex(size.x, channels, p) + c == PixelIndex(size.x, channels, q) + d
    ensures p == q && c == d
  {
    var a, b := p.x + p.y * size.x, q.x + q.y * size.x;
    LinearRunsDisjoint(a, c, b, d, channels);
    LinearIndexInjective(size.x, p, q);
  }

  lemma LinearRunsDisjoint(a: int, c: nat, b: int, d: nat, channels: nat)
    requires c < channels && d < channels && a * channels + c == b * channels + d
    ensures a == b && c == d
  {
    var k, ch: int := a - b, channels;
    assert k * ch == d - c;
    assert -ch < k * ch < ch;
  }

  lemma LinearIndexInjective(width: int, p: Int2, q: Int2)
    requires 0 <= p.x < width && 0 <= q.x < width
    requires p.x + p.y * width == q.x + q.y * width
    ensures p == q
  {
    var k := q.y - p.y;
    assert k * width == p.x - q.x;
    assert -width < k * width < width;
  }

  /** GetPixelValues on the index of a pixel of a well-formed buffer yields all
      of that pixel's channels, in channel order. */
  lemma PixelValuesOfPixel(data: seq<byte>, size: Int2, channels: nat, p: Int2)
    requires WellFormed(|data|, size, channels) && InImage(size, p)
    ensures var v := PixelValues(data, PixelIndex(size.x, channels, p), channels);
      |v| == channels && forall c :: 0 <= c < channels ==> v[c] == Channel(data, size, channels, p, c)
  {
    PixelRunInside(size, channels, p);
  }

  /** The mesher's view of its 3-channel snapshot.  TextureDataUtility itself
      is not part of this model's source; its members are given the contracts of
      the controller's local helpers, with the channel count as a parameter, and
      its neighbour table is an arbitrary sequence of offsets. */
  class TextureDataUtility {
    const data: array<byte>
    const textureSize: Int2
    const channels: nat
    const searchDirections: seq<Int2>

    ghost predicate Valid() {
      WellFormed(data.Length, textureSize, channels) && channels == 3
    }

    constructor (data: array<byte>, textureSize: Int2, channels: nat, searchDirections: seq<Int2>)
      requires WellFormed(data.Length, textureSize, channels) && channels == 3
      ensures Valid()
      ensures this.data == data && this.textureSize == textureSize && this.channels == channels
      ensures this.searchDirections == searchDirections
    {
      this.data := data;
      this.textureSize := textureSize;
      this.channels := channels;
      this.searchDirections := searchDirections;
    }

    function IsPixelInRange(p: Int2): RangeCheck {
      PixelInRange(data.Length, textureSize, channels, p)
    }

    function GetPixelValues(index: int): seq<byte>
      reads data
    {
      PixelValues(data[..], index, channels)
    }

    function Get(p: Int2, c: nat): byte
      reads data
    {
      Channel(data[..], textureSize, channels, p, c)
    }

    function GetNeighborSearchDirectionsCount(): nat {
      |searchDirections|
    }

    function GetNeighborSearchDirectionAt(i: nat): Int2
      requires i < |searchDirections|
    {
      searchDirections[i]
    }

    /** UpdateTextureData writes one byte, unchecked: callers validate first. */
    method UpdateTextureData(value: byte, index: int, channel: nat)
      requires 0 <= index + channel < data.Length
      modifies data
      ensures data[..] == old(data[..])[index + channel := value]
    {
      data[index + channel] := value;
    }
  }
}
