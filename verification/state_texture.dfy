/** The start-up state-texture encoder.

    The particle source hands over a flat position buffer, three values
    (x, y, z) per particle. The encoder copies it into the flat RGBA buffer of
    the square state texture, four channels per texel: r, g and b receive x, y
    and z, alpha receives 0, and the texels after the last particle are left
    as they were. Values are only copied, never computed on, so they are
    modelled as `real`.
 */
module StateTexture {
  import opened TextureSize

  /** Particle `i` of a flat position buffer: its (x, y, z) triple. */
  function Particle(pos: seq<real>, i: nat): seq<real>
    requires 3 * i + 3 <= |pos|
  {
    pos[3 * i .. 3 * i + 3]
  }

  /** Texel `i` of a flat RGBA buffer: its (r, g, b, a) channels. */
  function Texel(data: seq<real>, i: nat): seq<real>
    requires 4 * i + 4 <= |data|
  {
    data[4 * i .. 4 * i + 4]
  }

  /** What the encoder leaves in a texel buffer that held `data` before:
      texel `i` for every particle `i < count` becomes (x_i, y_i, z_i, 0),
      every later entry keeps its value. */
  function Encode(pos: seq<real>, data: seq<real>, count: nat): (tex: seq<real>)
    requires |pos| == 3 * count
    requires 4 * count <= |data|
    ensures |tex| == |data|
    ensures forall i: nat | i < count :: Texel(tex, i) == Particle(pos, i) + [0.0]
    ensures tex[4 * count..] == data[4 * count..]
  {
    seq(|data|, j requires 0 <= j < |data| =>
      if j >= 4 * count then data[j]
      else if j % 4 == 3 then 0.0
      else pos[3 * (j / 4) + j % 4])
  }

  /** Reads the particle positions back out of the first `count` texels,
      dropping each alpha channel: the inverse of `Encode`. */
  function Unpack(tex: seq<real>, count: nat): (pos: seq<real>)
    requires 4 * count <= |tex|
    ensures |pos| == 3 * count
    ensures forall i: nat | i < count :: Particle(pos, i) == Texel(tex, i)[..3]
  {
    if count == 0 then []
    else
      var prefix := Unpack(tex, count - 1);
      var pos := prefix + Texel(tex, count - 1)[..3];
      assert forall i: nat | i < count - 1 :: Particle(pos, i) == Particle(prefix, i);
      pos
  }

  /** Two position buffers that agree particle by particle are equal. */
  lemma ParticlesDetermine(a: seq<real>, b: seq<real>, count: nat)
    requires |a| == 3 * count && |b| == 3 * count
    requires forall i: nat | i < count :: Particle(a, i) == Particle(b, i)
    ensures a == b
  {
    forall j | 0 <= j < |a|
      ensures a[j] == b[j]
    {
      var i := j / 3;
      assert Particle(a, i)[j % 3] == a[j];
      assert Particle(b, i)[j % 3] == b[j];
    }
  }

  /** The contract of `Encode` pins it down: a buffer of the same length whose
      first `count` texels hold (x, y, z, 0) and whose tail is untouched is
      exactly `Encode(pos, data, count)`. */
  lemma EncodeDetermined(pos: seq<real>, data: seq<real>, count: nat, tex: seq<real>)
    requires |pos| == 3 * count
    requires 4 * count <= |data|
    requires |tex| == |data|
    requires forall i: nat | i < count :: Texel(tex, i) == Particle(pos, i) + [0.0]
    requires tex[4 * count..] == data[4 * count..]
    ensures tex == Encode(pos, data, count)
  {
    var enc := Encode(pos, data, count);
    forall j | 0 <= j < |tex|
      ensures tex[j] == enc[j]
    {
      if j < 4 * count {
        var i := j / 4;
        assert Texel(tex, i)[j % 4] == tex[j];
        assert Texel(enc, i)[j % 4] == enc[j];
      } else {
        assert tex[j] == tex[4 * count..][j - 4 * count];
        assert enc[j] == enc[4 * count..][j - 4 * count];
      }
    }
  }

  /** Round trip: reading the positions back out of an encoded texture gives
      exactly the position buffer that was encoded, whatever the texture held
      before. */
  lemma UnpackEncode(pos: seq<real>, data: seq<real>, count: nat)
    requires |pos| == 3 * count
    requires 4 * count <= |data|
    ensures Unpack(Encode(pos, data, count), count) == pos
  {
    var tex := Encode(pos, data, count);
    var back := Unpack(tex, count);
    forall i: nat | i < count
      ensures Particle(back, i) == Particle(pos, i)
    {
      assert Texel(tex, i) == Particle(pos, i) + [0.0];
    }
    ParticlesDetermine(back, pos, count);
  }

  /** Encoding is idempotent: encoding a second time over an already encoded
      texture changes nothing. */
  lemma EncodeIdempotent(pos: seq<real>, data: seq<real>, count: nat)
    requires |pos| == 3 * count
    requires 4 * count <= |data|
    ensures Encode(pos, Encode(pos, data, count), count) == Encode(pos, data, count)
  {
    var once := Encode(pos, data, count);
    var twice := Encode(pos, once, count);
    EncodeDetermined(pos, data, count, twice);
  }

  /** The encoded texture depends on the previous contents only through the
      padding: two buffers that agree after the last particle encode alike. */
  lemma EncodeIgnoresOldTexels(pos: seq<real>, d1: seq<real>, d2: seq<real>, count: nat)
    requires |pos| == 3 * count
    requires 4 * count <= |d1| && |d1| == |d2|
    requires d1[4 * count..] == d2[4 * count..]
    ensures Encode(pos, d1, count) == Encode(pos, d2, count)
  {
    EncodeDetermined(pos, d1, count, Encode(pos, d2, count));
  }

  /** The whole start-up encoder on values: the texture of side
      `TexSize(count)`, zero-filled, with every particle packed in. */
  function InitialState(pos: seq<real>, count: nat): (tex: seq<real>)
    requires |pos| == 3 * count
    ensures |tex| == 4 * (TexSize(count) * TexSize(count))
    ensures forall i: nat | i < count :: Texel(tex, i) == Particle(pos, i) + [0.0]
    ensures Unpack(tex, count) == pos
    ensures forall j | 4 * count <= j < |tex| :: tex[j] == 0.0
  {
    var size := TexSize(count);
    var area := size * size;
    var blank := seq(4 * area, _ => 0.0);
    UnpackEncode(pos, blank, count);
    var tex := Encode(pos, blank, count);
    assert forall j | 4 * count <= j < |tex| :: tex[j] == tex[4 * count..][j - 4 * count];
    tex
  }

  /** The packing loop: copies particle `i`'s (x, y, z) into texel `i`'s
      (r, g, b) and writes 0 into its alpha, for every `i < count`, in place.
      The position buffer is only read; texels from `count` on keep their
      values. */
  method Pack(pos: array<real>, data: array<real>, count: nat)
    requires pos != data
    requires pos.Length == 3 * count
    requires 4 * count <= data.Length
    modifies data
    ensures data[..] == Encode(pos[..], old(data[..]), count)
  {
    ghost var before := data[..];
    for i := 0 to count
      invariant forall j | 0 <= j < 4 * i :: data[j] == (if j % 4 == 3 then 0.0 else pos[3 * (j / 4) + j % 4])
      invariant forall j | 4 * i <= j < data.Length :: data[j] == before[j]
    {
      var i3 := i * 3;
      var i4 := i * 4;
      data[i4 + 0] := pos[i3 + 0];
      data[i4 + 1] := pos[i3 + 1];
      data[i4 + 2] := pos[i3 + 2];
      data[i4 + 3] := 0.0;
    }
    assert data[..] == Encode(pos[..], before, count);
  }

  /** Start-up: choose the texture side, create a zero-filled texture of
      `size * size` texels and pack every particle into it. */
  method BuildStateTexture(pos: array<real>, count: nat) returns (size: nat, data: array<real>)
    requires pos.Length == 3 * count
    ensures fresh(data)
    ensures size == TexSize(count)
    ensures data.Length == 4 * (size * size)
    ensures data[..] == InitialState(pos[..], count)
  {
    size := TexSize(count);
    var area := size * size;
    data := new real[4 * area](_ => 0.0);
    Pack(pos, data, count);
  }
}
