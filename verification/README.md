# GPGPU flow-field particles: the state-texture encoder

The program animates a particle cloud whose positions live in a
floating-point texture on the graphics device. At start-up it encodes the
particles' initial positions into that texture. This project models the
encoder and proves its properties. The encoder has two parts:

- **Texture side length.** `size = ceil(sqrt(count))` picks the smallest
  square texture that has one texel per particle. Module `TextureSize`
  (`texture_size.dfy`) models it as the exact integer ceiling square root
  `TexSize`. It proves that the square holds every particle and that no
  smaller square does, together with consequences of those two facts.
- **Packing loop.** A flat `x, y, z` position buffer (stride 3) is copied
  into the flat RGBA buffer of the texture (stride 4). Texel `i` gets
  `(x_i, y_i, z_i, 0)`, and the entries after texel `count - 1` are not
  touched. Module `StateTexture` (`state_texture.dfy`) models this loop as
  the in-place method `Pack` over two `array<real>`. `Pack` is proved
  against the value-level specification `Encode`. `Encode` is paired with
  its inverse `Unpack`, which reads the positions back out of the texture.
  `Unpack` has no counterpart in the program, which never reads the
  texture back on the host; it exists to state the round trip.
  `BuildStateTexture` strings lines 104-130 together: it chooses the size,
  creates a zero-filled texture and packs the particles into it.

Values are only copied, never computed on, so buffer entries are `real`.
The `0` written into each alpha channel is `0.0`.

## Model

| member | source | states |
|---|---|---|
| TextureSize.TexSize | src/script.js:104-105 | the side length holds every particle (`size*size >= count`); it is minimal, since `(size-1)*(size-1) < count` whenever `size > 0`; and it never exceeds `count` |
| TextureSize.TexSizeLeast | src/script.js:104-105 | any side `t` with `t*t >= count` is at least `TexSize(count)`, so no smaller square texture fits the particles |
| TextureSize.TexSizeUnique | src/script.js:104-105 | the two properties of rounding the square root up determine the side: any `s` with `s*s >= count` whose predecessor's square is below `count` equals `TexSize(count)` |
| TextureSize.TexSizeOfSquare | src/script.js:104-105 | when `count = k*k` is a perfect square, the side is exactly `k` and there are no padding texels |
| TextureSize.TexSizeExamples | src/script.js:104-105 | 2562 particles give side 51, and 561 particles give side 24 |
| TextureSize.TexSizePadding | src/script.js:104-105 | for `count > 0`, fewer than `2*size - 1` texels are padding |
| StateTexture.Encode | src/script.js:118-130 | the encoded buffer has the same length as before; for every particle `i < count`, texel `i` is `(x_i, y_i, z_i, 0)`; every entry from `4*count` on keeps its previous value |
| StateTexture.Unpack | src/script.js:126-128 | the inverse of the r, g, b ← x, y, z channel mapping at these lines (the program itself never reads the texture back on the host): particle `i` of the result is the r, g, b channels of texel `i`, and the result has `3*count` entries |
| StateTexture.UnpackEncode | src/script.js:118-130 | round trip: unpacking an encoded texture gives back exactly the encoded positions, whatever the texture held before |
| StateTexture.EncodeDetermined | src/script.js:118-130 | the contract of `Encode` determines it: any buffer whose texels and tail satisfy it equals `Encode`, so the encoding is deterministic |
| StateTexture.EncodeIdempotent | src/script.js:118-130 | running the packing a second time over its own output changes nothing |
| StateTexture.EncodeIgnoresOldTexels | src/script.js:118-130 | the previous contents of the particle texels do not matter: two buffers that agree from index `4*count` on encode to the same texture |
| StateTexture.InitialState | src/script.js:104-130 | the start-up texture has `4*size*size` entries for `size = TexSize(count)`; texel `i` is `(x_i, y_i, z_i, 0)` for each particle; unpacking it returns the positions; every padding entry is `0` |
| StateTexture.Pack | src/script.js:118-130 | the in-place loop leaves the texel buffer equal to `Encode(pos, old buffer, count)`; it writes only the texel buffer, so the position buffer is only read; every index it reads or writes is in bounds |
| StateTexture.BuildStateTexture | src/script.js:104-130 | returns `size = TexSize(count)` and a fresh buffer of `4*size*size` entries whose contents equal `InitialState(pos, count)`, with all writes in bounds |

## Left out

- Floating-point `Math.sqrt` and `Math.ceil` (src/script.js:104-105) are modelled as the exact integer ceiling square root. The two agree for any particle count a position buffer can realistically hold.
- The element type is `real`. Float32 storage is not modelled, because the loop only copies values between two float32 buffers and never rounds them.
- `createTexture` (src/script.js:116) is a library call. Its zero-filled buffer is modelled by allocating a zero-filled array of `4*size*size` entries in `BuildStateTexture`.
- `Pack` requires the position buffer to hold exactly `3*count` entries and to be a different array from the texel buffer. The position attribute always satisfies both, because its count is its array length divided by 3 and the texture is a newly created object.
- Scene, camera, renderer, orbit controls, GLTF/DRACO loaders and the debug plane: these are library object construction with no logic of their own.
- The `GPUComputationRenderer` set-up, the variable and its dependencies, `init`, `compute` and `getCurrentRenderTarget`: the ping-pong simulation runs on the graphics device inside a library and shaders that are not part of this model.
- The GLSL shaders and the per-particle UV mapping are not part of this model.
- The resize handler and the resolution uniform products: these are DOM events and floating-point arithmetic.
- The animation loop (`tick`, elapsed and delta time, `requestAnimationFrame`): this is clock arithmetic and host scheduling.
- The lil-gui controls: these are user interface only.
