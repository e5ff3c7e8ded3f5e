# livesplit-icon-generator: the path geometry, in Dafny

This project models the geometric core of the LiveSplit icon generator.
That core is the part of `src/main.rs` that computes the two SVG paths of the icon:

- the outline of a triangle with rounded corners;
- the translucent shadow band that crosses the red and blue badges.

Both paths are strings of SVG path data (section 8.3 of SVG 1.1). A small
`PathBuilder` appends them command by command, writing every coordinate
rounded to thousandths.

The model has five modules:

- `Geometry` (`geometry.dfy`): `lerp`, `lerp_vec` and `intersect`, over exact reals.
- `Rounding` (`rounding.dfy`): `r`, the rounding to thousandths with half-way cases away from zero, as `f64::round` does.
- `Decimal` (`decimal.dfy`): the text `write!("{}", r(x))` produces for a coordinate, and a reader that parses it back.
- `Path` (`path.dfy`):
  - the commands M, L, C and Z, and their text;
  - `PathBuilder` as a class whose buffer only grows;
  - a decoder that reads a path text back into its commands;
  - `Trace`, the pieces a path draws.
- `Icon` (`icon.dfy`): the rounded-triangle loop and the shadow construction, as methods driving the builder. Each is proved against a function that lists the calls it makes.

`PathBuilder` keeps a ghost record `cmds` of the calls made so far. Its
invariant `Valid()` says the buffer is exactly the text of those calls. Each
method states the buffer it leaves behind: the old buffer plus that command's
text. On top of that:

- `DecodeSerialize` proves the text is lossless: decoding it gives back every command with its points rounded by `r`.
- `LettersOfSerialize` proves that the code letters in the text are the commands, in order.

The source aborts with `unwrap` when an intersection is degenerate. The
shadow method models that abort as `None`.

The shadow path makes one `move_to`, eight `line_to` calls (src/main.rs:251-254,
258-259, 268 and 275), one `cubic_to` and `close`, so its letters are
`MLLLLLLLLCZ`. Its offsets from the badge centres are `[dx, dy]` and the
multiples 2.0 and 1.5 of the perpendicular `[-dy, dx]`. Two of its points come
from `intersect`: the first point, `top_intersect` (src/main.rs:250), and the
eighth, `bottom_intersect` (src/main.rs:268). The last point before `Z` is the
end of the cubic around corner 1 (src/main.rs:279).

## Model

| member | source | states |
|---|---|---|
| Geometry.Lerp | src/main.rs:11-13 | `lerp` gives `a` at t = 0 and `b` at t = 1 |
| Geometry.LerpProportional | src/main.rs:11-13 | `lerp` moves away from `a` in proportion to `t`, and stays between `a` and `b` when t is in [0, 1] |
| Geometry.LerpVec | src/main.rs:15-17 | `lerp_vec` is `lerp` on each coordinate, and it gives `a` at t = 0 and `b` at t = 1 |
| Geometry.LerpVecOnSegment | src/main.rs:15-17 | the point `lerp_vec` returns lies on the line through `a` and `b`, and on the segment between them when t is in [0, 1] |
| Geometry.LerpVecSwap | src/main.rs:15-17 | interpolating from `b` to `a` at 1 - t gives the same point as from `a` to `b` at t |
| Geometry.Intersect | src/main.rs:23-31 | `intersect` returns None exactly when the determinant is below 1e-6 in magnitude; otherwise it returns `lerp_vec(a1, a2, t)` with the source's `t`, a point on both lines |
| Geometry.IntersectionOnSecondLine | src/main.rs:29-30 | the point at parameter `t` on line a1-a2 lies on line b1-b2 whenever the determinant is non-zero |
| Geometry.IntersectUnique | src/main.rs:23-31 | when `intersect` returns a point, every point on both lines is that point |
| Geometry.ParallelIsNone | src/main.rs:24-27 | exactly parallel lines always give None |
| Rounding.RoundHalfAway | src/main.rs:20 | `round` is within 0.5 of its argument, and a tie goes away from zero |
| Rounding.R | src/main.rs:19-21 | `r(x)` is a whole number of thousandths, within 0.0005 of `x`, and a tie goes away from zero |
| Rounding.RIdempotent | src/main.rs:19-21 | `r(r(x)) == r(x)` |
| Rounding.RNearest | src/main.rs:19-21 | no multiple of 0.001 is nearer to `x` than `r(x)` |
| Decimal.Num | src/main.rs:43-60 | the text `{}` writes for `r(x)` is non-empty and made only of digits, `-` and `.`; the body writes the exact decimal of `r(x)`, or `-0` for a negative `x` that rounds to zero, and Decimal.NumRoundTrip proves it reads back as `r(x)` |
| Decimal.NumRoundTrip | src/main.rs:42-44 | the text written for `r(x)`, including `-0`, reads back as the thousandths of `r(x)` |
| Decimal.MilliTextRoundTrip | src/main.rs:42-44 | the decimal text of k/1000 reads back as k |
| Path.Coords | src/main.rs:43-59 | definition only: the `{},{}` text of one point, both coordinates through `r` (that it holds no code letter is Path.CoordsPlain) |
| Path.Text | src/main.rs:42-65 | definition only: the text one builder call writes, `M`/`L` and one point, `C` and three points separated by spaces, or `Z` (its shape is Path.TextShape, its round trip Path.ParseText) |
| Path.TextShape | src/main.rs:42-65 | each builder call writes its code letter first and no other code letter; `close` writes exactly `Z` |
| Path.ParseText | src/main.rs:42-61 | the text of one call reads back as that command with its points rounded: one point for M and L, three for C |
| Path.PathBuilder.constructor | src/main.rs:38-40 | `new` starts with an empty buffer and no commands |
| Path.PathBuilder.MoveTo | src/main.rs:42-44 | `move_to` appends the text of one M command to the buffer and keeps the buffer equal to the text of all calls |
| Path.PathBuilder.LineTo | src/main.rs:46-48 | `line_to` appends the text of one L command, and the invariant holds |
| Path.PathBuilder.CubicTo | src/main.rs:50-61 | `cubic_to` appends the text of one C command with its three points, and the invariant holds |
| Path.PathBuilder.Close | src/main.rs:63-65 | `close` appends exactly `Z`, and the invariant holds |
| Path.SerializeShape | src/main.rs:33-66 | a path text starts with its first command's letter and ends with `Z` when the last call was `close` |
| Path.LettersOfSerialize | src/main.rs:33-66 | the code letters of a path text are the letters of the calls, in the order they were made |
| Path.DecodeSerialize | src/main.rs:33-66 | decoding the buffer gives back every call, with its points rounded by `r` |
| Icon.Before | src/main.rs:196 | `(i + 3 - 1) % 3` is a corner index other than `i` |
| Icon.After | src/main.rs:198 | `(i + 1) % 3` is a corner index other than `i` and other than the corner before it, and the corner before it is `i` |
| Icon.CyclicOrder | src/main.rs:195-198 | the loop visits the corners 0, 1, 2 in cyclic order |
| Icon.FractionsOrdered | src/main.rs:205-207 | 0 <= 0.3 - 0.125 < 0.3 < 0.7 < 0.7 + 0.125 <= 1 |
| Icon.RoundedTriangle | src/main.rs:193-216 | the loop's buffer is the text of `Outline(corners)` |
| Icon.CornerCommands | src/main.rs:196-213 | definition only: the calls of one loop iteration, a move for corner 0, the corner's cubic, and a line unless it is corner 2 (what they add up to is Icon.OutlineIs; that the loop makes them is Icon.RoundedTriangle) |
| Icon.OutlineIs | src/main.rs:199-216 | the loop makes the calls M C L C L C Z with the source's points: a move only for corner 0 and no line after corner 2 |
| Icon.OutlineText | src/main.rs:193-216 | the outline text starts with M, ends with Z, has the letters `MCLCLCZ`, and decodes to the rounded calls |
| Icon.OutlinePieces | src/main.rs:193-216 | the outline draws, for each corner in turn, its corner curve and then the straight middle of the next edge; the last straight part is the one `close` draws |
| Icon.CornerCurveOnEdges | src/main.rs:205-207 | the end points and control points of each corner curve lie on the two edges that meet at that corner |
| Icon.OutlineCloses | src/main.rs:199-216 | the path starts where the straight part of edge 2-0 ends, and that part has length |
| Icon.ShadowPath | src/main.rs:236-282 | the shadow buffer is the text of `Shadow(...)`, or None exactly when either `intersect` gives None (where the source panics) |
| Icon.TopIntersect | src/main.rs:242-248 | definition only: `intersect` of the tangent at `red + [dx, dy]` with edge 0-1 (its meaning is Icon.ShadowIntersections and Icon.ShadowAborts) |
| Icon.BottomIntersect | src/main.rs:261-267 | definition only: `intersect` of the tangent at `blue - [dx, dy]` with edge 1-2 (its meaning is Icon.ShadowIntersections and Icon.ShadowAborts) |
| Icon.ShadowAborts | src/main.rs:242-267 | the shadow aborts exactly when one of the two tangent lines is within 1e-6 of parallel to its edge |
| Icon.ShadowText | src/main.rs:250-282 | the shadow text starts with M, ends with Z, has the letters `MLLLLLLLLCZ`, and decodes to the rounded calls |
| Icon.ShadowIntersections | src/main.rs:242-267 | the top point is on edge 0-1 and on the tangent to the red badge at `red + [dx, dy]`; the bottom point is on edge 1-2 and on the tangent to the blue badge at `blue - [dx, dy]` |
| Icon.ShadowFollowsOutline | src/main.rs:268-282 | the shadow's last three pieces run along edge 1-2, trace corner 1 of the outline backwards, and return along edge 0-1 |

## Left out

- `main` (src/main.rs:68-85): writing files, loading fonts, rasterising with resvg, and encoding PNG. These are I/O and foreign library calls.
- The XML writer in `src/xml.rs` and the element and attribute output of `write`. This covers defs, gradients, the filter chain, `use` and `circle` elements, and colours. `src/xml.rs` is not part of this model, and the paths are modelled up to the `d` string they produce.
- Corner and badge placement with `sin`, `cos` and `TAU` (src/main.rs:103-135, 236-237). The three corners, the red and blue badge centres, and `[dx, dy]` are parameters.
- `f64` arithmetic. Coordinates are exact reals, so rounding error in `lerp`, `intersect` and `x * 1000.0` is not modelled.
- Geometry.Intersect: the source's `t` can be inexact in floating point. The model computes `t` exactly, so the intersection lies exactly on both lines.
- Decimal.NumRoundTrip: `Display` of an `f64` prints the shortest text that reads back as the same `f64`. For a whole number of thousandths of ordinary size, that is its exact decimal, and that is what `Num` writes. Magnitudes so large that the `f64` nearest to k/1000 no longer prints as that decimal are not modelled.
- The `let _ =` in the builder methods drops an error that `write!` into a `String` never returns, so the model has no error path there.
- Icon.ShadowPath: the panic of `unwrap` is modelled as a `None` result. The partly built shadow buffer is discarded in both.
