# geohashi in Dafny

This project models the integer core of the Go package `geohashi`, which stores numeric geohashes. A hash is a 64-bit word plus an 8-bit precision `prec` between 1 and 26. At precision `prec` the map is a grid of 2^prec latitude cells by 2^prec longitude cells. The word is the Morton (Z-order) interleaving of the two cell numbers:

- the latitude cell sits on the even bits;
- the longitude cell sits on the odd bits.

The model covers these parts of the source:

- the sieve constants and the two interleaving functions of `bitops.go`;
- the `Hash` type and its constructors `NewWithPrecision` and `New`;
- the integer half of `EncodeWithPrecision` and `Encode` (checking the precision, then interleaving the two grid cells);
- zooming out and in with `Parent` and `Children`;
- the cell moves `MoveX` and `MoveY`;
- the `deinterleave64` call that starts `Decode`.

Everything is bit-exact on `bv64` and `bv8`. The precision arithmetic wraps like Go's `uint8`:

- `prec - 1` wraps from 0 to 255;
- `prec + 1` wraps from 255 to 0;
- `64 - prec*2` is also computed in 8 bits;
- a Go shift by 64 or more gives 0, and `Bitops.Shr` models that.

Errors are a `Result`. A valid hash (`Geohashi.Valid`) has a legal precision and no bit at or above position `2*prec`. The source never enforces this invariant, so the theorems take it as a hypothesis. The operations themselves take any hash.

The main theorems read a valid hash as its pair of cells, `Geohashi.Cells`:

- `MoveX` by `n` moves the longitude cell `n` places around the ring of 2^prec cells and keeps the latitude cell.
- `MoveY` does the same to the latitude cell.
- A move by `-n` undoes a move by `n`.
- Two moves on the same axis compose into one move by the sum of the counts: on any hash when they go the same way, and on a valid hash when they go opposite ways.
- `Parent` drops the lowest bit of both cells.
- `Children` lists the four cells one level down, and each is the inverse of `Parent`.

The loops of `MoveX` and `MoveY` are modelled as `Steps(n)`-fold recursion (`RepeatX`, `RepeatY`) over one loop body (`StepX`, `StepY`). `Steps` reproduces Go's negation of the `int` count: the most negative `int` stays negative, and its loop runs no step at all.

The doc comment of `Children` (geohashi.go:111) gives the order south-west, south-east, north-west, north-east. The code does otherwise. `base|1` sets bit 0, which is a latitude bit, so the second child is the north-west cell. The order is therefore south-west, north-west, south-east, north-east. The model follows the code, and `Zoom.ChildrenCells` states the cells of each child by bit value.

Modules, in dependency order:

- `Bitops`: the sieve, its bit-level specification and its round trips.
- `Planes`: carry and borrow on one plane of an interleaved word.
- `Geohashi`: the operations.
- `Torus`: cell arithmetic on a ring of 2^p cells.
- `Grid`: single and repeated steps on cells.
- `Moves`: `MoveX` and `MoveY` on cells.
- `Zoom`: `Parent` and `Children` on cells.
- `Encoding`: cells to hash, and the upper edge of the map.
- `Vectors`: the concrete values of the repository's tests.

## Model

| member | source | states |
|---|---|---|
| Bitops.Shr | geohashi.go:134-151 | no ensures: Go's `>>` by a count of 64 or more gives 0, which `s1 >> shift` and `s7 >> shift` reach when the 8-bit `64 - prec*2` wraps; used by `Geohashi.StepX` and `Geohashi.StepY` |
| Bitops.Interleave64 | bitops.go:14-31 | no ensures: the sieve step by step; its meaning is stated by `Bitops.InterleaveBits` and `Bitops.DeinterleaveInterleave` |
| Bitops.Deinterleave64 | bitops.go:33-56 | no ensures: the inverse sieve step by step; its meaning is stated by `Bitops.DeinterleaveBits` and `Bitops.InterleaveDeinterleave` |
| Bitops.InterleaveBits | bitops.go:14-31 | for x, y below 2^32, bit 2i of `interleave64(x, y)` is bit i of x and bit 2i+1 is bit i of y |
| Bitops.DeinterleaveBits | bitops.go:33-56 | for every word n, bit i of the first result is bit 2i of n and bit i of the second is bit 2i+1 |
| Bitops.DeinterleaveFits | bitops.go:52-53 | both results of `deinterleave64` are below 2^32 |
| Bitops.DeinterleaveInterleave | bitops.go:14-56 | `deinterleave64(interleave64(x, y)) == (x, y)` for x, y below 2^32 |
| Bitops.InterleaveDeinterleave | bitops.go:14-56 | `interleave64` of the two results of `deinterleave64(n)` is n, for every 64-bit n |
| Bitops.InterleavePlanes | bitops.go:27-30 | x supplies exactly the even bits (`s1`) and y exactly the odd bits (`s7`) |
| Bitops.InterleaveBound | bitops.go:14-31 | x, y below 2^p with p < 32 interleave to a word below 2^(2p) |
| Bitops.DeinterleaveBound | bitops.go:33-56 | a word below 2^(2p) deinterleaves into two values below 2^p |
| Bitops.InterleaveDropPair | bitops.go:14-31 | shifting the interleaving right by 2 is interleaving both inputs shifted right by 1 |
| Bitops.DeinterleaveDropPair | bitops.go:33-56 | deinterleaving `n >> 2` gives both results of `deinterleave64(n)` shifted right by 1 |
| Bitops.DeinterleavePushPair | bitops.go:33-56 | deinterleaving `(n << 2) OR k` for a word below 2^62 pushes bit 0 of k onto the first result and bit 1 onto the second |
| Bitops.InterleaveVectors | bitops_test.go:14-20 | the seven test pairs interleave to the listed words, and the words deinterleave back |
| Planes.OddPlaneInc | geohashi.go:142-152 | the east step body adds one to the odd plane modulo 2^p: `x += zz+1` carries across the filled even positions |
| Planes.OddPlaneDec | geohashi.go:142-152 | the west step body `(x OR zz) - zz - 1` subtracts one from the odd plane modulo 2^p |
| Planes.EvenPlaneInc | geohashi.go:172-182 | the north step body adds one to the even plane modulo 2^p |
| Planes.EvenPlaneDec | geohashi.go:172-182 | the south step body subtracts one from the even plane modulo 2^p |
| Geohashi.NewWithPrecision | geohashi.go:64-71 | fails with the precision error exactly when prec is outside [1, 26]; otherwise the hash holds the given value and precision |
| Geohashi.New | geohashi.go:58-61 | the hash holds the value at precision 26 |
| Geohashi.EncodeWithPrecision | geohashi.go:80-92 | fails exactly when prec is outside [1, 26]; otherwise the hash has that precision |
| Geohashi.Encode | geohashi.go:74-77 | the hash has precision 26 |
| Geohashi.Parent | geohashi.go:102-109 | fails exactly at precision 1 (precision 0 wraps to 255 and passes); on success the precision is one less |
| Geohashi.Children | geohashi.go:113-125 | empty exactly when 26 <= prec < 255 (255 wraps to 0); otherwise four hashes, each one precision up |
| Geohashi.Child | geohashi.go:114-124 | no ensures: `(bits << 2) OR k` one precision up; its cells are stated by `Zoom.ChildCells` and its parent by `Zoom.ParentOfChild` |
| Geohashi.Negate | geohashi.go:136-138 | `n = -n` is two's-complement negation: the result is -n modulo 2^64, so it is -n for every count except the most negative, which stays itself |
| Geohashi.Steps | geohashi.go:135-141 | the loop count is n for n >= 0, -n for a negative n, and 0 for the most negative int, whose negation stays negative |
| Geohashi.ShiftX | geohashi.go:142-152 | no ensures: the MoveX loop body with `zz` and the `s7 >> shift` mask as parameters; its meaning is stated by `Planes.OddPlaneInc`, `Planes.OddPlaneDec` and `Grid.StepEastCells` |
| Geohashi.ShiftY | geohashi.go:172-182 | no ensures: the MoveY loop body, the mirror image; stated by `Planes.EvenPlaneInc`, `Planes.EvenPlaneDec` and `Grid.StepNorthCells` |
| Geohashi.StepX | geohashi.go:134-152 | no ensures: one pass of the MoveX loop with `shift := 64 - prec*2` in 8 bits; stated by `Grid.StepEastCells` and `Grid.StepWestCells` |
| Geohashi.StepY | geohashi.go:164-182 | no ensures: one pass of the MoveY loop; stated by `Grid.StepNorthCells` and `Grid.StepSouthCells` |
| Geohashi.RepeatX | geohashi.go:141-153 | no ensures: the MoveX loop as count-fold recursion; stated by `Grid.RepeatEastCells`, `Grid.RepeatWestCells` and `Moves.RepeatXCompose` |
| Geohashi.RepeatY | geohashi.go:171-183 | no ensures: the MoveY loop as count-fold recursion; stated by `Grid.RepeatNorthCells`, `Grid.RepeatSouthCells` and `Moves.RepeatYCompose` |
| Geohashi.MoveX | geohashi.go:129-155 | keeps the precision; a move by 0 returns the hash |
| Geohashi.MoveY | geohashi.go:159-185 | keeps the precision; a move by 0 returns the hash |
| Geohashi.Cells | geohashi.go:189 | no ensures: the `deinterleave64(h.bits)` call that starts `Decode`; stated by `Grid.CellsOf` and `Grid.CellsDetermine` |
| Torus.UpByAdd | geohashi.go:141-153 | k single steps up a ring of 2^p cells equal one step by k (its 64-bit word), modulo 2^p |
| Torus.DownBySub | geohashi.go:141-153 | k single steps down equal one step back by k, modulo 2^p |
| Torus.DownByUpBy | geohashi.go:141-153 | k steps down undo k steps up on a ring of 2^p cells |
| Torus.UpByDownBy | geohashi.go:141-153 | k steps up undo k steps down |
| Torus.UpByUpBy | geohashi.go:141-153 | a steps up then b steps up is a + b steps up |
| Torus.DownByDownBy | geohashi.go:141-153 | a steps down then b steps down is a + b steps down |
| Torus.UpByThenFewer | geohashi.go:141-153 | k + j steps up then j steps down is k steps up |
| Torus.UpByThenMore | geohashi.go:141-153 | i steps up then j > i steps down is j - i steps down |
| Torus.DownByThenMore | geohashi.go:141-153 | i steps down then j >= i steps up is j - i steps up |
| Torus.DownByThenFewer | geohashi.go:141-153 | k + j steps down then j steps up is k steps down |
| Grid.StepEastCells | geohashi.go:141-153 | one loop pass east keeps the latitude cell and moves the longitude cell up by one, from the last cell to cell 0 |
| Grid.StepWestCells | geohashi.go:141-153 | one loop pass west moves the longitude cell down by one, from cell 0 to the last cell |
| Grid.StepNorthCells | geohashi.go:171-183 | one loop pass north keeps the longitude cell and moves the latitude cell up by one, wrapping |
| Grid.StepSouthCells | geohashi.go:171-183 | one loop pass south moves the latitude cell down by one, wrapping |
| Grid.RepeatEastCells | geohashi.go:141-153 | k passes east move the longitude cell k single steps up and keep the latitude cell |
| Grid.RepeatWestCells | geohashi.go:141-153 | k passes west move the longitude cell k single steps down |
| Grid.RepeatNorthCells | geohashi.go:171-183 | k passes north move the latitude cell k single steps up and keep the longitude cell |
| Grid.RepeatSouthCells | geohashi.go:171-183 | k passes south move the latitude cell k single steps down |
| Grid.CellsDetermine | geohashi.go:189 | two hashes of one precision with the same deinterleaved cells are equal |
| Grid.CellsOf | geohashi.go:189 | a valid hash is the interleaving of its deinterleaved cells, and both cells are below 2^prec |
| Grid.OfCells | geohashi.go:89-90 | interleaving two cells below 2^prec gives a valid hash whose cells are those two |
| Moves.Moved | geohashi.go:134-153 | no ensures: the cell after Steps(n) single moves, up for n > 0 and down otherwise; stated by `Moves.MovedClosed`, `Moves.MovedInverse` and `Moves.RepeatXCells` |
| Moves.MoveXCells | geohashi.go:129-155 | on a valid hash, MoveX by n gives a valid hash with the same latitude cell and the longitude cell moved n cells around the ring |
| Moves.MoveYCells | geohashi.go:159-185 | on a valid hash, MoveY by n gives a valid hash with the same longitude cell and the latitude cell moved n cells around the ring |
| Moves.MovedClosed | geohashi.go:134-153 | the moved cell is the cell plus the count (n > 0), or minus its magnitude, modulo 2^p |
| Moves.StepsNegate | geohashi.go:135-141 | the loop count of a move by -n equals that of n, for every 64-bit n (the most negative int is its own negation) |
| Moves.RingHalfTurn | geohashi.go:136-141 | adding or subtracting 2^63 is no move on a ring of 2^p cells, so no move at the most negative count agrees with the ring |
| Moves.MoveMinInt | geohashi.go:136-141 | MoveX and MoveY by the most negative int return the hash unchanged |
| Moves.MovedInverse | geohashi.go:134-153 | a cell moved by n and then by -n is back where it was, for every 64-bit n (the most negative n is its own negation and moves nowhere) |
| Moves.MoveXInverse | geohashi.go:129-155 | `MoveX(MoveX(h, n), -n) == h` on a valid hash, for every 64-bit n, with `-n` in Go's wrapping negation |
| Moves.MoveYInverse | geohashi.go:159-185 | `MoveY(MoveY(h, n), -n) == h` on a valid hash, for every 64-bit n, with `-n` in Go's wrapping negation |
| Moves.RepeatXCompose | geohashi.go:141-153 | i loop passes then j passes the same way are i + j passes |
| Moves.RepeatYCompose | geohashi.go:171-183 | the same for the MoveY loop |
| Moves.MoveXCompose | geohashi.go:129-155 | two moves east (or two west) are one move by the sum, when the sum is an int other than the most negative one |
| Moves.MoveYCompose | geohashi.go:159-185 | two moves north (or two south) are one move by the sum, when the sum is an int other than the most negative one |
| Moves.MovedUpDown | geohashi.go:134-153 | a cell moved up by a > 0 and then by a negative b other than the most negative int is the cell moved by a + b |
| Moves.MovedDownUp | geohashi.go:134-153 | a cell moved down by a negative a other than the most negative int and then by b > 0 is the cell moved by a + b |
| Moves.MovedOpposite | geohashi.go:134-153 | two moves of opposite signs on a cell, neither by the most negative int, are one move by their sum |
| Moves.MoveXOpposite | geohashi.go:129-155 | on a valid hash, a move east and a move west (either order) are one MoveX by the sum of the counts |
| Moves.MoveYOpposite | geohashi.go:159-185 | on a valid hash, a move north and a move south (either order) are one MoveY by the sum of the counts |
| Zoom.ParentCells | geohashi.go:102-109 | above precision 1 the parent of a valid hash is valid and its cells are both cells shifted right by 1 |
| Zoom.ChildrenValid | geohashi.go:113-125 | below precision 26 a valid hash has four valid children, one precision up |
| Zoom.ChildCells | geohashi.go:113-125 | the cells of child k are both cells shifted left by 1, with bit 0 of k pushed onto the latitude and bit 1 onto the longitude |
| Zoom.ChildrenCells | geohashi.go:113-125 | the four children are the south-west, north-west, south-east and north-east quarters of the cell, in that order |
| Zoom.ParentOfChild | geohashi.go:102-125 | the parent of each child of a valid hash is that hash |
| Zoom.ParentOfChildren | geohashi.go:102-125 | `Parent(Children(h)[i]) == h` for every i |
| Zoom.ChildOfParent | geohashi.go:102-125 | above precision 1 a valid hash is the child of its parent indexed by its two low bits |
| Zoom.ChildrenOfParent | geohashi.go:102-125 | above precision 1 a valid hash is among the children of its parent |
| Encoding.EncodeCells | geohashi.go:80-92 | cells below 2^prec encode without error to a valid hash whose cells are those cells |
| Encoding.EncodeOfCells | geohashi.go:80-92 | encoding the cells of a valid hash at its precision gives the hash back |
| Encoding.GridCellRange | geohashi.go:85-89 | truncating d * 2^p for d in [0, 1] gives a cell in [0, 2^p], and 2^p exactly when d == 1 |
| Encoding.GridCell | geohashi.go:87-89 | no ensures: d * 2^p truncated towards zero over exact reals, as `uint64(dx*gn)` computes it; stated by `Encoding.GridCellRange` |
| Encoding.ClampedGridCell | geohashi.go:85-89 | the corrected cell is in [0, 2^p): the truncation below the edge, the last cell at it |
| Encoding.EncodeEdgeInvalid | geohashi.go:80-92 | the edge cell 2^p encodes without error to a hash that is not valid |
| Encoding.EncodeEdgeVector | geohashi.go:80-92 | at precision 26 the edge truncates to 2^26, which encodes to a hash with bit 52 set |
| Encoding.ClampCellSpec | geohashi.go:85-89 | clamping keeps every cell below 2^p and sends the edge cell to the last cell |
| Encoding.EncodeClampedValid | geohashi.go:80-92 | with clamped cells every pair of cell words encodes to a valid hash holding the clamped cells |
| Vectors.NewVectors | geohashi_test.go:16-44 | the two construction entries succeed with their value and precision (lines 16-26), and `EncodeWithPrecision` refuses precisions 0 and 27 (lines 40-44) |
| Vectors.EncodeVector | geohashi_test.go:36-38 | the cells held by the expected hash 2163558172898388 encode to that hash at precision 26 |
| Vectors.ParentVectors | geohashi_test.go:58-72 | the zoom-out chain 2163558172898388, 540889543224597, 135222385806149, and the refusal at precision 1 |
| Vectors.ChildrenVector | geohashi_test.go:75-89 | the four children of 135222385806149 at precision 24 are 540889543224596 to 540889543224599 at 25 |
| Vectors.MoveVectors | geohashi_test.go:91-124 | the east, west, north and south neighbours of 135222385806149 |
| Vectors.MoveLawVectors | geohashi_test.go:102-124 | the composition checks of the move tests |

## Left out

- Floating-point coordinate math. This covers the normalisation `(lat - LatMin) / latScale`, the scale by 2^prec and the `uint64` truncation in `EncodeWithPrecision` (geohashi.go:85-88). The model encodes from integer grid cells. `Encoding` models the truncation over exact reals only, to show the upper-edge finding.
- The float arithmetic in `Decode` (geohashi.go:190-198). Only its `deinterleave64` call is modelled (`Geohashi.Cells`).
- `Area`, `Center` and `Contains` (float geometry), and the unused `maxDecimalPower`.
- `MarshalBinary` and `UnmarshalBinary`. They wrap Go's `encoding/binary` varint, which is not part of this model.
- The `Value` and `Precision` accessors. They are the two fields of `Geohashi.Hash`.
- The hash Go returns next to `ErrInvalidPrecision`. It is always the zero hash `Hash{0, 0}`: `NewWithPrecision` and `EncodeWithPrecision` return their zero result, and `Parent` fails only at precision 1, where `prec - 1` is 0 and the bits are never set (geohashi.go:103-105). The model returns only the error.
- Go's `int` is taken to be 64 bits (`Geohashi.int64`).
- The corrected cell rule is defined twice, over integers (`ClampedGridCell`, from the truncated real) and over 64-bit cell words (`ClampCell`, which the encoding uses). No lemma relates the two, because relating integers to 64-bit words was too costly for the solver. For the same reason the integer edge cell `GridCell(1.0, p) == Pow2(p)` and the word edge cell `Mask(p) + 1` are joined only at precision 26, by `Encoding.EncodeEdgeVector`.
- Moves.MovedClosed: states the move as adding the count's 64-bit word (`Torus.Word`, the count modulo 2^64) modulo 2^p, not as integer `(cell + n) mod 2^p`. The two agree because 2^p divides 2^64, but no integer statement is proved, because relating 64-bit words to integers was too costly for the solver.
- Moves.MoveXCompose: proved only for two counts of the same sign whose sum is an int other than the most negative one. Counts of opposite signs are covered by `Moves.MoveXOpposite`, which needs a valid hash. No composition law is proved when one count is the most negative int, or when two negative counts sum to it. Go's loop runs no step at that count, while the ring arithmetic that would show the law still holds would have to relate 64-bit words to integers, which was too costly for the solver.
- Moves.MoveYCompose: the same restriction as `Moves.MoveXCompose`; opposite signs are covered by `Moves.MoveYOpposite`.
- Moves.MovedUpDown: excludes a negative count equal to the most negative int. Go's loop accepts it, and on the ring a move down by 2^63 - a is a move up by a modulo 2^p, but showing that needs 64-bit words related to integers, which was too costly for the solver.
- Moves.MovedDownUp: excludes the most negative int as its negative count, for the reason given under `Moves.MovedUpDown`.
- Moves.MovedOpposite: `Opposite` excludes a count equal to the most negative int, for the reason given under `Moves.MovedUpDown`.
- Moves.MoveXOpposite: requires a valid hash and excludes the most negative count, for the reason given under `Moves.MoveXCompose`.
- Moves.MoveYOpposite: the same restriction as `Moves.MoveXOpposite`.
- The Go test scaffolding (beyond the vectors in `Vectors`), the benchmark and the example's base64 output.

## Findings

| source | as written | input that shows it | evidently intended | confidence | as-written member | corrected member |
|---|---|---|---|---|---|---|
| geohashi.go:85-89 | the cell is `uint64(d * 2^prec)` with `d = (lat - LatMin) / latScale`. At `lat == LatMax`, d is 1, so the cell is 2^prec, one past the last. The hash then has bit `2*prec` set and is returned without error. The same happens at `lon == LonMax`. | `EncodeWithPrecision(LatMax, lon, 26)`: latitude cell 2^26 = 0x400_0000, and bit 52 of the hash is set | a coordinate on the upper edge falls in the last cell, 2^prec - 1, as `Area.Contains` treats the bounds as inclusive | not executed; high: the edge fraction is exactly 1 in exact arithmetic, and also in float64, where `LatMax - LatMin` and the constant `latScale` are both twice the double nearest 85.05112878 (float rounding itself is not modelled) | Encoding.EncodeEdgeInvalid | Encoding.EncodeClampedValid |
