# Cube constants

A model of the constants module of a browser 3D demo gallery
(`src/config/constants.ts`). The module exports two process-wide values:

- `CUBE_COLORS`, an object literal mapping the six face names of a
  Rubik's-style cube (`front`, `back`, `top`, `bottom`, `right`, `left`) to hex
  colour strings;
- `CUBE_POSITIONS`, the 27 lattice cells `[x, y, z]` of a 3×3×3 cube, built
  once by three nested counting loops (x outermost, z innermost, each from -1
  to 1) that push one triple per innermost iteration.

`cube_positions.dfy` (module `CubePositions`) models the generator as a method
with three nested `while` loops appending to a `seq<(int, int, int)>`. Its loop
invariants tie the partial sequence to a reference enumeration defined by the
closed form of the loop order: cell (x, y, z) sits at index
`9*(x+1) + 3*(y+1) + (z+1)`. The method's result is that fixed sequence, so
generation is deterministic. The length and the bounds are postconditions of
`Enumeration`; lemmas give coverage, distinctness, the lexicographic order and
the cells at indices 0, 13 and 26.

`cube_colors.dfy` (module `CubeColors`) models the face set as a closed
datatype, the object literal as a `map<string, string>`, and a property read
`CUBE_COLORS[k]` as a function returning `None` where JavaScript gives
`undefined`. `wrappers.dfy` holds the `Option` type.

Reading a property the object does not have yields `undefined`, so `Lookup`
returns `None` for such a name; `ColorOf` is total over `Face`.

## Model

| member | source | states |
|---|---|---|
| CubePositions.Generate | src/config/constants.ts:10-20 | the nested x/y/z loops from -1 to 1 push exactly the reference enumeration, whatever the run, so two runs give the same sequence |
| CubePositions.Enumeration | src/config/constants.ts:12-18 | the generated sequence has 27 entries, each inside the cube, and entry i is the cell whose x-outer/z-inner rank is i |
| CubePositions.CellAt | src/config/constants.ts:12-14 | every index below 27 decodes to a triple with all three coordinates in -1..1 |
| CubePositions.IndexOf | src/config/constants.ts:12-14 | every cell of the cube has a rank below 27 |
| CubePositions.CellAtIndexOf | src/config/constants.ts:12-15 | decoding the rank of a cell gives back the cell |
| CubePositions.IndexOfCellAt | src/config/constants.ts:12-15 | the rank of the cell at an index is that index |
| CubePositions.Coverage | src/config/constants.ts:12-15 | a triple occurs in the sequence if and only if each coordinate is in {-1, 0, 1}, and a cube cell occurs at index 9*(x+1)+3*(y+1)+(z+1) |
| CubePositions.Distinct | src/config/constants.ts:12-15 | no triple occurs at two indices |
| CubePositions.LexLessIsRankOrder | src/config/constants.ts:12-14 | for cube cells, lexicographic order on (x, y, z) coincides with order of index |
| CubePositions.StrictlyIncreasing | src/config/constants.ts:12-15 | x varies slowest and z fastest: every earlier entry is lexicographically smaller than every later one |
| CubePositions.Landmarks | src/config/constants.ts:12-18 | index 0 holds (-1,-1,-1), index 13 holds (0,0,0), index 26 holds (1,1,1) |
| CubeColors.FaceOfKey | src/config/constants.ts:1-8 | a name is recognised exactly when it is the property name of some face, and then of that face |
| CubeColors.NamedFace | src/config/constants.ts:2-7 | the recognised names are exactly the six literals front, back, top, bottom, right, left |
| CubeColors.Table | src/config/constants.ts:1-8 | the object's keys are exactly the six face names and every value has the `#rrggbb` shape |
| CubeColors.TableSize | src/config/constants.ts:1-8 | the object has six entries, one per face |
| CubeColors.ColorOf | src/config/constants.ts:2-7 | every face has a colour, of the `#rrggbb` shape |
| CubeColors.Lookup | src/config/constants.ts:1-8 | reading a property yields a value exactly when the name is a face's, and then that face's colour |
| CubeColors.LookupOutsideFaces | src/config/constants.ts:1-8 | reading any other name yields undefined |
| CubeColors.FacesListed | src/config/constants.ts:1-8 | the declaration order lists every face exactly once, each under a name that maps back to it, and the table's keys are exactly the names of the listed faces |
| CubeColors.KeyInjective | src/config/constants.ts:2-7 | no two faces share a property name |
| CubeColors.ColorsDistinct | src/config/constants.ts:2-7 | the six colour values are pairwise distinct, so each face has its own colour |
| CubeColors.ColorLiterals | src/config/constants.ts:2-7 | front is #ff0000, back #ff8c00, top #ffffff, bottom #ffff00, right #00ff00, left #0000ff |

## Left out

- `src/router/index.ts`: a static route table handed to vue-router; it has no logic of its own and depends on the framework and browser history.
- The view components and the 3D rendering library that consume the constants are not part of this model.
- The meaning of the colour strings (parsing to RGB, rendering): they are opaque strings, checked only for their `#rrggbb` shape.
- The timing of module initialisation (the immediately invoked function at `src/config/constants.ts:10` and `:20`): the model has only the value it produces.
- Lookup: properties inherited from `Object.prototype` (such as `toString`) are not modelled; every name that is not a face reads as `undefined`.
- LookupOutsideFaces: properties inherited from `Object.prototype` (such as `toString`) are not modelled, so the lemma's "any other name reads as `undefined`" does not cover them.
- Table: `export const` fixes the binding but does not freeze the object; the model describes the object as first built, and property writes made by importers are not modelled.
- Generate: `export const` fixes the binding but does not freeze the array; the model describes the array as first built, and pushes or overwrites made by importers are not modelled.
- Generate: the positions are JavaScript arrays `[x, y, z]`, which are mutable and compared by reference; the model uses immutable value triples.
