# ThreeTile.Core in Dafny

A model of the rule engine of ThreeTile, a layered tile-matching puzzle. Tiles sit in a
layered grid, and a tile covered from above is locked. The player moves unlocked tiles into a
bounded staging area. There, `k` tiles of one colour clear into the completed pile, the Corral.
The model covers:

- packed coordinates;
- tile geometry and neighbour cells;
- the per-layer shadow bitsets and their propagation manager;
- the board (`Pasture`) with its lock and visibility flags and its reveal queries;
- the staging area and the Corral;
- reversible select moves and the level's move history;
- the combination generators and the easy and hard clear emitters;
- the chained-reveal search `GetLogicBehaviours3`;
- the level string codec;
- the designer's slot simulator, its stack-based sequence builder, the `ColorBuilder` structure
  policies and the `ColorDistributor` arithmetic.

Each component is a module of immutable datatypes and pure functions. A mutation in the source
becomes a function from the old value to the new one. Tiles are identified by their `Index`, as
the source's equality does. A throw in the source is a `Fail` of the exception kind
(`Outcomes.Fault`). Random numbers and the preference policy are function parameters, so every
run of the source is a run of the model for some choice of them.

Shadow words are naturals below 2^32, not bit-vectors. Each word is refined against the set of
cells it holds.

Where the documentation and the code disagree, the model follows the code:

- `Deserialize`'s doc comment (ThreeTile.Core/ExtensionTools/GameStringTools.cs:9) says it
  returns null on a position conflict. In the code, `AddTile` silently skips a colliding tile
  (ThreeTile.Core/Core/Zones/Pasture.cs:121-125), and the level is built from the others.
  `Levels.PopulateSurvivors` states this skip.
- The hard-clear search grows the fixed set to at most two tiles. The nested call passes no
  continuation (ThreeTile.Core/Core/Level.FSE.cs:77-90). The model keeps this limit, and
  `Enumeration.ReachedDepth` states it.
- `Expand` and `LockersOf` look at the default 2x2x1 footprint, whatever the tile's volume
  (ThreeTile.Core/Core/Zones/Pasture.cs:229, 248). The model keeps the code as written. The
  footprint-aware versions are recorded under "## Findings".

## Model

| member | source | states |
|---|---|---|
| Packed.PackBytes | ThreeTile.Core/ExtensionTools/PackedXyzExtensions.cs:15-18 | three bytes pack into one value of the 24-bit range |
| Packed.Pack | ThreeTile.Core/ExtensionTools/PackedXyzExtensions.cs:20-23 | the int overload lands in [0, 2^24) and is the byte packing of the low byte of each component |
| Packed.Unpack | ThreeTile.Core/ExtensionTools/PackedXyzExtensions.cs:27-40 | `UnpackXyz` returns the three components that `X`, `Y` and `Z` read |
| Packed.UnpackPack | ThreeTile.Core/ExtensionTools/PackedXyzExtensions.cs:15-30 | unpacking a packed byte triple gives the triple back |
| Packed.PackUnpack | ThreeTile.Core/ExtensionTools/PackedXyzExtensions.cs:20-30 | packing the unpacked components gives back every value of the 24-bit range |
| Packed.PackInjective | ThreeTile.Core/ExtensionTools/PackedXyzExtensions.cs:27-30 | two values of the 24-bit range are equal exactly when their unpacked triples are |
| Packed.PackCongruent | ThreeTile.Core/ExtensionTools/PackedXyzExtensions.cs:20-23 | components with the same low bytes pack to the same value |
| Packed.PackWraps | ThreeTile.Core/ExtensionTools/PackedXyzExtensions.cs:20-23 | each component wraps modulo 256, so `(-1, y, z)` packs like `(255, y, z)` |
| Packed.PackComponents | ThreeTile.Core/ExtensionTools/PackedXyzExtensions.cs:20-30 | unpacking an int packing gives the low byte of each component |
| Packed.X | ThreeTile.Core/ExtensionTools/PackedXyzExtensions.cs:38 | no contract of its own; PackAxes and UnpackPack state that it reads back the x byte of a packing |
| Packed.Y | ThreeTile.Core/ExtensionTools/PackedXyzExtensions.cs:39 | no contract of its own; PackAxes and UnpackPack state that it reads back the y byte of a packing |
| Packed.Z | ThreeTile.Core/ExtensionTools/PackedXyzExtensions.cs:40 | no contract of its own; PackAxes and UnpackPack state that it reads back the z byte of a packing |
| Packed.PackAxes | ThreeTile.Core/ExtensionTools/PackedXyzExtensions.cs:38-40 | `X`, `Y` and `Z` of an int packing are the low bytes of the components |
| Packed.WithX | ThreeTile.Core/ExtensionTools/PackedXyzExtensions.cs:50-51 | the x byte becomes `x & 0xFF` and every bit from 8 up is kept |
| Packed.WithY | ThreeTile.Core/ExtensionTools/PackedXyzExtensions.cs:53-54 | the y byte becomes `y & 0xFF`; the x byte and every bit from 16 up are kept |
| Packed.WithZ | ThreeTile.Core/ExtensionTools/PackedXyzExtensions.cs:56-57 | the z byte becomes `z & 0xFF`; bits 0-15 and every bit from 24 up are kept |
| Packed.WithByteAgrees | ThreeTile.Core/ExtensionTools/PackedXyzExtensions.cs:59-66 | the byte overloads, which or a byte into the cleared bits, agree with the int overloads on byte inputs |
| LockStatus.DefaultDims | ThreeTile.Core/ExtensionTools/LockStatusTools.cs:99-104 | with no volume the box is the default (2, 2, 1) |
| LockStatus.Left | ThreeTile.Core/ExtensionTools/LockStatusTools.cs:9-29 | exactly the dy·dz cells at x − 1 over the rows and layers of the box, each once |
| LockStatus.Right | ThreeTile.Core/ExtensionTools/LockStatusTools.cs:31-51 | exactly the dy·dz cells at x + dx |
| LockStatus.Front | ThreeTile.Core/ExtensionTools/LockStatusTools.cs:53-74 | exactly the dx·dz cells at y + dy |
| LockStatus.Behind | ThreeTile.Core/ExtensionTools/LockStatusTools.cs:76-97 | exactly the dx·dz cells at y − 1 |
| LockStatus.Up | ThreeTile.Core/ExtensionTools/LockStatusTools.cs:99-119 | exactly the dx·dy cells at z + dz over the footprint |
| LockStatus.Down | ThreeTile.Core/ExtensionTools/LockStatusTools.cs:121-137 | exactly the dx·dy cells at z − 1 over the footprint |
| LockStatus.Offset | ThreeTile.Core/ExtensionTools/LockStatusTools.cs:132 | no contract of its own; OffsetComponents states each component of the cell it gives, and OffsetCompose that two moves compose |
| LockStatus.OffsetComponents | ThreeTile.Core/ExtensionTools/LockStatusTools.cs:132 | each component of a neighbour cell is the position's shifted and wrapped to a byte, so z − 1 at layer 0 is layer 255 |
| LockStatus.OffsetCompose | ThreeTile.Core/ExtensionTools/LockStatusTools.cs:9-137 | moving a cell twice is moving it once by the summed offsets |
| LockStatus.UpIsDownOfLifted | ThreeTile.Core/ExtensionTools/LockStatusTools.cs:99-137 | the cells above a box are the cells below the same footprint lifted dz + 1 layers |
| LockStatus.RightIsLeftOfShifted | ThreeTile.Core/ExtensionTools/LockStatusTools.cs:9-51 | the cells right of a box are the cells left of the box moved dx + 1 columns |
| LockStatus.FrontIsBehindOfShifted | ThreeTile.Core/ExtensionTools/LockStatusTools.cs:53-97 | the cells in front of a box are the cells behind the box moved dy + 1 rows |
| Tiles.ComputeTopZ | ThreeTile.Core/Core/Tile.cs:123-128 | for a box at least one layer high the top face layer is from z0 to z0 + dz − 1 |
| Tiles.BoxCellsLength | ThreeTile.Core/Core/Tile.cs:133-148 | the box has dx·dy·dz cells |
| Tiles.BoxCellsMembers | ThreeTile.Core/Core/Tile.cs:133-148 | the box holds exactly the offsets (i, j, k) of the position within the volume |
| Tiles.TopCellsLength | ThreeTile.Core/Core/Tile.cs:153-168 | the top face has dx·dy cells |
| Tiles.TopCellsMembers | ThreeTile.Core/Core/Tile.cs:153-168 | the top face holds exactly the cells above the footprint on layer `ComputeTopZ` |
| Tiles.NewTile | ThreeTile.Core/Core/Tile.cs:84-94 | the constructor keeps index, colour and position, defaults the volume to (2, 2, 1), starts unlocked, visible and in no zone, with caches that agree with the geometry |
| Tiles.TopInBox | ThreeTile.Core/Core/Tile.cs:133-168 | the top face is a subset of the box |
| Tiles.TopFacts | ThreeTile.Core/Core/Tile.cs:153-168 | every top cell lies in the box, is a 24-bit packed value and sits on the layer of `TopZ` |
| Tiles.DefaultTile | ThreeTile.Core/Core/Tile.cs:22-25 | a default tile has four cells, four top cells and its top on its own layer |
| Tiles.SetLocked | ThreeTile.Core/Core/Tile.cs:104 | only the lock flag changes |
| Tiles.SetVisible | ThreeTile.Core/Core/Tile.cs:106 | only the visibility flag changes |
| Tiles.SetZone | ThreeTile.Core/Core/Tile.cs:111-114 | only the zone changes |
| Tiles.SetColor | ThreeTile.Core/Core/Tile.cs:102 | only the colour changes |
| Tiles.SameTile | ThreeTile.Core/Core/Tile.cs:190-198 | no contract of its own; EqualityContract states that index equality is an equivalence |
| Tiles.HashCode | ThreeTile.Core/Core/Tile.cs:200-201 | no contract of its own; EqualityContract states that equal tiles hash alike |
| Tiles.EqualityContract | ThreeTile.Core/Core/Tile.cs:190-201 | index equality is an equivalence and equal tiles hash alike |
| Tiles.CloneAsWritten | ThreeTile.Core/Core/Tile.cs:174-188 | the clone made as written is the same tile by index but carries the original's volume as its colour and the default volume |
| Tiles.CloneAsWrittenLosesColor | ThreeTile.Core/Core/Tile.cs:176 | a default tile of colour 5 clones to colour 66050 |
| Tiles.Clone | ThreeTile.Core/Core/Tile.cs:174-188 | the clone with the arguments in declared order equals the original in every field |
| Tiles.InZone | ThreeTile.Core/Core/Zones/Corral.cs:35-45 | every tile of the list, in order, moved to the zone |
| Tiles.Find | ThreeTile.Core/Core/Zones/StagingArea.cs:193-216 | the position of the first tile with the index, or −1 exactly when none has it |
| Tiles.ColorsOfMultiset | ThreeTile.Core/Core/Zones/StagingArea.cs:94-97 | lists with the same tiles have the same colour bag |
| Tiles.ByColor | ThreeTile.Core/Core/Zones/StagingArea.cs:225-236 | the tiles of one colour in list order: each tile of that colour as often as in the list, no other, as many as the colour bag counts |
| Tiles.ByColorAppend | ThreeTile.Core/Core/Zones/StagingArea.cs:225-236 | filtering a list with one more tile appends that tile exactly when it has the colour |
| Tiles.ByColorWithin | ThreeTile.Core/Core/Zones/StagingArea.cs:225-236 | the filtered tiles are tiles of the list, all of the colour |
| Tiles.AppendTallies | ThreeTile.Core/Core/Zones/StagingArea.cs:94-97 | appending a tile adds one to its colour's counter and keeps the counters equal to the colour bag |
| Tiles.DropTallies | ThreeTile.Core/Core/Zones/StagingArea.cs:158-162 | dropping a counted tile takes one off its colour and keeps the counters equal to the colour bag |
| Counters.Inc | ThreeTile.Core/Core/Zones/StagingArea.cs:94-97 | the colour's count goes up by one (a new colour starts at one) and no other entry changes |
| Counters.Dec | ThreeTile.Core/Core/Zones/StagingArea.cs:158-162 | the colour's count goes down by one, the entry disappears at zero and no other entry changes |
| Counters.IncTallies | ThreeTile.Core/Core/Zones/StagingArea.cs:94-97 | a counter equal to a colour bag stays equal to it after one more copy of a colour |
| Counters.DecTallies | ThreeTile.Core/Core/Zones/StagingArea.cs:158-162 | a counter equal to a colour bag stays equal to it after one copy is taken out, zeros removed |
| Counters.TalliesUnique | ThreeTile.Core/Core/Zones/StagingArea.cs:94-97 | a counter determines its bag |
| Counters.TallyOfUnique | ThreeTile.Core/Core/Zones/StagingArea.cs:94-97 | a bag determines its counter, so zero entries never linger |
| Counters.DecInc | ThreeTile.Core/Core/Zones/StagingArea.cs:185-190 | a decrement undoes an increment |
| Counters.IncDec | ThreeTile.Core/Core/Zones/StagingArea.cs:185-190 | an increment undoes a decrement |
| Counters.TalliesRemoveAll | ThreeTile.Core/Core/Zones/Corral.cs:66-84 | taking every copy of one colour out drops that colour and keeps every other count |
| Outcomes.Need | ThreeTile.Core/Core/Zones/StagingArea.cs:58-68 | a guard clause succeeds exactly when its condition holds and otherwise fails with its exception |
| Texts.Split | ThreeTile.Core/ExtensionTools/GameStringTools.cs:16 | `Split` yields at least one piece, no piece holds the separator, and the pieces joined by the separator are the text |
| Texts.SplitJoin | ThreeTile.Core/ExtensionTools/GameStringTools.cs:24-30 | splitting undoes joining pieces that hold no separator |
| Texts.SplitSep | ThreeTile.Core/ExtensionTools/GameStringTools.cs:24-30 | a separator between two texts separates their pieces |
| Texts.TrimStart | ThreeTile.Core/ExtensionTools/GameStringTools.cs:14 | the suffix left once leading cut characters are gone, which starts with a character outside the cut set |
| Texts.TrimEnd | ThreeTile.Core/ExtensionTools/GameStringTools.cs:14 | the prefix left once trailing cut characters are gone, which ends with a character outside the cut set |
| Texts.Trim | ThreeTile.Core/ExtensionTools/GameStringTools.cs:14 | no contract of its own; TrimStart, TrimEnd and TrimKeeps state what each end keeps |
| Texts.TrimKeeps | ThreeTile.Core/ExtensionTools/GameStringTools.cs:14 | a text that neither starts nor ends with a cut character is its own trim |
| Texts.Remove | ThreeTile.Core/ExtensionTools/GameStringTools.cs:38 | `Replace(",", "")` keeps exactly the other characters, in order |
| Texts.RemoveAppend | ThreeTile.Core/ExtensionTools/GameStringTools.cs:38 | removing from a concatenation removes from each part |
| Texts.RemoveAbsent | ThreeTile.Core/ExtensionTools/GameStringTools.cs:38 | removing an absent character leaves the text unchanged |
| LayerShadows.WordCount | ThreeTile.Core/Core/LayerShadows/LayerShadow.cs:25 | the word count is the least number of 32-bit words that holds one bit per cell |
| LayerShadows.Padding | ThreeTile.Core/Core/LayerShadows/LayerShadow.cs:21-26 | a valid shadow has no bit set past the last cell |
| LayerShadows.Linear | ThreeTile.Core/Core/LayerShadows/LayerShadow.cs:50-64 | the row-major index `y·cols + x` of an in-plane cell lies below rows·cols and inside the words |
| LayerShadows.LinearInjective | ThreeTile.Core/Core/LayerShadows/LayerShadow.cs:61 | distinct cells have distinct linear indices |
| LayerShadows.LinearOnto | ThreeTile.Core/Core/LayerShadows/LayerShadow.cs:61-64 | every index below rows·cols is the linear index of exactly the cell `(l % cols, l / cols)` |
| LayerShadows.CellsMember | ThreeTile.Core/Core/LayerShadows/LayerShadow.cs:61-64 | a cell is occupied exactly when it is in the plane and its bit, word `l / 32` bit `l % 32`, is set |
| LayerShadows.NewShadow | ThreeTile.Core/Core/LayerShadows/LayerShadow.cs:21-26 | a new shadow is valid, has the given dimensions and no occupied cell |
| LayerShadows.Clone | ThreeTile.Core/Core/LayerShadows/LayerShadow.cs:36-41 | the clone equals the original |
| LayerShadows.WordWith | ThreeTile.Core/Core/LayerShadows/LayerShadow.cs:71-83 | or-ing or and-not-ing `1U << b` sets or clears bit b and keeps every other bit |
| LayerShadows.SetCell | ThreeTile.Core/Core/LayerShadows/LayerShadow.cs:71-83 | the one-cell edit changes that cell only, keeps the dimensions and validity |
| LayerShadows.AddPosition | ThreeTile.Core/Core/LayerShadows/LayerShadow.cs:71-76 | after adding, the occupied cells are the old ones plus the position's (x, y); z is ignored |
| LayerShadows.RemovePosition | ThreeTile.Core/Core/LayerShadows/LayerShadow.cs:78-83 | after removing, the occupied cells are the old ones minus the position's (x, y) |
| LayerShadows.IsPositionExist | ThreeTile.Core/Core/LayerShadows/LayerShadow.cs:85-90 | true exactly when the position's cell is occupied |
| LayerShadows.Clear | ThreeTile.Core/Core/LayerShadows/LayerShadow.cs:96-98 | a cleared shadow is valid, keeps its dimensions and has no occupied cell |
| LayerShadows.PopCount | ThreeTile.Core/Core/LayerShadows/LayerShadow.cs:186-192 | no contract of its own; ClearPopCount, IntersectCountBounds and PopUpToPositive state it on cleared shadows, overlaps and positivity |
| LayerShadows.ClearPopCount | ThreeTile.Core/Core/LayerShadows/LayerShadow.cs:96-98 | a cleared shadow has popcount 0 |
| LayerShadows.SameSize | ThreeTile.Core/Core/LayerShadows/LayerShadow.cs:100-104 | a binary operation succeeds exactly when the word counts agree and otherwise throws `ArgumentException` |
| LayerShadows.CopyFrom | ThreeTile.Core/Core/LayerShadows/LayerShadow.cs:100-106 | the receiver takes the other's words, throws on a size mismatch, and equals the other on one plane |
| LayerShadows.OrWord | ThreeTile.Core/Core/LayerShadows/LayerShadow.cs:118-119 | a bit of the or of two words is set exactly when it is set in either |
| LayerShadows.AndWord | ThreeTile.Core/Core/LayerShadows/LayerShadow.cs:128-129 | a bit of the and of two words is set exactly when it is set in both |
| LayerShadows.Or | ThreeTile.Core/Core/LayerShadows/LayerShadow.cs:113-148 | `Or`/`OrWith` throw on a size mismatch, else every bit of the result is the or of the operands' bits, with the receiver's dimensions |
| LayerShadows.And | ThreeTile.Core/Core/LayerShadows/LayerShadow.cs:123-161 | `And`/`AndWith` throw on a size mismatch, else every bit is the and of the operands' bits |
| LayerShadows.OrCells | ThreeTile.Core/Core/LayerShadows/LayerShadow.cs:137-148 | on one plane `Or` is the union of the occupied cells and stays valid |
| LayerShadows.AndCells | ThreeTile.Core/Core/LayerShadows/LayerShadow.cs:150-161 | on one plane `And` is the intersection of the occupied cells and stays valid |
| LayerShadows.Intersects | ThreeTile.Core/Core/LayerShadows/LayerShadow.cs:169-181 | throws exactly on a size mismatch |
| LayerShadows.IntersectCount | ThreeTile.Core/Core/LayerShadows/LayerShadow.cs:197-207 | throws exactly on a size mismatch |
| LayerShadows.IntersectsIffCount | ThreeTile.Core/Core/LayerShadows/LayerShadow.cs:169-207 | `Intersects` holds exactly when `IntersectCount` is positive |
| LayerShadows.IntersectCountIsPopCountOfAnd | ThreeTile.Core/Core/LayerShadows/LayerShadow.cs:150-207 | `IntersectCount(o)` is the popcount of `And(o)` |
| LayerShadows.IntersectCountBounds | ThreeTile.Core/Core/LayerShadows/LayerShadow.cs:186-207 | the overlap count is at most each operand's popcount |
| LayerShadows.IntersectsCells | ThreeTile.Core/Core/LayerShadows/LayerShadow.cs:169-181 | on one plane `Intersects` holds exactly when the shadows share an occupied cell |
| LayerShadows.UncoveredCells | ThreeTile.Core/Core/LayerShadows/LayerShadow.cs:186-207 | on one plane, fewer shared cells than cells of b means some cell of b is outside a |
| LayerShadows.CellsDetermine | ThreeTile.Core/Core/LayerShadows/LayerShadow.cs:21-26 | a valid shadow is determined by its plane and its occupied cells |
| LayerShadows.AndNotWords | ThreeTile.Core/Core/LayerShadows/LayerShadow.cs:197-207 | `b & ~a` word by word keeps exactly the bits of b not in a |
| LayerShadows.CountSplit | ThreeTile.Core/Core/LayerShadows/LayerShadow.cs:197-207 | the bits of b split into those shared with a and those outside a, and the shared count is symmetric |
| LayerShadows.PopUpToPositive | ThreeTile.Core/Core/LayerShadows/LayerShadow.cs:186-193 | a popcount is positive exactly when some bit is set |
| ShadowManager.AboveMeans | ThreeTile.Core/Core/LayerShadows/LayerShadowManager.cs:151-154 | the cascaded cover of layer `z` holds a cell exactly when some higher layer's self shadow holds it |
| ShadowManager.NewManager | ThreeTile.Core/Core/LayerShadows/LayerShadowManager.cs:26-48 | construction succeeds exactly when rows, columns and layers are all positive, else an out-of-range fault; the new manager keeps mode and dimensions, and every shadow starts empty, which already counts as propagated |
| ShadowManager.NextIncoming | ThreeTile.Core/Core/LayerShadows/LayerShadowManager.cs:142-160 | one propagation step: under DirectOnly the layer's cover is the self shadow above, under Cascade the union of the cover above and the self shadow above |
| ShadowManager.IncomingFrom | ThreeTile.Core/Core/LayerShadows/LayerShadowManager.cs:135-161 | the top-down rebuild gives every layer from `z` up exactly its expected cover for the mode |
| ShadowManager.BuildIncoming | ThreeTile.Core/Core/LayerShadows/LayerShadowManager.cs:110-111 | rebuilding leaves the self shadows, mode and dimensions alone and makes every incoming shadow the expected cover |
| ShadowManager.CascadeCoversDirect | ThreeTile.Core/Core/LayerShadows/LayerShadowManager.cs:147-155 | whatever DirectOnly covers, Cascade covers too |
| ShadowManager.CascadeMonotone | ThreeTile.Core/Core/LayerShadows/LayerShadowManager.cs:151-154 | under Cascade the cover of a layer contains the cover of the layer above it |
| ShadowManager.AddAll | ThreeTile.Core/Core/LayerShadows/LayerShadowManager.cs:92-94 | adding a list of positions to a shadow adds exactly their cells |
| ShadowManager.RemoveAll | ThreeTile.Core/Core/LayerShadows/LayerShadowManager.cs:105-107 | removing a list of positions from a shadow removes exactly their cells |
| ShadowManager.AddSelfShadow | ThreeTile.Core/Core/LayerShadows/LayerShadowManager.cs:84-95 | succeeds exactly for a layer inside the stack, else an out-of-range fault; the layer gains exactly the listed cells, every other self shadow and every incoming shadow is unchanged |
| ShadowManager.RemoveSelfShadow | ThreeTile.Core/Core/LayerShadows/LayerShadowManager.cs:97-108 | succeeds exactly for a layer inside the stack; the layer loses exactly the listed cells, nothing else changes |
| ShadowManager.AddSelfShadowAndRebuild | ThreeTile.Core/Core/LayerShadows/LayerShadowManager.cs:116-120 | as AddSelfShadow, and afterwards every incoming shadow is the expected cover again |
| ShadowManager.RemoveSelfShadowAndRebuild | ThreeTile.Core/Core/LayerShadows/LayerShadowManager.cs:125-129 | as RemoveSelfShadow, and afterwards every incoming shadow is the expected cover again |
| ShadowManager.AddThenRemove | ThreeTile.Core/Core/LayerShadows/LayerShadowManager.cs:84-108 | removing cells just added to a layer where they were free gives back the same manager |
| ShadowManager.PropagatedDetermined | ThreeTile.Core/Core/LayerShadows/LayerShadowManager.cs:135-161 | two propagated managers with the same mode, dimensions and self cells are equal: the incoming shadows are a function of the self shadows |
| ShadowManager.AddThenRemoveRebuilt | ThreeTile.Core/Core/LayerShadows/LayerShadowManager.cs:116-129 | on a propagated manager, adding free cells and removing them again, with a rebuild after each step, gives back the same manager |
| ShadowManager.RebuildAll | ThreeTile.Core/Core/LayerShadows/LayerShadowManager.cs:57-77 | a null list is an argument-null fault and a list of the wrong length an argument fault; otherwise each layer holds exactly the cells of its list (none for a null entry) and the cover is propagated |
| ShadowManager.IsPositionCovered | ThreeTile.Core/Core/LayerShadows/LayerShadowManager.cs:169-176 | a position is covered exactly when its layer is inside the stack and its cell is in that layer's incoming shadow; a layer outside the stack is false, whatever the cell |
| ShadowManager.IsCellCovered | ThreeTile.Core/Core/LayerShadows/LayerShadowManager.cs:181-187 | the `(x, y, z)` overload tests the layer on `z` itself, false for every `x` and `y` when `z` is outside the stack, and the cell on the low bytes of `x` and `y` |
| ShadowManager.CoveredMeansAbove | ThreeTile.Core/Core/LayerShadows/LayerShadowManager.cs:135-176 | after propagation a position is covered exactly when some higher layer occupies its cell (Cascade), or the layer directly above does (DirectOnly) |
| ShadowManager.CoveredOverloadsAgree | ThreeTile.Core/Core/LayerShadows/LayerShadowManager.cs:169-187 | the two IsPositionCovered overloads agree whenever the layer fits in a byte |
| ShadowManager.IntersectsIncoming | ThreeTile.Core/Core/LayerShadows/LayerShadowManager.cs:194-204 | a layer outside the stack is an out-of-range fault and a shadow of another size an argument fault; otherwise true exactly when the layer's cover and the area share a cell |
| ShadowManager.IncomingIntersectCount | ThreeTile.Core/Core/LayerShadows/LayerShadowManager.cs:206-215 | the same faults; the count is at most the area's size, is below it exactly when part of the area is uncovered, and is positive exactly when the cover meets the area |
| ShadowManager.GetSelfShadow | ThreeTile.Core/Core/LayerShadows/LayerShadowManager.cs:217-222 | the self shadow of a layer inside the stack, else an out-of-range fault |
| ShadowManager.GetIncomingShadow | ThreeTile.Core/Core/LayerShadows/LayerShadowManager.cs:224-229 | the incoming shadow of a layer inside the stack, else an out-of-range fault |
| ShadowManager.Clone | ThreeTile.Core/Core/LayerShadows/LayerShadowManager.cs:233-246 | the clone equals the original: same configuration and the same cells in every shadow |
| Pastures.NewPasture | ThreeTile.Core/Core/Zones/Pasture.cs:50-63 | a pasture exists exactly when its manager does (all dimensions positive), otherwise the manager's out-of-range fault; it starts with no tiles, refreshed, in the given mode |
| Pastures.Status | ThreeTile.Core/Core/Zones/Pasture.cs:67-83 | only the two flags change: locked exactly when the incoming shadow of the tile's layer meets its top face, visible exactly when that face is not wholly covered |
| Pastures.StatusStable | ThreeTile.Core/Core/Zones/Pasture.cs:67-83 | a tile's status depends only on its index and top layer, given the same manager and tile shadows |
| Pastures.Unlocked | ThreeTile.Core/Core/Zones/Pasture.cs:101-104 | the unlocked list is no longer than the tile list |
| Pastures.Visibles | ThreeTile.Core/Core/Zones/Pasture.cs:101-107 | the visible list is no longer than the tile list |
| Pastures.FilterMembers | ThreeTile.Core/Core/Zones/Pasture.cs:96-108 | the unlocked list holds exactly the unlocked tiles and the visible list exactly the visible ones |
| Pastures.Refresh | ThreeTile.Core/Core/Zones/Pasture.cs:85-114 | only flags and the two lists change; each tile gets the status its layer's cover gives it, and the lists are rebuilt from the tile list |
| Pastures.Statuses | ThreeTile.Core/Core/Zones/Pasture.cs:85-92 | every tile, in order, with its status recomputed and nothing else changed |
| Pastures.StatusOfTile | ThreeTile.Core/Core/Zones/Pasture.cs:67-83 | every tile on a coherent board has a layer and a shadow, and its recomputed status has the meaning Status states |
| Pastures.RefreshedDetermined | ThreeTile.Core/Core/Zones/Pasture.cs:85-114 | two refreshed boards that differ at most in flags and lists are equal: the flags are a function of the board |
| Pastures.RefreshIdempotent | ThreeTile.Core/Core/Zones/Pasture.cs:110-114 | refreshing yields a refreshed board, and refreshing a refreshed board changes nothing |
| Pastures.Reflagged | ThreeTile.Core/Core/Zones/Pasture.cs:110-114 | the board's coherence does not depend on the flags or the derived lists |
| Pastures.FirstWith | ThreeTile.Core/Core/Zones/Pasture.cs:29 | the tile list read by index: nothing exactly when no listed tile has the index, otherwise a listed tile that has it |
| Pastures.Lookup | ThreeTile.Core/Core/Zones/Pasture.cs:29 | the index map yields a tile of the board with that index, or nothing exactly when no tile has it |
| Pastures.LookupAt | ThreeTile.Core/Core/Zones/Pasture.cs:29 | with distinct indices, the tile found is the one listed with that index |
| Pastures.CanSelect | ThreeTile.Core/Core/Zones/Pasture.cs:192-195 | true exactly when some tile of the unlocked list has the index |
| Pastures.CanSelectMeans | ThreeTile.Core/Core/Zones/Pasture.cs:96-195 | on a board whose lists are rebuilt, CanSelect holds exactly when the board has an unlocked tile of that index |
| Pastures.FaceMembers | ThreeTile.Core/Core/Zones/Pasture.cs:145-152 | a cell is in the self shadow of a layer exactly when a tile topped on that layer has a top-face cell there |
| Pastures.CoveredByTiles | ThreeTile.Core/Core/Zones/Pasture.cs:67-72 | a cell is in the incoming shadow of a tile's layer exactly when a tile over it has a top-face cell there |
| Pastures.CoveredCascade | ThreeTile.Core/Core/LayerShadows/LayerShadowManager.cs:151-154 | under Cascade, the cover of a layer is the top faces of all tiles topped higher |
| Pastures.CoveredDirect | ThreeTile.Core/Core/LayerShadows/LayerShadowManager.cs:147-149 | under DirectOnly, the cover of a layer is the top faces of the tiles topped on the next layer |
| Pastures.LockedMeansShaded | ThreeTile.Core/Core/Zones/Pasture.cs:67-72 | on a refreshed board a tile is locked exactly when some tile over it has a top-face cell on its top face |
| Pastures.MeetsIffShaded | ThreeTile.Core/Core/Zones/Pasture.cs:67-72 | the cover meets a tile's top face exactly when some tile over it shades it |
| Pastures.VisibleMeansUnshaded | ThreeTile.Core/Core/Zones/Pasture.cs:74-83 | on a refreshed board a tile is visible exactly when one cell of its top face is shaded by no tile over it |
| Pastures.UncoveredIffUnshaded | ThreeTile.Core/Core/Zones/Pasture.cs:74-83 | part of a top face is outside the cover exactly when some of its cells is shaded by no tile over it |
| PastureEdits.AddTile | ThreeTile.Core/Core/Zones/Pasture.cs:118-157 | a tile whose box meets an occupied cell leaves the board unchanged; otherwise it succeeds exactly when its top layer is in the manager (else the manager's out-of-range fault), and the refreshed board has the old tiles first, the new tile last in the pasture zone, every box cell mapped to it and its index in its layer's set |
| PastureEdits.Place | ThreeTile.Core/Core/Zones/Pasture.cs:127-156 | the placing steps followed by the refresh give a refreshed board that has added the tile |
| PastureEdits.TopShadow | ThreeTile.Core/Core/Zones/Pasture.cs:145-149 | the tile's own shadow holds exactly its top-face cells |
| PastureEdits.Placing | ThreeTile.Core/Core/Zones/Pasture.cs:127-153 | before the refresh the board is coherent again, the tile is appended, each box cell maps to its index and its index is in its layer's set |
| PastureEdits.FacesAppend | ThreeTile.Core/Core/Zones/Pasture.cs:152 | the self cells of a layer gain the new top face exactly when the tile is topped on that layer |
| PastureEdits.RemoveAt | ThreeTile.Core/Core/Zones/Pasture.cs:165 | the list loses exactly its element `k`, the others keep their order |
| PastureEdits.RemoveTile | ThreeTile.Core/Core/Zones/Pasture.cs:159-189 | a tile not on the board changes nothing; otherwise the refreshed board has lost it from the list, its box cells from the cell index, its own shadow and its index, and keeps its size |
| PastureEdits.Lift | ThreeTile.Core/Core/Zones/Pasture.cs:165-188 | the removing steps followed by the refresh give a refreshed board that has removed the tile |
| PastureEdits.Lifting | ThreeTile.Core/Core/Zones/Pasture.cs:165-185 | before the refresh the board is coherent again, without the tile, its cells or its shadow |
| PastureEdits.BoxesDisjoint | ThreeTile.Core/Core/Zones/Pasture.cs:121-125 | two board tiles whose boxes share a cell are the same tile |
| PastureEdits.TopsDisjoint | ThreeTile.Core/Core/Zones/Pasture.cs:145-152 | two board tiles topped on one layer whose top faces share a plane cell are the same tile |
| PastureEdits.FacesRemove | ThreeTile.Core/Core/Zones/Pasture.cs:181 | the self cells of a layer lose the removed top face exactly when the tile was topped there |
| PastureEdits.AddThenRemoveTile | ThreeTile.Core/Core/Zones/Pasture.cs:118-189 | adding a tile that fits and removing it by its index gives back the refreshed board, caches, shadows and flags included |
| PastureEdits.PlaceThenLift | ThreeTile.Core/Core/Zones/Pasture.cs:127-188 | the placing steps and the lifting steps undo each other on a refreshed board |
| PastureEdits.ManagerBack | ThreeTile.Core/Core/Zones/Pasture.cs:152-182 | the manager gets its self shadows back, because the new top face misses the faces already on its layer |
| PastureEdits.FacesMissTop | ThreeTile.Core/Core/Zones/Pasture.cs:121-125 | a tile that meets no occupied cell has a top face disjoint from the faces on its layer |
| PastureEdits.Extract | ThreeTile.Core/Core/Zones/Pasture.cs:197-202 | an index not on the board is the dictionary's key-not-found fault; otherwise the tile with that index, from the board, and the refreshed board without it, one tile shorter |
| PastureEdits.ExtractThenAdd | ThreeTile.Core/Core/Zones/Pasture.cs:118-202 | an extracted tile, whatever zone it has reached, can be added back to the board it left, and the result holds the same tiles with the returned one last |
| PastureEdits.AddBack | ThreeTile.Core/Core/Zones/Pasture.cs:118-157 | adding a tile that fits succeeds, keeps the board's size and the manager's mode |
| PastureReveal.Hits | ThreeTile.Core/Core/Zones/Pasture.cs:230-234 | the tiles the cell index names at some of the cells, and only those |
| PastureReveal.Dedup | ThreeTile.Core/Core/Zones/Pasture.cs:233 | the hash set's contents: the same members, each once |
| PastureReveal.ExpandWith | ThreeTile.Core/Core/Zones/Pasture.cs:226-235 | the expanders only grow, every tile at a cell just below joins them, and nothing else does |
| PastureReveal.Expand | ThreeTile.Core/Core/Zones/Pasture.cs:226-235 | as written, the cells below are those of the default 2x2 footprint: exactly the tiles at those cells join the expanders |
| PastureReveal.ExpandUnder | ThreeTile.Core/Core/Zones/Pasture.cs:226-235 | the corrected Expand over the tile's own footprint keeps the expanders it was given |
| PastureReveal.BoardHits | ThreeTile.Core/Core/Zones/Pasture.cs:132-133 | through a faithful cell index, the cells name exactly the board tiles whose boxes hold them |
| PastureReveal.ExpandUnderMeans | ThreeTile.Core/Core/Zones/Pasture.cs:226-235 | on a coherent board the corrected Expand adds exactly the tiles whose box holds a cell just below the tile's own footprint |
| PastureReveal.ExpandMissesFarColumn | ThreeTile.Core/Core/Zones/Pasture.cs:229 | for a tile three columns wide with a tile under its third column only, Expand as written finds nothing while the corrected one finds that tile |
| PastureReveal.FarColumn | ThreeTile.Core/ExtensionTools/LockStatusTools.cs:121-137 | the cell under the third column of a box three wide is below its own footprint but not below the default 2x2 one |
| PastureReveal.LockersWith | ThreeTile.Core/Core/Zones/Pasture.cs:241-271 | the blockers only grow and only by board tiles; what rests on the tile is included, and with `all` so is what rests on each new blocker |
| PastureReveal.VisitWith | ThreeTile.Core/Core/Zones/Pasture.cs:264-270 | visiting the new blockers puts what rests on each of them, and on each tile it adds, into the result |
| PastureReveal.Fresh | ThreeTile.Core/Core/Zones/Pasture.cs:262 | the tiles found this time that were not blockers already, in order |
| PastureReveal.LockersLeast | ThreeTile.Core/Core/Zones/Pasture.cs:241-271 | with `all`, the result is contained in every set closed over the blockers and what rests on them, so the hash set's iteration order does not matter |
| PastureReveal.LockersStep | ThreeTile.Core/Core/Zones/Pasture.cs:248-270 | one unfolding of the recursive search for a locked tile: the tiles found are added and, when some are new, each is visited |
| PastureReveal.LockersOf | ThreeTile.Core/Core/Zones/Pasture.cs:241-271 | as written, with the default footprint: an unlocked tile adds nothing, and without `all` exactly the tiles resting on it are added |
| PastureReveal.LockersOfOver | ThreeTile.Core/Core/Zones/Pasture.cs:241-271 | the corrected LockersOf reads the layer just above the tile's own box; without `all` exactly the tiles there are added |
| PastureReveal.LockersOfSelf | ThreeTile.Core/Core/Zones/Pasture.cs:248 | a locked board tile two layers high or more is reported as one of its own lockers by LockersOf as written |
| PastureReveal.LockersOfOverMeans | ThreeTile.Core/Core/Zones/Pasture.cs:248-259 | on a coherent board the corrected LockersOf adds, for a locked tile, exactly the tiles whose box holds a cell just above the tile's own box |
| PastureReveal.LockersOfOverNotSelf | ThreeTile.Core/Core/Zones/Pasture.cs:248-259 | the corrected LockersOf never reports a tile as its own locker |
| StagingAreas.NewStaging | ThreeTile.Core/Core/Zones/StagingArea.cs:58-76 | the area exists exactly when `0 < required <= capacity`; a non-positive capacity or group size is an out-of-range fault, a group larger than the capacity an argument fault; it starts empty |
| StagingAreas.Used | ThreeTile.Core/Core/Zones/StagingArea.cs:43 | no contract of its own; CapacityFacts states that used plus available is the capacity |
| StagingAreas.Available | ThreeTile.Core/Core/Zones/StagingArea.cs:46 | no contract of its own; CapacityFacts states that it is never negative and is zero exactly when the area is full |
| StagingAreas.IsFull | ThreeTile.Core/Core/Zones/StagingArea.cs:49 | no contract of its own; CapacityFacts states that the area is full exactly when no slot is available |
| StagingAreas.IsEmpty | ThreeTile.Core/Core/Zones/StagingArea.cs:52 | no contract of its own; CapacityFacts states that the area is empty exactly when no colour is counted |
| StagingAreas.CanAccept | ThreeTile.Core/Core/Zones/StagingArea.cs:112 | no contract of its own; CapacityFacts states that a tile is accepted exactly when some slot is available |
| StagingAreas.CapacityFacts | ThreeTile.Core/Core/Zones/StagingArea.cs:43-112 | used plus available is the capacity, full means none available, accepting means some available, empty means no colour counted |
| StagingAreas.GetTilesByColor | ThreeTile.Core/Core/Zones/StagingArea.cs:225-236 | no contract of its own; GetTilesByColorMeans states that the short cut for an uncounted colour gives the same list as the filter |
| StagingAreas.GetTilesByColorMeans | ThreeTile.Core/Core/Zones/StagingArea.cs:225-236 | the counter short cut never changes the answer: the snapshot is always the staged tiles of that colour, in slot order |
| StagingAreas.HasMatchCompleted | ThreeTile.Core/Core/Zones/StagingArea.cs:121-125 | no contract of its own; HasMatchMeans states that it holds exactly when at least `required` staged tiles have the colour |
| StagingAreas.HasMatchMeans | ThreeTile.Core/Core/Zones/StagingArea.cs:121-125 | a match is complete exactly when at least `required` staged tiles have the colour |
| StagingAreas.TryResolve | ThreeTile.Core/Core/Zones/StagingArea.cs:130-139 | no contract of its own; TryResolveMeans states that a group comes back exactly for a completed colour and is every staged tile of it |
| StagingAreas.TryResolveMeans | ThreeTile.Core/Core/Zones/StagingArea.cs:130-139 | a group comes back exactly for a completed colour, and it is every staged tile of that colour |
| StagingAreas.TryAdd | ThreeTile.Core/Core/Zones/StagingArea.cs:85-100 | refused exactly when full, with the area untouched; otherwise the tile, moved to the staging zone, takes the next slot; capacity and group size stay and the invariant is kept |
| StagingAreas.Stage | ThreeTile.Core/Core/Zones/StagingArea.cs:105-110 | the returned slot is the old tile count, even when nothing was added; when accepted, that slot holds the staged tile and the slots before it are unchanged |
| StagingAreas.Lift | ThreeTile.Core/Core/Zones/StagingArea.cs:152-162 | emptying one slot keeps the invariant and takes exactly that tile out of the bag of tiles |
| StagingAreas.RemoveOne | ThreeTile.Core/Core/Zones/StagingArea.cs:150-163 | removing one tile succeeds exactly when it is staged and its colour is counted; an unstaged tile is the debug build's invalid operation, an uncounted colour the key-not-found fault |
| StagingAreas.RemoveOneMeans | ThreeTile.Core/Core/Zones/StagingArea.cs:150-163 | with distinct indices, removing a staged tile takes out that tile and keeps the invariant |
| StagingAreas.RemoveOneAt | ThreeTile.Core/Core/Zones/StagingArea.cs:152 | removing the tile of slot `k` closes that slot |
| StagingAreas.Remove | ThreeTile.Core/Core/Zones/StagingArea.cs:148-164 | no contract of its own; RemoveMeans states that removing staged tiles succeeds and takes out exactly the group, and RemoveThenRestore that Restore undoes it |
| StagingAreas.RemoveMeans | ThreeTile.Core/Core/Zones/StagingArea.cs:148-164 | removing a group of staged tiles succeeds, keeps the invariant and takes out exactly the group |
| StagingAreas.Restore | ThreeTile.Core/Core/Zones/StagingArea.cs:173-191 | restoring succeeds exactly when the tiles fit in the free slots (the debug build's overflow check), else an invalid operation; the tiles are appended in order, moved to the staging zone, and the invariant is kept |
| StagingAreas.Unstage | ThreeTile.Core/Core/Zones/StagingArea.cs:193-216 | nothing comes back exactly when no staged tile has the index, and then the area is unchanged; otherwise a staged tile with that index, taken out of the bag of tiles, with the invariant kept |
| StagingAreas.TryAddThenUnstage | ThreeTile.Core/Core/Zones/StagingArea.cs:85-216 | staging a tile with a new index and unstaging that index gives the staged tile and the area exactly as it was |
| StagingAreas.RemoveThenRestore | ThreeTile.Core/Core/Zones/StagingArea.cs:148-191 | removing a group of staged tiles and restoring it gives the same tiles, the group now in the last slots, and exactly the same counter |
| StagingAreas.ResolveThenRemove | ThreeTile.Core/Core/Zones/StagingArea.cs:130-164 | resolving a completed colour and removing its group takes that colour out of the counter and leaves every other count as it was |
| Corrals.NewCorral | ThreeTile.Core/Core/Zones/Corral.cs:20-23 | a new corral is empty and its (empty) counter tallies its colours |
| Corrals.Add | ThreeTile.Core/Core/Zones/Corral.cs:35-45 | the tile, moved to the corral zone, goes last |
| Corrals.AddValid | ThreeTile.Core/Core/Zones/Corral.cs:35-45 | adding keeps the counter a tally of the collected colours |
| Corrals.Accept | ThreeTile.Core/Core/Zones/Corral.cs:29-33 | the tiles, moved to the corral zone, are appended in order |
| Corrals.AcceptValid | ThreeTile.Core/Core/Zones/Corral.cs:29-45 | accepting keeps the counter a tally of the collected colours |
| Corrals.Reverse | ThreeTile.Core/Core/Zones/Corral.cs:68-82 | the list back to front: element `i` is element `n - 1 - i` of the original |
| Corrals.Pop | ThreeTile.Core/Core/Zones/Corral.cs:70-79 | one turn of the loop drops the last tile and keeps the counter a tally |
| Corrals.Take | ThreeTile.Core/Core/Zones/Corral.cs:66-84 | `n` turns hand back the last `n` tiles, most recent first, and leave the rest with a consistent counter |
| Corrals.Retrieve | ThreeTile.Core/Core/Zones/Corral.cs:54-85 | a non-positive count returns nothing and changes nothing; more than the corral holds is the debug build's out-of-range fault; otherwise the last `count` tiles, most recent first, and the corral without them |
| Corrals.HasCompletedColor | ThreeTile.Core/Core/Zones/Corral.cs:91-95 | no contract of its own; HasCompletedColorMeans states it in terms of the collected colour bag |
| Corrals.HasCompletedColorMeans | ThreeTile.Core/Core/Zones/Corral.cs:91-95 | a colour is completed exactly when it is collected at least once and at least `required` times |
| Corrals.IsAllCollected | ThreeTile.Core/Core/Zones/Corral.cs:97-100 | no contract of its own; IsAllCollectedMeans states it in terms of the colour bag and of the tiles accepted |
| Corrals.IsAllCollectedMeans | ThreeTile.Core/Core/Zones/Corral.cs:16-100 | the tile count is the size of the colour bag, the corral is all collected exactly when that bag has at least `totalTileCount` colours, and accepting a group counts all of its tiles |
| Corrals.Snapshot | ThreeTile.Core/Core/Zones/Corral.cs:103-111 | no contract of its own; SnapshotMeans states that it has exactly the counted colours, each with as many tiles as counted |
| Corrals.SnapshotMeans | ThreeTile.Core/Core/Zones/Corral.cs:103-111 | the snapshot has exactly the counted colours, each with as many tiles as counted, all of that colour and all in the corral |
| Corrals.AcceptThenRetrieve | ThreeTile.Core/Core/Zones/Corral.cs:29-85 | accepting a group and retrieving as many tiles hands the group back in reverse order and leaves the corral as it was |
| Corrals.RetrieveThenAccept | ThreeTile.Core/Core/Zones/Corral.cs:29-85 | accepting the retrieved tiles, oldest first, rebuilds the corral exactly |
| Corrals.ReverseTwice | ThreeTile.Core/Core/Zones/Corral.cs:81 | reversing twice gives the list back |
| Spreads.Shapes | ThreeTile.Core/Core/Tile.cs:100-114 | the tiles with zone and flags stripped, position by position |
| Spreads.FittingShape | ThreeTile.Core/Core/Tile.cs:100-114 | whether a tile fits a board depends only on its shape and the board's size, so the zone and flag setters never change it |
| Spreads.ShapesInZone | ThreeTile.Core/Core/Tile.cs:111-114 | moving tiles to another zone keeps their shapes |
| Spreads.ShapesReflags | ThreeTile.Core/Core/Zones/Pasture.cs:85-92 | recomputing lock and visible flags keeps the shapes |
| Spreads.ShapesRemoveAt | ThreeTile.Core/Core/Zones/Pasture.cs:165 | dropping a tile from a list drops one copy of its shape from the bag |
| Spreads.SpreadTransfer | ThreeTile.Core/Core/Zones/Pasture.cs:118-189 | a spread of tiles (all fitting, distinct indices) stays a spread when its bag of shapes is kept, on a board of the same size |
| Moves.FittingZone | ThreeTile.Core/Core/Tile.cs:111-114 | moving a tile to another zone keeps its fit on the board |
| Moves.CanDo | ThreeTile.Core/Core/Moves/SelectMove.cs:13-24 | no contract of its own; CanDoMeans states it in terms of the board's unlocked tiles and the staged count |
| Moves.CanDoMeans | ThreeTile.Core/Core/Moves/SelectMove.cs:13-24 | on a sound level a move can be done exactly when the board holds an unlocked tile with the index and fewer tiles are staged than there are slots |
| Moves.Partners | ThreeTile.Core/Core/Moves/SelectMove.cs:40-43 | the partners are at most the group's tiles and never the selected index |
| Moves.Indices | ThreeTile.Core/Core/Moves/SelectMove.cs:42 | the indices of the tiles, in list order |
| Moves.PartnersOfOthers | ThreeTile.Core/Core/Moves/SelectMove.cs:40-43 | a group that does not hold the selected index has all its indices as partners |
| Moves.Do | ThreeTile.Core/Core/Moves/SelectMove.cs:26-54 | an index not on the board is the key-not-found fault; a move that succeeds records the selected index |
| Moves.Settle | ThreeTile.Core/Core/Moves/SelectMove.cs:32-53 | settling never touches the board; without a match the corral is unchanged and no partners are recorded |
| Moves.DoSound | ThreeTile.Core/Core/Moves/SelectMove.cs:13-54 | on a sound level a move that can be done succeeds and leaves the level sound; a match moves exactly `required` tiles, the selected one and `required - 1` partners, from the slots to the corral, and no match adds one staged tile |
| Moves.SettleQuiet | ThreeTile.Core/Core/Moves/SelectMove.cs:49-53 | a tile that leaves its colour short of a match is staged, nothing else moves, and the invariants hold |
| Moves.SettleMatch | ThreeTile.Core/Core/Moves/SelectMove.cs:35-48 | a tile that completes its colour sends the whole group to the corral, and the invariants hold |
| Moves.Resolved | ThreeTile.Core/Core/Moves/SelectMove.cs:35-43 | a completed group is the earlier staged tiles of the colour plus the new one, exactly `required` of them, one of which is not a partner |
| Moves.ExactGroup | ThreeTile.Core/Core/Zones/StagingArea.cs:121-139 | a colour short of a match before one more tile and complete after is complete with exactly `required` tiles |
| Moves.RemovePending | ThreeTile.Core/Core/Moves/SelectMove.cs:45 | removing the completed group leaves no complete colour in the slots |
| Moves.TakeBack | ThreeTile.Core/Core/Moves/SelectMove.cs:59-64 | retrieving more tiles than the corral holds is an out-of-range fault, restoring past the capacity an invalid operation; otherwise the last tiles of the corral, most recent first, join the slots and the rest stays |
| Moves.TakeBackReturnable | ThreeTile.Core/Core/Moves/SelectMove.cs:59-64 | the tiles in both zones after taking back still fit back on the board |
| Moves.SoundUndoable | ThreeTile.Core/Core/Moves/SelectMove.cs:56-75 | every sound level meets what an undo relies on |
| Moves.Return | ThreeTile.Core/Core/Moves/SelectMove.cs:67-70 | unstaging and adding back succeeds exactly when a staged tile has the index; otherwise the null tile reaches AddTile, the null-reference fault |
| Moves.Put | ThreeTile.Core/Core/Moves/SelectMove.cs:70 | a fitting tile with a fresh index always goes back on the board |
| Moves.Undo | ThreeTile.Core/Core/Moves/SelectMove.cs:56-75 | a recorded match larger than the corral is an out-of-range fault; without a match the undo succeeds exactly when the tile is staged; a successful undo clears the move's record |
| Moves.Reopen | ThreeTile.Core/Core/Moves/SelectMove.cs:59-64 | without a recorded match the slots and corral are left alone; with one, the last `partners + 1` corral tiles are taken back |
| Moves.DoThenUndo | ThreeTile.Core/Core/Moves/SelectMove.cs:26-75 | doing a move that can be done and undoing it restores the level: the tile is back on the board, last with recomputed flags, the slots hold the same tiles with the same counter, the corral is as it was, and the level is sound |
| Moves.UnsettleMatch | ThreeTile.Core/Core/Moves/SelectMove.cs:59-64 | taking back a match just collected restores its tiles to the slots they left |
| Moves.UnstageBack | ThreeTile.Core/Core/Moves/SelectMove.cs:67 | unstaging the last-staged tile from a reordering of the slots gives back the earlier tiles and counter |
| Moves.RestoredBag | ThreeTile.Core/Core/Moves/SelectMove.cs:56-75 | an undo keeps the bag of tile shapes across the three zones |
| Levels.Largest | ThreeTile.Core/Core/Level.cs:77-86 | the running maximum that starts at 0: at least 0, no smaller than any element, and either 0 or one of the elements |
| Levels.LevelTiles | ThreeTile.Core/Core/Level.cs:80-91 | one tile per position, tile `i` built from position `i` and colour `i` with the default volume and put in the pasture zone |
| Levels.CollidesMeets | ThreeTile.Core/Core/Zones/Pasture.cs:121-125 | on a coherent board a tile collides exactly when its box meets a cell of the board's tiles |
| Levels.OccupiedAppend | ThreeTile.Core/Core/Zones/Pasture.cs:132-133 | a new tile adds exactly the cells of its box to the occupied cells |
| Levels.AddStep | ThreeTile.Core/Core/Level.cs:104-107 | one AddTile of the constructor's loop succeeds, keeps the board refreshed, sized and in its mode; a tile that meets a taken cell changes nothing, any other joins the end |
| Levels.Step | ThreeTile.Core/Core/Level.cs:106 | one AddTile of the loop, as a function of the board, with AddStep's outcome |
| Levels.Populate | ThreeTile.Core/Core/Level.cs:104-107 | the loop keeps the board refreshed, of the same size and in the same mode |
| Levels.PopulateSurvivors | ThreeTile.Core/Core/Level.cs:104-107 | after the loop the board holds its earlier tiles and then, in order, exactly the tiles whose box missed every cell taken before them, with flags recomputed |
| Levels.LevelTileShape | ThreeTile.Core/Core/Level.cs:88-89 | a level tile is well formed, in the pasture zone, indexed by its position's place and of the default volume |
| Levels.LevelTilesFit | ThreeTile.Core/Core/Level.cs:93-102 | with columns `maxX + 2`, rows `maxY + 2` and layers `maxZ + 1`, every level tile fits the board and the indices are distinct |
| Levels.SurvivorsSpread | ThreeTile.Core/Core/Level.cs:104-107 | the tiles left standing are spread over the board |
| Levels.Board | ThreeTile.Core/Core/Level.cs:77-107 | the constructor's board is refreshed, in the given mode, sized from the largest coordinates, and holds exactly the surviving tiles in order |
| Levels.BuiltLevel | ThreeTile.Core/Core/Level.cs:102-118 | that board with empty slots and an empty corral is a valid level with no history |
| Levels.NewLevel | ThreeTile.Core/Core/Level.cs:49-119 | no positions, or colours of another length, is an argument fault; then a non-positive capacity or group size is out of range; then a group larger than the slots is an argument fault; otherwise the level is built as Board and BuiltLevel describe |
| Levels.DoMove | ThreeTile.Core/Core/Level.cs:518-527 | a move that cannot be done is an invalid operation; otherwise it is done, the level stays valid and the move with its record is appended to the history |
| Levels.UndoMove | ThreeTile.Core/Core/Level.cs:529-535 | with no history, out of range; otherwise it succeeds exactly when undoing the last move does, and drops that move from the history |
| Levels.DoMoveThenUndoMove | ThreeTile.Core/Core/Level.cs:518-535 | undoing a move just done gives back the history and the zones, up to the board's order and flags and the order of the slots, and the level is valid again |
| Behaviours.MoveIndices | ThreeTile.Core/Core/Moves/MoveGroup.cs:42-44 | the selected index of each move, in order |
| Behaviours.Build | ThreeTile.Core/Core/Moves/MoveGroup.cs:40-46 | one fresh selection per index of the behaviour, in the same order, none with a recorded match |
| Behaviours.Play | ThreeTile.Core/Core/Level.cs:518-527 | doing the built selections one after another keeps the level valid, and the history grows by moves of exactly those indices, in order |
| Combinations.LexTrans | ThreeTile.Core/Core/Level.cs:440-445 | the lexicographic order on index tuples is transitive |
| Combinations.LexIrreflexive | ThreeTile.Core/Core/Level.cs:440-445 | no tuple is below itself |
| Combinations.Ceiling | ThreeTile.Core/Core/Level.cs:486-492 | in an increasing k-tuple over `n` elements, position `i` holds at most `n - k + i` |
| Combinations.First | ThreeTile.Core/Core/Level.cs:459-464 | the first tuple is `[0, 1, ..., k - 1]` |
| Combinations.Run | ThreeTile.Core/Core/Level.cs:504-514 | `m` consecutive values starting at `x` |
| Combinations.PivotFrom | ThreeTile.Core/Core/Level.cs:484-494 | the scan stops at the rightmost position below its ceiling, or at -1 when every position is at its ceiling |
| Combinations.Next | ThreeTile.Core/Core/Level.cs:482-514 | no contract of its own; NextSuccessor, NextLast and NextExists state that it is the lexicographic successor, absent exactly at the last tuple |
| Combinations.NextSuccessor | ThreeTile.Core/Core/Level.cs:482-514 | the step gives the lexicographic successor: an increasing tuple of the same length, larger, and no larger than any tuple above the current one |
| Combinations.NextLast | ThreeTile.Core/Core/Level.cs:496-499 | when the scan finds no position, no increasing tuple is larger |
| Combinations.NextExists | ThreeTile.Core/Core/Level.cs:482-499 | when a larger tuple exists, the step exists |
| Combinations.FirstLeast | ThreeTile.Core/Core/Level.cs:459-464 | the first tuple is below every other increasing tuple of its length |
| Combinations.LexValue | ThreeTile.Core/Core/Level.cs:478-514 | the lexicographic order is the order of the tuples read as numbers in base `n + 1`, which is the measure the loop decreases |
| Combinations.NextCloser | ThreeTile.Core/Core/Level.cs:466-515 | each step brings the tuple strictly closer to the last one, so the loop ends |
| Combinations.Walk | ThreeTile.Core/Core/Level.cs:466-515 | the tuples the loop visits from a start tuple begin with it |
| Combinations.WalkSorted | ThreeTile.Core/Core/Level.cs:466-515 | the loop visits its tuples in strictly increasing lexicographic order, so each at most once |
| Combinations.WalkCovers | ThreeTile.Core/Core/Level.cs:466-515 | every increasing tuple at or above the start tuple is visited |
| Combinations.Tuples | ThreeTile.Core/Core/Level.cs:446-516 | the index tuples visited are exactly the increasing k-tuples over `n` elements, each once, in lexicographic order |
| Combinations.Pick | ThreeTile.Core/Core/Level.cs:471-473 | the elements at the indices, in order |
| Combinations.Choose | ThreeTile.Core/Core/Level.cs:446-516 | a negative size fails to allocate the index array (overflow) and a size past the list's end indexes out of range; otherwise one result per increasing index tuple, in lexicographic order, each the elements at its indices |
| Combinations.ChooseNone | ThreeTile.Core/Core/Level.cs:462-476 | with `k = 0` the one combination is the empty one |
| Gosper.LowestForm | ThreeTile.Core/Core/Level.cs:1401 | `mask & (~mask + 1)` isolates the lowest set bit of a positive mask |
| Gosper.Carry | ThreeTile.Core/Core/Level.cs:1402 | adding the lowest bit carries the lowest block of ones into the bit above it |
| Gosper.XorForm | ThreeTile.Core/Core/Level.cs:1403 | `r ^ mask` is the lowest block of ones grown by one bit |
| Gosper.DropBlock | ThreeTile.Core/Core/Level.cs:1403 | shifting the grown block right by 2 and dividing by the lowest bit leaves `a - 1` low ones |
| Gosper.StepForm | ThreeTile.Core/Core/Level.cs:1400-1403 | the step moves the top bit of the lowest block up by one and drops the rest of the block to the bottom |
| Gosper.Step | ThreeTile.Core/Core/Level.cs:1400-1403 | no contract of its own; StepForm and StepFacts state that it is the least larger mask with as many set bits |
| Gosper.StepFacts | ThreeTile.Core/Core/Level.cs:1400-1403 | the step gives the least larger mask with as many set bits: larger, the same bit count, and no mask in between has that count |
| Gosper.StepInWord | ThreeTile.Core/Core/Level.cs:1402 | below `2^63` the sum `mask + c` does not wrap around the 64-bit word |
| Gosper.Walk | ThreeTile.Core/Core/Level.cs:1396-1404 | the loop lists exactly the masks from the start up to the limit with the start's bit count, strictly increasing |
| Gosper.FewestOnes | ThreeTile.Core/Core/Level.cs:1392-1393 | the `k` low bits are the smallest mask with `k` set bits, so starting there misses none |
| Gosper.LocalAsWritten | ThreeTile.Core/Core/Level.cs:1383-1405 | ChooseBitsGosper as written, with the shift count reduced modulo 64; LocalAgrees, LocalMissesFullWord and LocalFaultsOnFullWord state where it agrees with Local and where it departs |
| Gosper.Local | ThreeTile.Core/Core/Level.cs:1383-1405 | the corrected ChooseBitsGosper lists exactly the masks of `k` set bits below `2^n`, smallest first; nothing for `k` outside `0..n`, just 0 for `k = 0` |
| Gosper.LocalAgrees | ThreeTile.Core/Core/Level.cs:1383-1405 | below 64 positions the source's ChooseBitsGosper gives exactly the corrected list |
| Gosper.LocalMissesFullWord | ThreeTile.Core/Core/Level.cs:1394 | with 64 positions and `1 <= k < 64` the source lists no mask, though the `k` low bits are one |
| Gosper.LocalFaultsOnFullWord | ThreeTile.Core/Core/Level.cs:1393-1403 | choosing 64 of 64 positions divides by zero instead of giving the all-ones mask |
| Sparse.IndicesFrom | ThreeTile.Core/Core/Level.cs:1412-1415 | the scan from bit `i` lists exactly the set bits of the mask among `i .. 63`, in increasing order |
| Sparse.IndicesLength | ThreeTile.Core/Core/Level.cs:1407-1418 | the array ExtractIndices fills, sized by PopCount, has room for exactly the set bits, so `arr[p++]` never writes past its end |
| Sparse.DepositBit | ThreeTile.Core/Core/Level.cs:1430-1433 | bit `j` of the spread mask is set exactly when some set bit `i` of the local mask has `indices[i] == j` |
| Sparse.Compress | ThreeTile.Core/Core/Level.cs:1428-1436 | the inverse reading of the spread: a mask of at most as many bits as there are indices |
| Sparse.CompressDeposit | ThreeTile.Core/Core/Level.cs:1428-1436 | spreading a local mask out and reading it back gives it unchanged, so distinct local masks give distinct results |
| Sparse.DepositCompress | ThreeTile.Core/Core/Level.cs:1407-1436 | every subset of the source mask, read out and spread back, is itself |
| Sparse.PopCompress | ThreeTile.Core/Core/Level.cs:1407-1436 | reading out a subset of the source keeps its bit count |
| Sparse.PicksAsWritten | ThreeTile.Core/Core/Level.cs:1423-1437 | ChooseBitsByGosper as written; PicksAgree, PicksMissFullWord and PicksFaultOnFullWord state where it agrees with Picks and where it departs |
| Sparse.Picks | ThreeTile.Core/Core/Level.cs:1423-1437 | the corrected ChooseBitsByGosper lists exactly the submasks of the source with `k` set bits, each once |
| Sparse.Spread | ThreeTile.Core/Core/Level.cs:1428-1436 | each local mask spread onto the source's set bits, in the order the local masks come |
| Sparse.PicksExact | ThreeTile.Core/Core/Level.cs:1423-1437 | spreading the local masks of `k` bits gives exactly the `k`-bit submasks of the source, distinct local masks giving distinct results |
| Sparse.PicksAgree | ThreeTile.Core/Core/Level.cs:1423-1437 | with fewer than 64 set bits in the source, the source's choice is the corrected one |
| Sparse.PicksMissFullWord | ThreeTile.Core/Core/Level.cs:1425-1428 | with all 64 bits set the source finds no choice of `k < 64` bits, though the `k` low bits are one |
| Sparse.PicksFaultOnFullWord | ThreeTile.Core/Core/Level.cs:1425-1428 | with all 64 bits set, choosing all 64 divides by zero instead of giving the full mask |
| Clears.SimpleClears | ThreeTile.Core/Core/Level.cs:1314-1325 | the emitted masks are exactly the submasks of the selectable mask with `need` set bits, each once; nothing when fewer tiles are selectable than needed |
| Clears.Pairs | ThreeTile.Core/Core/Level.cs:1362-1368 | one pick per selected part, all with the fixed mask and the given expanded part, in order |
| Clears.Product | ThreeTile.Core/Core/Level.cs:1361-1369 | the nested loops emit exactly the picks whose expanded part is one of the expanded choices and whose selected part is one of the selected choices |
| Clears.Rounds | ThreeTile.Core/Core/Level.cs:1356-1370 | the rounds from `i` to `top` emit exactly the hard picks whose expanded part has between `i` and `top` tiles |
| Clears.HardClears | ThreeTile.Core/Core/Level.cs:1337-1371 | the emitted picks are exactly those keeping the fixed mask, with at least one expanded tile and a selected part making up the tiles still needed; nothing when the fixed tiles already suffice |
| Clears.SimpleClearsAsWritten | ThreeTile.Core/Core/Level.cs:1314-1325 | EmitSimpleClears as written; SimpleClearsAgree, SimpleClearsMissFullWord and SimpleClearsFaultOnFullWord state where it agrees with SimpleClears and where it departs |
| Clears.SimpleClearsAgree | ThreeTile.Core/Core/Level.cs:1314-1325 | below 64 selectable tiles the source's simple clears are the corrected ones |
| Clears.SimpleClearsMissFullWord | ThreeTile.Core/Core/Level.cs:1323 | with all 64 bits selectable and fewer needed, the source emits no simple clear, though the `need` low bits are one |
| Clears.SimpleClearsFaultOnFullWord | ThreeTile.Core/Core/Level.cs:1323 | with all 64 bits selectable and all 64 needed, the source divides by zero |
| Clears.RoundAsWritten | ThreeTile.Core/Core/Level.cs:1358-1369 | one round of the loop as written; RoundAgree and RoundsMissFullWord state where it agrees with the corrected round and where it departs |
| Clears.RoundsAsWritten | ThreeTile.Core/Core/Level.cs:1356-1370 | the rounds as written, the first faulting one ending the loop; RoundsAgree states that they are the corrected rounds below 64 tiles per group |
| Clears.HardClearsAsWritten | ThreeTile.Core/Core/Level.cs:1337-1371 | EmitHardClears as written; HardClearsAgree and HardClearsMissFullWord state where it agrees with HardClears and where it departs |
| Clears.RoundAgree | ThreeTile.Core/Core/Level.cs:1358-1369 | with fewer than 64 tiles in each group, one round as written is the corrected one |
| Clears.RoundsAgree | ThreeTile.Core/Core/Level.cs:1356-1370 | with fewer than 64 tiles in each group, the rounds as written are the corrected ones |
| Clears.HardClearsAgree | ThreeTile.Core/Core/Level.cs:1337-1371 | with fewer than 64 tiles in each group, the source's hard clears are the corrected ones |
| Clears.RoundsMissFullWord | ThreeTile.Core/Core/Level.cs:1361 | one tile to expand among 64 and none selectable: the round as written finds no pick, though expanding the lowest tile alone is one |
| Clears.HardClearsMissFullWord | ThreeTile.Core/Core/Level.cs:1337-1371 | no fixed or selectable tiles, all 64 expandable, one needed: the source emits no hard clear, though expanding the lowest tile is one |
| Enumeration.FullMask | ThreeTile.Core/Core/Level.FSE.cs:338-339 | the mask holds exactly the `n` low bits, all 64 from `n = 64` on, and so has `min(n, 64)` bits set |
| Enumeration.Selected | ThreeTile.Core/Core/Level.FSE.cs:347-349 | the loop's picks, one index per tile whose bit is set, never more than the tiles; SelectedMembers and SelectedCount state which and how many |
| Enumeration.SelectedMembers | ThreeTile.Core/Core/Level.FSE.cs:341-351 | within one word, a tile's index is resolved exactly when its bit of the mask is set |
| Enumeration.SelectedCount | ThreeTile.Core/Core/Level.FSE.cs:345-350 | within one word, one index is resolved per set bit, so the result array is filled exactly |
| Enumeration.ResolveTileIndexes | ThreeTile.Core/Core/Level.FSE.cs:341-351 | no contract of its own; ResolveExact states that for at most 64 tiles the array is filled exactly, with the picked indices in list order |
| Enumeration.ResolveExact | ThreeTile.Core/Core/Level.FSE.cs:341-351 | for at most 64 tiles, `ResolveTileIndexes` returns the picked tiles' indices in list order, as many as the mask has bits |
| Enumeration.AddByMask | ThreeTile.Core/Core/Level.FSE.cs:374-389 | at most one index per tile of the list, none for an empty mask; AddByMaskCount states one per set bit within one word |
| Enumeration.AddByMaskCount | ThreeTile.Core/Core/Level.FSE.cs:374-389 | within one word, `AddByMask` appends one index per set bit |
| Enumeration.SelectedAll | ThreeTile.Core/Core/Level.FSE.cs:345-350 | the full mask resolves every tile's index, in list order |
| Enumeration.HardIndicesMeans | ThreeTile.Core/Core/Level.FSE.cs:353-364 | a hard pick's indices list every fixed tile first, in order, and number `need` in all |
| Enumeration.FixedPart | ThreeTile.Core/Core/Level.FSE.cs:359 | the full fixed mask resolves to every fixed tile, in order |
| Enumeration.HardPicks | ThreeTile.Core/Core/Level.FSE.cs:295-335 | the picks are exactly those keeping every fixed tile, with one or more expanded tiles and enough selectable ones to make up the tiles still needed |
| Enumeration.HardPicksAsWritten | ThreeTile.Core/Core/Level.FSE.cs:295-335 | EmitHardClearPicks as written; HardPicksAgree and HardPicksMissFullWord state where it agrees with HardPicks and where it departs |
| Enumeration.HardPicksAgree | ThreeTile.Core/Core/Level.FSE.cs:313-333 | below 64 expanded and 64 selectable tiles the picks as written are the intended ones |
| Enumeration.HardPicksMissFullWord | ThreeTile.Core/Core/Level.FSE.cs:313-326 | with 64 or more expanded tiles, one needed and nothing fixed or selectable, the source finds no pick, though expanding the first tile alone is one |
| Enumeration.Sift | ThreeTile.Core/Core/Level.FSE.cs:274-287 | a tile is kept exactly when it is named, is on the board, has the colour and its transitive lockers are exactly the targets |
| Enumeration.ExpandedMeans | ThreeTile.Core/Core/Level.FSE.cs:259-290 | the tiles `e` uncovers are those under it, of its colour, whose transitive lockers are exactly the fixed tiles and `e` |
| Enumeration.Without | ThreeTile.Core/Core/Level.FSE.cs:237-256 | `AppendRange`'s copy of the expanded tiles keeps every tile but `e` |
| Enumeration.Branches | ThreeTile.Core/Core/Level.FSE.cs:185-217 | every context kept fixes one more tile, one of the expanded tiles, after the fixed tiles it had; BranchesMeans states which contexts are kept |
| Enumeration.BranchesMeans | ThreeTile.Core/Core/Level.FSE.cs:185-217 | the loop keeps exactly one context per expanded tile that uncovers some tile, fixing that tile and moving the others to the selectable group |
| Enumeration.Advance | ThreeTile.Core/Core/Level.FSE.cs:168-217 | nothing is advanced once one more fixed tile would reach `need` or nothing is expanded; every context it yields extends the fixed tiles by one expanded tile |
| Enumeration.AdvanceMeans | ThreeTile.Core/Core/Level.FSE.cs:168-217 | a context is yielded exactly when one more fixed tile stays below `need` and it is the context of an expanded tile that uncovers some tile |
| Enumeration.HardOf | ThreeTile.Core/Core/Level.FSE.cs:130-141 | one context's behaviours are exactly one per hard pick of that context |
| Enumeration.Inner | ThreeTile.Core/Core/Level.FSE.cs:119-144 | with no continuation, the behaviours are exactly those of the given contexts' hard picks |
| Enumeration.Outer | ThreeTile.Core/Core/Level.FSE.cs:72-91 | the behaviours are those of each context and of the contexts it advances to |
| Enumeration.HardClearsExact | ThreeTile.Core/Core/Level.FSE.cs:66-91 | a colour's hard clears are exactly the hard picks of the contexts reached from its unlocked tiles |
| Enumeration.AdvanceStep | ThreeTile.Core/Core/Level.FSE.cs:179-216 | one advance fixes one more tile, keeps the first fixed tile, and stays below `need` |
| Enumeration.ReachedDepth | ThreeTile.Core/Core/Level.FSE.cs:77-90 | the search stops at two fixed tiles, the first one of the colour's unlocked tiles |
| Enumeration.HardClearsKind | ThreeTile.Core/Core/Level.FSE.cs:136-140 | every hard clear is a HARD_CLEAR behaviour of its colour |
| Enumeration.EasyOf | ThreeTile.Core/Core/Level.FSE.cs:104-115 | one EASY_CLEAR per pick with its tiles' indices; the search fails exactly when a pick overruns its index array |
| Enumeration.EasyClearsOf | ThreeTile.Core/Core/Level.FSE.cs:96-116 | no contract of its own; EasyExact states that among at most 64 tiles the easy clears are exactly the sets of `need` of them |
| Enumeration.EasyExact | ThreeTile.Core/Core/Level.FSE.cs:96-116 | among at most 64 tiles the easy clears are exactly the sets of `need` of them, each listing `need` indices in list order |
| Enumeration.EasyClearsAsWritten | ThreeTile.Core/Core/Level.FSE.cs:96-116 | EmitSimpleClearForColor as written; EasyAgree, EasyMissFullWord and EasyFaultOnFullWord state where it agrees with EasyClearsOf and where it departs |
| Enumeration.EasyAgree | ThreeTile.Core/Core/Level.FSE.cs:96-116 | below 64 tiles of the colour, the source's easy clears are the intended ones |
| Enumeration.EasyMissFullWord | ThreeTile.Core/Core/Level.FSE.cs:102-104 | from 64 tiles of a colour on, with fewer than 64 needed, the source emits no easy clear, though at 64 tiles the first `need` are one |
| Enumeration.EasyFaultOnFullWord | ThreeTile.Core/Core/Level.FSE.cs:102-104 | 64 tiles of a colour, all needed: the source divides by zero where the one clear of all of them is meant |
| Enumeration.ForColor | ThreeTile.Core/Core/Level.FSE.cs:40-91 | a colour with no unlocked tile, or a need outside 1 to the capacity, yields nothing; every behaviour has the colour, and hard clears come only from two tiles needed on |
| Enumeration.ForColorExact | ThreeTile.Core/Core/Level.FSE.cs:40-91 | a searched colour yields exactly its easy clears and, from two tiles needed on, its hard clears |
| Enumeration.Passes | ThreeTile.Core/Core/Level.FSE.cs:38-92 | one pass per colour from 0 to MaxColorIndex; Collect and PassesOk state what the loop over them gives |
| Enumeration.Collect | ThreeTile.Core/Core/Level.FSE.cs:38-92 | the loop over the colours collects exactly the passes' behaviours and fails exactly when a pass fails, with that pass's fault |
| Enumeration.LogicBehaviours3 | ThreeTile.Core/Core/Level.FSE.cs:9-93 | no capacity yields nothing; a staged or unlocked colour outside the per-colour tables is the out-of-range fault; every behaviour found is of a searched colour |
| Enumeration.LogicBehavioursExact | ThreeTile.Core/Core/Level.FSE.cs:9-93 | with every colour in the tables and at most 64 unlocked tiles per colour, the behaviours are exactly those of the searched colours' passes |
| Enumeration.PassesOk | ThreeTile.Core/Core/Level.FSE.cs:38-92 | no pass fails while every colour has at most 64 unlocked tiles |
| GameStrings.LetterToIndex | ThreeTile.Core/ExtensionTools/GameStringTools.cs:81-90 | a character is read exactly when it is a letter, as an index from 0 to 61; anything else is the invalid-operation fault |
| GameStrings.IndexToLetter | ThreeTile.Core/ExtensionTools/GameStringTools.cs:155-161 | an index is written exactly when it is below 62; 62 and above are the invalid-operation fault |
| GameStrings.LetterOfIndex | ThreeTile.Core/ExtensionTools/GameStringTools.cs:81-90 | every index from 0 to 61 is written as a letter that reads back as that index |
| GameStrings.IndexOfLetter | ThreeTile.Core/ExtensionTools/GameStringTools.cs:155-161 | every letter read as an index is written back as the same letter |
| GameStrings.NegativeIndexLetter | ThreeTile.Core/ExtensionTools/GameStringTools.cs:157 | a negative index from -48 on is written as the character `index + 48`, which does not read back |
| GameStrings.CheckedLetter | ThreeTile.Core/ExtensionTools/GameStringTools.cs:148-161 | an index is written exactly when it is from 0 to 61, and its letter reads back as the index |
| GameStrings.Letters | ThreeTile.Core/ExtensionTools/GameStringTools.cs:42 | a text is read exactly when all its characters are letters, one index per character |
| GameStrings.ParseRow | ThreeTile.Core/ExtensionTools/GameStringTools.cs:31-43 | a row is read only when non-empty, and yields one cell per column letter |
| GameStrings.RowCheckCountsOnly | ThreeTile.Core/ExtensionTools/GameStringTools.cs:36-41 | a row with its letters run together and a trailing comma passes the row check and reads as the well-formed row |
| GameStrings.SpacedLetters | ThreeTile.Core/ExtensionTools/GameStringTools.cs:38-41 | dropping the commas of alternating columns keeps every other character, the length the row check asks for |
| GameStrings.StrictRow | ThreeTile.Core/ExtensionTools/GameStringTools.cs:31-43 | the intended row check reads only alternating columns, one cell per letter at the even places |
| GameStrings.StrictRowRefuses | ThreeTile.Core/ExtensionTools/GameStringTools.cs:36-41 | the intended check refuses the run-together row the source accepts |
| GameStrings.StrictRowAgrees | ThreeTile.Core/ExtensionTools/GameStringTools.cs:31-43 | on well-formed rows the source's check and the intended one read the same cells |
| GameStrings.ParseRows | ThreeTile.Core/ExtensionTools/GameStringTools.cs:31-43 | no contract of its own; the rows of a layer up to the first fault, with LayerNewRow and ReadsBackAll stating what the rows written read back as |
| GameStrings.ParseLayer | ThreeTile.Core/ExtensionTools/GameStringTools.cs:25-43 | no contract of its own; one layer, its letter then its rows, with LayerNewRow and ReadsBackAll stating what a layer written reads back as |
| GameStrings.ParseLayers | ThreeTile.Core/ExtensionTools/GameStringTools.cs:24-44 | no contract of its own; the layers up to the first fault, with ReadsBackAll stating what the layers written read back as |
| GameStrings.ParsePositions | ThreeTile.Core/ExtensionTools/GameStringTools.cs:22-44 | no contract of its own; ReadsBackAll and SerializeParse state that the position part written reads back as the tiles' cells in order |
| GameStrings.Unspecified | ThreeTile.Core/ExtensionTools/GameStringTools.cs:58-60 | `n` unspecified colours |
| GameStrings.Parse | ThreeTile.Core/ExtensionTools/GameStringTools.cs:14-61 | the positions come from the part before `:`, one colour per position; more than two parts is the argument fault |
| GameStrings.ParseColors | ThreeTile.Core/ExtensionTools/GameStringTools.cs:55-60 | the colour part is read only when it has one letter per tile; otherwise every tile is unspecified |
| GameStrings.Deserialize | ThreeTile.Core/ExtensionTools/GameStringTools.cs:11-73 | a parse fault is the fault; otherwise the level is built from the positions and colours read |
| GameStrings.Insert | ThreeTile.Core/ExtensionTools/GameStringTools.cs:106-110 | inserting keeps the list sorted by (z, y, x) and adds exactly the tile |
| GameStrings.InsertStable | ThreeTile.Core/ExtensionTools/GameStringTools.cs:106-110 | the inserted tile goes first among tiles of its key |
| GameStrings.Sort | ThreeTile.Core/ExtensionTools/GameStringTools.cs:106-110 | the sorted list is ordered by (z, y, x) and a permutation of the tiles |
| GameStrings.SortStable | ThreeTile.Core/ExtensionTools/GameStringTools.cs:106-110 | tiles of the same key keep their order |
| GameStrings.PositionText | ThreeTile.Core/ExtensionTools/GameStringTools.cs:115-131 | the position part fails only with the invalid-operation fault of a coordinate without a letter |
| GameStrings.Spell | ThreeTile.Core/ExtensionTools/GameStringTools.cs:140-141 | the colour part is written exactly when every colour is below 62, one letter per colour that is its letter |
| GameStrings.Serialize | ThreeTile.Core/ExtensionTools/GameStringTools.cs:103-146 | a fault is the invalid-operation fault; a success means every colour is below 62 |
| GameStringTrip.SingleRow | ThreeTile.Core/ExtensionTools/GameStringTools.cs:31-42 | a row of one column letter reads as that one cell |
| GameStringTrip.RowExtend | ThreeTile.Core/ExtensionTools/GameStringTools.cs:128-129 | appending `,x` to a row that reads adds the cell of column `x` on that row |
| GameStringTrip.LayerNewRow | ThreeTile.Core/ExtensionTools/GameStringTools.cs:126-127 | appending `.yx` to a layer that reads adds the cell of row `y`, column `x` |
| GameStringTrip.ReadsBackAll | ThreeTile.Core/ExtensionTools/GameStringTools.cs:115-131 | for tiles with lettered coordinates, neighbours on different cells, the position part written reads back as their cells in order |
| GameStringTrip.SortedApart | ThreeTile.Core/ExtensionTools/GameStringTools.cs:106-110 | sorting tiles on distinct cells leaves neighbours on different cells |
| GameStringTrip.ColorsReadBack | ThreeTile.Core/ExtensionTools/GameStringTools.cs:140-141 | the colour part written for colours from 0 to 61 reads back as those colours |
| GameStringTrip.SerializeParse | ThreeTile.Core/ExtensionTools/GameStringTools.cs:14-61 | tiles on distinct cells with lettered coordinates and colours from 0 to 61 serialise, and the string parses back as the sorted tiles' cells and colours |
| GameStringTrip.DeserializeSerialize | ThreeTile.Core/ExtensionTools/GameStringTools.cs:11-146 | deserialising a serialised board builds the level from the sorted tiles' cells and colours |
| GameStringTrip.SortPlacements | ThreeTile.Core/ExtensionTools/GameStringTools.cs:106-110 | sorting keeps every tile's cell and colour, as often as they occur |
| SlotSimulator.Distinct | ThreeTile.Core/Designer/Tile3SlotSimulator.cs:34 | the colours in order of first occurrence: every colour of the sequence, each once |
| SlotSimulator.HeldHolds | ThreeTile.Core/Designer/Tile3SlotSimulator.cs:47-57 | a slot dictionary agrees with the colours' counts modulo `k` exactly when it is the dictionary of the non-zero remainders |
| SlotSimulator.Advance | ThreeTile.Core/Designer/Tile3SlotSimulator.cs:47-57 | no contract of its own; HoldsSnoc, LoadSnoc and ReplayMeans state what one step and the whole replay keep |
| SlotSimulator.HoldsSnoc | ThreeTile.Core/Designer/Tile3SlotSimulator.cs:47-57 | one more tile keeps the slot the counts describe, and clears exactly when its colour's count reaches a multiple of `k` |
| SlotSimulator.LoadSnoc | ThreeTile.Core/Designer/Tile3SlotSimulator.cs:47-54 | one more tile adds one to the used count, and a completed set takes `k` away |
| SlotSimulator.ReplayMeans | ThreeTile.Core/Designer/Tile3SlotSimulator.cs:41-58 | after `n` tiles the slot holds each colour's count modulo `k` and the used count is their sum |
| SlotSimulator.ReplayHeld | ThreeTile.Core/Designer/Tile3SlotSimulator.cs:41-58 | after `n` tiles the slot is the dictionary of held counts and the used count their sum |
| SlotSimulator.SlotInvariant | ThreeTile.Core/Designer/Tile3SlotSimulator.cs:41-58 | throughout the loop every colour in the slot holds between 1 and `k - 1` tiles, only colours already played are in it, and `used` is the slot's total |
| SlotSimulator.SafeFits | ThreeTile.Core/Designer/Tile3SlotSimulator.cs:59-69 | the loop passes its capacity check on the first `n` steps exactly when the used count after each is at most `capacity` |
| SlotSimulator.StepCompletes | ThreeTile.Core/Designer/Tile3SlotSimulator.cs:51-57 | tile `i` clears its colour exactly when its count reaches a multiple of `k` |
| SlotSimulator.TraceAt | ThreeTile.Core/Designer/Tile3SlotSimulator.cs:71-72 | the record written for each step is the one the counts give |
| SlotSimulator.Overflows | ThreeTile.Core/Designer/Tile3SlotSimulator.cs:59-69 | a sequence with a step that overflows does not fit |
| SlotSimulator.ReplayAppend | ThreeTile.Core/Designer/Tile3SlotSimulator.cs:41-58 | playing one more tile after a whole sequence advances its replay by that tile |
| SlotSimulator.Simulate | ThreeTile.Core/Designer/Tile3SlotSimulator.cs:23-78 | `k < 2` or a capacity of 0 or less is the argument fault; otherwise the run succeeds exactly when no step leaves more than `capacity` tiles, failing with the invalid operation, and logs one record per tile, each the one the counts give |
| SequenceBuilder.Positive | ThreeTile.Core/Designer/Tile3SequenceBuilder.cs:32-36 | the tracked entries are exactly those with a positive count |
| SequenceBuilder.Admit | ThreeTile.Core/Designer/Tile3SequenceBuilder.cs:23-36 | no contract of its own; AdmitMeans states that it succeeds exactly on non-negative multiples of `k` and keeps the positive counts, and AdmittedOnly which fault the first invalid entry gives |
| SequenceBuilder.AdmitMeans | ThreeTile.Core/Designer/Tile3SequenceBuilder.cs:23-36 | validation succeeds exactly when every count is a non-negative multiple of `k`, and keeps those with a positive count; otherwise the first invalid entry decides the fault, argument for a negative count, invalid operation for a non-multiple |
| SequenceBuilder.Fresh | ThreeTile.Core/Designer/Tile3SequenceBuilder.cs:63-71 | the colour found is the first, in the dictionary's order, with tiles left and none in the slot; none is found exactly when no colour is such |
| SequenceBuilder.Pick | ThreeTile.Core/Designer/Tile3SequenceBuilder.cs:46-89 | every colour a rule picks still has tiles left |
| SequenceBuilder.Emit | ThreeTile.Core/Designer/Tile3SequenceBuilder.cs:98-121 | a step that succeeds keeps one remaining and one slot count per colour and a stack of colour names |
| SequenceBuilder.EmitTakes | ThreeTile.Core/Designer/Tile3SequenceBuilder.cs:101 | every step leaves one tile fewer to place, so the loop ends |
| SequenceBuilderProof.MaxActive | ThreeTile.Core/Designer/Tile3SequenceBuilder.cs:16-18 | `capacity / (k - 1)` open colours of `k - 1` tiles each fit in `capacity`, and there is room for one exactly when `capacity >= k - 1` |
| SequenceBuilderProof.LoadBound | ThreeTile.Core/Designer/Tile3SequenceBuilder.cs:102-120 | the slot load never exceeds what the open colours can hold, at most `maxActive * (k - 1)` |
| SequenceBuilderProof.FinishTop | ThreeTile.Core/Designer/Tile3SequenceBuilder.cs:47-54 | rule one: the top colour, one short of a set, completes it, is the top when popped, and the invariant holds after |
| SequenceBuilderProof.Activate | ThreeTile.Core/Designer/Tile3SequenceBuilder.cs:58-77 | rule two: opening a closed colour while fewer than `maxActive` are open succeeds and keeps the invariant |
| SequenceBuilderProof.AddToTop | ThreeTile.Core/Designer/Tile3SequenceBuilder.cs:81-88 | rule three: the top colour takes one more tile without completing a set, and the invariant holds after |
| SequenceBuilderProof.OpenRemains | ThreeTile.Core/Designer/Tile3SequenceBuilder.cs:44-89 | every open colour still has tiles to place |
| SequenceBuilderProof.Progress | ThreeTile.Core/Designer/Tile3SequenceBuilder.cs:44-91 | while tiles remain or a colour is open, one of the three rules applies, so the no-legal-advance fault is unreachable |
| SequenceBuilderProof.StepKeeps | ThreeTile.Core/Designer/Tile3SequenceBuilder.cs:44-121 | the step the rules choose succeeds and keeps the invariant, so neither the stack nor the overflow fault is reachable |
| SequenceBuilder.Run | ThreeTile.Core/Designer/Tile3SequenceBuilder.cs:44-94 | no contract of its own; RunSound states that from the invariant the loop ends normally with every colour placed in full |
| SequenceBuilderProof.RunSound | ThreeTile.Core/Designer/Tile3SequenceBuilder.cs:44-94 | from any state of the invariant the loop ends normally with every colour placed in full, no other colour, and a sequence the simulator replays without overflow |
| SequenceBuilderProof.StartInv | ThreeTile.Core/Designer/Tile3SequenceBuilder.cs:20-40 | the state before the first step satisfies the invariant |
| SequenceBuilder.Build | ThreeTile.Core/Designer/Tile3SequenceBuilder.cs:8-94 | no contract of its own; BuildSound states the multiset and no-overflow result on valid counts, and BuildFaults every fault |
| SequenceBuilderProof.BuildSound | ThreeTile.Core/Designer/Tile3SequenceBuilder.cs:8-94 | on valid counts with distinct colours the build succeeds, each colour occurs exactly its count times, no other colour occurs, and the slot simulator replays the result within `capacity` |
| SequenceBuilderProof.BuildFaults | ThreeTile.Core/Designer/Tile3SequenceBuilder.cs:13-30 | `k < 2` or a capacity of 0 or less is the argument fault, a capacity below `k - 1` the invalid operation, and otherwise the first invalid count decides the fault |
| SequenceBuilderProof.AdmittedOnly | ThreeTile.Core/Designer/Tile3SequenceBuilder.cs:23-30 | past the argument checks, the build goes on only when every count is valid, and fails with the first invalid entry's fault otherwise |
| ColorBuilder.Copies | ThreeTile.Core/Designer/ColorSequenceBuilder.cs:295-296 | the appending loop writes `count` copies, none for a count below 1 |
| ColorBuilder.Emit | ThreeTile.Core/Designer/ColorSequenceBuilder.cs:293-315 | reading a colour with no entry left is the key-not-found fault; a slot use that reaches the capacity after the emission is the deadlock fault; otherwise the emitted state |
| ColorBuilder.EmitOpen | ThreeTile.Core/Designer/ColorSequenceBuilder.cs:293-311 | an emission of the required count takes at least one tile and leaves every open slot short of `k` |
| ColorBuilder.MaxOpen | ThreeTile.Core/Designer/ColorSequenceBuilder.cs:56 | no contract of its own; Lines states that a full line of open colours stays below the capacity |
| ColorBuilder.Danger | ThreeTile.Core/Designer/ColorSequenceBuilder.cs:89 | no contract of its own; Lines states that the danger line lies between 1 and the capacity |
| ColorBuilder.MayOpen | ThreeTile.Core/Designer/ColorSequenceBuilder.cs:56-98 | no contract of its own; Lines states that at the start a colour may open, and BoundKept that opening keeps the policy's line |
| ColorBuilder.Candidates | ThreeTile.Core/Designer/ColorSequenceBuilder.cs:48-99 | no contract of its own; Offered and SomeCandidate state that every candidate has tiles left and that some candidate exists while tiles are left |
| ColorBuilder.RequireCount | ThreeTile.Core/Designer/ColorSequenceBuilder.cs:68-109 | no contract of its own; CountFits states that the count is at least one, at most what is left, and fits in its slot |
| ColorBuilderProof.Lines | ThreeTile.Core/Designer/ColorSequenceBuilder.cs:56-98 | both policies' lines leave room: at least one colour may open, a full line of open colours stays below the capacity, and the danger line lies between 1 and the capacity |
| ColorBuilderProof.Offered | ThreeTile.Core/Designer/ColorSequenceBuilder.cs:56-98 | every colour offered has tiles left, and once no colour may be opened every colour offered is an open one |
| ColorBuilderProof.SomeCandidate | ThreeTile.Core/Designer/ColorSequenceBuilder.cs:276-280 | while tiles are left some candidate is offered, so the empty-candidate fault is unreachable |
| ColorBuilderProof.OpenRemains | ThreeTile.Core/Designer/ColorSequenceBuilder.cs:262-311 | an open colour still has at least the tiles that complete its set |
| ColorBuilderProof.CountFits | ThreeTile.Core/Designer/ColorSequenceBuilder.cs:68-109 | the required count is at least one, no more than the colour has left, and fits in its slot; under the danger line it completes an open colour exactly |
| ColorBuilder.Emitted | ThreeTile.Core/Designer/ColorSequenceBuilder.cs:293-311 | no contract of its own; RemainingAt, SlotsAt, SlotsShape and ResultAt state what an emission does to each part of the state |
| ColorBuilder.Open | ThreeTile.Core/Designer/ColorSequenceBuilder.cs:302-311 | no contract of its own; EmitOpen states that every emission keeps the slots distinct and short of `k` |
| ColorBuilderProof.RemainingAt | ThreeTile.Core/Designer/ColorSequenceBuilder.cs:298-300 | the emitted colour loses `count` tiles and its entry goes when none are left; every other colour is unchanged |
| ColorBuilderProof.SlotsAt | ThreeTile.Core/Designer/ColorSequenceBuilder.cs:302-311 | the emitted colour's slot grows by `count` and clears at `k`; every other slot is unchanged |
| ColorBuilderProof.SlotsShape | ThreeTile.Core/Designer/ColorSequenceBuilder.cs:302-311 | the slots stay distinct, `used` stays their total, and at most one new colour opens |
| ColorBuilderProof.ResultAt | ThreeTile.Core/Designer/ColorSequenceBuilder.cs:295-296 | an emission appends `count` tiles of the colour and nothing else |
| ColorBuilderProof.BoundKept | ThreeTile.Core/Designer/ColorSequenceBuilder.cs:313-314 | an emission of an offered colour keeps the policy's line and so stays below the capacity: the deadlock fault is unreachable |
| ColorBuilderProof.EmitKeeps | ThreeTile.Core/Designer/ColorSequenceBuilder.cs:274-286 | one iteration: the candidate picked is emitted without a fault and the invariant holds afterwards |
| ColorBuilder.Run | ThreeTile.Core/Designer/ColorSequenceBuilder.cs:274-288 | no contract of its own; RunSound states that from the invariant the loop finishes without a fault, each colour its goal count times |
| ColorBuilderProof.RunSound | ThreeTile.Core/Designer/ColorSequenceBuilder.cs:274-288 | from a state of the invariant the loop finishes without a fault, each colour occurring its goal count times |
| ColorBuilder.BuildCore | ThreeTile.Core/Designer/ColorSequenceBuilder.cs:239-288 | no contract of its own; BuildCoreSound states the multiset result for every pick policy, and BuildCoreFaults every fault |
| ColorBuilderProof.BuildCoreSound | ThreeTile.Core/Designer/ColorSequenceBuilder.cs:239-288 | on counts that are non-negative multiples of `k`, with `k >= 2` and `capacity >= k`, every pick policy yields a string with each colour exactly its count times, no other colour, as long as the counts' total |
| ColorBuilderProof.BuildCoreFaults | ThreeTile.Core/Designer/ColorSequenceBuilder.cs:250-257 | the intended builder fails exactly on an argument it rejects, and each failure is an argument fault |
| ColorBuilder.BuildCoreAsWritten | ThreeTile.Core/Designer/ColorSequenceBuilder.cs:239-288 | no contract of its own; AsWrittenAgrees, ZeroCountEmitted and NegativeCountCancels state where it agrees with BuildCore and where it departs |
| ColorBuilderProof.AsWrittenAgrees | ThreeTile.Core/Designer/ColorSequenceBuilder.cs:250-288 | on counts that are positive multiples of `k`, the source's builder is the intended one |
| ColorBuilderProof.ZeroCountEmitted | ThreeTile.Core/Designer/ColorSequenceBuilder.cs:262-300 | with `a` listed at 0 and `b` at 3, capacity 3 and `k = 3`, the source emits `aaa`: a colour with no tiles three times and `b` never |
| ColorBuilderProof.NegativeCountCancels | ThreeTile.Core/Designer/ColorSequenceBuilder.cs:255-257 | a count of -3 passes the source's multiple-of-`k` check and the build ends with an empty string, where the intended builder rejects the argument |
| ColorDistributor.Quot | ThreeTile.Core/Designer/ColorDistributor.cs:155 | C#'s integer division: the quotient rounds toward zero, so the remainder has the dividend's sign and is smaller than the divisor |
| ColorDistributor.Validate | ThreeTile.Core/Designer/ColorDistributor.cs:122-147 | the configuration passes exactly when the total, the colour count and `k` are positive, the total and every special count are multiples of `k`, and fewer special counts than colours are given; every rejection is the argument fault |
| ColorDistributor.MaxPair | ThreeTile.Core/Designer/ColorDistributor.cs:149-162 | the cap is at least the normal cap, enough pairs per colour to hold every pair left, at least one when a pair is left, and above the normal cap only as far as needed |
| ColorDistributor.ShareCovers | ThreeTile.Core/Designer/ColorDistributor.cs:158-159 | the rounded-up share of the pairs covers them, and one less would not |
| ColorDistributor.Take | ThreeTile.Core/Designer/ColorDistributor.cs:174-180 | taking at most the pairs left keeps what is left non-negative and whole pairs, and the entry within the cap |
| ColorDistributor.Least | ThreeTile.Core/Designer/ColorDistributor.cs:184-196 | `DistributeMin` keeps the list's prefix, appends one pair per colour while tiles are left and colours are free, and keeps the list total plus the tiles left |
| ColorDistributor.Most | ThreeTile.Core/Designer/ColorDistributor.cs:198-216 | `DistributeMax` keeps the list's prefix and the list total plus the tiles left, and stops only when no tiles are left or every colour has a count |
| ColorDistributor.Draw | ThreeTile.Core/Designer/ColorDistributor.cs:175 | `Next(1, maxPair + 1)` fails exactly for a negative cap, with the argument-out-of-range fault, and otherwise draws at least 1 and at most the cap when that is positive |
| ColorDistributor.Scatter | ThreeTile.Core/Designer/ColorDistributor.cs:164-182 | `DistributeRandom` succeeds from a cap of one pair on; it keeps the prefix and the total plus the tiles left, and stops only when no tiles are left or every colour has a count |
| ColorDistributor.Below | ThreeTile.Core/Designer/ColorDistributor.cs:259-268 | the indices collected are exactly those of the counts below the cap |
| ColorDistributor.Fill | ThreeTile.Core/Designer/ColorDistributor.cs:253-275 | the top-up keeps the number of counts and the total plus the tiles left, ends with none left when they were whole pairs, and fails only by indexing an empty list of candidates |
| ColorDistributor.FillRaises | ThreeTile.Core/Designer/ColorDistributor.cs:266-272 | the top-up only adds whole pairs, and only to counts below the cap |
| ColorDistributor.Bump | ThreeTile.Core/Designer/ColorDistributor.cs:272 | one count grows by `k`, the others stay, and the total grows by `k` |
| ColorDistributor.Assign | ThreeTile.Core/Designer/ColorDistributor.cs:277-289 | the mapping succeeds exactly when there are no more counts than colour numbers; the `i`-th count goes to a distinct colour number in 1..`n` |
| ColorDistributorProof.FillSound | ThreeTile.Core/Designer/ColorDistributor.cs:253-275 | counts of whole pairs with room for what is left: the top-up finishes with every tile placed, and its counts are still whole pairs |
| ColorDistributorProof.FillStep | ThreeTile.Core/Designer/ColorDistributor.cs:260-274 | one round of the top-up with room left raises a count below the cap and leaves room for the rest |
| ColorDistributorProof.MostDeals | ThreeTile.Core/Designer/ColorDistributor.cs:198-216 | `DistributeMax` deals between one pair and the cap to each colour and leaves whole pairs |
| ColorDistributorProof.ScatterDeals | ThreeTile.Core/Designer/ColorDistributor.cs:164-182 | `DistributeRandom` with a cap of at least one pair deals between one pair and the cap to each colour and leaves whole pairs |
| ColorDistributorProof.LeastDeals | ThreeTile.Core/Designer/ColorDistributor.cs:184-196 | `DistributeMin` deals one pair to each colour and leaves whole pairs |
| ColorDistributorProof.Configured | ThreeTile.Core/Designer/ColorDistributor.cs:56-73 | a valid configuration leaves at least one colour for the rest and whole pairs to share, and a cap of at least one pair when tiles are left |
| ColorDistributor.Rest | ThreeTile.Core/Designer/ColorDistributor.cs:48-64 | no contract of its own; Configured and Allotted state that the tiles left after the specials are whole pairs that the counts and the remainder add up to |
| ColorDistributor.Cap | ThreeTile.Core/Designer/ColorDistributor.cs:68-73 | no contract of its own; MaxPair states the cap and Configured that it is at least one pair when tiles are left |
| ColorDistributor.Allot | ThreeTile.Core/Designer/ColorDistributor.cs:77-105 | no contract of its own; Allotted states that the specials come first and the mode's counts and the tiles left add up to the total |
| ColorDistributorProof.Allotted | ThreeTile.Core/Designer/ColorDistributor.cs:56-107 | the specials come first, the mode adds counts up to the colour count, the counts and the tiles left add up to the total, and tiles are left only when every colour has a count |
| ColorDistributorProof.Room | ThreeTile.Core/Designer/ColorDistributor.cs:68-111 | the colours without a special count have room under the cap for the tiles the mode leaves |
| ColorDistributor.Distribute | ThreeTile.Core/Designer/ColorDistributor.cs:44-120 | no contract of its own; DistributeSound states the result on a valid configuration and DistributeFaults every fault |
| ColorDistributorProof.DistributeSound | ThreeTile.Core/Designer/ColorDistributor.cs:44-120 | for a valid configuration, whatever the draws and the shuffle, one entry per count with distinct colour numbers in 1..`colors`; every count whole pairs; the counts add up to the tile total; each dealt count between one pair and the cap |
| ColorDistributorProof.DistributeFaults | ThreeTile.Core/Designer/ColorDistributor.cs:44-47 | `Distribute` fails exactly on the configurations `ValidateConfig` rejects, with its argument fault |
| Dictionaries.ValuePut | ThreeTile.Core/Designer/ColorSequenceBuilder.cs:302 | after `d[c] = v`, `c` reads `v` and every other key reads as before |
| Dictionaries.HasPut | ThreeTile.Core/Designer/ColorSequenceBuilder.cs:302 | after `d[c] = v`, the keys are those of `d` and `c` |
| Dictionaries.PutShape | ThreeTile.Core/Designer/ColorSequenceBuilder.cs:302 | `d[c] = v` adds an entry only for a new key and keeps the keys distinct |
| Dictionaries.SumPut | ThreeTile.Core/Designer/ColorSequenceBuilder.cs:298 | `d[c] = v` changes the values' total by the difference |
| Dictionaries.DropMeans | ThreeTile.Core/Designer/ColorSequenceBuilder.cs:299-300 | after `d.Remove(c)`, `c` is gone and every other key reads as before |
| Dictionaries.DropShape | ThreeTile.Core/Designer/ColorSequenceBuilder.cs:309 | `d.Remove(c)` removes the entry of a present key, keeps the keys distinct and takes its value off the total |
| Dictionaries.HasMeans | ThreeTile.Core/Designer/ColorSequenceBuilder.cs:61 | a key is present exactly when `Keys` lists it |

## Left out

- The Godot front end (`ThreeTile.Godot`), the solver (`ThreeTile.Core/Solver`), `Tile3ColorFiller` and `Program.cs` are not part of this model. They are UI, floating-point analysis, or commented-out code.
- `TintMove` is left out: every body is commented out and its `CanDo` is constantly true.
- `GetLogicBehaviours`, `GetLogicBehaviours2` and the commented-out enumerators in `Level.cs` are left out. `GetLogicBehaviours3` supersedes them. The FLIP behaviour kind is declared, but no enumerator here emits it.
- Console output is left out: `DumpGrid`, `DumpBits`, `DumpLayerShadows`, the `ToString` methods, `FormatLine` and `FormattingColors`. It has no effect on state.
- `BuildRandom`, `BuildSelf` and `BuildSelfOld` in `Tile3SequenceBuilder` are left out. They are random, double-weighted generators.
- `ColorModePreferencePolicy` and the policy switch of `ColorBuilder.Build` are left out. The choice among candidates is the parameter `pick` of `ColorBuilder.BuildCore`, so any preference policy is covered.
- `ColorDistributor.DistributeSpecified` and the Specified mode are left out. Its `round % range` can divide by a non-positive range, so it has no contract worth stating.
- The distributor's `Random.Shared.Next` calls and the Fisher-Yates shuffle are parameters: a draw function and an arbitrary permutation. The lemmas hold for every choice.
- `Level.Clone`, the `Clone`s of the three zones and the `Parent` back-pointers are left out. The model has value semantics, so a copy is the value itself. The source's `Level.Clone` also shares its history's `Move` objects (ThreeTile.Core/Core/Level.cs:557-560), and that aliasing has no counterpart in the model.
- Word-level short-circuiting and running time are left out. The shadow operations are proved equal to their cell-set meaning only.
- C# 32-bit `int` overflow is not modelled: counts, sums and indices are unbounded integers. The source's inputs stay far below 2^31.
- `Choose` is computed as a whole list; the source's `IEnumerable` yields lazily. A fault therefore replaces the whole list, while the source would already have yielded the earlier tuples.
- A fault in the middle of an emitter is modelled the same way. `GetLogicBehaviours3` returns `Fail` instead of the behaviours it added before the throw.
- `HashSet` iteration order is modelled as insertion order, which is what .NET gives for a set with no removals. `LockersOf` with `all` is proved to be the least closed set, so its result does not depend on the order.
- Dictionary iteration in `Tile3SequenceBuilder.Build` and `ColorBuilder` is modelled as entry order: `Dictionary.Keys` in insertion order. .NET reuses freed slots after a `Remove`, so the source's order after a removal can differ.
- SequenceBuilder.Fresh: picks the first unused colour in entry order; with a removed and re-added key, the source's free-slot reuse can list the colours in another order.
- StagingAreas.RemoveOne: the missing-tile check of `Remove` exists only in DEBUG builds (ThreeTile.Core/Core/Zones/StagingArea.cs:153-157). It is modelled as the invalid-operation fault. A release build instead goes on and decrements the colour counter.
- StagingAreas.Restore: the overflow check exists only in DEBUG builds (ThreeTile.Core/Core/Zones/StagingArea.cs:177-181). It is modelled as the invalid-operation fault with nothing restored. A release build adds the tiles beyond capacity, and a DEBUG build keeps the tiles it added before the throw.
- Corrals.Retrieve: the count check exists only in DEBUG builds (ThreeTile.Core/Core/Zones/Corral.cs:59-64). It is modelled as the out-of-range fault. A release build removes tiles until the list runs out, and then throws from the list indexer.
- PastureEdits.AddTile: a tile whose top layer lies outside the manager fails with the manager's out-of-range fault and returns no board. The source has already added the tile to `Tiles`, `IndexToTileDict`, `PosTileDict` and `TopZTileDict` when `AddSelfShadow` throws (ThreeTile.Core/Core/Zones/Pasture.cs:127-152).
- PastureEdits.AddTile: requires an index not already on the board, the tile's top cells inside the grid, and a tile whose cached cells and top layer agree with its position and volume (`WellFormed`) with a volume at least one layer high. Every caller in the source meets all three: the level's indices come from distinct positions, its grid is sized from the largest coordinates, and every tile is built by the constructor with the default volume (2, 2, 1) (ThreeTile.Core/Core/Level.cs:88), which computes its caches from its position.
- The release-build wrap of `LayerShadow.GetIndexInArea` is left out. Its range check exists only in DEBUG builds (ThreeTile.Core/Core/LayerShadows/LayerShadow.cs:54-58). Without it, an out-of-grid column lands in the next row's bit. The shadow operations require cells inside the grid, which `PastureEdits.AddTile`'s requires guarantees.
- SlotSimulator.Simulate: the null-sequence check (ThreeTile.Core/Designer/Tile3SlotSimulator.cs:29) has no counterpart, since a Dafny sequence is never null. The console printing at lines 63-66 and 74-75 is left out.
- Moves.Undo: requires the zones to be well formed: a coherent board, valid staging and corral, and staged and completed tiles that fit back on the board. A `Level` only ever reaches such zones, but the source's `Undo` does not check this.
- The emitters in the model use the intended `ChooseBits`. From 64 tiles of one colour on, the model's easy and hard clears differ from the source's. The as-written emitters and their differences are under "## Findings".
- The hard-clear search keeps the source's limit of two fixed tiles (`Enumeration.ReachedDepth`). Deeper chains of reveals are not searched, by the source or by the model.
- `GameStrings.Serialize` keeps `IndexToLetter` as written, so a tile of unspecified colour (-1) is written as `'/'`, which `Deserialize` rejects. The round trip `GameStringTrip.DeserializeSerialize` is stated for colours 0-61, where the written and the checked letters agree. The checked letter is under "## Findings".
- `Deserialize` keeps the source's row check, which counts characters only. The strict check is under "## Findings". The two agree on every row that `Serialize` writes, so the round trip holds either way.

## Findings

| source | as written | input that shows it | evidently intended | confidence | as-written member | corrected member |
|---|---|---|---|---|---|---|
| ThreeTile.Core/Core/Tile.cs:176 | `Clone` calls `new Tile(Index, Color, Volume)` against the signature `(index, position, color, volume)`. The position is then restored, but the colour becomes the packed volume, and the volume becomes the default | a default tile of colour 5: the clone has colour 66050 | the clone equals the original in every field | not executed | `Tiles.CloneAsWritten`, `Tiles.CloneAsWrittenLosesColor` | `Tiles.Clone` |
| ThreeTile.Core/Core/Level.cs:1393-1394 | `ChooseBitsGosper(64, k)` computes `limit = 1UL << 64`, which C# reduces to `1UL << 0` | `n = 64`, `1 <= k < 64`: no mask is listed. `n = k = 64`: the mask is 0 and the step divides by zero | the masks of `k` set bits below 2^64, as for every smaller `n` | not executed | `Gosper.LocalAsWritten`, `Gosper.LocalMissesFullWord`, `Gosper.LocalFaultsOnFullWord` | `Gosper.Local`, `Gosper.LocalAgrees` |
| ThreeTile.Core/Core/Level.cs:1423-1437 | `ChooseBitsByGosper` inherits the full-word shift of `ChooseBitsGosper` | a source mask with all 64 bits set: no submask for `k < 64`, and divide-by-zero for `k = 64` | every submask with `k` set bits | not executed | `Sparse.PicksAsWritten`, `Sparse.PicksMissFullWord`, `Sparse.PicksFaultOnFullWord` | `Sparse.Picks`, `Sparse.PicksAgree` |
| ThreeTile.Core/Core/Level.cs:1323 | `EmitSimpleClears` over a full 64-bit selectable mask uses the broken choice | 64 selectable bits, `need = 3`: nothing is emitted | all C(64, 3) picks | not executed | `Clears.SimpleClearsAsWritten`, `Clears.SimpleClearsMissFullWord`, `Clears.SimpleClearsFaultOnFullWord` | `Clears.SimpleClears`, `Clears.SimpleClearsAgree` |
| ThreeTile.Core/Core/Level.FSE.cs:102-104 | `EmitSimpleClearForColor` takes `FullMask(n)`, which is the full word for `n >= 64` | 64 unlocked tiles of one colour with 3 needed: no easy clear. 64 needed: divide-by-zero | one easy clear per set of `need` tiles | not executed | `Enumeration.EasyClearsAsWritten`, `Enumeration.EasyMissFullWord`, `Enumeration.EasyFaultOnFullWord` | `Enumeration.EasyClearsOf`, `Enumeration.EasyExact`, `Enumeration.EasyAgree` |
| ThreeTile.Core/Core/Level.cs:1361-1362 | `EmitHardClears` chooses from full 64-bit expand and selectable masks with the broken choice | no fixed or selectable tiles, all 64 expandable, one needed: nothing is emitted | the pick that expands the lowest tile, among the others | not executed | `Clears.HardClearsAsWritten`, `Clears.HardClearsMissFullWord` | `Clears.HardClears` |
| ThreeTile.Core/Core/Level.FSE.cs:313-326 | `EmitHardClearPicks` passes `FullMask` of 64 or more expanded tiles to the broken choice | a context with no fixed or selectable tiles and 64 expanded tiles, one needed: no hard pick | the pick of the first expanded tile, among the others | not executed | `Enumeration.HardPicksAsWritten`, `Enumeration.HardPicksMissFullWord` | `Enumeration.HardPicks`, `Enumeration.HardPicksAgree` |
| ThreeTile.Core/Core/Zones/Pasture.cs:229 | `Expand` takes the down neighbours of the default 2x2 footprint, whatever the tile's volume | a tile three columns wide with a tile under its third column only: `Expand` finds nothing | the tiles under the tile's own footprint | not executed | `PastureReveal.ExpandMissesFarColumn` | `PastureReveal.ExpandUnder`, `PastureReveal.ExpandUnderMeans` |
| ThreeTile.Core/Core/Zones/Pasture.cs:248 | `LockersOf` takes the up neighbours of the default volume, one layer above the position | a locked tile two layers high: its own second layer is among its lockers | the tiles on the layer just above the tile's box | not executed | `PastureReveal.LockersOfSelf` | `PastureReveal.LockersOfOver`, `PastureReveal.LockersOfOverMeans`, `PastureReveal.LockersOfOverNotSelf` |
| ThreeTile.Core/ExtensionTools/GameStringTools.cs:36-41 | the row check compares the number of letters and commas only | the row `"ab,"` passes and reads as `"a,b"` | letters and commas alternating | not executed | `GameStrings.ParseRow`, `GameStrings.RowCheckCountsOnly` | `GameStrings.StrictRow`, `GameStrings.StrictRowRefuses`, `GameStrings.StrictRowAgrees` |
| ThreeTile.Core/ExtensionTools/GameStringTools.cs:157 | `IndexToLetter` sends every index below 10 to `'0' + index`, negative ones included | -1 is written as `'/'`, which `LetterToIndex` rejects | the out-of-range fault for every index outside 0..61 | not executed | `GameStrings.IndexToLetter`, `GameStrings.NegativeIndexLetter` | `GameStrings.CheckedLetter` |
| ThreeTile.Core/Designer/ColorSequenceBuilder.cs:262-300 | `BuildCore` keeps colours listed with count 0, and the policies offer them as candidates | `a` at 0 and `b` at 3, capacity 3, `k = 3`, first candidate picked: the output is `aaa`, three tiles of a colour that has none, and no `b` | colours with no tiles left out, as in `Tile3SequenceBuilder` | not executed | `ColorBuilder.BuildCoreAsWritten`, `ColorBuilderProof.ZeroCountEmitted` | `ColorBuilder.BuildCore`, `ColorBuilderProof.BuildCoreSound` |
| ThreeTile.Core/Designer/ColorSequenceBuilder.cs:255-257 | a negative multiple of `k` passes the `n % k != 0` check | `a` at -3 and `b` at 3, capacity 3, `k = 3`: the counts cancel and the build returns the empty string | the argument fault for a negative count | not executed | `ColorBuilder.BuildCoreAsWritten`, `ColorBuilderProof.NegativeCountCancels` | `ColorBuilder.BuildCore`, `ColorBuilderProof.BuildCoreFaults` |
