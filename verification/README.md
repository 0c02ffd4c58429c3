# Region quadtree construction

This project models how the image quadtree of `qtree.cpp` is built. An image
of `width` x `height` pixels becomes a tree. Every node covers an inclusive
integer rectangle given by its upper-left and lower-right corners, and stores
one average colour. A one-pixel rectangle is a leaf holding that pixel. A
larger rectangle is split into up to four children (NW, NE, SW, SE). A
one-row rectangle gets only NW and NE, and a one-column rectangle gets only
NW and SW. The parent colour is the area-weighted mean of the children's
stored colours, using integer division.

Modules, one per concept:

- `Wrappers` (`wrappers.dfy`): `Option`, which stands for a possibly-null child pointer.
- `Geometry` (`geometry.dfy`): points, inclusive rectangles, and the unsigned root rectangle.
- `Pixels` (`pixels.dfy`): 8-bit red/green/blue pixels and the image, a total lookup from (column, row) to pixel.
- `Splitting` (`splitting.dfy`): one split step, both as the source writes it (`SplitAsWritten`) and as its documentation describes it (`Split`).
- `Nodes` (`nodes.dfy`): the tree node, with its rectangle, average colour and four child slots.
- `Averaging` (`averaging.dfy`): `GetAveragePixel`.
- `Building` (`building.dfy`): recursive construction, both with the documented split (`Build`, `FromPng`) and as written (`BuildAsWritten`, `QTreeAsWritten`). It also holds what a built tree promises: its leaves partition the image, each leaf is exactly its pixel, and averages stay within the colours of their region.

The split as written does not partition the rectangle (see Findings). So the
complete recursive construction uses the documented split. The as-written
split is modelled one step at a time, and its recursion is modelled with an
explicit depth bound.

## Model

| member | source | states |
|---|---|---|
| `Geometry.RootRect` | qtree.cpp:47-52 | The root rectangle starts at (0,0). For a non-empty image it has exactly `width` columns and `height` rows, and contains exactly the pixels with `x < width` and `y < height`. It is a single pixel iff the image is 1x1. |
| `Geometry.RootRectUnderflows` | qtree.cpp:48-51 | For an image with no columns, the unsigned `width-1` wraps, so the root rectangle runs to column 4294967295 and contains pixel (0,0) of an empty image. |
| `Splitting.HalfUp` | qtree.cpp:188-189 | `splitW`/`splitH` is half the extent rounded up: twice it is the extent or the extent plus one. |
| `Splitting.SplitAsWritten` | qtree.cpp:185-211 | One split step as written. Every child is well-formed and lies inside the parent, and each slot sits in its own corner (NW at the upper-left, NE at the top right, SW at the bottom left, SE at the lower-right). NE starts on the column where NW ends, and SW starts on the row where NW ends; SE starts on both of those lines. A 1x1 rectangle gets four null children. One row gives only NW/NE, one column gives only NW/SW, anything else gives all four. The west/north child is at most one line wider/taller than its sibling. The NW child of a larger rectangle is never a single pixel. |
| `Splitting.SplitAsWrittenCovers` | qtree.cpp:200-211 | A pixel lies in at least one child as written iff it lies in the parent. |
| `Splitting.SplitAsWrittenOverlaps` | qtree.cpp:201-210 | The children as written overlap. The top pixel of the split column is in both NW and NE, and the left pixel of the split row is in both NW and SW. |
| `Splitting.SplitAsWrittenKeepsParent` | qtree.cpp:185-208 | For a 2x1, 1x2 or 2x2 rectangle, the NW child as written is the parent itself. |
| `Splitting.SplitAsWrittenAreaExceeds` | qtree.cpp:201-210 | The children's areas as written add up to more than the parent's area, because the shared line is counted twice. |
| `Splitting.TwoByOneAsWritten` | qtree.cpp:201-202 | Splitting columns 0-1 of row 0 as written gives NW (0,0)-(1,0), which is the parent, and NE (1,0)-(1,0). |
| `Splitting.Split` | qtree.cpp:32-45 | One split step as documented. Children are contained and well-formed, each slot sits in its own corner, and the null-slot pattern is the same as above. The children form one grid: a single split column, shared by both rows, runs one column after NW ends, and a single split row, shared by both columns, runs one row after NW ends. The west/north side gets the extra line of an odd count. Every child has a strictly smaller extent than the parent. |
| `Splitting.SplitPartitions` | qtree.cpp:43-45 | Every pixel of the parent lies in exactly one documented child, and no pixel outside it lies in any child. |
| `Splitting.SplitAreaExact` | qtree.cpp:43-45 | The documented children's areas add up to exactly the parent's area. |
| `Splitting.ThreeByOneSplit` | qtree.cpp:35-38 | A three-column row splits into a two-column west child and a one-column east child. |
| `Averaging.TotalAreaPositive` | qtree.cpp:238-266 | If at least one child is present, `totalArea` is positive, so the division is defined. |
| `Averaging.AverageChannel` | qtree.cpp:266-270 | A channel of the average is the weighted mean rounded down: the largest value `v` with `v * totalArea <= Σ channel·area`. |
| `Averaging.GetAveragePixel` | qtree.cpp:227-273 | Every channel of the parent colour is the area-weighted mean of the present children's channels, rounded down. Null children weigh nothing. At least one child must be present. |
| `Averaging.AverageWithinBand` | qtree.cpp:266-272 | If every present child's channel lies in `lo..hi`, so does the parent's. So the average lies between the least and greatest child value. |
| `Averaging.AverageOfUniform` | qtree.cpp:266-272 | If all present children have the same colour, the parent gets that colour exactly. |
| `Building.Build` | qtree.cpp:181-221 | Recursive construction with the documented split. The node covers the given rectangle, and it is a leaf iff the rectangle is a single pixel. |
| `Building.BuildPartitions` | qtree.cpp:43-45 | The leaves of a built subtree contain every pixel of its rectangle exactly once, and no pixel outside it. |
| `Building.BuildLeafCount` | qtree.cpp:14-15 | A built subtree has exactly one leaf per pixel of its rectangle. |
| `Building.BuildLeavesExact` | qtree.cpp:191-198 | Every leaf of a built subtree is a single pixel whose colour is exactly that pixel of the image. |
| `Building.BuildWithinBand` | qtree.cpp:207-213 | Although averages are rounded at every level, a node's channel never leaves the range of that channel over the pixels of its rectangle. |
| `Building.BuildUniform` | qtree.cpp:207-213 | A region of one colour builds to a node whose average is exactly that colour. |
| `Building.FromPng` | qtree.cpp:47-52 | Construction succeeds iff the image has at least one column and one row. The tree keeps the image's dimensions, and its root covers (0,0)-(width-1, height-1). |
| `Building.FromPngPartitions` | qtree.cpp:14-21 | The leaves of a constructed tree contain each pixel of the image exactly once. |
| `Building.BuildAsWritten` | qtree.cpp:181-221 | Recursive construction with the split as written, with a bound on recursion depth. A finished node covers the given rectangle, and it is a leaf iff the rectangle is a single pixel. |
| `Building.BuildAsWrittenNeverFinishes` | qtree.cpp:200-210 | With the split as written, construction of any rectangle larger than one pixel fails to finish within every depth bound. |
| `Building.QTreeAsWritten` | qtree.cpp:47-52 | Construction as written finishes iff the image is 1x1. The root is then a leaf holding pixel (0,0). |

## Left out

- Rendering (`Render`, `RenderNode`): the source bodies build no image and return an empty or unchanged PNG, so there is no behaviour to model.
- Pruning, flipping, rotation, copying, clearing and assignment (`Prune`, `FlipHorizontal`, `RotateCCW`, `Copy`, `Clear`, `operator=`): their bodies in the source are empty.
- `qtree-private.h`: it only declares prototypes.
- The `PNG` and `RGBAPixel` classes are not part of this model. The image is a total lookup from (column, row) to a pixel. Construction only reads pixels inside the image, so reads outside it are not modelled.
- `GetAveragePixel`: the alpha channel is not modelled. In the unseen pixel class it may be a floating-point field. Only the three integer channels are averaged.
- `AverageChannel`: the numerator `nwP.r * nwArea + …` is an `int` in the source and overflows once it exceeds 2^31-1. For a channel value of 255 that happens when a node covers more than about 8.42 million pixels, for example the root of a white 2902x2902 image. The model computes the numerator exactly, so `Averaging.AverageWithinBand`, `Building.BuildWithinBand` and `Building.BuildUniform` hold in the source only below that bound.
- `AverageChannel`: the conversion of the integer quotient to `double` and back to an 8-bit channel is not modelled. The quotient is proved to lie in 0..255, so that conversion does not change it.
- Heap allocation, pointer ownership and stack depth are left out. Children are immutable `Option` values.
- `BuildAsWritten`: non-termination is expressed through a recursion depth bound. `None` means the recursion did not finish within that many nested calls.
- Coordinates and areas are unbounded naturals, so `int` overflow of a child's area is not modelled.
- `SplitAsWritten`: an extent is taken as its mathematical value. The source converts `lr.first - ul.first` to `int`, which turns an extent of 2^31 or more negative. This conversion also affects every zero-width or zero-height image, through the wrapped root rectangle of `Geometry.RootRect`. For a 0x1 image the source's `nodeWidth` is -1 and `splitW` is 1, so its first NW child is (0,0)-(1,0). The model's first NW child of that root is (0,0)-(2147483648,0). Either way the root is not a single pixel, so construction never finishes (`Building.BuildAsWrittenNeverFinishes`).
- `Split` gives the extra column of an odd count to the west side, as the doc-comment at qtree.cpp:35-38 says (`Splitting.ThreeByOneSplit`). The split as written gives both halves of a three-column row two columns, one of them shared (see Findings).

## Findings

| source | as written | input that shows it | evidently intended | confidence | as-written member | corrected member |
|---|---|---|---|---|---|---|
| qtree.cpp:188-189, 201-210 | `splitW` is half the extent rounded up. NW ends at `ul.x + splitW`, and NE starts at that same column; rows work the same way. Siblings therefore share a line. Whenever neither extent exceeds 1 (a 2x1, 1x2 or 2x2 rectangle), the NW child equals the parent, so the recursion never ends. | the 2x1 rectangle (0,0)-(1,0): NW is (0,0)-(1,0) again | NW ends at `ul.x + extent/2` (rounded down), and NE starts one column later. The children then partition the parent with the extra line on the west/north side. | high (not executed) | `Building.BuildAsWrittenNeverFinishes` | `Building.BuildPartitions` |
| qtree.cpp:48-51 | `width-1` and `height-1` are computed on unsigned values | a 0x1 image: the root rectangle runs to column 4294967295 | refuse to build a tree for an image with no columns or no rows | medium (not executed) | `Geometry.RootRectUnderflows` | `Building.FromPng` |
