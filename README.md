# geospectral augmentation core, modelled in Dafny

This project models two parts of the geospatial raster-augmentation utilities
and proves properties about them:

- **Deterministic PatchMix** (`app/augmentation/noise_mix.py`). A clean C × H × W
  image is cut at `H // 2` and `W // 2` into four quadrants, numbered 0
  top-left, 1 top-right, 2 bottom-left and 3 bottom-right. Quadrant `q` is
  replaced by the same quadrant of a noisy image, and the pieces are glued back
  together with `np.concatenate`. The driver `patchmix_from_paths` refuses two
  images of different shapes. It then writes one mix per entry of its name map
  (`noise_tl`, `noise_tr`, `noise_bl`, `noise_br`).
- **Directory listing filter** (`app/augmentation/store.py`). `files_load`
  keeps the entries that are not hidden and end in `.tif`, in listing order,
  and resolves each one to a full path. It returns those paths together with
  the raw listing, or the bare empty list `[]` when the directory does not exist.

Files:

- `wrappers.dfy` (module `Wrappers`): `Option` and `Result`.
- `noise_mix.dfy` (module `NoiseMix`): the image value `Image<T>`, NumPy slicing
  and concatenation, `PatchMix`, the quadrant name map and the driver
  `PatchMixFromArrays`.
- `store.dfy` (module `Store`): the filter, its specification `Kept`, and the
  method `FilesLoad`.

How the model works:

- An image is a value. It records its three extents and its cells
  (`cells[c][i][j]`). The element type is a type parameter, because the mix
  only moves elements and never computes with them. Since images are values,
  the mix cannot modify either input.
- `PatchMix` follows NumPy for any pair of three-dimensional shapes, not only equal ones:
  - slice bounds past the end of an axis are clamped, as in Python;
  - `np.concatenate` fails unless the extents off the joined axis agree;
  - `quadrant_index` is used as a Python list index, so -4 … -1 select
    quadrants 0 … 3 and any other value raises `IndexError`.
- The contract of `PatchMix` gives the condition for success exactly (`NoisyFits`).
  The noisy image needs the clean channel count. Along each axis it must either
  reach the cut (when its slice starts at 0) or have the clean extent (when its
  slice runs from the cut to the end). Equal shapes are one case where this
  holds. This is why the driver checks equality itself.
- `PatchMixFromArrays` models the driver's loop. Each write of a file becomes
  an entry (path, array) of the returned list. The path joining is a function
  parameter `join`.
- `FilesLoad` takes the result of `os.listdir` as an input (`Listing`). The
  joining and `abspath` step is a function parameter `resolve(dir, name)`.
  Only `FileNotFoundError` is caught (it gives `EmptyList`, the bare `[]`).
  Any other listing error propagates (`Raised`).

## Model

| member | source | states |
|---|---|---|
| `NoiseMix.Window` | app/augmentation/noise_mix.py:47-57 | a slice over all channels of rows r0..r1 and columns c0..c1 has that shape, and its cell (c, i, j) is the original's cell (c, r0 + i, c0 + j) |
| `NoiseMix.Patches` | app/augmentation/noise_mix.py:46-58 | for any cuts, first clamped to the axis lengths as Python slicing does, the four slices in list order tile the array: slice k has as many rows as quadrant k for the clamped cuts (the cut, or the length minus the cut) and as many columns, and its cell (c, i, j) is the array's cell at quadrant k's starting row plus i and starting column plus j |
| `NoiseMix.ConcatColumns` | app/augmentation/noise_mix.py:62-63 | `np.concatenate(axis=2)` succeeds exactly when the channel and row counts agree; the widths add, and each cell comes from the left part or, shifted by its width, from the right part; otherwise it raises |
| `NoiseMix.ConcatRows` | app/augmentation/noise_mix.py:65 | `np.concatenate(axis=1)` succeeds exactly when the channel and column counts agree; the heights add, and each cell comes from the top part or, shifted by its height, from the bottom part; otherwise it raises |
| `NoiseMix.PyIndex` | app/augmentation/noise_mix.py:60 | indexing the four-element patch list succeeds exactly for -4 <= q < 4, selecting q or q + 4; anything else is an IndexError |
| `NoiseMix.QuadrantPartition` | app/augmentation/noise_mix.py:43-58 | the cut at H // 2 and W // 2 partitions each axis: top plus bottom rows give H, left plus right columns give W, the bottom and right get the odd extra row or column, and patch k has the extents of quadrant k |
| `NoiseMix.QuadrantCells` | app/augmentation/noise_mix.py:44-50 | with the cuts at H // 2 and W // 2, cell (c, i, j) of patch k is the image's cell at quadrant k's starting row plus i and starting column plus j, and that cell lies in quadrant k: 0 is top-left, 1 top-right, 2 bottom-left, 3 bottom-right |
| `NoiseMix.Pieces` | app/augmentation/noise_mix.py:44-60 | both images are cut at clean's halves; after the slot replacement the three clean pieces have clean's quadrant extents, and piece k has the extents of noisy's slice at those cuts, clamped to noisy's own extents |
| `NoiseMix.Assemble` | app/augmentation/noise_mix.py:62-65 | the three joins succeed exactly when all four pieces have one channel count, the top pair one height, the bottom pair one height, and the top row the width of the bottom row; the result then has the summed extents; otherwise np.concatenate raises |
| `NoiseMix.PieceCell` | app/augmentation/noise_mix.py:46-60 | after the slot replacement, piece m has quadrant m's shape, and its cells come from noisy when m is the replaced slot and from clean otherwise, at the same grid position |
| `NoiseMix.AssembleCell` | app/augmentation/noise_mix.py:62-65 | four pieces whose extents line up reassemble without error into a grid of the summed extents, and each cell is the cell of the piece covering it |
| `NoiseMix.PiecesAssemble` | app/augmentation/noise_mix.py:46-65 | reassembling the pieces for quadrant k succeeds if and only if noisy fits quadrant k, and then gives clean's shape with every cell of quadrant k from noisy and every other cell from clean |
| `NoiseMix.PatchMix` | app/augmentation/noise_mix.py:29-65 | an invalid quadrant index gives IndexError; otherwise the mix succeeds if and only if noisy fits the selected quadrant (in particular when it has clean's shape), and fails with np.concatenate's error when it does not; on success the result has exactly clean's shape (C, H, W), every cell of quadrant k comes from noisy and every other cell from clean |
| `NoiseMix.MixFixedPoint` | app/augmentation/noise_mix.py:60-65 | an image that already holds noisy's cells in quadrant k comes back unchanged |
| `NoiseMix.MixWithItself` | app/augmentation/noise_mix.py:60-65 | if clean and noisy are the same image, the result is that image, for every valid quadrant index |
| `NoiseMix.MixIdempotent` | app/augmentation/noise_mix.py:60-65 | mixing the same noisy image and quadrant into a successful result a second time gives the same result |
| `NoiseMix.QuadrantNames` | app/augmentation/noise_mix.py:90-95 | the four names map one-to-one onto quadrants 0, 1, 2, 3 in iteration order; the names are distinct; a cell is in a name's quadrant exactly when its row half matches the name's 't'/'b' and its column half matches its 'l'/'r' |
| `NoiseMix.PatchMixFromArrays` | app/augmentation/noise_mix.py:84-106 | shapes that differ give ValueError and nothing else does; otherwise there are four outputs, in the map's order, each written to `join(output_dir, name + ".tif")` and each holding the mix for that name's quadrant, with clean's shape and cell provenance |
| `Store.IsVisibleTif` | app/augmentation/store.py:19 | a name passes the filter exactly when it has at least four characters, its first is not '.', and its last four are ".tif" |
| `Store.Kept` | app/augmentation/store.py:10-20 | every kept name passes the filter, and no more names are kept than were listed |
| `Store.KeptAppend` | app/augmentation/store.py:11-20 | filtering a concatenated listing is the concatenation of the filtered parts, so the kept names stay in listing order |
| `Store.KeptMembers` | app/augmentation/store.py:19 | a name is kept if and only if it is listed, does not start with '.', and ends with '.tif' |
| `Store.HiddenTifsDropped` | app/augmentation/store.py:19 | `.x.tif` and the bare `.tif` are excluded although they end in `.tif`, and so are `a.TIF` and `a.tiff`; every kept name is longer than four characters, is not hidden, and ends in `.tif` |
| `Store.FilesLoad` | app/augmentation/store.py:3-26 | a missing directory gives the bare empty list and nothing else does; any other listing error propagates; otherwise the result is the pair of `resolve(dir, name)` for the kept names in listing order and the unfiltered listing unchanged |
| `Store.LoadedPaths` | app/augmentation/store.py:10-22 | no more paths than listed names; a path is returned if and only if some listed, non-hidden `.tif` name resolves to it |

## Left out

- Raster and vector file I/O is not modelled: `load_tif`, `rasterio.open`, `src.read`, `dst.write`, the metadata copy and its `dtype` update, and `os.makedirs`. `PatchMixFromArrays` takes the two loaded arrays as inputs. It returns the list of (path, array) writes instead of performing them.
- The `float32` casts on load and on write are not modelled: value conversion belongs to the I/O layer, and the mix itself only moves elements.
- Arrays that are not three-dimensional are not modelled, for either input. `Image` is three-dimensional by construction, the form `src.read()` always returns. So the model does not capture that `C, H, W = clean.shape` (line 43) fails on another rank, that a two-dimensional `noisy` raises `IndexError` at its three-index slices (line 54), or that a four-dimensional `noisy` raises `ValueError` in `np.concatenate` (line 62).
- `PatchMixFromArrays`: `output_dir` is a required argument; the default `"patchmix_outputs"` of `patchmix_from_paths` (line 74) is not modelled.
- Console output (`print` in both files) is not modelled; it carries no contract.
- `os.listdir` is an input (`Listing`), and `os.path.join` / `os.path.abspath` are the parameter `resolve`: their behaviour depends on the file system and the working directory.
- The copy-versus-view behaviour of NumPy slices is not modelled. Images are values, so "neither input is modified" holds by construction rather than as a proved statement.
- `app/geospectral/clipping.py` and `app/augmentation/clipping.py` are not part of this model. Their work is the foreign call `rasterio.mask.mask(..., crop=True)` and a thread pool, and the only thing left is the `clip_{i+1}.tif` naming.
- `app/augmentation/describe_tiff.py` is not part of this model: it computes floating-point band statistics and prints them.
- `setup.py`, `app/augmentation/operation.py` and the two `__init__.py` files are not part of this model: they only package and re-export.
