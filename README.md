# Image grid composite: layout and placement model

This Dafny project models the core of a small Python tool (`main.py`). The
tool collects `.png` files from folders and composes them into one white TIFF
canvas as a grid at most four columns wide. Rows are filled left to right and
top to bottom. Every image is resized to 175 × 175. Cells are 25 pixels apart.
The canvas carries a horizontal margin of 150 and a vertical margin of 250 in
all, split evenly between the two sides.

The project has three modules:

- `Layout` (`layout.dfy`) covers `get_strings_count` and `get_size`: the row
  count `ceil(n / 4)`, the column count `min(4, n)`, and the canvas size. It
  also gives each list index its cell offset, and `CellAt`, which maps a pixel
  back to the cell that holds it.
- `Compositor` (`compositor.dfy`) covers the placement loop of `create_tif`.
  The canvas is an `array2<Pixel>` indexed `[x, y]`, allocated white. The loop
  is the source's nested `for` over rows `w` and column slots `y`, with the
  `photo_number` counter and a `break` that leaves only the inner loop. It
  also returns a log of the pastes. A resized image is an opaque value that
  carries its list index and its path. `Image.paste` is modelled as a method
  that overwrites the covered rectangle of the canvas and clips whatever falls
  outside it.
- `FilePaths` (`file_paths.dfy`) covers the `.png` filter and de-duplication
  loop of `get_files_path`. Each folder is given already resolved, as its
  absolute path and its directory listing.

A caller expecting an empty list to be rejected as invalid input would be
surprised: the code does not reject it. `n = 0` gives 0 rows, 0 columns, a
125 × 225 all-white canvas and no paste. The model follows the code.

The code computes the rows with the constant 4 and always runs the inner loop
over 4 slots. The layout can also be stated with the effective column count
`c = min(4, n)`: `ceil(n / c)` rows, index `i` at row `i div c` and column
`i mod c`. `EffectiveColumnsAgree` proves that the two give the same rows and
the same offsets for every non-empty list.

The `break` in `create_tif` leaves only the column loop. The row loop would
go on, but the proof shows that the break always happens in the last row, so
nothing is pasted twice.

## Model

| member | source | states |
|---|---|---|
| Layout.StringsCount | main.py:85-91 | The row count r is the ceiling of n / 4: 4(r - 1) < n <= 4r, so 0 rows for an empty list. |
| Layout.ColumnCount | main.py:100 | The column count is min(4, n): at most 4, at most n, and equal to one of them. |
| Layout.CanvasSize | main.py:94-104 | The canvas is at least 125 wide and 225 high, and exactly 125 × 225 for an empty list. |
| Layout.EffectiveColumnsAgree | main.py:91-116 | For n >= 1 the rows equal ceil(n / min(4, n)), and index i sits at column i mod min(4, n) and row i div min(4, n), so the constant-4 code and the min(4, n) formulation agree. |
| Layout.Offset | main.py:114-116 | The paste box of index i, (int(150/2) + 200 (i mod 4), int(250/2) + 200 (i div 4)): its corner lies in the first four columns at or past the margins, and CellAt maps the corner back to i. CreateTif asserts the loop's box equals it. |
| Layout.CellAtInverse | main.py:114-116 | A pixel lies in the cell of index i exactly when CellAt names i, so each pixel belongs to at most one cell. |
| Layout.CellsDisjoint | main.py:114-116 | The cells of two different indices share no pixel (stride 200 > side 175). |
| Layout.CellInsideCanvas | main.py:101-116 | No clipping: every cell of an index below n lies inside the canvas, at least 75 from the left and right edges and 125 from the top and bottom edges. |
| Layout.MarginsSymmetric | main.py:101-104 | For n >= 1 the rightmost column ends exactly 75 before the right edge and the last row exactly 125 above the bottom edge, matching the left and top margins. |
| Compositor.Painted | main.py:109-116 | The canvas after the first k pastes: each pixel is either white or pixel (a - x, b - y) of an image i < k whose cell at (x, y) holds (a, b). |
| Compositor.PaintedStep | main.py:113-116 | Pasting image k after the first k changes exactly the pixels of cell k. |
| Compositor.PaintedMeaning | main.py:109-121 | On the finished canvas, a pixel in the cell of image i shows image i at its offset in the cell. A pixel no paste covers is white, so an empty list gives an all-white canvas. |
| Compositor.TrailingCellsWhite | main.py:109-121 | Grid slots past the last image stay white. |
| Compositor.TrailingSlots | main.py:91-119 | The slots of the four-wide loop grid past the last image number 4 - (n mod 4) when 4 does not divide n, and none when it does. For n >= 4 each such slot lies inside the canvas (so it is a blank cell); for 1 <= n <= 4 the canvas is exactly n cells, with no blank cell. |
| Compositor.Paste | main.py:114-116 | Image.paste at (x, y): covered canvas pixels get the image's pixel, the rest are unchanged, and the part outside the canvas is clipped. |
| Compositor.CreateTif | main.py:107-121 | The canvas has the CanvasSize dimensions and ends as Painted describes. Each index 0..n-1 is pasted exactly once, in list order, at (75 + 200(i mod 4), 125 + 200(i div 4)), fully inside the canvas. files[photo_number] is always in bounds. |
| FilePaths.AddListingExtends | main.py:78-80 | The inner loop only appends: earlier entries keep their places. |
| FilePaths.AddListingOrigin | main.py:78-80 | The k-th new entry is folder + listing[j] for a name ending in .png, and the positions j strictly increase, so new entries follow the listing's order. |
| FilePaths.NewEntriesArePng | main.py:79-80 | Every entry the inner loop appends ends with .png. |
| FilePaths.AddListingComplete | main.py:78-80 | Every listed name ending with .png is in the list afterwards, as folder + name. |
| FilePaths.AddListingNoDuplicates | main.py:79-80 | If the list had no duplicates before the inner loop, it has none after. |
| FilePaths.AddFoldersWellFormed | main.py:68-82 | Starting from an empty list, the collected paths contain no duplicate and all end with .png. |
| FilePaths.AddPngPaths | main.py:78-80 | The inner loop computes AddListing: folder + name is appended for each .png name not yet in the list. |
| FilePaths.GetFilesPath | main.py:62-82 | Folder by folder on one shared list, the result is AddFolders from the empty list, with no duplicates and only .png paths. |

## Left out

- `get_href` (main.py:21-28), `download_files` (main.py:41-59) and `unzip_files` (main.py:31-38) are not modelled. They do network I/O, file writes and zip extraction.
- `get_folders_list_from_sys_args` (main.py:126-135) and the `__main__` driver (main.py:138-148) are not modelled. They are command-line and filesystem plumbing.
- The folder-resolution branches of `get_files_path` (main.py:70-77) are not modelled. They use `os.path.exists` and `os.path.abspath`. The resolved folder path and the `os.listdir` result are inputs, so the case where neither path exists (where `os.listdir('')` raises) is outside the model.
- The image library is not modelled: `Image.open` decoding, `.resize` resampling and `tif.save` TIFF encoding. A resized image is an opaque tag with its index and path. Decode failures and the written file are not modelled.
- Layout.StringsCount: `math.ceil(n / 4)` goes through a float. It equals the integer ceiling modelled here only while n / 4 is exact in double precision. That holds for every list length below 2^53.
