# Image-similarity explorer: a verified Dafny model

The `explore` app of the `debris` Django project takes an uploaded picture, or one picked
from its gallery. It places the picture on a node of a 10 x 10 self-organising map (SOM) and
shows up to ten stored images from that node and from its four grid neighbours. This project
models the deterministic core of that app and proves properties of it:

- `Processing` (`debris/explore/processing.py`) covers:
  - the `uint8` edge step of `preprocess`;
  - `center_object`, which zero-pads one axis and crops a square around the centre of mass;
  - the squaring, reshape and doubling steps of `preprocess`;
  - the `data:image/png;base64,` framing of `encode_image` and `decode_image`.
- `Base64` is the RFC 4648 (section 4) codec used by `base64.b64encode` and by the
  non-validating `base64.b64decode`.
- `Views` (`debris/explore/views.py`) covers the `result` view:
  - the branches of the request dispatch, including the upload allow-list;
  - the four neighbour slots of a node;
  - the two sampling phases without repetition that choose the related images.
- `Common` holds bytes, `Result`, `Option`, `Min` and `Max`.

Stored rows are an in-memory sequence of `Record(id, encodedImage, node)`. Django compares
model instances by primary key, so the model compares rows with `id` in them and requires
unique ids. `random.choice` with its rejection loop becomes a choice, by `:|`, among the pool
rows not drawn yet. That is the set of outcomes the loop can reach when it ends.

The following come in as parameters:

- the Gaussian blur;
- the truncated centre of mass;
- PIL's `resize` and `thumbnail`;
- the PNG bytes;
- the SOM's prediction.

## Behaviour of the code worth knowing

- The prefix `data:image/png;base64,` is 22 characters. `decode_image` strips only 21 of them
  (`processing.py:88`). The round trip still holds, because the non-validating decoder discards
  the leftover `,`. `Processing.DecodeEncodeImage` proves the round trip.
  `Processing.StrictDecodeRejectsComma` shows that a validating decoder would fail.
- The feature vector is not always 784 long. `np.reshape(img, 784)` raises unless the
  thumbnail is exactly 28 x 28. A centred crop smaller than 28 pixels on a side is never
  enlarged by `thumbnail`. The model returns `Err` in that case (`Processing.ReshapeAndDouble`).
- The neighbour tests (`> 10`, `< 91`, `% 10 != 1`, `% 10 != 0`) are right for nodes numbered
  1 to 100 (`Views.NeighboursAreGridAdjacent`). The map numbers its nodes from 0, so with its
  real numbering:
  - node 9 gets node 10 as its right neighbour;
  - node 10 gets no upper neighbour (`Views.ZeroBasedNumberingExample`).
  The model keeps the code's tests as written.
- A gallery selection without a `node` field reaches `decode_image(image_submitted)` with a
  model instance rather than a string (`views.py:30`). Slicing it raises `TypeError`. The model
  renders that branch as `Raises`.
- Node `-1` is also the "absent neighbour" sentinel. The neighbour slots of node `-1` are
  `-1`, `9`, `-2` and `0`. So for query node `-1` with rows stored at node `-1`, the neighbour
  pool contains the node pool. The second rejection loop (`views.py:99-103`) then runs forever
  exactly when fewer than 10 rows are stored at those four nodes together
  (`Views.SentinelStarvesIff`). With 10 or more it ends.

## Model

| member | source | states |
|---|---|---|
| Base64.ValueOf | debris/explore/processing.py:88 | every alphabet letter has a 6-bit value, and CharOf maps it back to the letter |
| Base64.AlphabetIsRfc4648 | debris/explore/processing.py:83 | the 64 letters are exactly "A-Z a-z 0-9 + /" in the order of RFC 4648, Table 1 |
| Base64.Encode | debris/explore/processing.py:83 | n bytes encode to 4 * ceil(n / 3) characters, each an alphabet letter or '=' |
| Base64.Decode | debris/explore/processing.py:88 | strict decoding succeeds only on whole groups of four, and gives three bytes per group less at most two for the padding |
| Base64.DecodeGroup | debris/explore/processing.py:88 | a group of four letters decodes to one to three bytes or fails |
| Base64.Discard | debris/explore/processing.py:88 | the non-validating decoder keeps only alphabet letters and '=', never lengthening the text |
| Base64.DiscardAppend | debris/explore/processing.py:88 | discarding distributes over concatenation, so letters and '=' are kept in order wherever other characters stand between them |
| Base64.DiscardOne | debris/explore/processing.py:88 | a single character is kept iff it is an alphabet letter or '=' |
| Base64.LenientDecode | debris/explore/processing.py:88 | b64decode of a str raises when a character is not ASCII; otherwise it decodes what Discard keeps, strictly |
| Base64.EncodeTestVectorsShort | debris/explore/processing.py:83 | the encoder meets the one-group test vectors of section 10 of RFC 4648 ("", "f", "fo", "foo") |
| Base64.EncodeTestVectorsLong | debris/explore/processing.py:83 | the encoder meets the two-group test vectors of section 10 of RFC 4648 ("foob", "fooba", "foobar") |
| Base64.GroupRoundTrip | debris/explore/processing.py:83-88 | one to three bytes decode back from their group; a short group only as the last one |
| Base64.DecodeEncode | debris/explore/processing.py:83-88 | decoding the encoding of any byte string gives the bytes back |
| Base64.DiscardKeepsAlphabet | debris/explore/processing.py:88 | text of letters and '=' passes the discarding step unchanged |
| Base64.DiscardSkips | debris/explore/processing.py:88 | characters outside the alphabet in front of a text are dropped |
| Base64.LenientDecodeSkipsPrefix | debris/explore/processing.py:88 | the non-validating decoder inverts the encoder even with foreign ASCII characters in front |
| Base64.StrictDecodeNeedsWholeGroups | debris/explore/processing.py:88 | strict decoding fails on any text whose length is not a multiple of 4 |
| Processing.EdgeEnhance | debris/explore/processing.py:12 | the edge image has the shape of the input |
| Processing.EdgeEnhanceWraps | debris/explore/processing.py:12 | each edge pixel is a - b when a >= b and a - b + 256 otherwise; adding b back modulo 256 restores a |
| Processing.EdgeEnhanceUnderflowExample | debris/explore/processing.py:12 | 0 minus a blur of 1 gives 255 |
| Processing.DistToEdge | debris/explore/processing.py:42-44 | dist_to_edge is the larger of the vertical and horizontal distances to the nearer edge, and is non-negative |
| Processing.PaddingFor | debris/explore/processing.py:47-72 | the chosen padding leaves room for dist_to_edge above and left of the centre, and below or right of it unless the padding went on top or on the left |
| Processing.PaddingAxisRule | debris/explore/processing.py:47-72 | rows are padded iff the vertical distance is strictly smaller, columns iff the horizontal one is, nothing iff they are equal; the amount is positive, with its size stated |
| Processing.ZeroPadPixels | debris/explore/processing.py:52-72 | padding grows the image by the padded amount, keeps every pixel (shifted by the rows or columns added on top or on the left) and fills the new cells with 0 |
| Processing.PadToSquare | debris/explore/processing.py:47-72 | the padding steps produce that padded image, and move the centre by the rows or columns added on top or on the left |
| Processing.Slice | debris/explore/processing.py:75 | Python's clamped slice has min(hi, n) - min(lo, n) elements, taken from lo onwards |
| Processing.CropStartsInside | debris/explore/processing.py:49-75 | after padding, both crop start indices are non-negative and within the padded image |
| Processing.CropExtent | debris/explore/processing.py:75 | the slice bounds are ordered and start inside, and the clamped slices have the crop's height and width |
| Processing.CropIsWindow | debris/explore/processing.py:75 | slicing a padded image gives the window of the original at the shifted corner, 0 outside it |
| Processing.CenterObject | debris/explore/processing.py:35-76 | center_object returns the window of half-width dist_to_edge around the centre, 0 where it leaves the image, CropHeight x CropWidth in size |
| Processing.CropLongerAxisExact | debris/explore/processing.py:47-75 | along the axis with the larger distance the crop is exactly 2 * dist_to_edge long |
| Processing.CropSquareUnlessTopOrLeft | debris/explore/processing.py:47-75 | without padding, or with padding below or on the right, the crop is 2d x 2d |
| Processing.TopPaddedCropCanBeShort | debris/explore/processing.py:49-54 | a 5 x 8 image centred at (2, 4) is padded with 2 rows on top and crops to 7 x 8, not 8 x 8 |
| Processing.SquareUp | debris/explore/processing.py:19-23 | both sides become the longer of width and height |
| Processing.Flatten | debris/explore/processing.py:29 | the flattened vector holds exactly the pixel values of the rows |
| Processing.FlattenLength | debris/explore/processing.py:29 | an h x w image flattens to h * w pixels |
| Processing.FlattenAt | debris/explore/processing.py:29 | pixel (y, x) lands at position y * w + x |
| Processing.ReshapeAndDouble | debris/explore/processing.py:29-31 | the reshape succeeds iff there are exactly 784 pixels, and then gives two equal rows holding the flattened image |
| Processing.ThumbnailReshapes | debris/explore/processing.py:26-31 | a 28 x 28 thumbnail gives two rows of 784 pixels each, with pixel (y, x) at position 28y + x |
| Processing.Preprocess | debris/explore/processing.py:10-32 | preprocess is the reshape of the thumbnail of the square resize of the centred edge image; on success it is two identical rows of 784 |
| Processing.EncodeImage | debris/explore/processing.py:79-84 | the URI is the prefix and then 4 * ceil(n / 3) base64 characters |
| Processing.EncodeImageFraming | debris/explore/processing.py:83-88 | the prefix is 22 characters, so dropping 21 leaves "," followed by the base64 text |
| Processing.DecodeImage | debris/explore/processing.py:87-88 | a text of at most 21 characters decodes to no bytes, and a non-ASCII character after the first 21 raises |
| Processing.DecodeEncodeImage | debris/explore/processing.py:79-91 | decode_image of encode_image gives back the PNG bytes |
| Processing.StrictDecodeRejectsComma | debris/explore/processing.py:88 | a validating decoder would reject what decode_image passes it |
| Views.NeighbourNodes | debris/explore/views.py:78-87 | the four slots are up, down, left and right, each replaced only when its boundary test holds and -1 otherwise |
| Views.NeighbourExamples | debris/explore/views.py:80-87 | node 5 gives [-1, 15, 4, 6] and node 100 gives [90, -1, 99, -1] |
| Views.NeighbourOffsets | debris/explore/views.py:80-87 | a non-sentinel neighbour differs from the node by exactly 1 or 10, so it is never the node |
| Views.SelfNeighbourOnlySentinel | debris/explore/views.py:78-87 | a node is among its own slots iff it is the sentinel -1 |
| Views.NeighboursAreGridAdjacent | debris/explore/views.py:80-87 | for nodes 1 to 100, a value fills a slot iff it is a grid cell sharing a side with the node |
| Views.ZeroBasedNumberingExample | debris/explore/views.py:80-87 | numbered from 0, node 9's right neighbour is 10 and node 10 has no upper neighbour |
| Views.AtNodes | debris/explore/views.py:90-93 | the filtered queryset holds exactly the rows whose node is listed, with no more rows than the table and no repeats if the table has none |
| Views.UniqueIdsDistinct | debris/explore/views.py:73 | rows with distinct primary keys are distinct rows |
| Views.PoolsShareNoRow | debris/explore/views.py:68-93 | unless the sentinel node holds rows and is queried, no row is in both the node pool and the neighbour pool |
| Views.SentinelStarvesIff | debris/explore/views.py:78-103 | querying -1 with rows at -1: the slots are -1, 9, -2 and 0, the node pool lies inside the neighbour pool, and the second phase owes more draws than there are fresh rows iff fewer than 10 rows are at those nodes |
| Views.SentinelNodeStarves | debris/explore/views.py:96-103 | with one row stored at node -1 and -1 queried, the neighbour pool equals the node pool while one more row is still owed |
| Views.OverlapAtMost | debris/explore/views.py:99-103 | the rows already drawn can cover at most as many pool rows as there are drawn rows |
| Views.UndrawnRowExists | debris/explore/views.py:72-74 | while fewer rows of a repeat-free pool are drawn than it holds, some pool row is undrawn, so the rejection loop has a row to find |
| Views.DrawPhase | debris/explore/views.py:71-75 | when the pool holds count rows besides those drawn before, one phase appends exactly count new rows, all from the pool and none repeated, and keeps what was drawn before |
| Views.RelatedImages | debris/explore/views.py:68-103 | whenever the second loop can end, min(7, node rows) rows at the node come first, then min(10 - that, neighbour rows) rows at a neighbour slot; at most 10 rows in all, all stored, none repeated |
| Views.NodeSampleSize | debris/explore/views.py:69 | node_sample_size is at most 7 and at most the node rows, and equals one of them |
| Views.NeighbourSampleSize | debris/explore/views.py:96 | neighbor_sample_size is at most the neighbour rows and brings the total to at most 10, and either the total is 10 or all neighbour rows are taken |
| Views.EmptyPoolsGiveNothing | debris/explore/views.py:69-96 | with no rows at the node or its neighbours, both sample sizes are 0 |
| Views.Dispatch | debris/explore/views.py:14-66 | every branch that renders at once gives the index page or raises |
| Views.DisallowedUploadRefused | debris/explore/views.py:44-48 | a named upload is refused with "Invalid file type." iff its content type is not JPEG, PNG, BMP or TIFF |
| Views.RetrievalNeedsValidSubmission | debris/explore/views.py:16-65 | retrieval happens iff the request is a POST with either a selection and node and no files, or a named allowed upload that preprocessed |
| Views.AllowList | debris/explore/views.py:44 | PNG, JPEG, BMP and TIFF are allowed; GIF and PDF are not |
| Views.ResultView | debris/explore/views.py:14-110 | result renders the dispatched page, or a result page for the submission and its node whose related rows meet the RelatedImages bounds |

## Left out

- Views.RelatedImages: requires `SecondPhaseCanFinish`: the pools are disjoint, or the
  neighbour pool holds at least 10 rows. Otherwise the rejection loop at `views.py:99-103`
  never ends (`Views.SentinelStarvesIff`), and the model has no result for a view that never
  returns.
- Views.ResultView: inherits that requirement for the node the dispatch retrieves.
- The Gaussian blur and `ndimage.center_of_mass` are floating-point scipy code. Their results
  (the blurred image and the `int`-truncated centre) are parameters. The `int(NaN)` crash on
  an image without mass is excluded, because the centre must lie inside the image.
- PIL's `Image.fromarray`, `resize`, `thumbnail` and `Image.open` are library code. Resize and
  thumbnail are function parameters of `Preprocess`. Their effect on an empty crop is not
  modelled. That crop occurs only for the centre (0, 0), where `dist_to_edge` is 0.
- PNG encoding and decoding are not modelled. Images travel as opaque byte strings.
- Processing.DecodeImage: stops at the base64 bytes and does not run `Image.open`.
- Base64.LenientDecode: models CPython's non-validating decoder as "raise on a non-ASCII
  character, otherwise discard non-alphabet characters, then decode strictly". CPython is
  more lenient about `=`. It ignores an `=` that cannot be padding, and it stops at the first
  complete padding. So `b64decode("QUJD=")` gives `b'ABC'` and `b64decode("QQ==QUJD")` gives
  `b'A'`, where the model returns `Err`. Text produced by the encoder, with or without ASCII
  characters other than letters and `=` in front, decodes the same in both.
- `get_prediction` is left out: it unpickles `model.pkl` and runs the third-party
  `sklearn_som` SOM. The predicted node (or the error `preprocess` raised) is a parameter of
  `Views.Dispatch`. SOM training is not part of this model.
- Django's request objects, template rendering and querysets are not modelled. They become
  datatypes, a `Page` value and an in-memory `seq<Record>`. `int(content["node"])` is taken
  as already parsed, so its `ValueError` is not modelled.
- The statistical uniformity of `random.choice` is not modelled. Only the set of possible
  outcomes is.
- `debris/populate.py` (CSV loading), `setup.py` (process launching) and
  `debris/explore/urls.py` (routing) are not part of this model. `debris/explore/models.py` is
  mirrored by `Views.Record` only.
