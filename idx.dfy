/**
 * The IDX (MNIST) loaders and the label/image combination of the MNIST
 * preprocessing script.  A file is the sequence of its bytes; each loader
 * returns the parsed header beside the array numpy would build, or the
 * error numpy would raise.
 */
module Idx {
  import opened Wrappers
  import opened Bytes

  /** The four `>i4` fields at the head of an image file. */
  datatype ImageHeader = ImageHeader(magic: int, count: int, rows: int, cols: int)

  /** The two `>i4` fields at the head of a label file. */
  datatype LabelHeader = LabelHeader(magic: int, count: int)

  datatype LoadError =
    | ShortHeader    // the file is shorter than the header: reading or unpacking the header raises
    | ReshapeError   // the payload cannot be reshaped to the declared dimensions
    | RowMismatch    // column_stack of arrays with different row counts

  /** A loaded image file: `count` rows of `rows*cols` pixels each. */
  datatype Images = Images(header: ImageHeader, pixels: seq<seq<Byte>>)

  /** A loaded label file: one byte per label. */
  datatype Labels = Labels(header: LabelHeader, labels: seq<Byte>)

  const IMAGE_HEADER_SIZE: nat := 16
  const LABEL_HEADER_SIZE: nat := 8

  /** Header field k: bytes 4k..4k+4 read as a big-endian int32. */
  function Field(data: seq<Byte>, k: nat): (r: int)
    requires 4 * k + 4 <= |data|
    ensures IsInt32(r)
  {
    BE32(data[4 * k], data[4 * k + 1], data[4 * k + 2], data[4 * k + 3])
  }

  function ImageHeaderOf(data: seq<Byte>): ImageHeader
    requires |data| >= IMAGE_HEADER_SIZE
  {
    ImageHeader(Field(data, 0), Field(data, 1), Field(data, 2), Field(data, 3))
  }

  function LabelHeaderOf(data: seq<Byte>): LabelHeader
    requires |data| >= LABEL_HEADER_SIZE
  {
    LabelHeader(Field(data, 0), Field(data, 1))
  }

  /** `rows * cols` on two int32 scalars: the product wraps modulo 2^32. */
  function Width(h: ImageHeader): (w: int)
    ensures IsInt32(w)
    ensures IsInt32(h.rows * h.cols) ==> w == h.rows * h.cols
  {
    Wrap32(h.rows * h.cols)
  }

  /** `reshape(count, width)` of a payload of `len` elements succeeds. */
  predicate ShapeFits(h: ImageHeader, len: nat) {
    h.count >= 0 && Width(h) >= 0 && len == h.count * Width(h)
  }

  /** Splits a payload of n*w elements into n consecutive rows of w elements. */
  function Chunks(payload: seq<Byte>, n: nat, w: nat): (r: seq<seq<Byte>>)
    requires |payload| == n * w
    ensures |r| == n
    ensures forall k :: 0 <= k < n ==> |r[k]| == w
    decreases n
  {
    if n == 0 then []
    else
      MulStep(n, w);
      [payload[..w]] + Chunks(payload[w..], n - 1, w)
  }

  lemma MulStep(n: nat, w: nat)
    requires n > 0
    ensures n * w == w + (n - 1) * w
  {
  }

  lemma MulNonNegative(a: int, b: int)
    requires a >= 0 && b >= 0
    ensures a * b >= 0
  {
  }

  lemma MulBound(k: nat, n: nat, w: nat)
    requires k < n
    ensures k * w + w <= n * w
  {
    assert k * w + w == (k + 1) * w;
    assert (k + 1) * w <= n * w by {
      assert n * w == (k + 1) * w + (n - k - 1) * w;
    }
  }

  /** Row k of the split is the k-th run of w elements: payload[k*w .. k*w + w]. */
  lemma {:induction false} ChunkAt(payload: seq<Byte>, n: nat, w: nat, k: nat)
    requires |payload| == n * w && k < n
    ensures k * w + w <= |payload|
    ensures Chunks(payload, n, w)[k] == payload[k * w .. k * w + w]
    decreases k
  {
    MulBound(k, n, w);
    if k > 0 {
      MulStep(n, w);
      ChunkAt(payload[w..], n - 1, w, k - 1);
      MulStep(k, w);
    }
  }

  /**
   * `load_mnist_images`: a 16-byte header of four int32 fields, then every
   * remaining byte as a pixel, reshaped to `count` rows of `rows*cols`.
   */
  function LoadImages(data: seq<Byte>): (r: Result<Images, LoadError>)
    ensures |data| < IMAGE_HEADER_SIZE ==> r == Err(ShortHeader)
    ensures |data| >= IMAGE_HEADER_SIZE ==>
      (r.Ok? <==> ShapeFits(ImageHeaderOf(data), |data| - IMAGE_HEADER_SIZE))
    ensures r.Err? && |data| >= IMAGE_HEADER_SIZE ==> r.error == ReshapeError
    ensures r.Ok? ==>
      && |data| >= IMAGE_HEADER_SIZE
      && r.value.header == ImageHeaderOf(data)
      && |r.value.pixels| == r.value.header.count
      && Rectangular(r.value.pixels, Width(r.value.header))
  {
    if |data| < IMAGE_HEADER_SIZE then Err(ShortHeader)
    else
      var h := ImageHeaderOf(data);
      var payload := data[IMAGE_HEADER_SIZE..];
      if !ShapeFits(h, |payload|) then Err(ReshapeError)
      else Ok(Images(h, Chunks(payload, h.count, Width(h))))
  }

  /** Image k of a loaded file is the k-th run of rows*cols bytes after the header, in file order. */
  lemma ImageRow(data: seq<Byte>, k: nat)
    requires LoadImages(data).Ok? && k < |LoadImages(data).value.pixels|
    ensures var w := Width(ImageHeaderOf(data));
      IMAGE_HEADER_SIZE + k * w + w <= |data| && LoadImages(data).value.pixels[k] == data[IMAGE_HEADER_SIZE + k * w .. IMAGE_HEADER_SIZE + k * w + w]
  {
    var h := ImageHeaderOf(data);
    var w := Width(h);
    var payload := data[IMAGE_HEADER_SIZE..];
    assert ShapeFits(h, |payload|);
    assert LoadImages(data).value.pixels == Chunks(payload, h.count, w);
    ChunkAt(payload, h.count, w, k);
    var lo := k * w;
    assert Chunks(payload, h.count, w)[k] == payload[lo .. lo + w];
    SliceOfSuffix(data, IMAGE_HEADER_SIZE, lo, w);
  }

  lemma SliceOfSuffix(s: seq<Byte>, start: nat, lo: nat, len: nat)
    requires start + lo + len <= |s|
    ensures s[start..][lo .. lo + len] == s[start + lo .. start + lo + len]
  {
  }

  /**
   * `load_mnist_labels`: an 8-byte header of two int32 fields, then every
   * remaining byte as a label, whatever count the header declares.
   */
  function LoadLabels(data: seq<Byte>): (r: Result<Labels, LoadError>)
    ensures r.Ok? <==> |data| >= LABEL_HEADER_SIZE
    ensures r.Err? ==> r.error == ShortHeader
    ensures r.Ok? ==> r.value.header == LabelHeaderOf(data) && r.value.labels == data[LABEL_HEADER_SIZE..]
  {
    if |data| < LABEL_HEADER_SIZE then Err(ShortHeader)
    else Ok(Labels(LabelHeaderOf(data), data[LABEL_HEADER_SIZE..]))
  }

  /**
   * `np.column_stack((labels, images))`: the label vector becomes column 0
   * in front of each image row; the row counts must agree.
   */
  function ColumnStack(labels: seq<Byte>, images: seq<seq<Byte>>): (r: Result<seq<seq<Byte>>, LoadError>)
    ensures r.Ok? <==> |labels| == |images|
    ensures r.Err? ==> r.error == RowMismatch
    ensures r.Ok? ==>
      && |r.value| == |labels|
      && forall i :: 0 <= i < |labels| ==> r.value[i] == [labels[i]] + images[i]
  {
    if |labels| != |images| then Err(RowMismatch)
    else if labels == [] then Ok([])
    else
      var rest := ColumnStack(labels[1..], images[1..]);
      Ok([[labels[0]] + images[0]] + rest.value)
  }

  /**
   * One half of `processMinst`: load the image file, then the label file,
   * and stack them; the first error raised is the one reported.
   */
  function ProcessPair(imageFile: seq<Byte>, labelFile: seq<Byte>): (r: Result<seq<seq<Byte>>, LoadError>)
    ensures r.Ok? <==>
      LoadImages(imageFile).Ok? && LoadLabels(labelFile).Ok? &&
      |labelFile| - LABEL_HEADER_SIZE == ImageHeaderOf(imageFile).count
    ensures LoadImages(imageFile).Err? ==> r == Err(LoadImages(imageFile).error)
    ensures LoadImages(imageFile).Ok? && LoadLabels(labelFile).Err? ==> r == Err(ShortHeader)
    ensures r.Ok? ==>
      var images, labels := LoadImages(imageFile).value.pixels, LoadLabels(labelFile).value.labels;
      && |r.value| == |images|
      && forall i :: 0 <= i < |r.value| ==> r.value[i] == [labels[i]] + images[i]
  {
    match LoadImages(imageFile)
    case Err(e) => Err(e)
    case Ok(images) =>
      match LoadLabels(labelFile)
      case Err(e) => Err(e)
      case Ok(labels) => ColumnStack(labels.labels, images.pixels)
  }

  // ---------------------------------------------------------------------
  // A writer for IDX files, the partner of the loaders.
  // ---------------------------------------------------------------------

  /** The rows of a matrix laid end to end (row-major order). */
  function Flatten(rows: seq<seq<Byte>>): seq<Byte> {
    if rows == [] then [] else rows[0] + Flatten(rows[1..])
  }

  /** An image header the writer can emit and the loader reads back unchanged. */
  predicate WritableImageHeader(h: ImageHeader) {
    && IsInt32(h.magic) && IsInt32(h.count) && IsInt32(h.rows) && IsInt32(h.cols)
    && h.count >= 0 && h.rows >= 0 && h.cols >= 0 && IsInt32(h.rows * h.cols)
  }

  /** Every row of the matrix has w elements. */
  predicate Rectangular(rows: seq<seq<Byte>>, w: int) {
    forall k :: 0 <= k < |rows| ==> |rows[k]| == w
  }

  function WriteImages(h: ImageHeader, pixels: seq<seq<Byte>>): seq<Byte>
    requires IsInt32(h.magic) && IsInt32(h.count) && IsInt32(h.rows) && IsInt32(h.cols)
  {
    EncodeBE32(h.magic) + EncodeBE32(h.count) + EncodeBE32(h.rows) + EncodeBE32(h.cols) + Flatten(pixels)
  }

  function WriteLabels(h: LabelHeader, labels: seq<Byte>): seq<Byte>
    requires IsInt32(h.magic) && IsInt32(h.count)
  {
    EncodeBE32(h.magic) + EncodeBE32(h.count) + labels
  }

  lemma {:induction false} FlattenLength(rows: seq<seq<Byte>>, w: nat)
    requires Rectangular(rows, w)
    ensures |Flatten(rows)| == |rows| * w
  {
    if rows != [] {
      FlattenLength(rows[1..], w);
    }
  }

  lemma {:induction false} ChunksOfFlatten(rows: seq<seq<Byte>>, w: nat)
    requires Rectangular(rows, w)
    ensures |Flatten(rows)| == |rows| * w
    ensures Chunks(Flatten(rows), |rows|, w) == rows
  {
    FlattenLength(rows, w);
    if rows != [] {
      ChunksOfFlatten(rows[1..], w);
      assert Flatten(rows)[..w] == rows[0];
      assert Flatten(rows)[w..] == Flatten(rows[1..]);
    }
  }

  lemma {:induction false} FlattenOfChunks(payload: seq<Byte>, n: nat, w: nat)
    requires |payload| == n * w
    ensures Flatten(Chunks(payload, n, w)) == payload
    decreases n
  {
    if n > 0 {
      assert |payload| == w + (n - 1) * w;
      FlattenOfChunks(payload[w..], n - 1, w);
      var c := Chunks(payload, n, w);
      assert c[1..] == Chunks(payload[w..], n - 1, w);
    }
  }

  /** The four encoded header fields are read back as the header. */
  lemma HeaderRoundTrip(h: ImageHeader, rest: seq<Byte>)
    requires IsInt32(h.magic) && IsInt32(h.count) && IsInt32(h.rows) && IsInt32(h.cols)
    ensures var data := EncodeBE32(h.magic) + EncodeBE32(h.count) + EncodeBE32(h.rows) + EncodeBE32(h.cols) + rest;
      |data| >= IMAGE_HEADER_SIZE && ImageHeaderOf(data) == h && data[IMAGE_HEADER_SIZE..] == rest
  {
    var data := EncodeBE32(h.magic) + EncodeBE32(h.count) + EncodeBE32(h.rows) + EncodeBE32(h.cols) + rest;
    EncodeThenDecode(h.magic);
    EncodeThenDecode(h.count);
    EncodeThenDecode(h.rows);
    EncodeThenDecode(h.cols);
    assert data[0..4] == EncodeBE32(h.magic);
    assert data[4..8] == EncodeBE32(h.count);
    assert data[8..12] == EncodeBE32(h.rows);
    assert data[12..16] == EncodeBE32(h.cols);
    assert data[16..] == rest;
  }

  /** Writing a header and its rows, then loading, gives back exactly those rows and dimensions. */
  lemma WriteThenLoadImages(h: ImageHeader, pixels: seq<seq<Byte>>)
    requires WritableImageHeader(h)
    requires |pixels| == h.count && Rectangular(pixels, h.rows * h.cols)
    ensures LoadImages(WriteImages(h, pixels)) == Ok(Images(h, pixels))
  {
    var w := h.rows * h.cols;
    MulNonNegative(h.rows, h.cols);
    var data := WriteImages(h, pixels);
    HeaderRoundTrip(h, Flatten(pixels));
    ChunksOfFlatten(pixels, w);
    assert Width(h) == w;
    assert ShapeFits(h, |data| - IMAGE_HEADER_SIZE);
    assert LoadImages(data) == Ok(Images(h, Chunks(data[16..], h.count, w)));
  }

  /** A file that loads is exactly the file the writer produces from what was loaded. */
  lemma LoadThenWriteImages(data: seq<Byte>)
    requires LoadImages(data).Ok?
    ensures var f := LoadImages(data).value;
      IsInt32(f.header.magic) && IsInt32(f.header.count) && IsInt32(f.header.rows) && IsInt32(f.header.cols) &&
      WriteImages(f.header, f.pixels) == data
  {
    var h := ImageHeaderOf(data);
    FlattenOfChunks(data[16..], h.count, Width(h));
    DecodeThenEncode(data[0], data[1], data[2], data[3]);
    DecodeThenEncode(data[4], data[5], data[6], data[7]);
    DecodeThenEncode(data[8], data[9], data[10], data[11]);
    DecodeThenEncode(data[12], data[13], data[14], data[15]);
    assert data == data[0..4] + data[4..8] + data[8..12] + data[12..16] + data[16..];
  }

  lemma WriteThenLoadLabels(h: LabelHeader, labels: seq<Byte>)
    requires IsInt32(h.magic) && IsInt32(h.count)
    ensures LoadLabels(WriteLabels(h, labels)) == Ok(Labels(h, labels))
  {
    var data := WriteLabels(h, labels);
    EncodeThenDecode(h.magic);
    EncodeThenDecode(h.count);
    assert data[0..4] == EncodeBE32(h.magic);
    assert data[4..8] == EncodeBE32(h.count);
    assert data[8..] == labels;
  }

  lemma LoadThenWriteLabels(data: seq<Byte>)
    requires |data| >= LABEL_HEADER_SIZE
    ensures var f := LoadLabels(data).value;
      IsInt32(f.header.magic) && IsInt32(f.header.count) && WriteLabels(f.header, f.labels) == data
  {
    DecodeThenEncode(data[0], data[1], data[2], data[3]);
    DecodeThenEncode(data[4], data[5], data[6], data[7]);
    assert data == data[0..4] + data[4..8] + data[8..];
  }

  /** The magic number is never checked: replacing its four bytes changes nothing but the magic. */
  lemma MagicIgnoredByImages(data: seq<Byte>, m: seq<Byte>)
    requires |data| >= IMAGE_HEADER_SIZE && |m| == 4
    ensures var other := m + data[4..];
      && LoadImages(other).Ok? == LoadImages(data).Ok?
      && (LoadImages(data).Err? ==> LoadImages(other) == LoadImages(data))
      && (LoadImages(data).Ok? ==>
            LoadImages(other).value.pixels == LoadImages(data).value.pixels &&
            LoadImages(other).value.header == LoadImages(data).value.header.(magic := BE32(m[0], m[1], m[2], m[3])))
  {
    var other := m + data[4..];
    assert other[4..] == data[4..];
    assert ImageHeaderOf(other) == ImageHeaderOf(data).(magic := BE32(m[0], m[1], m[2], m[3]));
    assert other[16..] == data[16..];
  }

  lemma MagicIgnoredByLabels(data: seq<Byte>, m: seq<Byte>)
    requires |data| >= LABEL_HEADER_SIZE && |m| == 4
    ensures var other := m + data[4..];
      LoadLabels(other).Ok? && LoadLabels(other).value.labels == LoadLabels(data).value.labels
  {
    var other := m + data[4..];
    assert other[8..] == data[8..];
  }

  /** Each header field of an image file is the int32 whose big-endian encoding is its 4-byte slice. */
  lemma ImageHeaderFields(data: seq<Byte>)
    requires |data| >= IMAGE_HEADER_SIZE
    ensures var h := ImageHeaderOf(data);
      && EncodeBE32(h.magic) == data[0..4]
      && EncodeBE32(h.count) == data[4..8]
      && EncodeBE32(h.rows) == data[8..12]
      && EncodeBE32(h.cols) == data[12..16]
  {
    DecodeThenEncode(data[0], data[1], data[2], data[3]);
    DecodeThenEncode(data[4], data[5], data[6], data[7]);
    DecodeThenEncode(data[8], data[9], data[10], data[11]);
    DecodeThenEncode(data[12], data[13], data[14], data[15]);
  }

  /** The declared label count is never compared with anything: any count gives the same labels. */
  lemma LabelCountIgnored(data: seq<Byte>, c: seq<Byte>)
    requires |data| >= LABEL_HEADER_SIZE && |c| == 4
    ensures var other := data[..4] + c + data[8..];
      LoadLabels(other).Ok? && LoadLabels(other).value.labels == LoadLabels(data).value.labels
  {
    var other := data[..4] + c + data[8..];
    assert other[8..] == data[8..];
  }

  /** With an int32 width that does not wrap, loading succeeds exactly when the payload is count*rows*cols bytes. */
  lemma ImagesLoadIffExactPayload(data: seq<Byte>)
    requires |data| >= IMAGE_HEADER_SIZE
    requires var h := ImageHeaderOf(data); h.count >= 0 && h.rows >= 0 && h.cols >= 0 && IsInt32(h.rows * h.cols)
    ensures var h := ImageHeaderOf(data);
      LoadImages(data).Ok? <==> |data| - IMAGE_HEADER_SIZE == h.count * (h.rows * h.cols)
  {
    var h := ImageHeaderOf(data);
    var w := h.rows * h.cols;
    assert w >= 0 by {
      MulNonNegative(h.rows, h.cols);
    }
    assert Width(h) == w;
    assert LoadImages(data).Ok? <==> |data| - 16 == h.count * w;
  }

  /** Combined row i of a successful pair: label i in column 0, then the i-th run of rows*cols image bytes. */
  lemma CombinedRowLayout(imageFile: seq<Byte>, labelFile: seq<Byte>, i: nat)
    requires ProcessPair(imageFile, labelFile).Ok?
    requires i < |ProcessPair(imageFile, labelFile).value|
    ensures var row, w := ProcessPair(imageFile, labelFile).value[i], Width(ImageHeaderOf(imageFile));
      && |row| == 1 + w
      && row[0] == labelFile[LABEL_HEADER_SIZE + i]
      && IMAGE_HEADER_SIZE + i * w + w <= |imageFile|
      && row[1..] == imageFile[IMAGE_HEADER_SIZE + i * w .. IMAGE_HEADER_SIZE + i * w + w]
  {
    ImageRow(imageFile, i);
  }
}
