# MNIST IDX loader and C-array header generator, modelled in Dafny

This project models the two byte-level format transforms of the Bonsai
example scripts of EdgeML:

* **The IDX (MNIST) reader** of `examples/tf/Bonsai/process_mnist.py`.
  `load_mnist_images` reads a 16-byte header of four big-endian signed
  32-bit integers (magic, count, rows, cols), takes every remaining byte as
  an unsigned pixel and reshapes the pixels into `count` rows of
  `rows*cols`. `load_mnist_labels` reads an 8-byte header (magic, count) and
  returns every remaining byte as a label. `processMinst` joins the two with
  `np.column_stack`, so row *i* is label *i* followed by image *i*.
  Module `Idx` (file `idx.dfy`) models these as total functions over the
  file's bytes. Each returns `Ok` with the parsed header and the array, or
  `Err` with the error numpy would raise. The header fields come from module
  `Bytes` (`bytes.dfy`). The magic number is never checked. The label count
  is never compared with anything. `rows * cols` is a product of two numpy
  `int32` scalars, so it wraps modulo 2^32; `Idx.Width` models that wrap
  explicitly. A writer (`WriteImages`, `WriteLabels`) is defined as the
  loaders' partner, and both round trips are proved.
* **The binary-to-C-array generator** `hex_to_c_array` of
  `examples/tf/Bonsai/convertForArduino.py`. Module `CArray`
  (`c_array.dfy`) models it as methods with loops over a `seq` accumulator.
  `CArray.HexToCArray` follows the code as written. The closing text and
  the `return` sit inside the `for` loop, so a non-empty input gives a text
  built from the first token only. An empty input never enters the loop and
  returns `None`. `CArray.HexToCArrayFixed` is the evidently intended
  version: it collects every token first and closes the text once. Its
  array literal reads back as exactly the input bytes. The literals
  `'#indef'` and `'#define'` (no trailing space) are kept verbatim in both
  versions. The line-11 literal `'\unsigned int '` is kept as the opaque
  constant `CArray.LENGTH_PREFIX`, a backslash followed by `unsigned int `.

Module `Text` (`text.dfy`) holds the string operations the converter calls:
ASCII `str.upper`, `str(n)` for a length, and `str.join`. Module
`Wrappers` (`wrappers.dfy`) holds `Option` and `Result`.

Bytes are the subset type `Bytes.Byte` (0..255). Every pixel and label
value is therefore in 0..255 by type, as numpy's `uint8` makes it.

## Model

| member | source | states |
|---|---|---|
| `Bytes.BE32` | examples/tf/Bonsai/process_mnist.py:24 | four bytes read big-endian as a two's-complement int32: the result is in the int32 range and negative exactly when the first byte is 128 or more |
| `Bytes.EncodeThenDecode` | examples/tf/Bonsai/process_mnist.py:24 | decoding the 4-byte big-endian encoding of any int32 gives it back |
| `Bytes.DecodeThenEncode` | examples/tf/Bonsai/process_mnist.py:24 | encoding the decoded value of any four bytes gives the same four bytes, so the `>i4` reading is a bijection |
| `Bytes.Wrap32` | examples/tf/Bonsai/process_mnist.py:29 | the int32 result numpy leaves for a product: in the int32 range, congruent to the true value modulo 2^32, and equal to it when it fits |
| `Idx.Width` | examples/tf/Bonsai/process_mnist.py:29 | `rows * cols` on int32 scalars is an int32, and it is the true product whenever that product fits in 32 bits |
| `Idx.Field` | examples/tf/Bonsai/process_mnist.py:24-25 | header field k is bytes 4k..4k+4 read as `>i4`, always an int32 |
| `Idx.ImageHeaderFields` | examples/tf/Bonsai/process_mnist.py:24-25 | each of the four image header fields is the int32 whose big-endian encoding is its own 4-byte slice of the file |
| `Idx.Chunks` | examples/tf/Bonsai/process_mnist.py:29 | reshaping n*w payload elements gives exactly n rows of exactly w elements |
| `Idx.ChunkAt` | examples/tf/Bonsai/process_mnist.py:29 | row k of the reshape is payload[k*w .. k*w+w], row-major order |
| `Idx.LoadImages` | examples/tf/Bonsai/process_mnist.py:12-30 | fewer than 16 bytes is a header error; otherwise loading succeeds exactly when count >= 0, the wrapped width >= 0 and the bytes after offset 16 number count*width, and fails with a reshape error otherwise; on success the header is the decoded first 16 bytes and there are `count` images of `width` pixels each |
| `Idx.ImageRow` | examples/tf/Bonsai/process_mnist.py:27-29 | image k of a loaded file is the k-th run of width bytes after the header |
| `Idx.ImagesLoadIffExactPayload` | examples/tf/Bonsai/process_mnist.py:27-29 | with non-negative dimensions whose product fits in 32 bits, loading succeeds exactly when the payload has count*(rows*cols) bytes |
| `Idx.MagicIgnoredByImages` | examples/tf/Bonsai/process_mnist.py:25 | replacing the four magic bytes changes neither success nor the images nor any other header field |
| `Idx.LoadLabels` | examples/tf/Bonsai/process_mnist.py:32-46 | loading succeeds exactly when there are at least 8 bytes; the labels are all bytes after offset 8 and the header is the decoded first 8 bytes |
| `Idx.MagicIgnoredByLabels` | examples/tf/Bonsai/process_mnist.py:43 | replacing the four magic bytes of a label file leaves the labels unchanged |
| `Idx.LabelCountIgnored` | examples/tf/Bonsai/process_mnist.py:42-46 | any declared label count gives the same labels: their number is not checked against it |
| `Idx.ColumnStack` | examples/tf/Bonsai/process_mnist.py:79 | stacking succeeds exactly when the row counts are equal, else a row-mismatch error; combined row i is `[labels[i]] + images[i]` |
| `Idx.ProcessPair` | examples/tf/Bonsai/process_mnist.py:76-79 | the combined matrix exists exactly when both files load and the label count equals the image count; an image error is reported first; row i is label i followed by image i |
| `Idx.CombinedRowLayout` | examples/tf/Bonsai/process_mnist.py:76-84 | combined row i has width 1 + rows*cols, holds label byte 8+i in column 0 and the i-th image's bytes after it |
| `Idx.ChunksOfFlatten` | examples/tf/Bonsai/process_mnist.py:29 | reshaping the row-major concatenation of n rows of width w gives back those rows |
| `Idx.FlattenOfChunks` | examples/tf/Bonsai/process_mnist.py:29 | concatenating the rows of a reshape gives back the payload |
| `Idx.HeaderRoundTrip` | examples/tf/Bonsai/process_mnist.py:24-27 | four encoded int32 fields followed by any payload are read back as that header and that payload |
| `Idx.WriteThenLoadImages` | examples/tf/Bonsai/process_mnist.py:13-30 | writing a header (magic, n, r, c) and n rows of r*c bytes, then loading, returns exactly that header and those rows |
| `Idx.LoadThenWriteImages` | examples/tf/Bonsai/process_mnist.py:13-30 | every image file that loads is byte for byte the file the writer produces from what was loaded |
| `Idx.WriteThenLoadLabels` | examples/tf/Bonsai/process_mnist.py:33-46 | writing a label header and labels, then loading, returns exactly them |
| `Idx.LoadThenWriteLabels` | examples/tf/Bonsai/process_mnist.py:33-46 | every label file of at least 8 bytes is the file the writer produces from what was loaded |
| `Text.Upper` | examples/tf/Bonsai/convertForArduino.py:7 | `upper()` keeps the length, lowers each ASCII lower-case letter's code by 32, keeps every other character, and leaves no lower-case letter |
| `Text.UpperIdempotent` | examples/tf/Bonsai/convertForArduino.py:7 | upper-casing twice is upper-casing once |
| `Text.NatToDecimal` | examples/tf/Bonsai/convertForArduino.py:11 | `str(len(...))` is a non-empty string of decimal digits with no leading zero |
| `Text.DecimalRoundTrip` | examples/tf/Bonsai/convertForArduino.py:11 | reading back the digits of `str(n)` gives n |
| `Text.DecimalInjective` | examples/tf/Bonsai/convertForArduino.py:11 | different lengths are written as different strings |
| `Text.Join` | examples/tf/Bonsai/convertForArduino.py:30 | `' '.join` of no strings is empty, of one string is that string, and always starts with the first string |
| `Text.JoinAppend` | examples/tf/Bonsai/convertForArduino.py:30 | joining one more string appends one separator and that string to the joined text |
| `Text.JoinLength` | examples/tf/Bonsai/convertForArduino.py:30 | the joined text's length is the sum of the strings' lengths plus one separator per pair of neighbours |
| `CArray.HexDigit` | examples/tf/Bonsai/convertForArduino.py:20 | the digit for d < 16 is a lower-case hexadecimal digit whose value is d |
| `CArray.Hex2` | examples/tf/Bonsai/convertForArduino.py:20 | `format(v, '#04x')` is "0x" followed by exactly two lower-case hexadecimal digits, and those digits read back as v |
| `CArray.Hex2Injective` | examples/tf/Bonsai/convertForArduino.py:20 | different byte values are rendered differently |
| `CArray.FormatToken` | examples/tf/Bonsai/convertForArduino.py:20-26 | the loop body builds exactly token i |
| `CArray.TokenLayout` | examples/tf/Bonsai/convertForArduino.py:20-26 | token i starts with the rendering of byte i, has a comma after it exactly when i+1 < len(data), and ends with "\n " exactly when (i+1) % 12 == 0 |
| `CArray.Tokens` | examples/tf/Bonsai/convertForArduino.py:17-27 | a full pass leaves exactly one token per byte, token i at index i |
| `CArray.CollectTokens` | examples/tf/Bonsai/convertForArduino.py:15-27 | the loop run to completion leaves `hex_array` equal to the tokens of every byte, in order |
| `CArray.LengthLineReadsBack` | examples/tf/Bonsai/convertForArduino.py:11 | the length line is the prefix, the name and "_len = ", then decimal digits reading back as len(data), then ";\n" |
| `CArray.WritePrologue` | examples/tf/Bonsai/convertForArduino.py:4-14 | the four `c_str +=` statements before the loop build exactly the guard lines, the length line and the array opening |
| `CArray.HeaderGuardFraming` | examples/tf/Bonsai/convertForArduino.py:7-8 | every text either version returns starts with "#indef" + NAME + "_H\n#define" + NAME + "_H\n" and ends with "#endif //" + NAME + "_H", NAME being the upper-cased name |
| `CArray.FirstLineIsGuard` | examples/tf/Bonsai/convertForArduino.py:7 | for a name without a line break, the first line of either version's text is exactly "#indef" + NAME + "_H" |
| `CArray.HexToCArray` | examples/tf/Bonsai/convertForArduino.py:2-35 | the function as written: no value for empty data; otherwise the prologue, the first token alone, the closing brace and the guard close |
| `CArray.AsWrittenFirstByteOnly` | examples/tf/Bonsai/convertForArduino.py:29-35 | as written, for non-empty data the text depends only on the first byte, the length and the name |
| `CArray.AsWrittenFraming` | examples/tf/Bonsai/convertForArduino.py:29-35 | as written, a non-empty result starts with the whole prologue and ends with "\n};\n\n#endif //" + NAME + "_H" |
| `CArray.AsWrittenReadsFirstByteOnly` | examples/tf/Bonsai/convertForArduino.py:29-35 | as written, the emitted array text (opening line break, tokens, closing brace) reads back as the first byte only, so it loses data whenever there are two or more bytes |
| `CArray.ParseToken` | examples/tf/Bonsai/convertForArduino.py:20-26 | a token and its separators read back as exactly its byte |
| `CArray.ParseJoinedTokens` | examples/tf/Bonsai/convertForArduino.py:17-30 | the space-joined tokens of bytes i.., followed by any text, read back as exactly those bytes followed by what that text reads as |
| `CArray.FixedReadsBack` | examples/tf/Bonsai/convertForArduino.py:17-30 | the emitted array text of all tokens (opening line break, tokens, closing brace) reads back as exactly the input bytes, the empty input included |
| `CArray.FixedAgreesOnOneByte` | examples/tf/Bonsai/convertForArduino.py:2-35 | on one-byte data the intended text is exactly what the code as written returns |
| `CArray.HexToCArrayFixed` | examples/tf/Bonsai/convertForArduino.py:2-35 | the intended function: prologue, the literal of every token, the closing brace and the guard close, once each, for every input |

## Left out

- `examples/tf/Bonsai/bonsai_mnist.py` as a whole: it wires hyperparameters into an external training library and a TensorFlow session, and none of that algorithm is in the repository. Its batch-size formula uses a floating-point square root.
- File-system work in `processMinst`: path joining, the `os.path.isfile` assertions (process_mnist.py:63-73), `np.save`/`np.savetxt` (93-98) and the final message. A loader takes the whole file as its byte sequence.
- The module-level script of `convertForArduino.py` (lines 37-55): the hard-coded path, the existence check, and reading and writing the files.
- Idx.LoadImages: numpy's unknown-dimension inference for a negative count or width is not modelled: numpy takes any negative entry of the shape as the dimension to infer, while the model reports every negative count or width as `ReshapeError`.
- numpy's `.npy` and `%d` text output formats, and all numpy `frombuffer` and `reshape` behaviour beyond what is stated above.
- Text.Upper: only ASCII letters are mapped. Python's Unicode case mapping of other letters (for example `ß` to `SS`, which changes the length) is not modelled.
- CArray.LENGTH_PREFIX: Python 3 rejects the line-11 literal `'\unsigned int '` as a truncated `\u` escape. The model treats it as a constant string (the Python 2 reading) and does not model escape parsing. Iterating the data yields integers 0..255, as in Python 3.
- CArray.HexToCArrayFixed: it fixes only the loop structure. It keeps the verbatim `'#indef'`, `'#define'` and line-11 texts, so its output is still not a valid C header.

## Findings

| source | as written | input that shows it | evidently intended | confidence | as-written member | corrected member |
|---|---|---|---|---|---|---|
| examples/tf/Bonsai/convertForArduino.py:29-35 | the closing brace, the `#endif` line and the `return` are indented inside the `for` loop, so the text is closed after the first token | data = [0x01, 0x02]: the array literal is `0x01,` and holds one byte of two | collect every token, then close the array and the guard once | high (not executed) | CArray.AsWrittenReadsFirstByteOnly | CArray.HexToCArrayFixed |
| examples/tf/Bonsai/convertForArduino.py:17-35 | an empty input never enters the loop and the function returns `None` | data = [] | a header with an empty array literal | high (not executed) | CArray.HexToCArray | CArray.HexToCArrayFixed |
