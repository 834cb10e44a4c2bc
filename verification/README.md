# Fashion-MNIST CSV loader and evaluation count, in Dafny

The Fashion-MNIST program reads images from CSV text with `load_csv`. Each
line holds a class label and then 784 pixel intensities, separated by commas.
The line is cut into fields with `std::getline(ss, value, ',')`, and every
field is converted with `std::stoul`. Each pixel is narrowed to
`unsigned char`, and the 784 pixels are copied row-major into a 28×28
matrix. The matrix and the label are appended to two vectors owned by the
caller. After training, `main` counts the test images whose predicted class
equals their label.

This project models those two pieces of logic and proves properties of them:

- `numeric.dfy` (module `Numeric`) models `std::stoul` on a 64-bit
  `unsigned long`:
  - leading C-locale white space is skipped;
  - one optional `+` or `-` is accepted;
  - the longest run of decimal digits is read, and trailing characters are
    ignored;
  - no digit right after the white space and the sign raises
    `invalid_argument`, and a value above 2^64 − 1 raises `out_of_range`;
  - a `-` sign negates the value modulo 2^64, as `strtoul` does.
- `fields.dfy` (module `Fields`) models a comma-separated line and a
  `std::stringstream` read with `std::getline`:
  - splitting and joining on a delimiter, with their round trips;
  - class `StringStream` keeps the read position and the eofbit and failbit
    flags;
  - `GetLine` follows the library's rules: the stream's guard fails once eof
    or fail is set, and `value` is then left as it was.
- `image.dfy` (module `Image`) models the 28×28 matrix:
  - narrowing to a byte modulo 256;
  - the row-major reshape as a function, with its inverse `Flatten`;
  - the nested row/column copy loop as a method over a two-dimensional array.
- `loader.dfy` (module `Loader`) models the loader itself:
  - the lines the file loop hands out;
  - the tokens the 785 `getline` calls leave in `value`;
  - the parse of one line to a `Record`, and the load of a whole file as a
    function;
  - the imperative `ReadPixel`, `ReadPixels`, `ReadRecord` and `LoadCsv`, which
    work on a pixel buffer array and on two `Vector` objects that are only
    appended to.
- `evaluation.dfy` (module `Evaluation`) models the counting loop. The
  network is a function parameter `predict`.

## Model

| member | source | states |
|---|---|---|
| Numeric.Stoul | Fasion.cpp:54 | a value stoul returns fits in an unsigned long (at most 2^64 − 1) |
| Numeric.Negate | Fasion.cpp:54 | the value stoul gives for a `-` sign is the magnitude's negation modulo 2^64: it fits in an unsigned long, and value plus magnitude is a multiple of 2^64 |
| Numeric.StoulRejectsNoNumber | Fasion.cpp:54 | stoul throws invalid_argument exactly when no digit follows the leading white space and the optional sign (an empty field, a blank line, `label`, `x5`, `- 5`, `+-3`) |
| Numeric.StoulReadsLeadingDigits | Fasion.cpp:54 | for white space, an optional sign, a run of digits and anything after them that does not start with a digit, stoul gives the run's value (negated modulo 2^64 after `-`), or out_of_range when the value exceeds 2^64 − 1 |
| Numeric.StoulReadsDecimal | Fasion.cpp:54 | the decimal form of n, with optional leading spaces, sign and non-digit suffix, reads back as n (negated after `-`), or as out_of_range when n does not fit |
| Numeric.StoulOfDecimal | Fasion.cpp:54 | the plain decimal form of a value that fits reads back as that value |
| Fields.Split | Fasion.cpp:53-58 | the fields getline cuts a line into: always at least one; their meaning is given by `Fields.JoinSplit`, `Fields.SplitJoin` and `Fields.SplitHasNoDelimiter` |
| Fields.SplitHasNoDelimiter | Fasion.cpp:53 | no field of a split line contains the delimiter |
| Fields.JoinSplit | Fasion.cpp:53 | joining the fields of a line with the delimiter gives the line back |
| Fields.SplitJoin | Fasion.cpp:53 | splitting a join of delimiter-free fields gives the fields back |
| Fields.SplitAppend | Fasion.cpp:57-60 | the fields of `x,y` are the fields of x followed by the fields of y |
| Fields.JoinAt | Fasion.cpp:58 | field k sits at its start offset in the line, followed by a comma, or by the end of the line when it is the last field |
| Fields.StringStream.constructor | Fasion.cpp:47 | a fresh stream over the line is at position 0 with neither eofbit nor failbit set |
| Fields.StringStream.GetLine | Fasion.cpp:53 | std::getline with ',': on a stream that is not good, failbit is set and value is returned unchanged. Otherwise the characters up to the next comma are extracted and the comma consumed, or reaching the end sets eofbit (and failbit when nothing was extracted). Call k hands out field k, and once the fields are used up it hands value back unchanged |
| Fields.StringStream.FieldEnd | Fasion.cpp:58 | the end of one extraction is the first comma at or after the read position, or the end of the text |
| Image.Narrow | Fasion.cpp:59 | static_cast to unsigned char keeps values below 256 and otherwise reduces modulo 256 |
| Image.Reshape | Fasion.cpp:62-68 | the 28×28 matrix holds pixel row·28 + col at (row, col) |
| Image.FlattenAt | Fasion.cpp:62-68 | flattening a matrix of 28-wide rows puts cell (row, col) at index row·28 + col |
| Image.FlattenReshape | Fasion.cpp:62-68 | flattening the reshaped matrix row by row gives back the 784 parsed pixels exactly |
| Image.ReshapeFlatten | Fasion.cpp:62-68 | every 28×28 matrix is the reshape of its own flattening |
| Image.ReshapeImage | Fasion.cpp:62-68 | the nested row/col copy loop builds a 28×28 matrix equal to the reshape of the pixel buffer |
| Loader.FileLines | Fasion.cpp:46 | the file loop yields no line exactly when the file is empty, and no line contains a newline |
| Loader.FileLinesOfLines | Fasion.cpp:46 | a file written as lines each ended by a newline reads back as those lines; so does one without a final newline whose last line is not empty |
| Loader.Token | Fasion.cpp:58 | the value getline call k leaves in `value` never holds a comma; `Loader.TokensAt` and `Loader.TokensStep` say which field of the line it is |
| Loader.ParseTokens | Fasion.cpp:54-59 | the stoul calls on the tokens in turn, stopping at the first that throws, give one value per token; `Loader.ParseTokensSpec` and `Loader.ParseTokensPrefixErr` give the values and the error |
| Loader.ParseTokensSpec | Fasion.cpp:53-60 | the tokens convert exactly when stoul accepts every one, to stoul's values; otherwise the error is that of the first token stoul rejects |
| Loader.ParseTokensPrefixErr | Fasion.cpp:54 | once a token throws, no later token is converted and the line fails with that error |
| Loader.TokensAt | Fasion.cpp:58 | the value left by getline call k is field k, or the last field once the fields are used up |
| Loader.TokensStep | Fasion.cpp:57-59 | the first call reads field 0; each later call reads the next field, or repeats the previous value once the fields are used up |
| Loader.ParseRecord | Fasion.cpp:53-60 | the line body up to the reshape yields a label that fits an unsigned long; `Loader.ParseRecordOk` and `Loader.ParseRecordErr` give the record and the error |
| Loader.ParseRecordOk | Fasion.cpp:53-60 | a line gives a record exactly when stoul accepts all 785 tokens; the label is stoul of the first field, and pixel k is token k+1's value modulo 256 |
| Loader.ParseRecordErr | Fasion.cpp:53-60 | a line that gives no record fails with the error of the first token stoul rejects |
| Loader.ParseRecordFromTokens | Fasion.cpp:53-60 | when all 785 tokens convert, the record is the first value and the 784 narrowed others |
| Loader.ParseRecordFailsAt | Fasion.cpp:53-60 | when the first n tokens convert and token n does not, the line fails with token n's error |
| Loader.ExtraFieldsIgnored | Fasion.cpp:57-60 | fields after the 785th are never read: appending more leaves the result unchanged |
| Loader.ShortLineRepeatsLast | Fasion.cpp:57-59 | a line with fewer than 785 fields whose fields all convert is not rejected, and every pixel past its last field repeats that field's value |
| Loader.NoNumberFieldRejected | Fasion.cpp:53-59 | a field among the first 785 with no digit after its white space and optional sign makes the line fail, with invalid_argument when every field before it converts |
| Loader.EmptyLineRejected | Fasion.cpp:53-54 | an empty line throws invalid_argument from the label's stoul |
| Loader.ParseFormatLine | Fasion.cpp:53-60 | a record written as a decimal label and 784 decimal pixels separated by commas parses back to that record |
| Loader.Load | Fasion.cpp:46-72 | the load ends without error exactly when every line gives a record, and never has more records than lines |
| Loader.LoadSpec | Fasion.cpp:46-72 | record i comes from line i, in file order; an error is that of the first line without a record |
| Loader.LoadStopsAtError | Fasion.cpp:46-72 | the first failing line ends the load with its error and the records of the lines before it |
| Loader.LoadAllLines | Fasion.cpp:46-72 | when every line parses, the load gives exactly one record per line, in order, and no error |
| Loader.BlankLineStopsLoad | Fasion.cpp:46-54 | a blank line is not skipped: it ends the load with invalid_argument after the records of the lines before it |
| Loader.Vector.constructor | Fasion.cpp:82-83 | a vector declared by the caller starts empty |
| Loader.Vector.PushBack | Fasion.cpp:70-71 | push_back appends one element and changes nothing else |
| Loader.ReadPixel | Fasion.cpp:58-59 | one pixel step: the next getline leaves the next token, stoul is applied to it, and its narrowed value is written to the pixel's place on success, with the buffer otherwise unchanged |
| Loader.ReadPixels | Fasion.cpp:57-60 | the 784-step pixel loop: either every pixel token converts and the buffer holds the narrowed values, or it stops at the first pixel token that throws and returns that token's position and error |
| Loader.ReadRecord | Fasion.cpp:47-60 | one line's pass up to the reshape returns the label and a 784-byte buffer equal to the line's record, or that line's error |
| Loader.LoadCsv | Fasion.cpp:42-73 | the two vectors grow in lockstep, each by one element per record, in file order, with their prior contents untouched; the result is the load's error, and an empty file changes nothing |
| Evaluation.HitsStep | Fasion.cpp:103-105 | each test image adds its index to the hits exactly when its prediction equals its label |
| Evaluation.HitsCount | Fasion.cpp:101-106 | at most n of the first n predictions are right, and all n are right exactly when each matches its label |
| Evaluation.NoHits | Fasion.cpp:101-106 | no prediction is right exactly when the count of hits is zero |
| Evaluation.CountCorrect | Fasion.cpp:101-106 | the counting loop returns the number of indices whose prediction equals the label: 0 ≤ correct ≤ the number of test images, with equality exactly when every prediction is right |

## Left out

- The dlib network definition, training with `dnn_trainer`, the learning rate,
  mini-batch size, stop threshold and synchronization file: they are calls
  into a foreign library, with floating-point numerics.
- Inference `net(image)` is not modelled. It is the parameter `predict` of
  `Evaluation.CountCorrect`, a total function from matrix to class.
- The accuracy ratio and its printing: floating point and standard output.
- Saving the network with `dlib::serialize`: a binary format and file I/O.
- Opening files with `std::ifstream` and the hard-coded paths. `LoadCsv` takes
  the file's contents as a string. A file that cannot be opened yields no
  lines, which is the empty string here.
- Reading the file is not line by line. `Loader.FileLines` splits the whole
  contents up front, so a load stopped by an error still sees the same lines
  before it.
- The exception that `stoul` throws is not propagated. `LoadCsv` and
  `ReadRecord` return it as a value instead, and the vectors keep what was
  appended before the failing line, as they do after the throw.
- Evaluation.CountCorrect: the counter is a mathematical natural, not a
  32-bit `int`, so overflow past 2^31 − 1 matching images is not modelled.
- Evaluation.CountCorrect: it requires at least as many labels as images. The
  loop indexes the label vector by the image index, so the caller must ensure
  this; `load_csv` gives both vectors the same length.
- `unsigned long` is taken to be 64 bits wide, as on LP64 platforms.
- Only the C locale's white space is skipped before a number, and only base 10
  is read, as the `stoul` default base.
- load_csv does not validate its input:
  - pixels above 255 are reduced modulo 256 by the `unsigned char` cast
    (`Image.Narrow`);
  - a line with fewer than 785 fields is accepted, and its missing pixels
    repeat the last field's value (`Loader.ShortLineRepeatsLast`);
  - an empty line inside the text, or an empty last line in text ending in
    two newlines, is not skipped. It ends the load with invalid_argument
    (`Loader.BlankLineStopsLoad`). A single final newline starts no line
    (`Loader.FileLinesOfLines`).
