# Record layer of a teaching database engine, in Dafny

This project models the record layer of a small Java database engine and proves properties of the model:

- **`Prototype`** is the table schema. It covers:
  - the column list;
  - the schema check and canonical column sort of `validateColumns`;
  - the layout constants computed by `calculateSizes`;
  - the binary row codec (`convertToArray`, `convertBinaryToRowData`);
  - the primary-key helpers (`getPKColumns`, `isPKPrefix`, `convertPrimaryKeyToByteArray`, `createPKRow`).
- **`DataRow`** is a row under construction. It holds:
  - fields by column name and their column metadata;
  - a running byte counter and a validity flag;
  - values of a not-yet-known type;
  - the schema it is bound to.

  It also defines the row orderings `compareTo` and `partialMatch`.
- **The `compareTo` rules** of `LongField`, `BooleanField`, `NullField` and `BinaryField`.

## Modules

| file | module | contents |
|---|---|---|
| `base.dfy` | `Base` | Results and errors, byte buffers, fixed-width integer encodings, `Arrays.copyOfRange` |
| `columns.dfy` | `Columns` | Column descriptors, the schema rules, the canonical order and its sort |
| `fields.dfy` | `Fields` | The `Field` variants, the typed setters' byte images, and the four `compareTo` rules |
| `layout.dfy` | `Layout` | Header size, null-bit positions, key size, maximum record size, `isPKPrefix`, header bit arithmetic |
| `encoding.dfy` | `Encoding` | The row check and the record and key images the encoder produces, as functions |
| `decoding.dfy` | `Decoding` | The decoder as a function, with the round trip, projection and primary-key-only lemmas |
| `rows.dfy` | `Rows` | A row's field map: ascending name order, the byte total, and `compareTo`/`partialMatch` |
| `records.dfy` | `Records` | Classes `DataRow` and `Prototype`, whose methods update their fields as the Java methods do |

### Modelling conventions

- **Java exceptions become `Err` values.** `DataBaseException` becomes `Schema(rule)` or `Data(rule)`. The runtime exceptions the code can hit become `NullPointer`, `IndexOutOfBounds`, `IllegalArgument`, `ClassCast` and `AssertionFailure`. Methods that return nothing in Java return an `Outcome`.
- **Null becomes `Option`.** A `NullField` carries no bytes.
- **Fields are values; rows and schemas are objects.** A field is a datatype carrying its metadata and bytes. `DataRow` and `Prototype` are classes with `map`/`seq` fields that their methods reassign.
- **The codec has two layers.** Its operations are methods with the source's loops. Each is proved equal to a specification function (`Encode`, `Decode`, `PrimaryKeyBytes`, `KeyRowFrom`), and the properties are lemmas about those functions.
- **Foreign field comparisons are a parameter.** `compareTo` of the field variants outside this model (integer, float, double, string) is the parameter `foreign`. `NULL_COMPARE` and `NOT_DEFINED` are constants whose values are left open.
- **Where the code disagrees with its documented intent, the model follows the code:**
  - The header size is `1 + (n + 1) / 8` bytes for `n` nullable columns. That is one byte more than needed when `n + 1` is a multiple of 8.
  - `BinaryField` orders bytes as signed values (`Arrays.compare` on `byte[]`).

  There is one exception: the binary size `setData` records. The code's size (`data.length >> 8 + 1`, which is `data.length >> 9`) is `Fields.BinarySizeAsWritten`, and its defect is shown under Findings. The field the model's `setData` builds carries the corrected size `Fields.BinarySize` (see Left out).
- **Java strings are UTF-16.** A name's length (`String.length()`) and the name order (`String.compareTo`) are taken over UTF-16 code units (`Columns.Utf16`), not over characters. A character above U+FFFF counts twice and sorts by its leading surrogate.
- **Ties among primary-key columns in the sort.** The sort comparator breaks these ties with `columns.indexOf` on the list being sorted. The model breaks them by original position, which is what keeps the primary-key columns in their original relative order.

## Model

| member | source | states |
|---|---|---|
| Base.Zeros | Teste/ibd/table/prototype/Prototype.java:455 | `new byte[n]` is n bytes, all zero |
| Base.IntToBytes | Teste/ibd/table/prototype/DataRow.java:151-155 | the bytes stored for an int are 4 and read back (big-endian two's complement) as that int |
| Base.LongToBytes | Teste/ibd/table/prototype/DataRow.java:157-161 | the bytes stored for a long are 8 and read back as that long |
| Base.SignedBERoundTrip | Teste/ibd/table/prototype/DataRow.java:90-98 | any value in the n-byte signed range reads back from its n-byte encoding unchanged |
| Base.UnsignedLERoundTrip | Teste/ibd/table/prototype/Prototype.java:443-445 | little-endian encoding of u in n bytes reads back as u |
| Base.LengthPrefix | Teste/ibd/table/prototype/Prototype.java:443-446 | the length prefix of a variable-length value is always 4 bytes |
| Base.ReadLengthPrefix | Teste/ibd/table/prototype/Prototype.java:404 | a prefix is read as a signed 32-bit length |
| Base.LengthPrefixRoundTrip | Teste/ibd/table/prototype/Prototype.java:404 | reading the prefix written for any array length below 2^31 gives that length back |
| Base.CopyOfRange | Teste/ibd/table/prototype/Prototype.java:404-413 | `copyOfRange` succeeds iff 0 <= from <= length and from <= to; the copy has to - from bytes, those of the source and then zeros past its end |
| Base.CopyOfRangeSlice | Teste/ibd/table/prototype/Prototype.java:407 | a range inside the array copies exactly that slice |
| Columns.ToShort | Teste/ibd/table/prototype/Prototype.java:116-118 | a `(short)` cast always lands in the short range and keeps every value already in it |
| Columns.ColumnRule | Teste/ibd/table/prototype/Prototype.java:136-155 | column x breaks none of the per-column rules iff its name has 1..240 UTF-16 code units (`String.length()`) and, if it is a key, it is neither nullable nor dynamic |
| Columns.DuplicateFromNone | Teste/ibd/table/prototype/Prototype.java:156-163 | the inner loop finds nothing iff no later column's name equals column x's ignoring case |
| Columns.CheckFromNone | Teste/ibd/table/prototype/Prototype.java:134-164 | the loop from column x finds nothing iff every column from x keeps the per-column rules and no two names from x on are equal ignoring case |
| Columns.FirstViolationIffInvalid | Teste/ibd/table/prototype/Prototype.java:126-164 | `validateColumns` throws iff the schema is empty or breaks a rule (name length, nullable key, dynamic key, duplicate name) |
| Columns.SchemaOkDistinctNames | Teste/ibd/table/prototype/Prototype.java:156-163 | a schema that passes the checks has pairwise distinct names |
| Columns.CodeUnits | Teste/ibd/table/prototype/Prototype.java:136 | a character is one UTF-16 code unit below U+10000 and two (a surrogate pair) above |
| Columns.Utf16 | Teste/ibd/table/prototype/Prototype.java:136 | a string's UTF-16 form has between one and two code units per character |
| Columns.JavaLength | Teste/ibd/table/prototype/Prototype.java:136 | `String.length()` lies between the number of characters and twice it, and equals it when no character is above U+FFFF |
| Columns.BmpLength | Teste/ibd/table/prototype/DataRow.java:100-103 | a string of characters below U+10000 has as many code units as characters |
| Columns.CodeUnitsInjective | Teste/ibd/table/prototype/Prototype.java:185 | the code units of a character determine it, because a character is never itself a surrogate |
| Columns.Utf16Injective | Teste/ibd/table/prototype/Prototype.java:185 | different strings have different UTF-16 forms, so the code-unit order separates them |
| Columns.UnitsLessIrreflexive | Teste/ibd/table/prototype/Prototype.java:185 | no code-unit sequence precedes itself |
| Columns.UnitsLessAsymmetric | Teste/ibd/table/prototype/Prototype.java:185 | two code-unit sequences never precede each other |
| Columns.UnitsLessTransitive | Teste/ibd/table/prototype/Prototype.java:185 | the lexicographic code-unit order is transitive |
| Columns.UnitsLessTotal | Teste/ibd/table/prototype/Prototype.java:185 | of two different code-unit sequences one precedes the other |
| Columns.StrLessIrreflexive | Teste/ibd/table/prototype/Prototype.java:185 | no name sorts before itself under `String.compareTo` |
| Columns.StrLessAsymmetric | Teste/ibd/table/prototype/Prototype.java:185 | two names never sort before each other |
| Columns.StrLessTransitive | Teste/ibd/table/prototype/Prototype.java:185 | the name order is transitive |
| Columns.StrLessTotal | Teste/ibd/table/prototype/Prototype.java:185 | of two different names one sorts first |
| Columns.SupplementarySortsBeforeHighBmp | Teste/ibd/table/prototype/Prototype.java:185 | `String.compareTo` is not character order: "\u{10000}" sorts before "\u{FFFF}" |
| Columns.StrLess | Teste/ibd/table/prototype/Prototype.java:185 | `String.compareTo(a, b) < 0`: the first differing UTF-16 code unit decides, else the shorter string; its order properties are the StrLess lemmas |
| Columns.EqualsIgnoreCase | Teste/ibd/table/prototype/Prototype.java:156-163 | `equalsIgnoreCase` on names: equal length and equal letters up to case; its use is stated by Columns.DuplicateFromNone |
| Columns.DuplicateFrom | Teste/ibd/table/prototype/Prototype.java:156-163 | the inner loop of `validateColumns`; Columns.DuplicateFromNone states when it finds nothing |
| Columns.CheckFrom | Teste/ibd/table/prototype/Prototype.java:134-164 | the outer loop of `validateColumns`; Columns.CheckFromNone states when it finds nothing |
| Columns.FirstViolation | Teste/ibd/table/prototype/Prototype.java:126-164 | the exception `validateColumns` throws first; Columns.FirstViolationIffInvalid states it is absent iff the schema rules hold |
| Columns.Precedes | Teste/ibd/table/prototype/Prototype.java:166-191 | the sort comparator: keys first by original position, then fixed before variable size, then by size, then by name; Columns.PrecedesTransitive and Columns.PrecedesTotal make it a strict total order |
| Columns.CanonicalSort | Teste/ibd/table/prototype/Prototype.java:166-191 | the sorted column list; Columns.CanonicalSortSpec, Columns.CanonicalSortOrigin and Columns.CanonicalSortKeepsRules state it is a sorted permutation that keeps the rules |
| Columns.PrecedesTransitive | Teste/ibd/table/prototype/Prototype.java:166-191 | the column comparator (ties broken by original position) is transitive |
| Columns.PrecedesTotal | Teste/ibd/table/prototype/Prototype.java:166-191 | any two columns from different positions are ordered one way |
| Columns.Insert | Teste/ibd/table/prototype/Prototype.java:166-191 | one insertion step adds exactly the inserted column to the multiset of columns |
| Columns.InsertSorted | Teste/ibd/table/prototype/Prototype.java:166-191 | inserting into a sorted list keeps it sorted |
| Columns.InsertAll | Teste/ibd/table/prototype/Prototype.java:166-191 | sorting rearranges the list without adding or dropping entries |
| Columns.InsertAllSorted | Teste/ibd/table/prototype/Prototype.java:166-191 | the sort's result is sorted by the comparator |
| Columns.Tagged | Teste/ibd/table/prototype/Prototype.java:176 | each column is paired with its position in the list before sorting |
| Columns.SortedIsCanonical | Teste/ibd/table/prototype/Prototype.java:169-189 | in a sorted list: key columns first, in original order; then fixed-size; then dynamic; each non-key group ordered by size, then name |
| Columns.CanonicalSortSpec | Teste/ibd/table/prototype/Prototype.java:166-191 | the sort yields a sorted permutation in the canonical order, and its columns are a permutation of the input |
| Columns.ColumnsOfInsertAll | Teste/ibd/table/prototype/Prototype.java:166-191 | the columns of the sorted list are a permutation of the columns |
| Columns.CanonicalSortOrigin | Teste/ibd/table/prototype/Prototype.java:166-191 | each place of the sorted list holds the column of a distinct place of the original list |
| Columns.CanonicalSortKeepsRules | Teste/ibd/table/prototype/Prototype.java:126-191 | sorting a schema that keeps the rules gives one that keeps them, with distinct names |
| Fields.CreateField | Teste/ibd/table/prototype/Prototype.java:408 | the field built for a column carries its metadata, holds the bytes (unless the type is NULL) and has the column's type tag |
| Fields.StringToBytes | Teste/ibd/table/prototype/DataRow.java:101 | a string is stored as one byte per character |
| Fields.StringRoundTrip | Teste/ibd/table/prototype/DataRow.java:100-103 | 8-bit text stored by `setString` reads back unchanged |
| Fields.BooleanBytes | Teste/ibd/table/prototype/DataRow.java:116 | a boolean is stored as one byte |
| Fields.BooleanRoundTrip | Teste/ibd/table/prototype/DataRow.java:115-118 | the byte stored for a boolean (1 for true, 0 for false) reads back as that boolean |
| Fields.ReadSigned | Teste/ibd/table/prototype/DataRow.java:230-242 | reading n bytes succeeds iff the field holds at least n, and gives an n-byte signed value |
| Fields.Materialize | Teste/ibd/table/prototype/query/fields/NullField.java:23-26 | a NullField materialises to null and nothing else does; a BinaryField to its bytes |
| Fields.ValueBytes | Teste/ibd/table/prototype/DataRow.java:90-118 | every setter's value has a byte image except null, which is dereferenced |
| Fields.NativeField | Teste/ibd/table/prototype/DataRow.java:85-118 | setters without a column fail on null only; otherwise the field holds the value's bytes |
| Fields.ColumnField | Teste/ibd/table/prototype/DataRow.java:151-185 | setters with a column fail on null only; otherwise the field carries the column's metadata |
| Fields.Cast | Teste/ibd/table/prototype/DataRow.java:135-148 | the cast passes iff the value is of the column type's class, and then keeps the value; it fails with a NullPointerException exactly when the value is null |
| Fields.SetterRoundTrip | Teste/ibd/table/prototype/DataRow.java:151-185 | a value stored by a typed setter, with or without a column, reads back unchanged through the getter of its type |
| Fields.BinarySize | Teste/ibd/table/prototype/DataRow.java:87 | corrected: the size of a binary field in 256-byte units covers the data (n < units * 256 <= n + 256) |
| Fields.BinarySizeAsWritten | Teste/ibd/table/prototype/DataRow.java:87 | the code's size, `data.length >> 9` cast to short; Fields.BinarySizeAsWrittenTooSmall shows it falls short of the data |
| Fields.BinarySizeAsWrittenTooSmall | Teste/ibd/table/prototype/DataRow.java:87 | as written, a 300-byte array gets a size of 0 units, too small for its data; the corrected size is 2 |
| Fields.CompareInts | ibd/table/prototype/query/fields/LongField.java:39 | `Long.compare` is -1, 0 or 1, negative iff less and 0 iff equal |
| Fields.CompareBools | Teste/ibd/table/prototype/query/fields/BooleanField.java:32 | `Boolean.compare` is -1, 0 or 1, negative iff false against true, 0 iff equal |
| Fields.OperandWidth | ibd/table/prototype/query/fields/LongField.java:34-38 | an operand is read as 8 bytes when its metadata size is 8 (`getLong`), otherwise as 4 (`getInt`) |
| Fields.NumberOf | ibd/table/prototype/query/fields/LongField.java:33-38 | an operand has a number iff it is not a NullField and holds the bytes of its width; the number is their big-endian signed value |
| Fields.LongCompareTo | ibd/table/prototype/query/fields/LongField.java:24-40 | a null operand gives NULL_COMPARE; an integer operand succeeds iff its number can be read and the long holds 8 bytes, and then gives -1, 0 or 1 following the signed order of the long's first 8 bytes and the operand's number, 0 iff they are equal |
| Fields.LongCompareDelegates | ibd/table/prototype/query/fields/LongField.java:31 | a string or floating-point operand answers `f.compareTo(this)`, not negated |
| Fields.LongCompareNotDefined | ibd/table/prototype/query/fields/LongField.java:32 | an operand that is neither integer, floating point nor string gives NOT_DEFINED |
| Fields.LongCompareReflexive | ibd/table/prototype/query/fields/LongField.java:33-39 | a long field of size 8 holding 8 bytes compares equal to itself |
| Fields.LongCompareAntisymmetric | ibd/table/prototype/query/fields/LongField.java:33-39 | between two long fields of size 8 holding 8 bytes each, swapping the operands negates the result |
| Fields.LongCompareMatchesValues | ibd/table/prototype/query/fields/LongField.java:24-40 | two longs built by `setLong` compare as their values, and each materialises back to its value, so `compareTo` and the stored value read the same 8 bytes |
| Fields.LongCompareWidening | ibd/table/prototype/query/fields/LongField.java:36-38 | an int operand compares exactly as the long of the same value, and the sign is that of the value comparison |
| Fields.BooleanCompareTo | Teste/ibd/table/prototype/query/fields/BooleanField.java:28-33 | a null operand gives NULL_COMPARE and a non-boolean one NOT_DEFINED; between booleans, false < true and equal values give 0 |
| Fields.BooleanFalseBeforeTrue | Teste/ibd/table/prototype/query/fields/BooleanField.java:32 | booleans built by the setter compare false before true, in both directions |
| Fields.BooleanCompareAntisymmetric | Teste/ibd/table/prototype/query/fields/BooleanField.java:32 | between booleans, swapping the operands negates the result |
| Fields.NullCompareTo | Teste/ibd/table/prototype/query/fields/NullField.java:28-32 | a NullField gives 0 against null and -NULL_COMPARE against any field |
| Fields.ArraysCompare | Teste/ibd/table/prototype/query/fields/BinaryField.java:27 | `Arrays.compare` on signed bytes; the ArraysCompare lemmas state it is 0 iff equal, antisymmetric, prefix-first, and decided by the first difference |
| Fields.ArraysCompareZeroIff | Teste/ibd/table/prototype/query/fields/BinaryField.java:27 | `Arrays.compare` gives 0 iff the arrays are equal |
| Fields.ArraysCompareAntisymmetric | Teste/ibd/table/prototype/query/fields/BinaryField.java:27 | swapping the arrays negates the result |
| Fields.ArraysComparePrefix | Teste/ibd/table/prototype/query/fields/BinaryField.java:27 | a strict prefix compares less than the longer array |
| Fields.ArraysCompareFirstDifference | Teste/ibd/table/prototype/query/fields/BinaryField.java:27 | at the first differing index the result is the difference of the signed bytes, so 0x80 sorts before 0x01 |
| Fields.BinaryCompareTo | Teste/ibd/table/prototype/query/fields/BinaryField.java:24-28 | 0 against null (not NULL_COMPARE); against a field with bytes, 0 iff the bytes are equal; a NullField operand is dereferenced |
| Fields.BinaryCompareAntisymmetric | Teste/ibd/table/prototype/query/fields/BinaryField.java:27 | between binary fields, swapping the operands negates the result |
| Fields.FieldCompareTo | Teste/ibd/table/prototype/DataRow.java:351 | dispatch on the variant: a NullField answers by its own rule; binary and null fields give 0 against null, long and boolean fields NULL_COMPARE |
| Layout.HeaderSizeOf | Teste/ibd/table/prototype/Prototype.java:283-298 | the header size is at least one byte and has a bit for bit 0 and for every nullable column |
| Layout.Positions | Teste/ibd/table/prototype/Prototype.java:285-289 | the `headerPosition` map; Layout.PositionsUpToSpec and Layout.PositionsComplete state the loop builds exactly it |
| Layout.PrimaryKeySizeOf | Teste/ibd/table/prototype/Prototype.java:294-299 | the sum of the key column sizes; Layout.PrimaryKeySizeCovers and Layout.MaxSizeCoversPrimaryKey bound it |
| Layout.PrimaryKeySizeCovers | Teste/ibd/table/prototype/Prototype.java:294-299 | every key column's size is part of the key size, which is 0 when there are no key columns |
| Layout.ColumnsMaxSize | Teste/ibd/table/prototype/Prototype.java:307-316 | the column sizes plus 4 bytes per variable-length column |
| Layout.IsPKPrefix | Teste/ibd/table/prototype/Prototype.java:242-257 | a list that passes `isPKPrefix` is no longer than the schema and names leading key columns only |
| Layout.NullableCount | Teste/ibd/table/prototype/Prototype.java:285-289 | the nullable columns never outnumber the columns |
| Layout.PositionCountsNullables | Teste/ibd/table/prototype/Prototype.java:285-289 | the k-th nullable column in column order gets header bit k |
| Layout.PositionsIncrease | Teste/ibd/table/prototype/Prototype.java:285-293 | later nullable columns get strictly larger bits, so bits are distinct |
| Layout.PositionInHeader | Teste/ibd/table/prototype/Prototype.java:283-298 | every bit p is at least 1 and p / 8 < headerSize |
| Layout.MaxSizeCoversPrimaryKey | Teste/ibd/table/prototype/Prototype.java:294-316 | the key size never exceeds the sum of the column sizes |
| Layout.PkNames | Teste/ibd/table/prototype/Prototype.java:224-233 | `getPKColumns` lists exactly the names of the key columns |
| Layout.PkPrefixCount | Teste/ibd/table/prototype/Prototype.java:242-257 | the count covers leading key columns the list names, and stops at the first column that is not a key or not named |
| Layout.IsPKPrefixSound | Teste/ibd/table/prototype/Prototype.java:242-257 | with distinct names, `isPKPrefix(names)` means the names are the first \|names\| columns, all keys, each named once |
| Layout.IsPKPrefixComplete | Teste/ibd/table/prototype/Prototype.java:242-257 | conversely, listing each of a leading run of key columns once makes `isPKPrefix` true |
| Layout.PositionsUpToSpec | Teste/ibd/table/prototype/Prototype.java:285-289 | after the first i columns, exactly the nullable ones among them have a bit, and it is their position |
| Layout.PositionsComplete | Teste/ibd/table/prototype/Prototype.java:263-300 | after the last column the bits handed out are the header layout |
| Layout.LayoutStep | Teste/ibd/table/prototype/Prototype.java:285-297 | one more column adds one bit if nullable and its size to the key size if it is a key |
| Layout.CanonicalSortKeysFirst | Teste/ibd/table/prototype/Prototype.java:169-174 | after sorting, no key column follows a non-key column |
| Layout.SetBitSpec | Teste/ibd/table/prototype/Prototype.java:439 | `header[p / 8] \|= 1 << (p % 8)` turns bit p on and leaves every other bit as it was |
| Layout.ZerosHaveNoBits | Teste/ibd/table/prototype/Prototype.java:430 | a fresh header has no bit set |
| Encoding.RowValues | Teste/ibd/table/prototype/DataRow.java:211-220 | `getData` gives bytes exactly for the names holding a field that is not a NullField, and they are its bytes |
| Encoding.RowViolationFrom | Teste/ibd/table/prototype/Prototype.java:335-354 | the check from column i finds nothing iff every column from i fits; otherwise it names the first misfit, as missing iff absent and as over the limit iff present and dynamic |
| Encoding.RowViolation | Teste/ibd/table/prototype/Prototype.java:331-356 | `validateRowData` throws iff some column is absent though not nullable (or a key), or its value is longer than its size |
| Encoding.IndexOf | Teste/ibd/table/prototype/Prototype.java:438 | `indexOf` is the first index holding the column, -1 iff none |
| Encoding.IndexOfDistinct | Teste/ibd/table/prototype/Prototype.java:287 | with distinct names, `indexOf(columns[i])` is i |
| Encoding.HeaderUpToBits | Teste/ibd/table/prototype/Prototype.java:433-440 | under the schema's layout the header builds without error, and its set bits are bit 0 and the bits of the absent nullable columns, nothing else |
| Encoding.HeaderErrorSticks | Teste/ibd/table/prototype/Prototype.java:434-440 | once building the header fails, it fails with the same error |
| Encoding.HeaderMarksAbsent | Teste/ibd/table/prototype/Prototype.java:433-440 | bit 0 is set, and the bit of a nullable column is set iff the column is absent |
| Encoding.Padded | Teste/ibd/table/prototype/Prototype.java:452-456 | a fixed-size value is kept and zero-padded up to the column size, never cut |
| Encoding.FlattenPush | Teste/ibd/table/prototype/Prototype.java:463-466 | copying one more queued array appends its bytes |
| Encoding.ChunksAreSegment | Teste/ibd/table/prototype/Prototype.java:442-457 | the arrays queued for a column lay out its segment: nothing, prefix and bytes, or padded bytes |
| Encoding.Segment | Teste/ibd/table/prototype/Prototype.java:435-457 | an absent value adds nothing; a variable-length value adds a 4-byte length prefix and its bytes; a fixed-size value adds its bytes, zero-padded to the column size |
| Encoding.Body | Teste/ibd/table/prototype/Prototype.java:434-459 | the payload: the segments of the columns in order; Encoding.BodyLength and Encoding.BodyStepOn state its size and growth |
| Encoding.HeaderUpTo | Teste/ibd/table/prototype/Prototype.java:430-440 | the header after k columns, always `headerSize` bytes when built; Encoding.HeaderUpToBits states which bits are set |
| Encoding.Header | Teste/ibd/table/prototype/Prototype.java:430-440 | the finished header; Encoding.HeaderMarksAbsent states its bits mark the absent nullable columns |
| Encoding.Oversized | Teste/ibd/table/prototype/Prototype.java:452-456 | a fixed-size value longer than its column; Encoding.OversizedStep and Encoding.EncodeFailsOnlyWhenOversized tie it to the failure |
| Encoding.Encode | Teste/ibd/table/prototype/Prototype.java:428-468 | the record `convertToArray` returns; Encoding.EncodeInBuffer, Encoding.EncodeLength and Decoding.RoundTrip state its size and that it decodes back |
| Encoding.KeyBody | Teste/ibd/table/prototype/Prototype.java:480-493 | the padded key values in column order; Encoding.KeyBodyLength and Encoding.KeyImageInRecord state its size and that it is the record's key part |
| Encoding.BodyStepOn | Teste/ibd/table/prototype/Prototype.java:434-459 | one more column adds its segment to the payload and its size to the sizes added up |
| Encoding.BodyAgainstPayload | Teste/ibd/table/prototype/Prototype.java:449-466 | the payload is never shorter than the sizes added up, and equal iff no fixed-size value overruns its column |
| Encoding.OversizedStep | Teste/ibd/table/prototype/Prototype.java:452-456 | a value overruns among all columns iff it does among all but the last, or in the last |
| Encoding.EncodeInBuffer | Teste/ibd/table/prototype/Prototype.java:460-467 | the buffer of the added-up size holds header and payload iff no fixed-size value overruns, and then holds the record; otherwise the copy fails |
| Encoding.KeyInBuffer | Teste/ibd/table/prototype/Prototype.java:494-500 | with every key value present, the key-size buffer holds the padded key values iff none overruns, and otherwise the copy fails |
| Encoding.ConvertToArray | Teste/ibd/table/prototype/Prototype.java:428-429 | a row not yet marked valid that misfits is refused with a data rule |
| Encoding.BodyLength | Teste/ibd/table/prototype/Prototype.java:449-456 | without an overrun the payload is exactly the sizes added up |
| Encoding.PayloadWithinMax | Teste/ibd/table/prototype/Prototype.java:307-316 | for a row that passes the check, the payload sizes are at most the column sizes plus 4 per dynamic column |
| Encoding.EncodeLength | Teste/ibd/table/prototype/Prototype.java:428-468 | a row that passes the check encodes to headerSize + the present sizes bytes, at most `maxRecordSize()` |
| Encoding.EncodeFailsOnlyWhenOversized | Teste/ibd/table/prototype/Prototype.java:428-468 | under the schema's layout, encoding fails iff a fixed-size value is longer than its column |
| Encoding.PrimaryKeyBytes | Teste/ibd/table/prototype/Prototype.java:477-501 | the key image is produced iff every key value is present and fits its column |
| Encoding.KeyBodyLength | Teste/ibd/table/prototype/Prototype.java:480-493 | when every key value is present and fits, the key image is `primaryKeySize` bytes |
| Encoding.KeyBodyStep | Teste/ibd/table/prototype/Prototype.java:480-493 | one more column adds its padded value if it is a present key |
| Encoding.KeyBodyAgainstKeySize | Teste/ibd/table/prototype/Prototype.java:486-500 | with every key value present the key image is never shorter than the key size, and equal iff no key value overruns |
| Encoding.KeyImageInRecord | Teste/ibd/table/prototype/Prototype.java:477-501 | with distinct names and leading fixed-size keys, the key image of a row that passes the check is the `primaryKeySize` bytes right after the header of its record |
| Encoding.PrimaryKeyBytesInRecord | Teste/ibd/table/prototype/Prototype.java:477-501 | for a valid schema with its keys first, the key image is the bytes right after the header of the record |
| Encoding.EncodeParts | Teste/ibd/table/prototype/Prototype.java:428-468 | a row that passes the check encodes to its header followed by its payload |
| Decoding.TestBit | Teste/ibd/table/prototype/Prototype.java:394 | the null test succeeds iff the bit lies inside the header, and then reads that bit |
| Decoding.ReadValue | Teste/ibd/table/prototype/Prototype.java:402-417 | a column's bytes are copied iff it is selected |
| Decoding.ExpectedMeaning | Teste/ibd/table/prototype/Prototype.java:368-420 | the expected decode holds exactly the present schema columns, each with its column and its value restored |
| Decoding.ReadSegment | Teste/ibd/table/prototype/Prototype.java:402-417 | reading a column where the encoder wrote its segment gives the value back (padded if fixed-size) and moves past the segment |
| Decoding.ReadDynamicSegment | Teste/ibd/table/prototype/Prototype.java:402-410 | a variable-length value read at the start of its segment gives its length prefix back, then exactly its bytes |
| Decoding.StepOnRecord | Teste/ibd/table/prototype/Prototype.java:381-418 | one loop pass over a column whose segment and null bit are where the encoder put them stores its value and moves the cursor past it |
| Decoding.SegmentInBody | Teste/ibd/table/prototype/Prototype.java:460-466 | column i's segment sits right after the payload of the columns before it |
| Decoding.BitInHeader | Teste/ibd/table/prototype/Prototype.java:392-400 | the bit the decoder tests for a nullable column is inside the encoder's header and set iff the column is absent |
| Decoding.Stops | Teste/ibd/table/prototype/Prototype.java:381-387 | where the decoding loop breaks: past the last column, all selected columns read, or the keys done |
| Decoding.ColumnStep | Teste/ibd/table/prototype/Prototype.java:381-418 | one pass of the loop: count the column if selected, test its null bit, read it; Decoding.StepOnRecord and Decoding.StepSelects state what it reads |
| Decoding.DecodeFrom | Teste/ibd/table/prototype/Prototype.java:381-418 | the loop from column i on; Decoding.DecodeRest and Decoding.DecodeFromFrame state what it stores |
| Decoding.Decode | Teste/ibd/table/prototype/Prototype.java:368-420 | `convertBinaryToRowData`; Decoding.RoundTrip, Decoding.Projection and Decoding.PrimaryKeyOnly state what it gives back |
| Decoding.DecodeStepsOn | Teste/ibd/table/prototype/Prototype.java:381-418 | a loop pass that succeeds hands the rest of the walk to the next column |
| Decoding.DecodeRest | Teste/ibd/table/prototype/Prototype.java:381-418 | from any column on, with the cursor where the encoder left it, decoding yields the expected row |
| Decoding.DecodeRecord | Teste/ibd/table/prototype/Prototype.java:368-420 | a record with every column placed decodes to the expected row |
| Decoding.RoundTrip | Teste/ibd/table/prototype/Prototype.java:368-420 | a row that passes the check, encoded and then decoded in full, gives back every present column with its bytes, fixed-size ones zero-padded |
| Decoding.DecodeFromFrame | Teste/ibd/table/prototype/Prototype.java:381-418 | the decoder writes only names of columns it has yet to pass |
| Decoding.ReadValueSelects | Teste/ibd/table/prototype/Prototype.java:403-416 | whether or not a column is selected, the offset advances alike |
| Decoding.StepSelects | Teste/ibd/table/prototype/Prototype.java:388-417 | with a selection, a pass moves the cursor as the full pass does, counts the column iff selected and stores its bytes only then |
| Decoding.SelectionDone | Teste/ibd/table/prototype/Prototype.java:382-384 | once every selected column is behind, the rest of the walk adds nothing selected |
| Decoding.ProjectionFrom | Teste/ibd/table/prototype/Prototype.java:381-418 | the projecting walk from column i equals the full walk restricted to the selection |
| Decoding.Projection | Teste/ibd/table/prototype/Prototype.java:382-391 | whenever the full decode succeeds, decoding with `meta` gives it restricted to the names in `meta`: the skipped columns still advance the offset |
| Decoding.KeysDone | Teste/ibd/table/prototype/Prototype.java:385-387 | where the key-only walk stops, the rest of the full walk adds no key column |
| Decoding.KeyOnlyFrom | Teste/ibd/table/prototype/Prototype.java:385-387 | the key-only walk from a leading run of keys equals the full walk restricted to the keys |
| Decoding.PrimaryKeyOnly | Teste/ibd/table/prototype/Prototype.java:385-387 | with the keys first and a full decode that succeeds, `onlyPrimaryKey` decoding gives it restricted to the key columns |
| Rows.LeastExists | Teste/ibd/table/prototype/DataRow.java:345-346 | every non-empty set of names has a least one, so the ascending walk is well defined |
| Rows.SortedKeys | Teste/ibd/table/prototype/DataRow.java:48 | a TreeMap walks its names in strictly ascending `String.compareTo` order (UTF-16 code units), each once |
| Rows.TotalRemove | Teste/ibd/table/prototype/DataRow.java:65-78 | the total of the field sizes is one field's size plus the total of the rest |
| Rows.TotalPut | Teste/ibd/table/prototype/DataRow.java:65-78 | storing a field adds its size and drops the size of the field it replaces |
| Rows.TotalDrop | Teste/ibd/table/prototype/DataRow.java:187-193 | removing a name drops exactly its field's size |
| Rows.MatchFrom | Teste/ibd/table/prototype/DataRow.java:363-374 | the walk of `partialMatch`; Rows.MatchTieIff and Rows.MatchFirstDifference state its answer |
| Rows.CompareFrom | Teste/ibd/table/prototype/DataRow.java:345-356 | the walk of `compareTo`; Rows.CompareExtendsMatch ties it to the walk of `partialMatch` |
| Rows.PartialMatch | Teste/ibd/table/prototype/DataRow.java:361-375 | `a.partialMatch(b)` over a's names in ascending order; Rows.MatchTieIff and Rows.MatchAntisymmetric state its properties |
| Rows.CompareRows | Teste/ibd/table/prototype/DataRow.java:335-359 | `a.compareTo(b)`; Rows.CompareOnTie, Rows.CompareReflexive and Rows.CompareAntisymmetric state its properties |
| Rows.CompareExtendsMatch | Teste/ibd/table/prototype/DataRow.java:335-375 | `compareTo` equals `partialMatch` except on a tie, where it is the difference of the row sizes |
| Rows.MatchTieIff | Teste/ibd/table/prototype/DataRow.java:361-375 | `partialMatch` is 0 iff every name both rows hold compares equal |
| Rows.MatchFirstDifference | Teste/ibd/table/prototype/DataRow.java:345-355 | both walks answer the first comparison of a shared name that is not a tie |
| Rows.PartialMatchDecides | Teste/ibd/table/prototype/DataRow.java:361-375 | whenever `partialMatch(r)` is not 0, `compareTo(r)` equals it |
| Rows.CompareOnTie | Teste/ibd/table/prototype/DataRow.java:356 | on a tie, `partialMatch` is 0 and `compareTo` is `size() - r.size()` |
| Rows.CompareReflexive | Teste/ibd/table/prototype/DataRow.java:335-359 | a row whose fields each compare equal to themselves compares equal to itself |
| Rows.MatchAntisymmetric | Teste/ibd/table/prototype/DataRow.java:361-375 | over shared names with antisymmetric field comparisons, swapping the rows negates `partialMatch` |
| Rows.CompareAntisymmetric | Teste/ibd/table/prototype/DataRow.java:335-359 | rows over the same names with antisymmetric field comparisons compare antisymmetrically |
| Rows.BinaryRowsAntisymmetric | Teste/ibd/table/prototype/DataRow.java:335-359 | rows of binary fields over the same names compare antisymmetrically |
| Records.ConversionsSpec | Teste/ibd/table/prototype/DataRow.java:449-453 | every conversion is of an adoptable value; all adoptable values convert iff no cast fails; each field carries its column's metadata and the value's bytes |
| Records.Missing | Teste/ibd/table/prototype/DataRow.java:455-464 | the entries added are for exactly the names without an entry that the schema knows |
| Records.AdoptionComplete | Teste/ibd/table/prototype/DataRow.java:449-453 | when every adoptable value has converted, no cast failed and the conversions are complete |
| Records.MetadataAfter | Teste/ibd/table/prototype/DataRow.java:445-474 | the metadata `setMetadata(prototype)` leaves; Records.MetadataAfterCovers and Records.MetadataAfterKeeps state what it holds |
| Records.MetadataAfterCovers | Teste/ibd/table/prototype/DataRow.java:455-464 | after `setMetadata(p)` every field whose name p knows has a metadata entry |
| Records.MetadataAfterKeeps | Teste/ibd/table/prototype/DataRow.java:455-464 | after `setMetadata(p)` an adopted value's entry is p's column, and every other existing entry is unchanged |
| Records.FieldsOf | Teste/ibd/table/prototype/Prototype.java:408 | the decoded row holds a field for exactly the decoded names |
| Records.FieldsOfPut | Teste/ibd/table/prototype/Prototype.java:408 | storing one more decoded column stores `createField(c, bytes)` under its name |
| Records.MetaOfPut | Teste/ibd/table/prototype/Prototype.java:408 | storing one more decoded column records the column as its metadata |
| Records.KeyField | Teste/ibd/table/prototype/Prototype.java:517-533 | a copied key field carries the key column's metadata; an AssertionError is raised iff the column type is not string, int, long or float |
| Records.KeyRowFrom | Teste/ibd/table/prototype/Prototype.java:513-536 | the loop of `createPKRow`; Records.KeyRowFromOk and Records.KeyRowFromKeys state when it succeeds and what it holds |
| Records.KeyRowFromOk | Teste/ibd/table/prototype/Prototype.java:510-539 | `createPKRow` succeeds iff every key column the row holds can be copied |
| Records.KeyRowFromKeys | Teste/ibd/table/prototype/Prototype.java:513-536 | the key row holds exactly the key columns the original row holds |
| Records.DataRow.constructor | Teste/ibd/table/prototype/DataRow.java:47-51 | a new row is empty, its byte counter 0 and consistent, and not valid |
| Records.DataRow.CopyOf | Teste/ibd/table/prototype/DataRow.java:53-57 | a copy shares fields, metadata and byte count, and has no unknown-type map |
| Records.DataRow.Clone | Teste/ibd/table/prototype/DataRow.java:377-379 | `clone()` is a fresh copy and keeps the byte counter consistent |
| Records.DataRow.SetField | Teste/ibd/table/prototype/DataRow.java:65-78 | clears `valid`, replaces the field and adjusts the counter by the size difference, keeping the counter equal to the total for a non-null field |
| Records.DataRow.SetMetadata | Teste/ibd/table/prototype/DataRow.java:199-201 | records the column under the name and changes nothing else |
| Records.DataRow.SetFieldWith | Teste/ibd/table/prototype/DataRow.java:80-83 | stores the field and its column, keeping the counter consistent |
| Records.DataRow.SetNative | Teste/ibd/table/prototype/DataRow.java:85-118 | setters without a column fail (row unchanged) iff the value is null; otherwise they store its field, and the counter loses the replaced field's size and gains the value's byte length |
| Records.DataRow.SetWithColumn | Teste/ibd/table/prototype/DataRow.java:151-185 | setters with a column fail (row unchanged) iff the value is null; otherwise they store the field under the column's metadata and record the column |
| Records.DataRow.SchemaColumn | Teste/ibd/table/prototype/DataRow.java:122-133 | a column is found iff the row is bound to a schema that has that name |
| Records.DataRow.SetValue | Teste/ibd/table/prototype/DataRow.java:120-149 | with no schema or an unknown name, the value goes to the unknown-type map, or a NullPointerException when that map is null (a cloned row); a type without a case changes nothing; otherwise the value is stored iff it is of the column type's class, and a failed cast changes nothing |
| Records.DataRow.Unset | Teste/ibd/table/prototype/DataRow.java:187-193 | returns the previous field; afterwards the name has no field and a null metadata entry, and the counter has lost its size |
| Records.DataRow.GetField | Teste/ibd/table/prototype/DataRow.java:207-209 | the field under the name, null iff none |
| Records.DataRow.GetData | Teste/ibd/table/prototype/DataRow.java:211-228 | the bytes of the field under the name, null iff there is no field or it is a NullField |
| Records.DataRow.GetValue | Teste/ibd/table/prototype/DataRow.java:230-277 | the typed getters return null exactly when the name has no field |
| Records.DataRow.GetMetadata | Teste/ibd/table/prototype/DataRow.java:195-197 | a column returned is the one recorded under the name |
| Records.DataRow.ContainsColumn | Teste/ibd/table/prototype/DataRow.java:203-205 | true iff `getField` finds a field |
| Records.DataRow.Size | Teste/ibd/table/prototype/DataRow.java:305-307 | `size()`: the number of fields |
| Records.DataRow.Len | Teste/ibd/table/prototype/DataRow.java:313-317 | `len()`: the maximum record size stored when the row was bound |
| Records.DataRow.IsValid | Teste/ibd/table/prototype/DataRow.java:321-323 | `isValid()`: the validity flag, set only by Records.DataRow.SetValid |
| Records.DataRow.GetByteSize | Teste/ibd/table/prototype/DataRow.java:309-311 | the byte count is the sum of the field buffer sizes |
| Records.DataRow.SetValid | Teste/ibd/table/prototype/DataRow.java:325-327 | sets `valid` and nothing else |
| Records.DataRow.AdjustField | Teste/ibd/table/prototype/DataRow.java:415-443 | a type without a case changes nothing; otherwise the value is stored with its column iff it is of the type's class, and a failed cast changes nothing |
| Records.DataRow.AdoptOne | Teste/ibd/table/prototype/DataRow.java:449-453 | one round converts the value iff the schema knows its name; it fails iff that conversion's cast fails |
| Records.DataRow.AdoptEach | Teste/ibd/table/prototype/DataRow.java:449-453 | the loop fails only when some cast fails; otherwise every adoptable value is converted and stored with its column |
| Records.DataRow.AdoptUnknown | Teste/ibd/table/prototype/DataRow.java:449-453 | the first loop succeeds iff no cast fails, and then adds exactly the conversions and their columns |
| Records.DataRow.FillMetadata | Teste/ibd/table/prototype/DataRow.java:455-470 | each field without an entry whose name the schema knows gets the schema's column; existing entries stay |
| Records.DataRow.AdoptAndFill | Teste/ibd/table/prototype/DataRow.java:445-470 | the two loops of `setMetadata(prototype)`: they succeed iff no adoptable value fails its cast, and then add every conversion to the fields and leave the metadata `MetadataAfter` describes, keeping the byte counter exact |
| Records.DataRow.Bind | Teste/ibd/table/prototype/DataRow.java:472-473 | the row keeps the schema and its `maxRecordSize()`; fields, metadata, counter and flag are unchanged |
| Records.DataRow.SetMetadataFrom | Teste/ibd/table/prototype/DataRow.java:445-474 | succeeds iff the row has an unknown-type map and no cast fails; then the row is bound to the schema with `len == maxRecordSize()` and the metadata `MetadataAfter` describes |
| Records.Assemble | Teste/ibd/table/prototype/Prototype.java:460-467 | copying the queued arrays after the header gives header + arrays + zero fill when they fit the buffer, and an index error when they do not |
| Records.Prototype.constructor | Teste/ibd/table/prototype/Prototype.java:47-51 | a new schema is empty and static |
| Records.Prototype.AddColumn | Teste/ibd/table/prototype/Prototype.java:58-67 | a null column is refused and nothing changes; otherwise the column is appended and indexed, and the schema stays static iff the column is fixed-size |
| Records.Prototype.IsStatic | Teste/ibd/table/prototype/Prototype.java:85-87 | true iff no column added is dynamic |
| Records.Prototype.GetColumnAt | Teste/ibd/table/prototype/Prototype.java:94-100 | the column at i, null iff i is outside the list |
| Records.Prototype.GetColumn | Teste/ibd/table/prototype/Prototype.java:108-110 | a column of the list with that name, null iff none has it |
| Records.Prototype.Size | Teste/ibd/table/prototype/Prototype.java:116-118 | the column count, for counts a short can hold |
| Records.Prototype.GetPrimaryKeySize | Teste/ibd/table/prototype/Prototype.java:322-324 | after validation, the sum of the key column sizes, at most the sum of all column sizes |
| Records.Prototype.ValidateColumns | Teste/ibd/table/prototype/Prototype.java:126-193 | the first broken rule is thrown and nothing changes; otherwise the columns are sorted into the canonical order as a permutation and the layout is computed |
| Records.Prototype.SortedSchema | Teste/ibd/table/prototype/Prototype.java:166-192 | a list that passes the checks sorts into a valid schema with distinct names, keys first, holding the same columns |
| Records.Prototype.CalculateSizes | Teste/ibd/table/prototype/Prototype.java:263-300 | sets the header size, the bit of each nullable column and the key size of the column list |
| Records.Prototype.SizesOf | Teste/ibd/table/prototype/Prototype.java:283-297 | the loop's counters yield the header size `1 + (n + 1) / 8`, the bit map of the nullable columns and the sum of the key sizes |
| Records.Prototype.GetPKColumns | Teste/ibd/table/prototype/Prototype.java:224-233 | returns the key column names in column order |
| Records.Prototype.IsPKPrefix | Teste/ibd/table/prototype/Prototype.java:242-257 | answers `isPKPrefix`, which the layout lemmas characterise |
| Records.Prototype.MaxRecordSize | Teste/ibd/table/prototype/Prototype.java:307-316 | headerSize + the sum of the column sizes + 4 per dynamic column, at least headerSize + primaryKeySize |
| Records.Prototype.ValidateRowData | Teste/ibd/table/prototype/Prototype.java:331-356 | a row already valid passes; otherwise the first misfit is thrown, and a row that fits is marked valid |
| Records.Prototype.ReadBytes | Teste/ibd/table/prototype/Prototype.java:402-416 | reads one column's value at the offset as the decoder does |
| Records.Prototype.ReadColumn | Teste/ibd/table/prototype/Prototype.java:381-418 | one loop pass fails iff the decoder's step does; otherwise it stores what the step read and keeps the byte counter consistent |
| Records.Prototype.ConvertBinaryToRowData | Teste/ibd/table/prototype/Prototype.java:368-420 | fails iff `Decode` does; otherwise a fresh row holding `createField` of each decoded value with its column, byte counter consistent |
| Records.Prototype.MarkColumn | Teste/ibd/table/prototype/Prototype.java:436-440 | sets the header bit of column i when it is absent and nullable, as the header function does |
| Records.Prototype.QueueValue | Teste/ibd/table/prototype/Prototype.java:441-457 | the arrays queued for a present value append its segment, and the size grows by its size or 4 + its length |
| Records.Prototype.CollectParts | Teste/ibd/table/prototype/Prototype.java:430-459 | the loop builds the header, queues the payload and adds up headerSize plus the present sizes |
| Records.Prototype.EncodeRow | Teste/ibd/table/prototype/Prototype.java:430-467 | the record buffer equals `Encode` of the row's values |
| Records.Prototype.ConvertToArray | Teste/ibd/table/prototype/Prototype.java:428-468 | the check (skipped for a valid row) then the encoding; the row is marked valid iff it was or it passes the check |
| Records.Prototype.QueueKey | Teste/ibd/table/prototype/Prototype.java:486-492 | the arrays queued for a key value append it padded to the column size |
| Records.Prototype.ConvertPrimaryKeyToByteArray | Teste/ibd/table/prototype/Prototype.java:477-501 | the buffer equals the key image: the padded key values in column order, or the error a missing or overlong key value causes |
| Records.Prototype.CopyKey | Teste/ibd/table/prototype/Prototype.java:517-533 | copying one key column fails iff reading or casting it does, else stores the field with its column |
| Records.Prototype.CreatePKRow | Teste/ibd/table/prototype/Prototype.java:510-539 | a fresh row holding exactly the copied key columns, each with its key column as metadata, or the first copy's error |

## Left out

- `Prototype.addColumn(name, size, flags)`, `getSizeInBytes`, `iterator` and `getColumns`: the `Column` class they build on or read is not part of this model. The column list is a plain field.
- The `KB`/`MB`/`GB`/`TB` constants and the `synchronized` modifier on `convertBinaryToRowData`: concurrency is out of scope.
- `DataRow`'s XOR checksum, `toString`, `getAsString` and `iterator`: the checksum is never read, and the others are formatting and iteration plumbing.
- `UtilConversor` is not part of this model. Its conversions are taken to be:
  - `intToByteArray`/`longToByteArray`: big-endian two's complement;
  - `stringToByteArray`: one byte per character, modulo 256;
  - `byteArrayToInt`: the exact inverse of the little-endian prefix the encoder writes (an assumption).

  Float and double values are carried as the opaque bytes of their encoding.
- The `Field` base class is not part of this model:
  - `createField`, `getBData` and the getters are given the evident meaning;
  - `NULL_COMPARE` and `NOT_DEFINED` are constants of unknown value;
  - `compareTo` of the integer, float, double and string fields is the `foreign` parameter.
- Columns.EqualsIgnoreCase: case folding covers the ASCII letters only, not all of Unicode.
- Fields.NativeField: for `setData`, the field's metadata size is the corrected `(data.length >> 8) + 1` (`Fields.BinarySize`), not the code's `data.length >> 9` (`Fields.BinarySizeAsWritten`). The size is metadata only: no byte image, counter or comparison in the model depends on it.
- Records.DataRow.SetNative: stores the `setData` field of Fields.NativeField, so it records the corrected binary size too.
- Records.DataRow.SetField: keeps the counter equal to the field total only for a non-null field. With a null field, the source subtracts the current field's size but keeps the field; `unset` restores the count by removing it afterwards.
- Records.DataRow.FillMetadata: the `adjustField` call for a field whose type is UNKNOWN is not modelled, because no field variant of the model reports that type (UNKNOWN metadata builds a BinaryField).
- Records.DataRow.SetMetadataFrom: when a cast fails midway, only the binding (`prototype`, `len`), the unknown-type map and the counter invariant are specified. Which values were converted before the failure is not.
- Records.DataRow.AdoptEach: converts the unknown-type values in ascending name order, as the TreeMap does. `FillMetadata` visits field names in no particular order, which cannot change its result.
- Records.DataRow.Len: has no contract. It returns `len` without the `(int)` narrowing; a `maxRecordSize()` fits an int.
- Records.Prototype.ValidateColumns: loops up to the column count rather than the short `size()`. A schema of 32768 or more columns, where `size()` wraps, is not modelled.
- Decoding.ReadValue: offsets are unbounded integers. The source's 32-bit `offset + size` can wrap for a corrupt length prefix near 2^31, and the model does not reproduce that.
- Rows.SortedKeys: the ascending walk of `compareTo` and `partialMatch` is a ghost function. The two row orderings are therefore stated as functions (`Rows.CompareRows`, `Rows.PartialMatch`) rather than as methods of `DataRow`.

## Findings

| source | as written | input that shows it | evidently intended | confidence | as-written member | corrected member |
|---|---|---|---|---|---|---|
| Teste/ibd/table/prototype/DataRow.java:87 | `data.length >> 8 + 1` parses as `data.length >> 9`, so the size in 256-byte units is half the length's high part, rounded down | a 300-byte array gets a size of 0 units | `(data.length >> 8) + 1`, a size in 256-byte units that covers the data | not executed | Fields.BinarySizeAsWrittenTooSmall | Fields.BinarySize |
