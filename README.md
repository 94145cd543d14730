# Signing a PDF's reserved signature slot, and the debug table

A Dafny model of two pieces of the forge JavaScript repository:

- `signPdf` in `examples/sign-pdf.js`, which fills the signature slot of an
  already laid-out PDF following the incremental-signing convention of
  section 12.8.1 of ISO 32000-1 (Table 252, the `ByteRange` and `Contents`
  entries of a signature dictionary). It finds the first `/ByteRange [0`,
  reads `L1`, `O2` and `L2` from the text up to the buffer's first ` ]`,
  signs the document with the slot `[L1, O2)` cut out, hex-encodes the
  signature, pads it with `"00"` per byte of room left and writes
  `<`, the padded hex and `>` over the slot. The code is a straight
  pipeline of `indexOf`, `slice`, `split`, `parseInt` and `Buffer.concat`,
  so the model is a set of functions over byte sequences (module
  `PdfSigning`, with `Bytes` for the string operations and `Hex` for the
  encoding). The signer is a parameter `sign: seq<byte> -> seq<byte>`;
  nothing is assumed about what it returns.
- `lib/debug.js`, a module-global table `category -> (name -> data)`
  with `get`, `set` and `clear`, where an omitted argument selects a whole
  level. The table is the field `storage` of the class
  `Debug.DebugStorage`, whose methods change it in place; `Option`
  parameters stand for omitted arguments (`None` is `undefined`). The pure
  functions `Lookup`, `Stored` and `Cleared` give the meaning of one call,
  and the lemmas beside them state what each call keeps and changes.

The model follows the code on these points:

- the range text is split on single spaces (`split(" ")`), not on arbitrary
  whitespace;
- the end of the range text is the first ` ]` anywhere in the buffer, not
  the first one after the marker; when it lies before the marker the text
  is empty;
- the output gets freshly written `<` and `>` at `L1` and `O2 - 1` instead
  of keeping the bytes that were there;
- the padding is the hex encoding of zero bytes, that is the digit `0`
  twice per missing byte.

What the code does not check, it needs of its input: `SlotLaidOut` is
the precondition of `SignPdf`. A buffer without the marker needs
nothing, since that case throws `PlaceholderNotFound`. A buffer with the
marker needs decimal fields 1 and 2 after it. It also needs
`L1 + 2 <= O2 <= |pdf|` and an even slot interior. Field 3 (`L2`) may be
anything: it is parsed into an `Option` and never read.

## Model

| member | source | states |
|---|---|---|
| `Bytes.IndexOf` | examples/sign-pdf.js:44-45 | `indexOf` gives an index where the pattern occurs and before which it never occurs; None (-1) exactly when it occurs nowhere |
| `Bytes.Split` | examples/sign-pdf.js:49 | `split(" ")` gives at least one field and no field holds the separator |
| `Bytes.JoinSplit` | examples/sign-pdf.js:49 | joining the fields of a split with the separator gives the input back |
| `Bytes.SplitJoin` | examples/sign-pdf.js:49 | splitting fields joined by the separator gives those fields back, when none holds the separator |
| `Bytes.ParseDecimal` | examples/sign-pdf.js:50-52 | `parseInt(s, 10)` reads a field as a number exactly when it is a non-empty run of decimal digits, with the digits' value; any other field reads as NaN (None); with `ParseZeroPadded`, a zero-padded literal reads back as the number it spells |
| `Bytes.ParseZeroPadded` | examples/sign-pdf.js:50-52 | `parseInt(s, 10)` of a zero-padded decimal literal gives the number it spells |
| `Bytes.DigitsValueDecimal` | examples/sign-pdf.js:50-52 | the value of a number's decimal spelling is that number |
| `Bytes.DigitsValueLeadingZero` | examples/sign-pdf.js:50-52 | a leading zero digit does not change a literal's value |
| `Hex.HexEncode` | examples/sign-pdf.js:39 | `toString("hex")` has two characters per byte |
| `Hex.HexEncodeAt` | examples/sign-pdf.js:39 | byte `i` is spelled by characters `2i` and `2i + 1`: its high and then its low nibble as lower-case hex digits |
| `Hex.HexDecodeEncode` | examples/sign-pdf.js:39 | decoding the hex of a byte string gives that byte string |
| `Hex.HexEncodeDecode` | examples/sign-pdf.js:39 | a hex string that decodes to some bytes is exactly their encoding |
| `Hex.HexEncodeAppend` | examples/sign-pdf.js:98-100 | appending the padding's hex appends the padding's bytes: encoding distributes over concatenation |
| `Hex.HexEncodeZeros` | examples/sign-pdf.js:98-100 | `n` zero bytes encode to `2n` digits `0` |
| `PdfSigning.EndMarkerPlacement` | examples/sign-pdf.js:44-46 | a ` ]` cannot start inside the marker, so the first one is either before the marker or after the marker's final `0` |
| `PdfSigning.RangeText` | examples/sign-pdf.js:45-46 | the range text is empty when there is no ` ]` or the first one precedes the marker; otherwise it runs from the marker's `0` to the space of the buffer's first ` ]`, inclusive |
| `PdfSigning.ParseFields` | examples/sign-pdf.js:49-52 | the single-space split yields a range exactly when it has at least three fields and fields 1 and 2 are non-empty digit runs (otherwise NaN offsets, None, and the planner reports Unreadable); L1 and O2 are parseInt of fields 1 and 2, and L2 is parseInt of field 3 when that is a digit run and NaN (None) otherwise; with `ParseFieldsLayout`, the text `0 L1 O2 L2 ` reads back as exactly those numbers |
| `PdfSigning.PlanByteRange` | examples/sign-pdf.js:44-52 | the planner finds no placeholder exactly when `/ByteRange [0` occurs nowhere |
| `PdfSigning.PlanUsesFirstMarker` | examples/sign-pdf.js:44-52 | the range read is the one after the first occurrence of the marker |
| `PdfSigning.ParseFieldsLayout` | examples/sign-pdf.js:49-52 | L1, O2 and L2 are fields 1, 2 and 3 of the single-space split: the text `0 L1 O2 L2 ` with zero-padded numbers reads back as exactly those numbers |
| `PdfSigning.PlanLaidOutDocument` | examples/sign-pdf.js:44-52 | a document whose first marker is followed by a laid-out range, ended by its first ` ]`, plans to that range |
| `PdfSigning.Interior` | examples/sign-pdf.js:60 | the slot interior has `O2 - L1 - 2` bytes, the ones at `L1 + 1` onward |
| `PdfSigning.Signable` | examples/sign-pdf.js:71-75 | the signed bytes are the document with `[L1, O2)` removed: length `|pdf| - (O2 - L1)`, the bytes before `L1` and the bytes from `O2` in order |
| `PdfSigning.PadSignature` | examples/sign-pdf.js:94-100 | the slot content fills the capacity exactly, starts with the signature's hex, continues with only `0` digits, and decodes to the signature followed by zero bytes |
| `PdfSigning.Reassemble` | examples/sign-pdf.js:101-105 | `Buffer.concat` of the bytes before `L1`, `<`, content of the interior's length, `>` and the bytes from `O2` keeps the buffer's length and every byte outside `[L1, O2)`, puts the content in the interior, and leaves the signed bytes unchanged |
| `PdfSigning.Splice` | examples/sign-pdf.js:60-105 | fails, only with NoRoom, exactly when the signature has more bytes than half the interior; on success the output has the input's length, equal bytes outside `[L1, O2)`, `<` at `L1`, `>` at `O2 - 1`, the padded signature inside, and the same signed bytes as the input |
| `PdfSigning.SignPdf` | examples/sign-pdf.js:43-107 | throws PlaceholderNotFound exactly when the marker occurs nowhere; its only other error is NoRoom, thrown exactly when the signature of the planned range's signed bytes has more bytes than half the slot interior; on success the range was planned and the output has the input's length, equal bytes outside the planned `[L1, O2)`, `<` at `L1`, `>` at `O2 - 1`, the padded signature inside, and the same signed bytes as the input |
| `Debug.DebugStorage.constructor` | lib/debug.js:18 | the table starts empty |
| `Debug.DebugStorage.Get` | lib/debug.js:28-40 | returns the whole table, a category, a value or `undefined` as `Lookup` says, without changing the table |
| `Debug.DebugStorage.Set` | lib/debug.js:49-54 | the new table is the old one with the name stored under the category, which is created if absent; `get(cat, name)` then gives the data |
| `Debug.DebugStorage.Clear` | lib/debug.js:63-73 | the new table is the old one cleared at the level the arguments select |
| `Debug.LookupStored` | lib/debug.js:49-54 | after `set(cat, name, data)`, `get(cat, name)` gives `data`, overwriting any earlier value |
| `Debug.StoredFrame` | lib/debug.js:49-54 | `set` adds at most its category and leaves every other category and every other name of its category as it was |
| `Debug.LookupLevels` | lib/debug.js:28-40 | `get()` gives the whole table; `get(cat)` and `get(cat, name)` of an absent category give `undefined`; `get(cat)` of a present one gives its map |
| `Debug.ClearedAll` | lib/debug.js:64-65 | `clear()` leaves the table empty |
| `Debug.ClearedCategory` | lib/debug.js:66-68 | `clear(cat)` removes the category and leaves every other one unchanged |
| `Debug.ClearedEntry` | lib/debug.js:69-71 | `clear(cat, name)` removes only that name; the category stays, possibly empty, and every other entry is unchanged |
| `Debug.ClearedAbsent` | lib/debug.js:66 | `clear(cat, ...)` of an absent category changes nothing |
| `Debug.ClearUndoesStore` | lib/debug.js:63-73 | clearing what `set` created restores the table: the name if it was new, the category if that was new |

## Left out

- The internals of `signFile` (examples/sign-pdf.js:7-38): PKCS#7 SignedData, the DSA-with-SHA-1 digest, the second `sign` call and the DER encoding are library calls. They are the parameter `sign`, and only the hex step of line 39 is modelled.
- A signer that throws: `sign` is a total function. In the code, the signer's exception propagates out of `signPdf` and there is no output; the model has no such case.
- `console.log` output, `test()`, `createSigner` and `createCertificate` (examples/sign-pdf.js:36-37, 109-209): these are file I/O, logging, key generation, randomness and dates.
- UTF-8 decoding of the range text (examples/sign-pdf.js:48): the bytes are read as ASCII.
- `parseInt` corner cases: leading blanks, a sign, and trailing non-digits count as unreadable here. The code would parse a prefix of them, or yield NaN and go on with NaN offsets. `SlotLaidOut` excludes such buffers instead.
- A buffer whose first ` ]` comes before the marker, or that has no ` ]` at all: the range text is empty, so the planner reports Unreadable and `SlotLaidOut` excludes the buffer. The code goes on with NaN offsets there, signs the whole buffer and throws "No room" for any non-empty signature.
- `Buffer.slice` clamping of out-of-range offsets and unordered offsets: `SlotLaidOut` requires `L1 + 2 <= O2 <= |pdf|`.
- Odd-length slot interiors, where `contentSign.length / 2` is fractional and `repeat` truncates it: `SlotLaidOut` requires an even interior.
- The slices computed with offset -1 before the missing-marker check (examples/sign-pdf.js:44-60): they have no effect, since the code throws right after.
- `Debug.DebugStorage.Get`: returns values, not live references. In JavaScript, a later `set` is visible through an object that an earlier `get` returned, and `clear()` detaches it. This aliasing is not modelled.
- JavaScript's `in` also finds prototype keys such as `toString`, and `set` may store `undefined`. Dafny maps have neither.
- The memory-leak remark of lib/debug.js:10 is about retention, which a value model does not have.
