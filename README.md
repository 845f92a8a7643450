# Cross-reference resolution and PDFDocEncoding, modelled in Dafny

This project models two parts of a PDF library.

**The xref/trailer resolver** (`xref_trailer.dfy`, with `ordering.dfy` and `wrappers.dfy`).
While a PDF file is scanned, the parser opens one record per cross-reference section. The record is keyed by the section's byte position and filled with object offsets and a trailer dictionary. After the scan, `setStartxref` takes the position named by the final `startxref` keyword as the head and resolves the records, once:

- It follows the trailers' `Prev` entries back from the head. The chain stops at a missing or -1 `Prev`, at a `Prev` naming no record, or when it holds as many positions as there are records.
- It merges the records on the chain oldest first, so that a newer section's offsets override an older one's. For trailers the same holds only under the `addAll` assumption stated under "Left out".
- When no record sits at the head, it merges every record in ascending byte-position order.

The resolver is a `class` with the source's three fields. Its loops are methods proved against specification functions: `Chain`, `MergedTable`, `MergedTrailer` and `Resolve`.

**PDFDocEncoding** (`pdf_doc_encoding.dfy`) is the single-byte encoding of PDF text strings (ISO 32000-1:2008, Annex D). A static initialiser fills a 256-entry code-to-character array and a character-to-code map. It first maps every code to the same-numbered character, then sets two blocks of deviations (0x18–0x1F and 0x7F–0xA0). The class `PdfDocEncoding` holds that static state; its constructor is the static initialiser, with every `set` call in source order. The specification function `WithDeviations` applies the same updates in five groups of codes (block 1, then block 2 in four parts), so that each lookup is proved one group at a time. `toString`, `getBytes` and `containsChar` are proved against the pure functions `Decode`, `Encode` and `InTable`.

Java types are modelled explicitly:

- `byte` is the newtype `JByte` (-128..127); `b & 0xff` is `Unsigned`, and `(byte) v` is `LowByte`.
- `char` is `JChar` (0..0xFFFF).
- Byte positions and offsets are unbounded `int`.

## Model

| member | source | states |
|---|---|---|
| XrefTrailer.XrefTrailerResolver.constructor | library/src/main/java/org/apache/pdfbox/pdfparser/XrefTrailerResolver.java:78-80 | A new resolver has no records, no current record and no resolution. |
| XrefTrailer.XrefTrailerResolver.GetFirstTrailer | library/src/main/java/org/apache/pdfbox/pdfparser/XrefTrailerResolver.java:87-96 | Returns none when there are no records. Otherwise returns the trailer (possibly absent) of the record at the smallest byte position. |
| XrefTrailer.XrefTrailerResolver.GetLastTrailer | library/src/main/java/org/apache/pdfbox/pdfparser/XrefTrailerResolver.java:103-112 | Returns none when there are no records. Otherwise returns the trailer (possibly absent) of the record at the largest byte position. |
| XrefTrailer.XrefTrailerResolver.NextXrefObj | library/src/main/java/org/apache/pdfbox/pdfparser/XrefTrailerResolver.java:119-123 | Puts a fresh record of the given type, with no trailer and no entries, at the position, replacing any record there. That record becomes current; the resolution is untouched. |
| XrefTrailer.XrefTrailerResolver.GetXrefType | library/src/main/java/org/apache/pdfbox/pdfparser/XrefTrailerResolver.java:130-133 | Returns none before resolution and the resolved type after it. |
| XrefTrailer.XrefTrailerResolver.SetXRef | library/src/main/java/org/apache/pdfbox/pdfparser/XrefTrailerResolver.java:141-150 | With a current record, only that record's table changes: the key now maps to the offset. Without one, nothing changes. |
| XrefTrailer.XrefTrailerResolver.SetTrailer | library/src/main/java/org/apache/pdfbox/pdfparser/XrefTrailerResolver.java:157-166 | With a current record, only that record's trailer changes, to the given trailer or to none for a null one. Without a current record, nothing changes. |
| XrefTrailer.XrefTrailerResolver.GetCurrentTrailer | library/src/main/java/org/apache/pdfbox/pdfparser/XrefTrailerResolver.java:174-177 | Returns the current record's trailer. A current record must exist; the source dereferences it unchecked. |
| XrefTrailer.XrefTrailerResolver.SetStartxref | library/src/main/java/org/apache/pdfbox/pdfparser/XrefTrailerResolver.java:193-260 | A second call changes nothing. The first call stores `Resolve(records, startxref)` and leaves the records and the current record as they were. |
| XrefTrailer.CollectChain | library/src/main/java/org/apache/pdfbox/pdfparser/XrefTrailerResolver.java:222-244 | The `while` loop collects exactly `Chain(records, head)`. |
| XrefTrailer.MergeRecords | library/src/main/java/org/apache/pdfbox/pdfparser/XrefTrailerResolver.java:250-258 | The `for` loop yields exactly the merged trailer and the merged table of the records in the given order. |
| XrefTrailer.XrefTrailerResolver.GetTrailer | library/src/main/java/org/apache/pdfbox/pdfparser/XrefTrailerResolver.java:268-271 | Returns none before resolution and the resolved trailer after it. |
| XrefTrailer.XrefTrailerResolver.GetXrefTable | library/src/main/java/org/apache/pdfbox/pdfparser/XrefTrailerResolver.java:279-282 | Returns none before resolution and the resolved offset table after it. |
| XrefTrailer.XrefTrailerResolver.GetContainedObjectNumbers | library/src/main/java/org/apache/pdfbox/pdfparser/XrefTrailerResolver.java:297-314 | Returns none before resolution. After it, a number is in the result exactly when some key with that object number has offset `-objstmObjNr` in the resolved table. |
| XrefTrailer.ChainShape | library/src/main/java/org/apache/pdfbox/pdfparser/XrefTrailerResolver.java:222-244 | The chain starts at the head and holds only known positions, each the `Prev` of the one before. It ends only at a -1, missing or unknown `Prev`, or when its length reaches the number of records. Its length is at most the number of records, or 2 for a single self-referencing record. |
| XrefTrailer.ChainOfLoneHead | library/src/main/java/org/apache/pdfbox/pdfparser/XrefTrailerResolver.java:223-229 | A head whose `Prev` is -1, missing or unknown gives the chain of the head alone. |
| XrefTrailer.ChainOfTwoCycle | library/src/main/java/org/apache/pdfbox/pdfparser/XrefTrailerResolver.java:239-243 | Two records naming each other are collected once each: the cycle guard stops the loop. |
| XrefTrailer.MergedTableKeys | library/src/main/java/org/apache/pdfbox/pdfparser/XrefTrailerResolver.java:250-258 | The merged table has a key exactly when some merged record lists it. |
| XrefTrailer.MergedTableNewest | library/src/main/java/org/apache/pdfbox/pdfparser/XrefTrailerResolver.java:250-258 | A key carries the offset from the last merged record that lists it: later entries overwrite earlier ones. |
| XrefTrailer.ResolveType | library/src/main/java/org/apache/pdfbox/pdfparser/XrefTrailerResolver.java:204-219 | Without a record at the head, the merge order is every known position in strictly ascending order, and the type stays `Table`. With one, the type is the head record's. |
| XrefTrailer.MergeOrderOfChain | library/src/main/java/org/apache/pdfbox/pdfparser/XrefTrailerResolver.java:245-246 | With a known head, the merge order is the chain reversed: it ends at the head, and each position is preceded by its `Prev`. |
| XrefTrailer.ResolvedTable | library/src/main/java/org/apache/pdfbox/pdfparser/XrefTrailerResolver.java:249-258 | The resolved table lists a key exactly when a merged record does, with the newest such record's offset. |
| XrefTrailer.HeadEntriesWin | library/src/main/java/org/apache/pdfbox/pdfparser/XrefTrailerResolver.java:245-258 | Every entry of the head record survives resolution unchanged. |
| XrefTrailer.ResolveEmpty | library/src/main/java/org/apache/pdfbox/pdfparser/XrefTrailerResolver.java:201-215 | Resolving with no records gives type `Table`, an empty trailer and an empty table. |
| Ordering.SortedPositions | library/src/main/java/org/apache/pdfbox/pdfparser/XrefTrailerResolver.java:213-214 | Lists the positions in strictly ascending order, each exactly once. |
| Ordering.SortedUnique | library/src/main/java/org/apache/pdfbox/pdfparser/XrefTrailerResolver.java:93-94 | Two strictly ascending listings of the same set are equal, so the sorted order is unique. |
| Ordering.SortedKeysFirst | library/src/main/java/org/apache/pdfbox/pdfparser/XrefTrailerResolver.java:93-95 | The first sorted position is the least one. |
| Ordering.SortedKeysLast | library/src/main/java/org/apache/pdfbox/pdfparser/XrefTrailerResolver.java:109-111 | The last sorted position is the greatest one. |
| Ordering.Backwards | library/src/main/java/org/apache/pdfbox/pdfparser/XrefTrailerResolver.java:246 | The reversal has the same length, and position i holds the element at position length-1-i. |
| DocEncoding.PdfDocEncoding.constructor | PdfBoxAndroid/src/org/apache/pdfbox/cos/PDFDocEncoding.java:18-75 | After the Latin-1 loop and the 42 `set` calls, the array equals `CodeTable()` and the map equals `CharTable()`. |
| DocEncoding.PdfDocEncoding.Set | PdfBoxAndroid/src/org/apache/pdfbox/cos/PDFDocEncoding.java:77-81 | Only array slot `code` and map key `unicode` change. |
| DocEncoding.PdfDocEncoding.ToString | PdfBoxAndroid/src/org/apache/pdfbox/cos/PDFDocEncoding.java:86-101 | Returns `Decode(bytes)`. |
| DocEncoding.DecodeWith | PdfBoxAndroid/src/org/apache/pdfbox/cos/PDFDocEncoding.java:88-100 | The loop gives one character per byte, read from a table that holds each code's character. |
| DocEncoding.PdfDocEncoding.GetBytes | PdfBoxAndroid/src/org/apache/pdfbox/cos/PDFDocEncoding.java:106-122 | Returns `Encode(text)`: one byte per character, the character's own low byte when it is in the map, else 0. |
| DocEncoding.PdfDocEncoding.ContainsChar | PdfBoxAndroid/src/org/apache/pdfbox/cos/PDFDocEncoding.java:129-132 | True exactly for characters below U+0100 and for the deviation characters. |
| DocEncoding.CodeTableMeaning | PdfBoxAndroid/src/org/apache/pdfbox/cos/PDFDocEncoding.java:23-73 | The finished array has 256 entries, and each holds its code's character as given by `CodeToUni`. |
| DocEncoding.PdfDocEncoding.SetLatin1 | PdfBoxAndroid/src/org/apache/pdfbox/cos/PDFDocEncoding.java:23-27 | The initialising loop leaves every code mapped to the same-numbered character, and the map equal to `Latin1Chars(256)`. |
| DocEncoding.Latin1CharsEntries | PdfBoxAndroid/src/org/apache/pdfbox/cos/PDFDocEncoding.java:24-27 | After n rounds of the loop, the map has exactly the characters below n, each mapped to its own number. |
| DocEncoding.CharTableKeys | PdfBoxAndroid/src/org/apache/pdfbox/cos/PDFDocEncoding.java:23-73 | The finished map has an entry exactly for the characters below U+0100 and the deviation characters. |
| DocEncoding.CharTableLatin1 | PdfBoxAndroid/src/org/apache/pdfbox/cos/PDFDocEncoding.java:24-27 | The finished map sends each character below U+0100 to its own number. |
| DocEncoding.CharTableDeviation | PdfBoxAndroid/src/org/apache/pdfbox/cos/PDFDocEncoding.java:29-73 | The finished map sends each deviation character back to its code; U+FFFD goes to the later code 0x9F. |
| DocEncoding.WithDeviationsSendsDeviation | PdfBoxAndroid/src/org/apache/pdfbox/cos/PDFDocEncoding.java:29-73 | The 42 deviation updates send each deviation character to its code, whatever map they start from. |
| DocEncoding.WithDeviationsKeepsLatin1 | PdfBoxAndroid/src/org/apache/pdfbox/cos/PDFDocEncoding.java:29-73 | The deviation updates leave every character below U+0100 as it was. |
| DocEncoding.CodeToUniCases | PdfBoxAndroid/src/org/apache/pdfbox/cos/PDFDocEncoding.java:29-73 | Outside the deviation blocks a code is its own character. Inside, the character lies at U+0100 or above. 0x7F and 0x9F are U+FFFD, 0x80 is U+2022 and 0xA0 is U+20AC. |
| DocEncoding.DecodeByteUsesTable | PdfBoxAndroid/src/org/apache/pdfbox/cos/PDFDocEncoding.java:91-98 | The `'?'` branch is never taken: every byte decodes through the table. |
| DocEncoding.InTableIsImage | PdfBoxAndroid/src/org/apache/pdfbox/cos/PDFDocEncoding.java:129-132 | A character is in the map exactly when it is below U+0100 or is the character of some deviation code. |
| DocEncoding.EncodeCharCases | PdfBoxAndroid/src/org/apache/pdfbox/cos/PDFDocEncoding.java:109-119 | An unknown character encodes to 0. A known one encodes to its own low eight bits, so a character below U+0100 encodes to itself and U+2022 to 0x22. |
| DocEncoding.RoundTripByte | PdfBoxAndroid/src/org/apache/pdfbox/cos/PDFDocEncoding.java:86-122 | Decoding then encoding one byte gives it back exactly when its code is outside 0x18–0x1F and 0x7F–0xA0. |
| DocEncoding.RoundTrip | PdfBoxAndroid/src/org/apache/pdfbox/cos/PDFDocEncoding.java:86-122 | A byte string without deviation codes survives decoding and re-encoding. |
| DocEncoding.Unsigned | PdfBoxAndroid/src/org/apache/pdfbox/cos/PDFDocEncoding.java:91 | `b & 0xff` lies in 0..255 and agrees with `b` modulo 256. |
| DocEncoding.LowByte | PdfBoxAndroid/src/org/apache/pdfbox/cos/PDFDocEncoding.java:118 | The byte `write(v)` stores, read unsigned, is `v` modulo 256. |
| DocEncoding.BulletBecomesQuote | PdfBoxAndroid/src/org/apache/pdfbox/cos/PDFDocEncoding.java:118 | As written, byte 0x80 decodes to U+2022, and U+2022 encodes to 0x22. |
| DocEncoding.StaleEntry | PdfBoxAndroid/src/org/apache/pdfbox/cos/PDFDocEncoding.java:24-27 | As written, each character U+0018–U+001F and U+007F–U+00A0 stays in the map, so `containsChar` accepts it, yet no byte decodes to it. |
| DocEncoding.CodeIsEncodable | PdfBoxAndroid/src/org/apache/pdfbox/cos/PDFDocEncoding.java:29-73 | The character of every code is encodable. |
| DocEncoding.IntendedRoundTripByte | PdfBoxAndroid/src/org/apache/pdfbox/cos/PDFDocEncoding.java:106-122 | With the intended `getBytes`, every byte survives decoding and re-encoding, except 0x7F, which comes back as 0x9F. |
| DocEncoding.IntendedRoundTripChar | PdfBoxAndroid/src/org/apache/pdfbox/cos/PDFDocEncoding.java:106-122 | With the intended `getBytes`, every encodable character survives encoding and re-decoding. |
| DocEncoding.IntendedRoundTrip | PdfBoxAndroid/src/org/apache/pdfbox/cos/PDFDocEncoding.java:86-122 | With the intended `getBytes`, every string of encodable characters survives encoding and re-decoding. |

## Left out

- Logging (`Log.w`) is left out. The warnings do not change state, so each warning path is modelled as a plain return.
- `COSDictionary`, `COSName` and `COSObjectKey` are not part of this model:
  - a trailer is a map from key names to values, and only integer values are distinguished;
  - `COSDictionary.addAll` is ASSUMED to be a map union in which the added dictionary's entries win. Its code is not part of this model. If it keeps an existing `/Size` (a special case some versions of the class have), the resolved `/Size` would come from the oldest merged trailer, and `MergedTrailer` does not capture that;
  - hashing and equality of object keys are structural.
- XrefTrailer.XrefTrailerResolver.SetTrailer / GetCurrentTrailer / GetTrailer / GetXrefTable: trailers and the resolved table are values, not shared references. The source keeps the caller's `COSDictionary` object and hands out live objects, so a change a caller makes to such an object after `setTrailer` (a corrected `/Prev`, say) is seen by a later `setStartxref` and by other holders. The model sees such a change only if it is passed in again through `SetTrailer`. A null trailer is modelled as `None`.
- GetLong: a `Prev` that holds a non-integer number or an indirect reference counts as absent, and is not converted or dereferenced.
- Java `long` and `int` overflow is not modelled: positions, offsets and object numbers are unbounded integers.
- GetContainedObjectNumbers: does not model the wrap-around of `-objstmObjNr` for `Integer.MIN_VALUE`, because object numbers are unbounded here.
- `HashMap` iteration order is not modelled: the loops that depend on it build sets, whose contents do not depend on that order.
- An offset stays a signed integer, with the negative value `-N` meaning "inside object stream N", as the code has it. It is not split into two kinds of entry.
- DocEncoding.PdfDocEncoding: the Java class's static fields are modelled as the fields of one instance, whose constructor is the static initialiser. Class-initialisation order is not modelled.
- DocEncoding.PdfDocEncoding.ToString: the `StringBuilder` is modelled as a sequence of characters, and the resulting Java `String` as that sequence. Surrogate pairs get no special treatment, since the source handles characters one UTF-16 unit at a time.
- DocEncoding.PdfDocEncoding.GetBytes: the `ByteArrayOutputStream` is modelled as a sequence of bytes.

## Findings

| source | as written | input that shows it | evidently intended | confidence | as-written member | corrected member |
|---|---|---|---|---|---|---|
| PdfBoxAndroid/src/org/apache/pdfbox/cos/PDFDocEncoding.java:118 | `getBytes` writes the character's own low byte (`out.write(c)`) instead of the code it just looked up | byte 0x80 decodes to U+2022 (bullet), which encodes to 0x22 (`"`) | write the looked-up code, so that every byte except 0x7F survives `toString` then `getBytes` | high; not executed | DocEncoding.BulletBecomesQuote | DocEncoding.IntendedRoundTripByte |
| PdfBoxAndroid/src/org/apache/pdfbox/cos/PDFDocEncoding.java:24-27 | the Latin-1 loop maps all 256 characters below U+0100 to their own numbers, and the deviations never remove those entries | U+0018 is in the map (`containsChar` is true) although code 0x18 decodes to U+02D8 and no byte decodes to U+0018 | skip the deviation codes in the loop, so that the map holds exactly the characters some code decodes to | medium; not executed | DocEncoding.StaleEntry | DocEncoding.IntendedRoundTripChar |

The corrected encoder is `EncodeCharIntended` / `EncodeIntended`. It writes the looked-up code, and a zero byte for every character outside `Encodable`, the set of characters some code decodes to (`CodeIsEncodable`, `IntendedRoundTripChar`). The class itself keeps the behaviour as written.
