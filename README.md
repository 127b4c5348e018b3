# Storage adapter utilities, modelled in Dafny

This project models the three helpers in `services/adapters/utils.py` that
every storage adapter of the file browser shares:

- `sort_and_paginate_entries` sorts a directory listing in place and returns
  one page of it with the total count. Directories come first, then the
  entries are ordered by name (case-insensitively), size or modification
  time, ascending or descending.
- `parse_range_header` resolves an HTTP `Range` header against the size of a
  file. It returns `(start, end, status, is_partial)`, or fails with a bad
  request (`ValueError`) or an unsatisfiable range (`IndexError`).
- `build_stream_headers` builds the response headers for streaming the whole
  file or one byte range of it.

Files:

- `wrappers.dfy`: `Option` and `Result`.
- `text.dfy`: the bits of Python's `str` the helpers use: `strip()`,
  `lower()` on ASCII, `int()`, `str()` of an integer, and `split(sep, 1)`.
- `percent.dfy`: UTF-8 and `urllib.parse.quote`, with the decoders a client
  applies. The decoders are the partners for the round trips.
- `listing.dfy`: the sort key, a stable in-place insertion sort on an
  `array`, and Python slicing for the page.
- `ranges.dfy`: `parse_range_header`.
- `headers.dfy`: `build_stream_headers`, with client-side parsers for
  `Content-Range` (section 4.2 of RFC 7233) and `Content-Disposition`.

The sort is the only imperative part. `SortEntries` works on the caller's
`array`, as `list.sort` works on the caller's list. It is proved to leave
the array sorted, a permutation of its old contents, and with entries of
equal keys in their old relative order. `StableSortIsUnique` shows that
these three facts fix the result completely, so any stable sort (Python's
Timsort included) yields the same list as the model's insertion sort. The
range parser and the header builder are pure functions.

Where the code and its description disagree, the model follows the code:

- A suffix range `bytes=-500` is described as "the last 500 bytes"
  (section 2.1 of RFC 7233). The code reads the blank start as 0 and serves
  bytes 0 to 500 (`SuffixRangeReadsFromStart`).
- Nothing checks that `start <= end`. `bytes=500-100` and `bytes=0--5` are
  answered with 206 and an inverted span. For these the headers carry a
  `Content-Length` below 1 and a `Content-Range` that RFC 7233 calls
  invalid (`InvertedRangeHeaders`). So the parsed span and the
  `Content-Range` read back from it agree only for spans that are not
  inverted (`StreamHeadersDescribeRange`).
- Directories are described as coming before files whatever the sort field
  or order. `list.sort(..., reverse=True)` reverses the whole key, so in
  descending order the files come first (`DescendingOrderMeaning`).

## Model

| member | source | states |
|---|---|---|
| Listing.ParseSortField | services/adapters/utils.py:35-44 | `size` and `mtime` (in any case) select those fields, and every other value, unknown ones included, sorts by name |
| Listing.IsDescending | services/adapters/utils.py:30 | the order is reversed exactly for "desc" spelled in any mix of upper and lower case |
| Listing.Key | services/adapters/utils.py:32-45 | the key is `(not is_dir, field)`: its first part is true exactly for files, and its field is the lower-cased name exactly when sorting by name, otherwise the size or the mtime |
| Listing.KeyLessIsStrictTotalOrder | services/adapters/utils.py:32-45 | Python's `<` on the key tuple `(not is_dir, field)` is irreflexive, transitive and total on distinct keys, so the sort is well defined |
| Listing.BeforeDistinctKeys | services/adapters/utils.py:47 | an entry that must precede another has a different key, and the other need not precede it |
| Listing.NotBeforeTransitive | services/adapters/utils.py:47 | "not out of order" is transitive, which lets an insertion step extend a sorted prefix |
| Listing.KeyClassAppend | services/adapters/utils.py:47 | the entries of one key in a concatenation are those of the two parts, in order |
| Listing.SwapKeepsKeyClasses | services/adapters/utils.py:47 | swapping neighbours with different keys keeps every key's entries in their relative order |
| Listing.PairKeyClass | services/adapters/utils.py:47 | two entries with different keys have the same per-key order either way round |
| Listing.SwapNeighbours | services/adapters/utils.py:47 | exchanges two neighbours with different keys: the exact new array, a permutation, and stability |
| Listing.InsertIntoPrefix | services/adapters/utils.py:47 | moves one entry into the sorted prefix: the prefix is one longer and still sorted, the entries after it are untouched, and the array is a stable permutation of the old one |
| Listing.SortEntries | services/adapters/utils.py:47 | `list.sort(key=..., reverse=...)`: the array ends sorted, as a permutation of its old contents, with equal keys in their old relative order (stable even when reversed) |
| Listing.KeyClassElements | services/adapters/utils.py:47 | the entries listed for a key are entries of the list with that key |
| Listing.KeyClassOfHead | services/adapters/utils.py:47 | the first entry of a list heads the list of entries with its key |
| Listing.SameKeyOrderOfEmpty | services/adapters/utils.py:47 | only the empty list has the same per-key order as the empty list |
| Listing.SameKeyOrderHeads | services/adapters/utils.py:47 | two sorted lists with the same per-key order start with the same entry |
| Listing.SameKeyOrderTails | services/adapters/utils.py:47 | removing a common first entry keeps the per-key order equal |
| Listing.StableSortIsUnique | services/adapters/utils.py:47 | sorted plus stable determines the result, so the model's sort and Python's give the same list |
| Listing.AscendingOrderMeaning | services/adapters/utils.py:30-47 | ascending: every directory precedes every file, and within each group the name (lower-cased), size or mtime never decreases |
| Listing.DescendingOrderMeaning | services/adapters/utils.py:30-47 | `reverse=True`: every file precedes every directory, and within each group the field never increases |
| Listing.SliceBound | services/adapters/utils.py:54 | Python's normalisation of a slice bound: clipped to the length, negative bounds counted from the end, and 0 when they reach before the start |
| Listing.SliceContents | services/adapters/utils.py:54 | `s[lo:hi]` holds the entries from the normalised `lo` up to the normalised `hi`, in order, and is empty when those bounds cross |
| Listing.PageContents | services/adapters/utils.py:52-54 | for page numbers from 1 and non-negative sizes, the page holds `page_size` entries from `(page_num - 1) * page_size`, fewer at the end of the list, and none past it |
| Listing.SliceNonNegative | services/adapters/utils.py:54 | with non-negative bounds, `s[lo:hi]` is `s` between the bounds clipped to its length |
| Listing.PagesConcatenate | services/adapters/utils.py:52-54 | pages 1 to n, read in order, are the first `n * page_size` entries |
| Listing.PagesCoverList | services/adapters/utils.py:49-54 | enough pages, read in order, give every entry exactly once |
| Listing.PageBeforeFirst | services/adapters/utils.py:52-54 | page 0 is empty, and page -1 is a window counted from the end of the list, as Python slicing makes it |
| Listing.SortAndPaginate | services/adapters/utils.py:9-56 | sorts the caller's array in place (sorted, a permutation, stable), returns the requested page of the sorted list, and returns the total count as the list length. The defaults are those of the source: page 1 of 50 entries, by name, ascending |
| Text.LowerChar | services/adapters/utils.py:38 | an ASCII capital becomes its small letter and every other character is kept, so no ASCII capital is left |
| Text.Lower | services/adapters/utils.py:35-44 | `str.lower()` on ASCII: the same length, each character lowered, no ASCII capital left |
| Text.IsSpace | services/adapters/utils.py:83-86 | `str.isspace()`: no whitespace character is a digit or a sign |
| Text.IsIntSpace | services/adapters/utils.py:84-86 | the whitespace `int()` skips is whitespace to `isspace()` too, but leaves out the separators U+001C to U+001F |
| Text.LeadingSpace | services/adapters/utils.py:83-86 | counts exactly the whitespace of the given class at the front: every counted character is whitespace and the next is not |
| Text.TrailingSpace | services/adapters/utils.py:83-86 | the same at the back |
| Text.Strip | services/adapters/utils.py:83-86 | `str.strip()` with the `isspace()` class, and `int()`'s own skipping with its class: empty exactly when the text is all whitespace of that class, and otherwise it neither starts nor ends with such whitespace |
| Text.StripKeepsText | services/adapters/utils.py:83-86 | stripping keeps every character that is not whitespace of the class and adds none |
| Text.ParseInt | services/adapters/utils.py:84-86 | `int()` of text that `isspace()` finds blank fails |
| Text.ParseIntNonNegative | services/adapters/utils.py:81-84 | text without '-' never reads as a negative number, so the start field is never negative |
| Text.ParseIntRejects | services/adapters/utils.py:84-86 | one character that is not whitespace `int()` skips, a digit or a sign makes `int()` fail, a separator U+001C to U+001F included |
| Text.NatToString | services/adapters/utils.py:128-129 | `str()` of a non-negative integer is a non-empty run of digits without a leading zero |
| Text.IntToString | services/adapters/utils.py:128-131 | `str()` of an integer starts with '-' exactly when it is negative and is digits after that, and for a non-negative integer it is exactly the plain digit spelling |
| Text.NatToStringValue | services/adapters/utils.py:128-131 | the digits `str()` writes have the value of the number |
| Text.IntToStringIsStripped | services/adapters/utils.py:128-131 | `str()` of an integer has no whitespace to strip |
| Text.ParseIntToString | services/adapters/utils.py:84-86 | `int(str(n)) == n` for every integer |
| Text.SplitAtFirst | services/adapters/utils.py:81 | `split("-", 1)`: fails exactly when there is no separator, and otherwise splits at the first one |
| Text.SplitAtFirstJoin | services/adapters/utils.py:81 | splitting `a + "-" + b` gives back `a` and `b` when `a` holds no '-' |
| Percent.Utf8Encode | services/adapters/utils.py:134-135 | the UTF-8 form of a text is between one and four bytes per character |
| Percent.Utf8CharDecodes | services/adapters/utils.py:134-135 | each character's UTF-8 bytes decode back to it |
| Percent.Utf8RoundTrip | services/adapters/utils.py:134-135 | decoding the UTF-8 form of a text gives the text back |
| Percent.QuoteBytes | services/adapters/utils.py:134-135 | percent-encoding leaves only unreserved characters, '/' and '%' |
| Percent.Quote | services/adapters/utils.py:134-135 | `quote(filename)` never contains a quote, a semicolon or a space, so it cannot break out of the quoted parameter |
| Percent.QuoteBytesDecodes | services/adapters/utils.py:134-135 | percent-decoding undoes percent-encoding |
| Percent.QuoteRoundTrip | services/adapters/utils.py:134-135 | a client decoding `quote(filename)` gets back the UTF-8 of the file name, and from that the file name |
| Ranges.HasRangeUnit | services/adapters/utils.py:79 | a range is read exactly when a header is present and starts with `bytes=`, case-sensitively |
| Ranges.FullRange | services/adapters/utils.py:74-77 | without a range, the span starts at 0, covers exactly `file_size` bytes, and is answered with 200 as not partial |
| Ranges.Resolve | services/adapters/utils.py:83-95 | a field that is not read is a bad request; with both read, the range is unsatisfiable exactly when the start is at least the file size, and otherwise it starts at the start, ends at the end clamped to the last byte, and is partial with 206 |
| Ranges.FieldOrDefault | services/adapters/utils.py:83-86 | a field blank to `isspace()` keeps the default, and any other field is read with `int()` |
| Ranges.ParseRange | services/adapters/utils.py:74-97 | without the `bytes=` prefix the whole file is served with 200. A range that parses is partial with 206, its start lies within the file, and its end is at most the last byte. Every failure has the prefix |
| Ranges.RangeFields | services/adapters/utils.py:79-95 | with the prefix, the fields are the text before and after the first '-', resolved as lines 88-95 do |
| Ranges.DecimalField | services/adapters/utils.py:83-84 | a non-negative number's spelling is a field holding that number |
| Ranges.IntegerField | services/adapters/utils.py:85-86 | the same for any integer |
| Ranges.BlankField | services/adapters/utils.py:83-86 | an empty field takes the default |
| Ranges.BlankStart | services/adapters/utils.py:81-86 | `bytes=-<e>` starts at 0 and ends at `<e>` |
| Ranges.RangeUnitOf | services/adapters/utils.py:79-80 | text after `bytes=` is recognised, and removing the prefix gives that text back |
| Ranges.RangeOfNumbers | services/adapters/utils.py:79-95 | `bytes=<a>-<b>` fails as unsatisfiable exactly when `a` is at least the file size. Otherwise it is partial from `a`, with the end clamped to the last byte and never checked against the start |
| Ranges.RangeToEnd | services/adapters/utils.py:79-95 | `bytes=<a>-` runs to the last byte, or is unsatisfiable from the file size on |
| Ranges.SuffixRangeReadsFromStart | services/adapters/utils.py:83-95 | `bytes=-<n>` is served as bytes 0 to `n` (clamped), not as the last `n` bytes; it is unsatisfiable for an empty file |
| Ranges.RangeWithoutDash | services/adapters/utils.py:81 | a range without '-' is a bad request |
| Ranges.RangeWithUnreadableField | services/adapters/utils.py:81-86 | a start or end field that `int()` cannot read is a bad request, on either side |
| Ranges.RangeWithMalformedField | services/adapters/utils.py:81-86 | a field holding a character that is not whitespace, a digit or a sign is a bad request, on either side |
| Ranges.RangeWithSeparator | services/adapters/utils.py:83-86 | a separator U+001C to U+001F in a field that is not blank is a bad request: `strip()` treats it as whitespace and `int()` does not |
| Ranges.RangeUnitIsCaseSensitive | services/adapters/utils.py:79 | `Bytes=...` is not recognised: the whole file is served |
| Ranges.ThousandBytePlainRange | services/adapters/utils.py:74-97 | for 1000 bytes: no header gives (0, 999, 200, false), and `bytes=0-499` gives (0, 499, 206, true) |
| Ranges.ThousandByteClampedEnd | services/adapters/utils.py:91-92 | `bytes=0-2000` on 1000 bytes is clamped to end 999 |
| Ranges.ThousandByteLastByte | services/adapters/utils.py:85-95 | `bytes=999-` on 1000 bytes is the last byte |
| Ranges.ThousandBytePastEnd | services/adapters/utils.py:88-89 | `bytes=1000-` on 1000 bytes is unsatisfiable |
| Ranges.ThousandByteInvertedRange | services/adapters/utils.py:88-95 | `bytes=500-100` is accepted as (500, 100, 206, true) |
| Ranges.ThousandByteNegativeEnd | services/adapters/utils.py:85-95 | `bytes=0--5` is accepted as (0, -5, 206, true) |
| Ranges.ThousandByteSeparatorInStart | services/adapters/utils.py:83-84 | `bytes=\x1c5-` is a bad request |
| Ranges.ThousandByteSeparatorOnlyStart | services/adapters/utils.py:83-95 | `bytes=\x1c-5` keeps the default start: (0, 5, 206, true) |
| Ranges.ThousandByteSuffixRange | services/adapters/utils.py:83-95 | `bytes=-500` on 1000 bytes is (0, 500, 206, true) |
| StreamHeaders.ContentRangeValue | services/adapters/utils.py:128 | the `Content-Range` value is in the unit `bytes` and holds only digits, '-' and '/' after it |
| StreamHeaders.Disposition | services/adapters/utils.py:135 | the `Content-Disposition` value is `inline; filename="`, the quoted name, and a closing quote, with no quote in between to end the parameter early |
| StreamHeaders.ParseDigits | services/adapters/utils.py:128 | a client accepts only a non-empty run of digits as a number |
| StreamHeaders.ParseContentRange | services/adapters/utils.py:128 | a client accepts a `Content-Range` only when first <= last < length |
| StreamHeaders.DigitsOfNat | services/adapters/utils.py:128 | the spelling of a non-negative number reads back as that number and holds no '-' or '/' |
| StreamHeaders.ContentRangeFields | services/adapters/utils.py:128 | `bytes <a>-<b>/<n>` splits into its three fields |
| StreamHeaders.ContentRangeRoundTrip | services/adapters/utils.py:128 | `f"bytes {start}-{end}/{file_size}"` reads back as the same three numbers, and is rejected exactly when RFC 7233 calls it invalid |
| StreamHeaders.DispositionRoundTrip | services/adapters/utils.py:133-135 | a client decodes the `Content-Disposition` file name back to the name given |
| StreamHeaders.NameIsInjective | services/adapters/utils.py:122-135 | no two header names are spelled alike |
| StreamHeaders.BuildStreamHeaders | services/adapters/utils.py:100-137 | the exact header set: `Accept-Ranges`, `Content-Type` and `Content-Length` always; `Content-Range` exactly when partial; `Content-Disposition` exactly when a non-empty file name is given, no file name being the default. Also each header's value |
| StreamHeaders.LengthReadBack | services/adapters/utils.py:127-131 | `Content-Length` reads back as `end - start + 1` for a partial response and as the file size otherwise |
| StreamHeaders.LengthIsDigits | services/adapters/utils.py:127-131 | a byte count that is not negative is sent as the `1*DIGIT` of section 3.3.2 of RFC 7230, and a strict client reads it back as that count |
| StreamHeaders.FilenameReadBack | services/adapters/utils.py:133-135 | a `Content-Disposition`, when present, reads back as the file name given |
| StreamHeaders.RangeReadBack | services/adapters/utils.py:127-128 | a satisfiable span's `Content-Range` reads back as that span and the file size |
| StreamHeaders.SpanHeaders | services/adapters/utils.py:122-131 | for a span within the file, the headers announce it: the whole file without `Content-Range`, or a span that is not inverted with a readable `Content-Range` and a length between 1 and the bytes left |
| StreamHeaders.StreamHeadersDescribeRange | services/adapters/utils.py:74-131 | the headers built from any successfully parsed `Range` header announce the parsed span |
| StreamHeaders.InvertedRangeHeaders | services/adapters/utils.py:88-95 | `bytes=<a>-<b>` with `b < a` within the file, `b` negative included, gives 206, a `Content-Length` below 1, and a `Content-Range` a client rejects |

## Left out

- `extract_exif_data` (lines 140 onwards) is left out. It opens an image file
  with PIL in a worker thread: file I/O and a foreign library.
- The storage adapters that call these helpers are not part of this
  model.
- Listing.Key: entry names are lower-cased on ASCII letters only. Python's
  `str.lower()` also maps other scripts, so two non-ASCII names may compare
  differently. `sort_by` and `sort_order` are compared only with `size`,
  `mtime` and `desc`, and for those comparisons ASCII lowering gives the same
  answer as Python's. The only non-ASCII characters Python lowers to an
  ASCII letter are U+212A KELVIN SIGN, which becomes `k` and is in none of
  those words, and U+0130, which becomes `i` followed by the combining dot
  U+0307, so the extra character breaks the match either way.
- Text.ParseInt: `int()` also accepts `_` between digits and non-ASCII
  decimal digits. Neither is modelled, so a range field spelled that way is
  read as a bad request here.
- Text.ParseInt: Python's `int()` refuses text of more than 4300 digits by
  default (`sys.get_int_max_str_digits()`). The model reads numbers of any
  length, so a range field that long is a number here but a bad request in
  Python.
- Text.IntToString: `str()` has the same 4300-digit limit and raises beyond
  it. The model spells every integer.
- Ranges.RangeOfNumbers: its "exactly when" holds for fields within that
  digit limit; a longer field makes Python answer a bad request.
- Listing.Entry: `mtime` is modelled as an integer. Adapters may report a
  float, but only the ordering matters to the sort.
- Listing.Entry: the entry dictionaries may carry other keys. The sort
  neither reads nor changes them, and they are stood for by one `id`
  field, so that two entries agreeing on every sorted field stay distinct
  and their relative order is kept by the stability contract.
- Listing.SortEntries: Python's Timsort is modelled by an insertion sort.
  `StableSortIsUnique` shows that the result is the same list.
- StreamHeaders.BuildStreamHeaders: the header map is keyed by the five
  header names, with `Name` giving each one's spelling. A dictionary's
  insertion order is not modelled.
- Percent.Quote: lone surrogates cannot occur in a Dafny `string`, so the
  error `quote` raises on them is not modelled.
- StreamHeaders.SpanHeaders: the `Content-Length` is stated as the decimal
  spelling of the byte count. What a client parses from it is stated for
  all inputs by `LengthReadBack`.
