# Verified model of the forensic pcap extractor and the Caesar cipher

This project models two small Python programs in Dafny and proves what they promise.

`extract_forensic_pcap.py` runs tshark over a packet capture and exports the
fields `frame.number`, `frame.time_epoch`, `ip.src`, `ip.dst`, `udp.srcport`,
`udp.dstport` and `data.data` as a tab-separated table. It then reads the
table back and builds two lists in lockstep:

- the index rows (frame, time, addresses, ports);
- the payload rows (raw hex cell and the SHA-256 of the bytes it decodes to).

The model covers the deterministic core of that program:

- header normalisation and `find_col`;
- the role indices, with Python's `or` fallback;
- the payload-column heuristic;
- `get_at`;
- `hex_to_bytes`;
- the row-acceptance loop;
- `find_tshark`;
- the exit-code rules and the order in which `main` gives up.

`caesars.py` holds `caesar_cipher`, a loop that shifts ASCII letters within
their case and copies every other ASCII character unchanged. In a mode other than
`encrypt` or `decrypt`, it drops the letters.

Modules:

- `Wrappers`: `Option`.
- `Text`: Python's `str.strip`, ASCII `str.lower`, and substring `in`.
- `HexPayload`: `hex_to_bytes` and a hex encoder, its inverse.
- `Columns`: header normalisation, `find_col`, the role and payload indices, and the schema.
- `Rows`: `get_at`, row acceptance, and the row loop.
- `Pipeline`: `find_tshark`, the exit-code rules, and the pre-flight order of `main`.
- `Caesars`: `caesar_cipher`.

Parameters stand for the outside world:

- SHA-256 is a function `seq<Byte> -> string`.
- `os.path.isfile` is a predicate on paths.
- `os.path.expanduser` is a function on paths.
- The result of `shutil.which("tshark")` is an `Option<string>`.
- The `csv.reader` output of the tshark table is an already tokenised `seq<seq<string>>`.
- Subprocess results are plain exit codes and existence flags.

A row whose payload cell is empty, or holds no hexadecimal digit, is
skipped (extract_forensic_pcap.py:259-274) before anything is appended.
So it appears in neither list, and not in `index.csv` either, and the two
lists always have the same length. `Rows.ThreeFrameCapture` shows this on
three frames, one of them without a payload: two rows are kept, not three.

## Model

| member | source | states |
|---|---|---|
| HexPayload.CleanHex | extract_forensic_pcap.py:96 | the cleaned string holds only hexadecimal digits and is no longer than the input |
| HexPayload.CleanHexAppend | extract_forensic_pcap.py:96 | cleaning distributes over concatenation: the digits are kept in their original order |
| HexPayload.CleanHexKeepsDigits | extract_forensic_pcap.py:96 | a string made only of hexadecimal digits is kept whole |
| HexPayload.CleanHexDropsNoise | extract_forensic_pcap.py:96 | a string without hexadecimal digits cleans to nothing |
| HexPayload.HexToBytes | extract_forensic_pcap.py:94-100 | the decoded length is (digit count + 1) / 2, so empty input decodes to no bytes |
| HexPayload.SeparatorsIgnored | extract_forensic_pcap.py:94-100 | inserting non-hex separators such as ':' or spaces anywhere does not change the decoded bytes |
| HexPayload.DecodePairs | extract_forensic_pcap.py:100 | `bytes.fromhex` on an even-length all-hex string: half as many bytes as digits, with `HexPayload.DecodePairsNibbles` giving each byte |
| HexPayload.DecodePairsNibbles | extract_forensic_pcap.py:100 | decoding an even run of digits yields bytes whose high and low nibbles are exactly those digits' values, in order |
| HexPayload.HexToBytesKeepsEveryDigit | extract_forensic_pcap.py:94-100 | the nibbles of the decoded bytes are every digit of the input in order, preceded by one 0 exactly when the digit count is odd: no digit is lost |
| HexPayload.DecodePairsToHex | extract_forensic_pcap.py:100 | decoding the two-digit lower-case rendering of bytes gives the bytes back |
| HexPayload.HexRoundTrip | extract_forensic_pcap.py:94-100 | `hex_to_bytes` inverts hex encoding for every byte sequence |
| Text.Lower | extract_forensic_pcap.py:206 | ASCII lower-casing: the length is kept, and each character is its own lower-case form (see Left out for non-ASCII capitals) |
| Text.Contains | extract_forensic_pcap.py:228 | Python's substring test `w in s`: the empty string is in every string, and a contained string is no longer than the one containing it |
| Text.Strip | extract_forensic_pcap.py:206 | the stripped string is no longer than the input; `Text.StripRemovesOnlyMargins` pins it down exactly |
| Text.TrimStartRemovesPrefix | extract_forensic_pcap.py:206 | left stripping removes a whitespace-only prefix and stops at the first non-whitespace character |
| Text.TrimEndRemovesSuffix | extract_forensic_pcap.py:206 | right stripping removes a whitespace-only suffix and stops at the last non-whitespace character |
| Text.StripRemovesOnlyMargins | extract_forensic_pcap.py:206 | `strip()` returns a contiguous slice of the input with whitespace-only margins and no whitespace at either end |
| Columns.NormalizeHeader | extract_forensic_pcap.py:206 | one normalised name per header name, each the stripped, lower-cased original at the same position |
| Columns.IndexOf | extract_forensic_pcap.py:212-214 | none exactly when the name is absent; otherwise a valid position holding the name with no earlier one |
| Columns.FindCol | extract_forensic_pcap.py:210-215 | none exactly when no alias occurs in the header; otherwise a valid position holding one of the aliases |
| Columns.FindColFirstHit | extract_forensic_pcap.py:210-215 | the answer is the first position of the first alias, in list order, that occurs anywhere in the header |
| Columns.RoleIndex | extract_forensic_pcap.py:217-222 | the role index is its default or a non-zero valid position holding an alias, and the default when no alias occurs |
| Columns.RoleIndexOfHit | extract_forensic_pcap.py:217-222 | the role index is the `find_col` hit when that hit is non-zero, and the default when it is 0 |
| Columns.ZeroHitFallsBack | extract_forensic_pcap.py:217-219 | an `ip.src` column at position 0 is ignored: the source role falls back to column 2, which holds `frame.number` |
| Columns.FirstContaining | extract_forensic_pcap.py:227-230 | none exactly when no header name contains the word; otherwise the first position whose name contains it |
| Columns.PayloadIndex | extract_forensic_pcap.py:224-232 | the first exact `data.data`, else the first name containing `data`, else the last column, or 6 for an empty header; a hit at 0 is kept |
| Columns.ResolveSchema | extract_forensic_pcap.py:206-232 | every role index is its default or names a column whose normalised name is one of the role's aliases; the payload index is a valid column unless the header is empty |
| Columns.NormalizeFixes | extract_forensic_pcap.py:206 | a name with no surrounding whitespace and no upper-case letter is unchanged by normalisation |
| Columns.NormalizeHeaderFixes | extract_forensic_pcap.py:206 | a header whose names have no surrounding whitespace and no upper-case letter is unchanged by normalisation |
| Columns.TsharkHeaderIsNormal | extract_forensic_pcap.py:105-113 | the header tshark writes for the requested fields is already normalised |
| Columns.TsharkFrameRole | extract_forensic_pcap.py:217 | over tshark's own header the frame alias hits position 0, and the `or` fallback gives 0 as well |
| Columns.TsharkTimeRole | extract_forensic_pcap.py:218 | over tshark's own header the time role resolves to column 1 |
| Columns.TsharkSrcRole | extract_forensic_pcap.py:219 | over tshark's own header the source address resolves to column 2 |
| Columns.TsharkDstRole | extract_forensic_pcap.py:220 | over tshark's own header the destination address resolves to column 3 |
| Columns.TsharkSportRole | extract_forensic_pcap.py:221 | over tshark's own header the source port resolves to column 4 |
| Columns.TsharkDportRole | extract_forensic_pcap.py:222 | over tshark's own header the destination port resolves to column 5 |
| Columns.TsharkPayloadRole | extract_forensic_pcap.py:224-225 | over tshark's own header the payload resolves to column 6 by its exact name |
| Columns.TsharkHeaderResolvesInOrder | extract_forensic_pcap.py:105-113 | the fields requested from tshark resolve to positions 0 to 6, in request order |
| Rows.SplitTable | extract_forensic_pcap.py:199-204 | an empty table has no header and no rows; otherwise the table is the header followed by the data rows |
| Rows.GetAtCell | extract_forensic_pcap.py:248-249 | a cell past the end of a short row reads as ""; a present cell reads as itself with only its whitespace margins removed |
| Rows.GetAt | extract_forensic_pcap.py:248-249 | a cell past the end of the row reads as "", and a present cell reads as no longer than the raw cell |
| Rows.Accepted | extract_forensic_pcap.py:259-274 | a row survives both skips (empty cell, no decoded bytes) exactly when its stripped payload cell holds at least one hexadecimal digit |
| Rows.TruePositionsSound | extract_forensic_pcap.py:242-277 | every listed position is marked as kept |
| Rows.TruePositionsIncreasing | extract_forensic_pcap.py:242-277 | the listed positions strictly increase, so input order is preserved and no row is listed twice |
| Rows.TruePositionsComplete | extract_forensic_pcap.py:242-277 | every position marked as kept is listed |
| Rows.KeptPositionsExact | extract_forensic_pcap.py:242-277 | the kept positions are exactly the accepted data rows, each once, in input order |
| Rows.CollectedExtend | extract_forensic_pcap.py:276-277 | appending one row's index and payload entries keeps both lists matched, entry by entry, to the rows they came from |
| Rows.CollectedPayloadsDecode | extract_forensic_pcap.py:259-277 | entries built from the kept rows hold a non-empty hex cell that decodes to at least one byte, together with the digest of those bytes |
| Rows.CollectRows | extract_forensic_pcap.py:242-277 | the lists have equal length, one entry per kept row, in input order, never more than the data rows; each payload entry pairs a non-empty hex cell, decoding to at least one byte, with the digest of those bytes |
| Rows.DecodeTable | extract_forensic_pcap.py:199-277 | the schema comes from the header row alone; entry k of each list is built, through that schema, from the k-th kept data row, the kept rows being exactly the accepted ones in input order; the lists have equal length, bounded by the row count; each payload entry has a non-empty hex cell decoding to at least one byte, paired with the digest of those bytes |
| Rows.ThreeFrameMarks | extract_forensic_pcap.py:259-274 | of three frames, the first and third are accepted and the payload-less second is not |
| Rows.ThreeFrameCapture | extract_forensic_pcap.py:242-277 | of three frames, only the two with a payload are kept, so the index and payload lists each get two entries |
| Pipeline.FindTshark | extract_forensic_pcap.py:58-75 | a given path is returned as written, else `~`-expanded, when it is a file, else nothing, without consulting PATH or the defaults; otherwise the PATH hit; otherwise the first existing default in list order; nothing exactly when no default exists |
| Pipeline.ExtractionAccepted | extract_forensic_pcap.py:126-127 | exit code 1 (tshark warnings) is tolerated, and any code other than 0 and 1 fails the extraction |
| Pipeline.FilterAccepted | extract_forensic_pcap.py:177-182 | the filter run succeeds only with exit code 0, and never when its output file is missing |
| Pipeline.Preflight | extract_forensic_pcap.py:153-189 | each of the five ways to stop happens exactly under its condition, checked in source order; the run gets to the row pass exactly when the capture exists, tshark is found, filtering exits 0 and leaves its output, and extraction exits 0 or 1 |
| Caesars.Rotate | caesars.py:5-9 | a shifted letter stays a letter of the same case, for every integer shift including negative ones |
| Caesars.NonLetters | caesars.py:10-11 | the kept characters contain no letter |
| Caesars.Cipher | caesars.py:2-12 | the result accumulated over the whole text is never longer than the text; `Caesars.CipherAt` and `Caesars.UnknownModeKeepsNonLetters` give it exactly |
| Caesars.CaesarCipher | caesars.py:1-12 | in a valid mode the output has the input's length, each position keeps its case, and non-letters are copied (for ASCII text; see Left out); in any other mode the output is the input's non-letters in order |
| Caesars.CipherAt | caesars.py:3-11 | in a valid mode, position k of the output is the rotated letter, or the unchanged character, at position k of the input |
| Caesars.CipherAtIndex | caesars.py:3-11 | the same statement for one position |
| Caesars.UnknownModeKeepsNonLetters | caesars.py:6-11 | with an unknown mode the letters are dropped and the other characters kept in order |
| Caesars.ShiftBack | caesars.py:7-9 | undoing a shift modulo 26 restores any offset into the alphabet |
| Caesars.RotateBack | caesars.py:7-9 | rotating back by the same amount restores a letter |
| Caesars.UndoModeAt | caesars.py:7-9 | applying one valid mode and then the other restores every position |
| Caesars.UndoMode | caesars.py:7-9 | applying one valid mode and then the other restores the text |
| Caesars.RoundTrip | caesars.py:7-9 | decrypt undoes encrypt and encrypt undoes decrypt, for every ASCII text and integer shift |
| Caesars.RotatePeriodic | caesars.py:7-9 | rotations that differ by a multiple of 26 agree |
| Caesars.StepPeriodic | caesars.py:4-11 | one character's contribution is the same for shifts that differ by a multiple of 26, in every mode |
| Caesars.ShiftPeriodic | caesars.py:7-9 | shifts s and s + 26k give identical output in every mode |
| Caesars.ZeroShiftIsIdentity | caesars.py:7-9 | shift 0 leaves the text unchanged in both valid modes |

## Left out

- SHA-256 is a function parameter with no properties. `sha256_of_file` (extract_forensic_pcap.py:77-85) is not modelled: it is file I/O around hashlib.
- The tshark subprocesses (extract_forensic_pcap.py:123-125, 173-176) appear only through their exit codes and the existence of the filtered capture.
- `csv.reader` tokenisation and quote handling are not modelled: the row pass takes tokenised rows. The `isinstance(parts, list)` guard (line 244) always holds for csv.reader output and is not modelled.
- `iso_utc_from_epoch` and all mtime conversions (lines 87-92, 297-316) are not modelled: they are floating-point and operating-system time.
- File writes are not modelled: the per-frame `.hex` files (lines 264-270), `index.csv` and `payload.csv` (lines 279-293), and the TSV removal.
- The openpyxl workbooks that are never saved, and the closing summary that refers to undefined names (lines 319-350), are not modelled.
- The module docstring (extract_forensic_pcap.py:8-16) promises JSON decoding, per-frame JSON files and a `manifest.csv`. The code does none of these. `main` fills `manifest_entries` (lines 295-316) but never calls `write_manifest` (lines 131-137), so no manifest is written. The model follows the code.
- `extract_payloads` (lines 41-56) is never called and is not modelled.
- Argument parsing, printing, directory creation and `sys.exit` in `main` are not modelled. `Pipeline.Preflight` records only where a run stops.
- `hex_to_bytes(None)` is not modelled: its only caller passes a string. The empty string is modelled.
- A `None` header entry or cell (lines 206, 249) is not modelled: csv.reader never yields `None`.
- Text.Lower: lower-cases only ASCII letters and keeps the length. Python's `lower()` uses full Unicode case mapping. Two non-ASCII capitals map to text holding an ASCII letter: U+212A (Kelvin sign) becomes 'k', and U+0130 (capital I with dot above) becomes 'i' followed by U+0307 (combining dot above), so the result can be longer than the input. Alias matching is unaffected. No alias contains 'k' or U+0307, so neither mapping can complete an exact match. `data` contains neither 'i' nor 'k', so the payload-name search is unaffected too. But a normalised header name holding non-ASCII capitals differs from Python's.
- Caesars.Rotate: treats only ASCII letters as letters. Python's `isalpha` and `isupper` are Unicode-wide, so non-ASCII letters are outside this model; the model copies them as non-letters.
- The interactive prompt of caesars.py (lines 14-20) is I/O and is not modelled.
- EOQ/lottoeco.py, a tkinter GUI with a floating-point formula and spreadsheet persistence, is not part of this model.
