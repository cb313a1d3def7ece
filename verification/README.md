# Verified models of the attestation verifiers

This project models the hand-written parsers, reassemblers, key-derivation code, appraisal rules and wire protocols
of the attestation verifiers, and proves what they are relied on for. `dafny verify dfyconfig.toml` checks all of it.

The loops of the Python code are Dafny methods with loop invariants, proved equal to specification functions; the
theorems are lemmas about those functions. Parsers get the inverse the repository does not have (an encoder, or for the
printer a parser), and the theorem is that one undoes the other for every value. Hashes, HMACs, signatures, JSON, CBOR,
base64 and UTF-8 are function-valued fields of a parameter. Nothing is assumed of a hash but its output length, so
uniqueness reads "or else here are two inputs that collide"; of a signature only that what was signed verifies; of the
firmware only that a report carries the REPORT_DATA asked for; of a codec only that it decodes what it encoded. A Python exception is `None` (or `Raise`, `Raised`).

| module | about |
|---|---|
| `Octets`, `Decimal`, `Hexadecimal` | bytes, Python slices, fixed-width integers, numerals |
| `DecodeConsole`, `ConsoleSyntax`, `ConsoleChannel`, `ConsoleText`, `ConsoleProbe` | the archive read back from a noisy serial console, and the probe that writes it |
| `CborDiag` | CBOR diagnostic notation |
| `Der`, `Protobuf`, `NitroTpm` | the DER, protobuf and TPM structure decoders |
| `Handshake`, `Binder`, `SnpReport` | TLS record reassembly, the attestation binder, the report that carries it |
| `TripChain`, `TripTrust` | the geographic verifiers and the Relying Party, and what they trust |
| `Sockets`, `FrameStream`, `Exporter` | stream sockets, the enclave's frame stream, the exporter-bound session and its relay |

## What the code does that its documentation does not say

Each of these comes with the exact condition and with an input.

- `extract_first_handshake_msg` and `first_hs_msg` also return a message whose end has not arrived. `StableIffComplete`:
  what is returned survives every continuation of the flight if and only if as many handshake bytes have arrived as the
  message's header announces, which is when it is a whole message. `CutMessageIsReturned` is an input;
  `CutTranscriptsMeet` gives two pairs of flights with different ClientHellos and one transcript. (A capture calls the
  extractor only on flights of finished handshakes.)
- The console format has room for 10000 lines. The writer prints a fifth digit from line 10000 on and the reader takes four;
  `TooManyLines`: an archive announced with more lines is always reported as having missing lines.
- Each stamp is not quite reassembled on its own: one BEGIN line can make `decode` raise and lose every archive on the
  console. `RaisesIffFatal`: it raises if and only if some BEGIN line has no stamp, or announces base64 that does not decode
  while its stamp has no archive yet. `StamplessIsFatal` is an input: a console that opens with a BEGIN line whose `size=`
  comes at once. `ConsoleRoundTrip` says that the probe's own lines are never the fatal ones.
- The length check after reassembly can reject only an archive announced with no lines and a size
  (`LengthCheckRedundant`): once no index is missing the lengths of the lines add up to `size`.
- `diag` drops the fraction of a second of a tag-1 time, rounding toward the epoch. `PrintAlike`: two items print alike if
  and only if they are the same throughout with their times in the same second. `FractionsPrintAlike` is a pair, and so is
  `EpochPrintsAlike`: the seconds before and after the epoch are one second here. Elsewhere times a second or more apart
  print differently (`FarTimesDiffer`).
- `der_seq` puts the word "nested" for an inner SEQUENCE of 128 bytes or more. `DecodeFaithful`: the whole meaning comes
  back if and only if no inner SEQUENCE, at any depth, is that long; `NestedAtTheLimit` shows both sides of the limit.
- The decoders slice without looking at the end of the buffer, so a buffer that ends early can decode to a value cut
  short. `CutPublic`: a public area raises if and only if more than its modulus is missing, and otherwise gives the number
  made of what is left. `CutQuote`: the same for a quote and its digest (extraData and bitmaps can be cut too, but then a
  later field is missing); `CutAzure`: the shorter walk does return a cut extraData, and raises if and only if the buffer
  ends in front of it. `CutMessage`: a message cut inside a field decodes if and only if the cut is in length-delimited
  data. `CutItems`: the elements of a SEQUENCE raise if and only if the cut leaves one byte of one of them, at any depth;
  `CutInteger` is 256 read as 1.
- `pb_decode` shows bytes that are not text as hex. `ShowAlikeUtf8`: two byte strings are shown alike if and only if they
  are equal or one is not text and the other is the ASCII of its hex digits; `HexLooksLikeText` is a pair, and
  `AsciiIsUtf8` shows that what is asked of the text decoding can be met. `DecodeAlike`:
  two messages decode to one table if and only if they send the same contents under each number, up to that and to the
  wire type of numbers.
- The two reports of an exporter session are told apart only by what they hash: a key-binder report passes the exporter
  check if and only if its nonce and key spell out the client's nonce and exporter value, or on a collision
  (`KeyReportPasses`). 64-byte nonces rule the former out for every key encoding that is not 32 bytes long; otherwise
  `KeyReusedRun` is a run in which it happens, for every key encoding of 32 to 96 bytes and a client's nonce chosen to
  match. The check itself looks at the 64 bytes of REPORT_DATA and nothing else (`OnlyReportDataCounts`); the signatures of
  the reports are a separate entry of the client's result.
- `rp` prints a reference as a UUID, so one that is not 16 bytes long raises instead of rejecting. `RaisesIffBroken`: the
  strict policy raises if and only if, within the references it follows, it meets a trusted EAR without a geographic result
  or one that names the result it rests on by other than 16 bytes (`LenientRaisesIffMute` for the lenient one);
  `RaisingStores` are inputs.

## Model

| member | source | states |
|---|---|---|
| `DecodeConsole.Collect` | tools/decode_console.py:20-26 | The nested loops leave in `cand`, for every index, the first line in the stamp's blocks with that index and the right length, and no other key. |
| `DecodeConsole.DecodeOne` | tools/decode_console.py:16-35 | Reassembly of one BEGIN line: the first fitting line of each index joined, with every refusal (missing lines, length, hash, legacy length, undecodable base64) told apart. |
| `DecodeConsole.Decode` | tools/decode_console.py:37-46 | The table over all BEGIN lines of the capture without its timestamps, in order; an archive once found is kept, anything else is overwritten by the next attempt. |
| `DecodeConsole.StripTimestamp` | tools/decode_console.py:39 | A timestamp in front of any text is taken out whole, and nothing else. |
| `DecodeConsole.StripStamped` | tools/decode_console.py:39 | Wherever timestamps are put into text without brackets, removing them gives the text back. |
| `DecodeConsole.SetDefault` | tools/decode_console.py:24-26 | `setdefault` keeps "first fitting line wins" for every index at once. |
| `DecodeConsole.GapsExact` | tools/decode_console.py:27-28 | An index is reported missing exactly when it is below `nlines` and no fitting line carries it. |
| `DecodeConsole.NoGaps` | tools/decode_console.py:27-28 | Nothing is reported missing exactly when every line has been found. |
| `DecodeConsole.JoinedLength` | tools/decode_console.py:25-29 | With no index missing, the first `n` lines have `76 * n` characters and all of them have `size`. |
| `DecodeConsole.LengthCheckRedundant` | tools/decode_console.py:27-30 | The length check rejects exactly the archives of no lines with a non-zero size. |
| `DecodeConsole.ReassemblySound` | tools/decode_console.py:19-32 | Returned data decodes a string of the announced size and hash that joins one candidate per index, each taken from this stamp's blocks. |
| `DecodeConsole.LineIndexBound` | tools/decode_console.py:24-25 | No indexed line carries an index of 10000 or more. |
| `DecodeConsole.TooManyLines` | tools/decode_console.py:24-28 | An archive announced with more than 10000 lines is never reassembled, on any console. |
| `DecodeConsole.FirstArchiveWins` | tools/decode_console.py:41-46 | Where there is a table, the entry of a stamp is the outcome of its first BEGIN line that yields an archive. |
| `DecodeConsole.ArchiveStays` | tools/decode_console.py:43-45 | Where there is a table, no later BEGIN line has replaced an archive already found. |
| `DecodeConsole.TableKeys` | tools/decode_console.py:40-46 | The table, where there is one, has an entry for exactly the stamps announced. |
| `DecodeConsole.RaisesIffFatal` | tools/decode_console.py:42-46 | `decode` raises exactly when some BEGIN line has no stamp, or announces base64 that does not decode while its stamp has no archive yet. |
| `DecodeConsole.Whitespace` | tools/decode_console.py:43 | The characters `split()` splits at. |
| `ConsoleSyntax.MatchIff` | tools/decode_console.py:24 | An indexed line is found exactly at `@@`, four digits, a blank and base64 that nothing extends. |
| `ConsoleSyntax.TimestampIff` | tools/decode_console.py:39 | A timestamp is found exactly at a bracketed date and time. |
| `ConsoleSyntax.NumberedIff` | tools/decode_console.py:40 | A number is read exactly behind its word, as a run of digits that nothing extends. |
| `ConsoleSyntax.FindSizeIff` | tools/decode_console.py:40 | The words of a BEGIN line end at the first `size=` that a digit follows, on the same line. |
| `ConsoleSyntax.IndexedIff` | tools/decode_console.py:40 | The optional part is taken exactly where all of it stands. |
| `ConsoleSyntax.HeadIff` | tools/decode_console.py:40 | A BEGIN line is found exactly where the marker, its words, its size and the whole optional part or none of it stand. |
| `ConsoleSyntax.FirstWordIff` | tools/decode_console.py:43 | The stamp is the first run of characters that are not white space; without one there is none. |
| `ConsoleSyntax.BlockOpens` | tools/decode_console.py:22-23 | At a BEGIN line of the stamp a block opens, and reading goes on behind that line. |
| `ConsoleSyntax.NoBlockOpens` | tools/decode_console.py:22 | Anywhere else none does. |
| `ConsoleSyntax.BeforeIff` | tools/decode_console.py:23 | A block ends in front of the first END, or with the text. |
| `ConsoleChannel.FoldShape` | aws-vlek/probe-dual.sh:101 | Each line of `fold -w 76` has the length the reader expects at its index, is not empty and stays base64. |
| `ConsoleChannel.FoldedLengths` | aws-vlek/probe-dual.sh:101 | Every line has 76 characters but the last, which has the remaining 1 to 76. |
| `ConsoleChannel.FoldUnfolds` | aws-vlek/probe-dual.sh:101 | The folded lines joined are the payload. |
| `ConsoleChannel.LineRead` | aws-vlek/probe-dual.sh:101 | A written line with an index below 10000 is scanned as that index and that chunk, whatever follows it. |
| `ConsoleChannel.LinesSplit` | tools/decode_console.py:24 | No match runs from other text into an indexed line: scanning splits at every `@@`. |
| `ConsoleChannel.NoisyScan` | tools/decode_console.py:24-26 | A block of lines with noise between, before and after them scans to the noise's own matches and the lines, in order. |
| `ConsoleChannel.NoisyRoundTrip` | tools/decode_console.py:16-32 | Under an intact header, if for each index the first right-length line is the true one, exactly the archive comes back, whatever else stands on the console. |
| `ConsoleChannel.OnlyTheArchive` | tools/decode_console.py:27-32 | Conversely, anything returned under an intact header is the archive and each first right-length line was the true one, or a second string with the announced SHA-256 is exhibited. |
| `ConsoleChannel.CoveredIsFaithful` | tools/decode_console.py:22-26 | If each line survives in some copy and no stray text has the length of the line it imitates, every right-length candidate is true and every line has one. |
| `ConsoleChannel.FaithfulIsFirst` | tools/decode_console.py:24-26 | Then the first right-length candidate of each index is the true line. |
| `ConsoleChannel.NoisyBlocksRoundTrip` | tools/decode_console.py:16-32 | So copies cut up and written over by others still give back the archive. |
| `ConsoleChannel.LinesAreJoined` | tools/decode_console.py:20-32 | Any lines of 76 characters closed by one of 1 to 76, each the first of its length under its index, are joined in order and decoded under their total length, number and hash. |
| `ConsoleChannel.OtherLengthsIgnored` | tools/decode_console.py:25-26 | Candidates of any other length than 76, or the rest for the last line, play no part in the outcome. |
| `ConsoleChannel.Alphabet` | tools/decode_console.py:24 | The base64 alphabet of the scanners, letter by letter. |
| `ConsoleChannel.SingleLine` | tools/decode_console.py:33-35 | In the format without a hash the payload is decoded exactly when as many base64 characters as announced stand before END, whatever stands between them. |
| `ConsoleText.HeaderRead` | aws-vlek/probe-dual.sh:106 | The printed BEGIN line is read as the stamp, size, hash and number of lines it announces. |
| `ConsoleText.HeadsSplit` | tools/decode_console.py:40 | BEGIN lines are found line by line: the matches in whole lines followed by anything are those of each part. |
| `ConsoleText.ConsoleBlocks` | tools/decode_console.py:22-23 | On a console shared with other writers and other stamps, the blocks of a stamp are the texts behind each of its headers up to the next END, wherever that stands, in order. |
| `ConsoleText.ConsoleHeads` | tools/decode_console.py:40 | Every BEGIN line read for the stamp on such a console announces the true size, hash and number of lines, and there is one. |
| `ConsoleText.ConsoleRoundTrip` | tools/decode_console.py:37-46 | End to end, from the raw capture: with the headers intact and each line intact in at least one block, END lines lost or not, the archive is the table entry of its stamp; the one exception is a fatal BEGIN line of another stamp or of none, and then there is no table at all. |
| `ConsoleText.StamplessIsFatal` | tools/decode_console.py:43 | A BEGIN line without a stamp is an ordinary line to every stamp, and a console that opens with it has no table. |
| `ConsoleProbe.PrintedIsConsole` | aws-vlek/probe-dual.sh:105-108 | What the probe's loop prints is such a console: a blank line, a header, the indexed lines and END per copy. |
| `ConsoleProbe.NoDash` | tools/decode_console.py:22-23 | Text without a dash holds neither marker, so the probe's lines open and close no block. |
| `ConsoleProbe.BlocksWritten` | aws-vlek/probe-dual.sh:105-107 | Behind each printed header the block is exactly the probe's lines. |
| `ConsoleProbe.CleanCovers` | aws-vlek/probe-dual.sh:101-107 | Such blocks are copies in which every line survives. |
| `ConsoleProbe.PrintedHeads` | aws-vlek/probe-dual.sh:105-107 | The only BEGIN lines read from the probe's output are its own. |
| `ConsoleProbe.ProbeRoundTrip` | tools/decode_console.py:37-46 | The probe's output, any number of copies of any archive of up to 10000 lines with any timestamps put in, decodes to a table with the archive under its stamp and nothing else. |
| `CborDiag.EscapeStep` | cbor_diag.py:22 | The two successive replacements escape each backslash and quote once, independently of their neighbours. |
| `CborDiag.CharsRoundTrip` | cbor_diag.py:22 | Reading the escaped text up to its closing quote gives the string back. |
| `CborDiag.HexRoundTrip` | cbor_diag.py:21 | Byte strings come back from their hex form. |
| `CborDiag.IntRoundTrip` | cbor_diag.py:19 | Integers of any size and sign come back from their numerals. |
| `CborDiag.NotSign1` | cbor_diag.py:9-15 | No item's text opens with a bracket and a line break, so a plain tag 18 is never read as a COSE_Sign1. |
| `CborDiag.ListRoundTrip` | cbor_diag.py:23 | Arrays of any length come back element by element, in order. |
| `CborDiag.EntriesRoundTrip` | cbor_diag.py:24-26 | Maps come back entry by entry, in order, at every indentation. |
| `CborDiag.Sign1RoundTrip` | cbor_diag.py:9-13 | A COSE_Sign1 gives back its protected header, unprotected header, payload and signature. |
| `CborDiag.RoundTrip` | cbor_diag.py:6-26 | Every item's text, at every indentation and in every context that can follow it, is read as that item, times cut to their second, and nothing of the context. |
| `CborDiag.DiagRoundTrip` | cbor_diag.py:6-26 | The whole text of an item parses back to it, times cut to their second. |
| `CborDiag.ReadBackAlike` | cbor_diag.py:6-26 | What is read back is the same throughout with its times in the same second, and the item itself where no time has a fraction. |
| `CborDiag.PrintAlike` | cbor_diag.py:6-26 | Two items print alike exactly when they are the same throughout with their times in the same second. |
| `CborDiag.TimeText` | cbor_diag.py:14-16 | The second printed for any number of seconds and any fraction, on both sides of the epoch. |
| `CborDiag.FarTimesDiffer` | cbor_diag.py:14-16 | Times a second or more apart print differently, unless both lie within a second of the epoch. |
| `CborDiag.EpochPrintsAlike` | cbor_diag.py:14-16 | There two times 1.8 seconds apart print alike. |
| `CborDiag.EntryLayout` | cbor_diag.py:25 | An entry stands two blanks deeper than its map, its value one level deeper, its key at none. |
| `CborDiag.Layout` | cbor_diag.py:23-26 | Arrays are joined by ", " on one line, maps by line breaks, one entry to a line, with the closing brace at the map's own level. |
| `CborDiag.Sign1Layout` | cbor_diag.py:10-13 | The four labelled lines of a COSE_Sign1 and their indentation. |
| `CborDiag.FractionsPrintAlike` | cbor_diag.py:14 | Two different times with one text. |
| `Der.DerSeq` | gcp-cvm/gcp_verify.py:119-130 | The loop with its recursive call ends on every buffer, inner bodies strictly shrinking, and returns the recursive meaning of the buffer or raises where that is undefined. |
| `Der.DerValue` | gcp-cvm/gcp_verify.py:125-129 | What one element becomes, long inner sequences included. |
| `Der.TlvShift` | gcp-cvm/gcp_verify.py:114-117 | Reading an element in the middle of a buffer is reading it at the front of the rest. |
| `Der.SignedRoundTrip` | gcp-cvm/gcp_verify.py:126 | INTEGERs of any size and sign come back from their shortest two's-complement bytes (section 8.3 of ITU-T X.690). |
| `Der.SignedMinimal` | gcp-cvm/gcp_verify.py:126 | Those bytes are the shortest: the first nine bits are never all alike. |
| `Der.TaggedRead` | gcp-cvm/gcp_verify.py:114-117 | An encoded element, short or long length form, is read back as its tag and body, and the cursor lands behind it. |
| `Der.RewrapIdentical` | gcp-cvm/gcp_verify.py:128 | The rewrapped inner sequence is byte for byte the original encoding. |
| `Der.ItemsRoundTrip` | gcp-cvm/gcp_verify.py:122-130 | The elements of a body are decoded all and in order. |
| `Der.ElemRoundTrip` | gcp-cvm/gcp_verify.py:124-129 | Each kind of element decodes to its value. |
| `Der.TagMeaning` | gcp-cvm/gcp_verify.py:124-129 | The value of any body under each tag, whoever encoded it. |
| `Der.NoLengthBytes` | gcp-cvm/gcp_verify.py:116 | The length byte 0x80 is read as an empty body. |
| `Der.SequenceRoundTrip` | gcp-cvm/gcp_verify.py:119-130 | Every encoded SEQUENCE decodes to its values in order, with the word for long inner ones. |
| `Der.FaithfulIffShort` | gcp-cvm/gcp_verify.py:128 | Nothing is replaced by that word exactly when every inner sequence, at any depth, has a body under 128 bytes. |
| `Der.DecodeFaithful` | gcp-cvm/gcp_verify.py:119-130 | Decoding returns the full meaning of a SEQUENCE exactly under that condition. |
| `Der.NestedAtTheLimit` | gcp-cvm/gcp_verify.py:128 | An inner SEQUENCE of 127 bytes comes back as a list, one of 128 as the word. |
| `Der.CutTlv` | gcp-cvm/gcp_verify.py:114-117 | An element cut anywhere behind its first byte is read with what is left of its body. |
| `Der.CutItems` | gcp-cvm/gcp_verify.py:122-130 | Elements that end early raise exactly when the cut leaves one byte of one of them, at any depth. |
| `Der.CutInteger` | gcp-cvm/gcp_verify.py:114-130 | The INTEGER 256 without its last byte is read as 1. |
| `Protobuf.ReadVarint` | gcp-cvm/gcp_verify.py:96-100 | The shifting loop reads the base-128 number and moves the cursor behind it, or raises at the end of the buffer. |
| `Protobuf.ReadValue` | gcp-cvm/gcp_verify.py:103-109 | The value of each wire type, with the cursor behind it. |
| `Protobuf.PbDecode` | gcp-cvm/gcp_verify.py:93-112 | The table groups the field list of the buffer by number, up to the first unknown wire type, or raises. |
| `Protobuf.VarintRoundTrip` | gcp-cvm/gcp_verify.py:96-100 | Every natural number comes back from its varint, whatever follows. |
| `Protobuf.VarintReads` | gcp-cvm/gcp_verify.py:96-100 | Every varint, padded or not, is read as the digits to base 128 that it carries. |
| `Protobuf.VarintIsGroups` | gcp-cvm/gcp_verify.py:96-100 | Every number read comes from such digits at the front of the buffer. |
| `Protobuf.PayloadRoundTrip` | gcp-cvm/gcp_verify.py:103-109 | The value of each of the four wire types comes back, and only its bytes are consumed. |
| `Protobuf.FieldsBefore` | gcp-cvm/gcp_verify.py:101-112 | Encoded fields come back in order, and what follows them is decoded as it would be alone. |
| `Protobuf.FieldsRoundTrip` | gcp-cvm/gcp_verify.py:101-112 | An encoded field list is consumed to the end and comes back in order. |
| `Protobuf.CutMessage` | gcp-cvm/gcp_verify.py:96-112 | A message that ends inside a field raises exactly when the cut comes before length-delimited data; inside such data, what is left is returned. |
| `Protobuf.UnknownStops` | gcp-cvm/gcp_verify.py:110 | From the first field of another wire type on, everything is ignored. |
| `Protobuf.GroupedAfter` | gcp-cvm/gcp_verify.py:111 | Grouping appends to each number exactly its own values, in order, and creates no other key. |
| `Protobuf.DecodeRoundTrip` | gcp-cvm/gcp_verify.py:93-112 | No value is lost, duplicated or moved to another field. |
| `Protobuf.ShowAlike` | gcp-cvm/gcp_verify.py:106-107 | When two byte strings are shown alike, for every one-to-one text decoding. |
| `Protobuf.ShowAlikeUtf8` | gcp-cvm/gcp_verify.py:106-107 | For UTF-8: exactly equal bytes, and bytes that are not text with the ASCII of their own hex digits. |
| `Protobuf.HexLooksLikeText` | gcp-cvm/gcp_verify.py:106-107 | The byte 0x80 and the bytes of "80" give one value and one table. |
| `Protobuf.DecodeAlike` | gcp-cvm/gcp_verify.py:93-112 | Two messages decode to one table exactly when each number carries the same contents in order, up to such bytes and the wire type of numbers. |
| `NitroTpm.Tpm2bPublicRsa` | aws-nitro/nitrotpm_verify.py:14-23 | The cursor walk over a TPM2B_PUBLIC equals field-by-field parsing: it raises exactly where a number is cut off or the type is not RSA, and slices are cut short at the end of the buffer. |
| `NitroTpm.ReadParameters` | aws-nitro/nitrotpm_verify.py:18-23 | The same for the algorithms, the exponent and the modulus. |
| `NitroTpm.PublicRead` | aws-nitro/nitrotpm_verify.py:14-23 | Behind any header the modulus is what follows, as many bytes as announced or all there are. |
| `NitroTpm.PublicRoundTrip` | aws-nitro/nitrotpm_verify.py:14-23 | Every RSA public area, any policy, optional algorithms and modulus length, gives back its modulus and its exponent, 0 as 65537 (clause 12.2 of TPM 2.0 Library Part 2). |
| `NitroTpm.CutPublic` | aws-nitro/nitrotpm_verify.py:14-23 | A public area that ends early raises exactly when more than its modulus is missing; otherwise the number made of what is left is returned. |
| `NitroTpm.QuoteWalk` | aws-nitro/nitrotpm_verify.py:56-61 | The cursor walk over a TPMS_ATTEST equals field-by-field parsing. |
| `NitroTpm.ReadSelections` | aws-nitro/nitrotpm_verify.py:58-61 | The same from the selection count to the digest. |
| `NitroTpm.SelectionLoop` | aws-nitro/nitrotpm_verify.py:58-60 | The loop collects the announced number of PCR selections in order and stops behind the last, or raises. |
| `NitroTpm.SelectionsRoundTrip` | aws-nitro/nitrotpm_verify.py:59-60 | Any number of PCR selections comes back in order. |
| `NitroTpm.QuoteRoundTrip` | aws-nitro/nitrotpm_verify.py:56-61 | Every quote gives back extraData, selections and digest (clause 10.12 of TPM 2.0 Library Part 2), and the shorter walk the same extraData. |
| `NitroTpm.CutQuote` | aws-nitro/nitrotpm_verify.py:56-61 | A quote that ends early raises exactly when more than its digest is missing; otherwise what is left of the digest is returned. |
| `NitroTpm.CutAzure` | azure-cvm/azure_verify.py:84 | On any prefix of a quote the shorter walk returns what is left of extraData, and raises exactly when the prefix ends in front of it. |
| `NitroTpm.WalksAgree` | azure-cvm/azure_verify.py:84 | On every message the longer walk can read, the shorter one sees the same extraData, provided the magic is right. |
| `Handshake.ExtractFirstHandshakeMsg` | early-attestation/handshake.py:36-48 | The loop concatenates the type-22 fragments of the flight, the last perhaps cut, and returns the first message if it has the wanted type. |
| `Handshake.FirstHsMsg` | early-attestation/handshake_stdlib.py:29-34 | The guest's version returns the same on every input. |
| `Handshake.WireRead` | early-attestation/handshake.py:38-43 | The handshake bytes of any records on the wire are the payloads of the type-22 ones, in order, and then those of what follows. |
| `Handshake.FragmentationIndependence` | early-attestation/handshake.py:36-48 | However a message is cut into records, whatever other records lie between and whatever follows, it is extracted exactly (sections 4 and 5.1 of RFC 8446). |
| `Handshake.HandshakeBytesGrow` | early-attestation/handshake.py:38-43 | Appending to a flight, even after a truncated record, only appends to its handshake bytes. |
| `Handshake.HandshakeBytesCanGrow` | early-attestation/handshake.py:38-43 | From every flight some continuation brings another handshake byte. |
| `Handshake.MessageIffArrived` | early-attestation/handshake.py:44-48 | What is extracted is a whole message exactly when the handshake bytes reach the end its header announces. |
| `Handshake.StableIffComplete` | early-attestation/handshake.py:44-48 | The extracted bytes survive every continuation exactly under that condition. |
| `Handshake.CutMessageIsReturned` | early-attestation/handshake.py:44-48 | A flight cut inside its ClientHello is answered with the part that has arrived. |
| `Handshake.TranscriptOfRecords` | early-attestation/handshake.py:79-82 | The captured transcript is ClientHello then ServerHello, however each peer fragments its flight. |
| `Handshake.TranscriptUnique` | early-attestation/handshake.py:82 | A transcript that starts with a whole ClientHello splits in one way only. |
| `Handshake.CutTranscriptsMeet` | early-attestation/handshake.py:79-82 | Two pairs of flights, one with its ClientHello cut elsewhere, have different hellos and one transcript. |
| `Binder.HkdfExpand` | early-attestation/binder.py:22-30 | The loop returns the first `length` bytes of T(1), T(2), ... of section 2.3 of RFC 5869, exactly for lengths up to 255 blocks. |
| `Binder.StdlibHkdfExpand` | early-attestation/handshake_stdlib.py:13-17 | The guest's loop returns the same. |
| `Binder.ExpandPrefix` | early-attestation/binder.py:22-30 | A shorter output is a prefix of every longer one for the same key and info. |
| `Binder.LabelUnique` | early-attestation/binder.py:32-37 | An encoded HkdfLabel determines its length, label and context (section 7.1 of RFC 8446). |
| `Binder.LabelBytes` | early-attestation/binder.py:34-36 | The two HkdfLabels byte for byte. |
| `Binder.HkdfExpandLabel` | early-attestation/binder.py:32-37 | The label assembled and expanded by the loop is HKDF-Expand-Label, or raises where a length field overflows. |
| `Binder.StdlibHkdfExpandLabel` | early-attestation/handshake_stdlib.py:19-22 | The guest's own label and loop give the same. |
| `Binder.DeriveBase` | early-attestation/binder.py:42-45 | The verifier's base, through its own loop, is the labelled expansion of the transcript hash. |
| `Binder.DeriveServerBinder` | early-attestation/binder.py:47-51 | The verifier's binder, through its own loop, always exists and has the hash's length. |
| `Binder.StdlibServerBinder` | early-attestation/handshake_stdlib.py:24-27 | The guest's binder, through the guest's own label code and loop, equals the verifier's on all inputs. |
| `Binder.IntoReportData` | early-attestation/binder.py:59-61 | The embedding exists exactly for binders of up to 64 bytes, has 64 bytes and starts with the binder. |
| `Binder.BinderIsTwoMacs` | early-attestation/binder.py:42-51 | The binder always exists and is one HMAC under another, over the labelled hashes of transcript and key. |
| `Binder.Compare` | early-attestation/binder.py:42-61 | From two computations with equal REPORT_DATA it returns an explicit hash or HMAC collision, or the transcripts and keys are equal. |
| `Binder.BinderUnique` | early-attestation/binder.py:47-61 | Equal REPORT_DATA means equal ClientHello, ServerHello and server key, or an explicit collision. |
| `Binder.CaptureUnique` | early-attestation/handshake.py:79-82 | The same from the captured flights on, for whole ClientHellos. |
| `SnpReport.WrittenSlices` | early-attestation/poc_mock.py:34-40 | A slice assignment fills its field and leaves every disjoint slice as it was. |
| `SnpReport.Put` | early-attestation/poc_mock.py:34-40 | Writing byte by byte into the array has the effect of the slice assignment. |
| `SnpReport.MockChip.constructor` | early-attestation/poc_mock.py:21-24 | A chip keeps the key and chip id it was made with. |
| `SnpReport.MockChip.SignReport` | early-attestation/poc_mock.py:31-41 | The report built in place carries every field where the layout puts it, a signature over its first 0x2A0 bytes, and zeros elsewhere; it is refused exactly for REPORT_DATA that is not 64 bytes. |
| `SnpReport.BodyFields` | early-attestation/poc_mock.py:33-36 | The three field writes do not disturb each other. |
| `SnpReport.SignatureFields` | early-attestation/poc_mock.py:37-40 | Writing the signature changes none of the signed bytes. |
| `SnpReport.IssuedSigned` | early-attestation/verify.py:25-32 | The signature of every issued report verifies after the little-endian round trip of its halves. |
| `SnpReport.ParsedFields` | early-attestation/verify.py:17-23 | The four fields read from a report, each at its offsets. |
| `SnpReport.VerifyAgrees` | early-attestation/verify.py:34-45 | An issued report is accepted exactly when its REPORT_DATA is the recomputed binder, and the chip id reported is the signer's, whichever chip that is. |
| `SnpReport.VerifyExact` | early-attestation/verify.py:17-45 | For any report long enough for its fields and any key: accepted exactly when REPORT_DATA is the recomputed binder and the signature in the report verifies over its first 0x2A0 bytes. |
| `SnpReport.ForgedSignatureRefused` | early-attestation/verify.py:25-32 | An issued report whose signature is overwritten by one that does not verify is refused, right binder or not. |
| `SnpReport.RelayedReport` | early-attestation/verify.py:34-45 | A report bound to one handshake and accepted in another: same hellos and key, or an explicit collision. |
| `TripChain.AcceptGivesChain` | trip_chain.py:115-129 | Strict ACCEPT yields the chain of references it rests on. |
| `TripChain.ChainGivesAccept` | trip_chain.py:115-129 | Such a chain, short enough for the depth, yields strict ACCEPT. |
| `TripChain.AcceptIffChain` | trip_chain.py:115-129 | Strict ACCEPT exactly when at most five references (fewer at greater depth) lead through trusted EU results to one resting on evidence or an endorsement. |
| `TripChain.RaisesIffBroken` | trip_chain.py:115-128 | The strict policy raises exactly when, within the references it may follow, it meets a trusted EAR without a geographic result or one whose reference is not 16 bytes long and has to be printed. |
| `TripChain.LenientRaisesIffMute` | trip_chain.py:116-120 | The lenient policy raises exactly on a trusted EAR without a geographic result. |
| `TripChain.RaisingStores` | trip_chain.py:115-128 | Inputs of each kind: a one-byte reference that resolves, one that does not, and an EAR without a result. |
| `TripChain.CellsByCountry` | trip_chain.py:82-83 | The `found` dictionary has a key for exactly the countries of the cells, each with its cells in order. |
| `TripChain.WalkForever` | trip_chain.py:122-128 | A walk along references that repeats itself never ends. |
| `TripChain.CycleNeverAccepted` | trip_chain.py:115-129 | No EAR whose walk enters a cycle of the store is strictly accepted, at any depth. |
| `TripChain.AcceptMonotone` | trip_chain.py:38-42 | Smaller depth, more anchors and more store entries never turn strict ACCEPT into anything else. |
| `TripChain.LenientIffSound` | trip_chain.py:116-120 | Lenient ACCEPT exactly for trusted results about an EU country. |
| `TripChain.LenientAccepts` | trip_chain.py:119-121 | Whatever the strict policy accepts the lenient one does, under more anchors, any store and any depth. |
| `TripChain.VerifierA` | trip_chain.py:75-89 | A result is emitted exactly when all signatures verify, there are 64 crumbs, neighbours lie 900 seconds apart and all cells resolve to one country; each refusal has its own exact condition. |
| `TripChain.WindowSpread` | trip_chain.py:81 | Any two crumbs of such a window lie at least 900 seconds a step apart. |
| `TripChain.WindowIsSpan` | trip_chain.py:88 | The observation window emitted is the minimum and maximum of the timestamps. |
| `TripChain.SignedOpens` | trip_chain.py:34-46 | A result signed into an EAR opens again under an anchor for its signer. |
| `TripTrust.OpensIffVerified` | trip_chain.py:38-42 | A message opens exactly when it decodes and its signature verifies under the anchor of its own key identifier. |
| `TripTrust.FirstGeoIs` | trip_chain.py:46 | The result taken is the first among the submodules. |
| `TripTrust.UnverifiedRejected` | trip_chain.py:116-117 | Whatever does not verify is rejected, under both policies, at every depth and whatever the store holds. |
| `TripTrust.ForgeryRejected` | trip_chain.py:105 | A result signed with another key is rejected, under the identifier of a trusted signer or of its own. |
| `TripTrust.SignedShape` | trip_chain.py:34-37 | What a signed message carries: the algorithm, the key identifier, the payload and the signature. |
| `TripTrust.VerifiedVerdicts` | trip_chain.py:118-119 | A verified message without a geographic result raises, and one about a country other than the twenty-seven is rejected. |
| `TripTrust.LenientIffShown` | trip_chain.py:116-120 | Lenient ACCEPT exactly when the message verifies and its first geographic result names one of the twenty-seven. |
| `TripTrust.AcceptIffTrail` | trip_chain.py:115-129 | Strict ACCEPT in terms of signatures and claims alone: a trail of verified results about member states, each resting with basis 2 on the next, at most five references long, that ends at basis 0 or 1. |
| `TripTrust.DerivesFromShown` | trip_chain.py:96-103 | Verifier B answers exactly messages that verify under A's key and show a country and a uuid; what it derives keeps country and window, refers to A's result if asked to, and opens under B's key. |
| `TripTrust.UnverifiedNotUsed` | trip_chain.py:97 | Nothing that fails to verify under A's key reaches B's result. |
| `TripChain.PipelineAccepts` | trip_chain.py:90-129 | A's EAR and the EAR B derives from it are strictly accepted; B keeps country and window and refers to A's result; without the reference B's is strictly rejected and leniently accepted. |
| `Sockets.Socket.RecvExact` | tools/exporter_client.py:24-27 | Exactly `n` bytes in order, however the stream is chunked, and nothing read past them. |
| `Sockets.Socket.RecvCounted` | tools/exporter_client.py:32 | A length and then that many bytes, whatever the chunks. |
| `Sockets.CountedRoundTrip` | tools/exporter_client.py:32 | A length-prefixed field comes back, and what follows it is left. |
| `FrameStream.Listener.Listen` | aws-nitro/runs/i-0b2d907210e5f2906/20260911T164844Z/listener.py:5-14 | Under every chunking the listener files and lists the frames of the byte stream in order, stops at "done" or, with an error entry, at a name it cannot decode or write, and leaves the rest unread. |
| `FrameStream.FrameRead` | aws-nitro/probe-nitro.sh:45-46 | A sent frame is read back as its name and data. |
| `FrameStream.HearWire` | aws-nitro/probe-nitro.sh:45-57 | Any list of frames whose names fit a byte, can be written by the listener and are not "done" is heard in order, and nothing beyond the final frame is read. |
| `FrameStream.StoredLast` | aws-nitro/runs/i-0b2d907210e5f2906/20260911T164844Z/listener.py:13 | Each name holds the data of the last frame sent under it. |
| `Exporter.ReadLine` | gcp-cvm/runs/rats-snp-us-central1-b-exporter2/20260911T175745Z/server.py:26-27 | Byte by byte the loop takes the stream up to and with its first newline, at most the limit, and leaves the rest. |
| `Exporter.NonceLineParses` | tools/exporter_client.py:32 | Every nonce comes back from its hex line. |
| `Exporter.NonceLineRead` | tools/exporter_client.py:32 | A nonce line that fits the limit is taken whole, whatever follows it. |
| `Exporter.PiecesParse` | gcp-cvm/runs/rats-snp-us-central1-b-exporter2/20260911T175745Z/server.py:28 | A line of blanks and pairs of hex digits of either case is read as the bytes its pairs spell. |
| `Exporter.ParsedIsPieces` | gcp-cvm/runs/rats-snp-us-central1-b-exporter2/20260911T175745Z/server.py:28 | No other line is read. |
| `Exporter.Guest.Serve` | gcp-cvm/runs/rats-snp-us-central1-b-exporter2/20260911T175745Z/server.py:24-40 | One session adds one record, with the answer to the line it read, and sends that answer or nothing. |
| `Exporter.Guest.Respond` | gcp-cvm/runs/rats-snp-us-central1-b-exporter2/20260911T175745Z/server.py:28-35 | From the line on: the two reports, the signature and the framed blob, or, on a bad line, a firmware error or a blob too long to frame, a failed record and nothing sent. |
| `Exporter.Exchange` | tools/exporter_client.py:31-32 | The client sends its nonce line and parses the counted blob that comes back. |
| `Exporter.Relay` | tools/exporter_client.py:64-68 | The line goes up and the framed blob comes down byte for byte, and nothing more is read from the guest. |
| `Exporter.NonceReachesGuest` | gcp-cvm/runs/rats-snp-us-central1-b-exporter2/20260911T175745Z/server.py:26-34 | A 64-byte nonce arrives, directly or forwarded by the relay, and, if the firmware answers and the blob can be framed, it parses back to the guest's reply. |
| `Exporter.DirectSessionAccepted` | tools/exporter_client.py:45-48 | A direct session that the firmware answers passes both checks. |
| `Exporter.RelayedSession` | tools/exporter_client.py:45-48 | Through a relay that holds the guest's key the key check passes, the exporter check only on equal exporter values or a collision. |
| `Exporter.OnlyReportDataCounts` | tools/exporter_client.py:47 | For any blob, whoever made its report and whatever surrounds REPORT_DATA, acceptance is equality of those 64 bytes with the hash. |
| `Exporter.KeyCheckExact` | tools/exporter_client.py:45-46 | For any blob the key check accepts exactly when REPORT_DATA of the key report hashes the nonce and the key in the blob, that key signed the nonce, and it is the TLS peer's. |
| `Exporter.OtherPeerRefused` | tools/exporter_client.py:45-46 | The guest's reply on a session whose peer shows another key is refused. |
| `Exporter.KeyReportPasses` | tools/exporter_client.py:47 | The exact condition under which a key-binder report passes the exporter check. |
| `Exporter.KeyReportIsNotExporterReport` | tools/exporter_client.py:47 | With 64-byte nonces and a key encoding that is not 32 bytes long it never does, short of a collision. |
| `Exporter.StepKeepsInv` | gcp-cvm/runs/rats-snp-us-central1-b-exporter2/20260911T175745Z/server.py:21-40 | Every step of guest or client keeps: each report a client holds was issued in a session served by then. |
| `Exporter.RunKeepsInv` | gcp-cvm/runs/rats-snp-us-central1-b-exporter2/20260911T175745Z/server.py:21-40 | So it holds in every state of every run. |
| `Exporter.ExporterBinding` | tools/exporter_client.py:47-48 | Over every run in which the reports that reach clients are the guest's: an accepted exporter report was issued in a session with the client's nonce and exporter value, or a SHA-512 collision is exhibited, or a key report was reused under the condition of `KeyReportPasses`. |
| `Exporter.KeyBinding` | tools/exporter_client.py:45-46 | Over every run in which the reports that reach clients are the guest's: an accepted key report was issued in a session with the client's nonce and the key the TLS peer holds, or a SHA-512 collision is exhibited, or the session hashed the same bytes from other parts, which 64-byte nonces and a peer key encoding that is not 32 bytes rule out. |
| `Exporter.KeyReusedRun` | tools/exporter_client.py:47-48 | A run with that third outcome: the guest is sent a nonce that its key fills up to 96 bytes (64 bytes long for a 32-byte key encoding, shorter for others), and a client that no session matches, with a nonce chosen for it, accepts the key report. |

## Left out

- Tar extraction, `main` and the reason strings of `decode_console.py`.
- Python's `\d` also matches decimal digits outside ASCII; the scanners take ASCII digits only.
- ConsoleText.ConsoleRoundTrip: takes the probe's headers as intact and at the start of a line; a header torn apart is
  other text here.
- CborDiag.RoundTrip: says nothing of floats, `undefined`, simple values and tag 1 over something that is not a time, whose
  text is the library's `repr`; `CborDiag.Item` has no constructor for them. The byte strings embedded in a COSE_Sign1 are
  items already decoded, and `timestamp()` is taken as exact.
- CborDiag.DiagRoundTrip: the same items are missing.
- CborDiag.PrintAlike: the same items are missing.
- The order in which the protobuf table lists its field numbers.
- Connections that end early: every receive loop is given a stream that holds the bytes it waits for. Timeouts, TLS
  handshakes and shutdown are not modelled.
- FrameStream.Listener.Listen: opening and writing a file fail or succeed as one step, by its name alone; the text of the
  error entry is left out.
- Exporter.KeyBinding: takes the two reports of every blob as the guest's, like `ExporterBinding`.
- Exporter.ExporterBinding: takes the two reports of every blob as the guest's. The source's `client_accepts` passes any
  report with the right REPORT_DATA; whether the reports are signed by a genuine chip is a separate entry of its result.
- Exporter.KeyReusedRun: takes the client's nonce as free, where the source hashes a sentence; whether a sentence has a
  given SHA-512 is not decided here.
- RSAES with a scheme but no hash, outside the layout `tpm2b_public_rsa` documents.
- SnpReport.MockChip.constructor: the generated key and the random chip id are parameters.
- REPORT_ID and ECDSA randomness are parameters of `SignReport`; the certificate stand-in and the attack script around
  `MockChip` are not modelled, nor is the driving of the handshake through `ssl.MemoryBIO`.
- The client's own binder (`client_binder`), which differs from `server_binder` in no step.
- Report fields parsed on their own, such as `measurement`, the VCEK chain, and the `exporters_equal` note of the client.
- The relay's own exporter values, which it only prints; TLS itself, whose exporter values are inputs of each session.
- The files in which the guest keeps its reports.
- Hex decoding of the device key and the crumb signatures, sequence numbers in Verifier A's refusals, the country's
  name, non-integer `basis` values, and the geometry behind `country_of_cell`.
- The source's division into functions, in places: seven methods (`DerValue`, `ReadValue`, `ReadParameters`,
  `ReadSelections`, `SelectionLoop`, `CellsByCountry`, `Respond`) are each a part of one source function, split off so that
  every loop and branch has its own contract, and `ReadLine` is the guest's loop and the relay's, which differ in the limit.
- X.509, JWT, TDX, TCB comparison, KDS access, caches and ledgers, summaries and printing.
