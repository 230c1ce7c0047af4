# A verified model of a small BitTorrent-like system

The system shares files between peers. A tool turns files into JSON metainfo with one SHA-1
hash per piece. A tracker keeps, per torrent, the peers that announced themselves, and
answers announces with Bencoded replies over HTTP. A peer keeps a torrent's files as one flat
byte stream with a bitfield of verified pieces, serves pieces to others over length-prefixed
JSON messages, and downloads what it misses. A worker runs one torrent from its first announce
to its last.

This project models that system in Dafny and proves what its parts promise, one at a time and
together. Each component has a pure specification, written branch by branch after the source;
where the source changes state step by step there is also a class or a method with the same
loops and fields, proved equal to the specification. What the source promises is then
proved about the specification.

## How the files fit together

- `Wrappers`, `ByteStrings`, `Numerals`, `Utf8`, `HexText`, `PyText`, `PercentEncoding`: the
  parts of Python's values and library that the components use, written out.
- `BencodeEncoder`, `BencodeParser`, `BencodeRoundTrip`, `BencodeCanonical`, `BencodeDecoder`:
  the codec. Round trip for values, canonicity, and the behaviour on arbitrary bytes.
- `Metainfo`, `MetainfoGenerator`, `Seeder`: validation and the info hash, the streaming
  hasher, and the peer that seeds what the tool describes.
- `Storage`, `Torrents`, `PieceStore`, `PieceTheorems`, `PieceManagers`: files as one stream,
  the tiling by pieces, the piece store as a state machine, its invariants over every run,
  and the class.
- `TrackerSpec`, `TrackerStates`: the two-level map of swarms as a state machine, and the class.
- `AnnounceQuery`, `TrackerReply`, `TrackerWire`: an announce on its way to the tracker and
  back, and why announcing over HTTP is the same as calling the tracker directly.
- `Framing`: length-prefixed messages under arbitrary fragmentation.
- `PeerMessages`, `PieceClients`, `DownloadTheorems`, `PeerServers`, `PeerServerTheorems`,
  `PeerWire`, `PeerPings`, `PeerExchange`: downloading from arbitrary peers, serving under
  every interleaving of threads, and the two sides meeting over size-limited frames.
- `WorkerTurns`, `Workers`, `WorkerExchange`, `SwarmRuns`: how far a worker's turns bring its
  store, its lifecycle in every environment, a worker that meets a seeder, and many workers
  with one tracker in every interleaving.
- `Publication`: from published files to received files, through all of the above.

## What the model takes as given

- SHA-1 is a function parameter; only its output length of 20 bytes is assumed. The theorems
  about original bytes say that the bytes are the original ones or that a stored piece and its
  original are an actual collision.
- Base64 is a pair of function parameters; `PeerExchange` assumes that decoding undoes
  encoding. JSON together with UTF-8 is a codec parameter of `Framing`; the theorems assume
  that decoding undoes encoding for the messages sent. The lemmas about messages over the
  limit also assume the length of Base64 text, and that JSON text is no shorter than what it
  carries. `ipaddress` is a function parameter.
- A disk is a map from path to bytes. Distinct paths name distinct files, which is what the
  duplicate check in `peer/metainfo.py:251-254` provides; file operations do not fail, except
  for a missing or short file, which the model does cover.
- Each method of the tracker state and of the piece manager holds one lock, so a call is one
  atomic step.

## Where the code does less than it seems to

- The encoder calls itself canonical (`common/bencode.py:11-16`), but a dictionary holding
  both a text key and its byte form is encoded with a duplicate key, which the decoder
  refuses. `BencodeRoundTrip.RoundTrip` says exactly when that happens.
- The decoder rejects leading zeros but passes what is left to `int`, so integers such as
  `i+5e` and `i1_0e`, and lengths such as `1_0:`, are accepted. Re-encoding gives the input
  back exactly when it holds no such numeral (`BencodeDecoder.ReencodesToItselfIffPlain`).
- The worker's docstring says periodic announces are sent while incomplete
  (`peer/torrent_worker.py:80`). That holds with `exit_on_complete` or with one cycle;
  otherwise a worker that starts complete and is left alone goes on announcing. Both halves
  are in `Workers.TorrentWorker.Run`.
- The tracker client joins its query to whatever base URL it has (`peer/tracker_client.py:241`),
  and the tracker allows no parameter twice and no foreign one. So a base URL can bring nothing
  but empty components or one known `event`, which then stands in for a missing event
  (`AnnounceQuery.BaseUrlNamesEvent`), and one with a fragment loses the announce
  (`AnnounceQuery.QueryRoundTrip`).
- A worker that gives up on an announce and then sends `stopped` can have the late announce
  refused as a first announce (`SwarmRuns.OvertakenIsRefused`).
  `SwarmRuns.OnlyOvertakenAreRefused` says that this is the only way, and
  `SwarmRuns.PatientWorkersAreNeverRefused` when it cannot happen.
- Bitfield exactness depends on `create_missing`: `PieceTheorems.UnpreparedStoreLosesExactness`
  gives a write that loses it otherwise, and `PieceTheorems.RunStaysScannedIff` says exactly
  which runs keep it. What holds of all runs is soundness (`PieceTheorems.RunKeepsSound`).
- Nothing bounds the piece length or the piece count, but a message is at most 8 MiB
  (`peer/peer_protocol.py:10`). A piece of more than 6291456 bytes, or a bitfield of more than
  1677721 pieces, never reaches another peer (`PeerExchange.LargePieceStaysMissing`,
  `PeerExchange.LargeBitfieldRaises`); `PeerExchange.HonestDownload` says exactly what does.

## Model

| member | source | states |
|---|---|---|
| BencodeEncoder.Encoder | common/bencode.py:10-55 | The encoder, branch by branch, computes the specification `Bencode`: bools, floats, nulls and foreign keys are refused, text becomes UTF-8, dictionaries are sorted by key bytes. |
| BencodeEncoder.EncodeList | common/bencode.py:30-31 | The list branch joins the encodings of its items, or raises the first error among them. |
| BencodeEncoder.EncodeDict | common/bencode.py:33-44 | The dictionary branch collects key bytes and values in insertion order, refusing any key that is neither text nor bytes, before anything is encoded. |
| BencodeEncoder.EncodeSorted | common/bencode.py:46-53 | The sorted items are appended to the buffer key by key, stopping at the first value that cannot be encoded. |
| BencodeEncoder.BencodePrintsNormalForm | common/bencode.py:17-55 | Encoding succeeds on exactly the values with no bool, float, null or foreign key at any depth, and prints the normal form: strings as bytes, tuples as lists, dictionaries sorted. |
| BencodeEncoder.NormalFormOrder | common/bencode.py:46-53 | Every dictionary in a normal form is in key order, and strictly so, at every level, exactly when no two keys of the value coincide in UTF-8. |
| ByteStrings.SortOrderIsStable | common/bencode.py:46 | `list.sort` by key as the model has it: a permutation, in order, that keeps equal keys in insertion order. |
| ByteStrings.ReorderSorts | common/bencode.py:46 | Sorting leaves the keys in order, strictly exactly when they are distinct, and loses none. |
| ByteStrings.SortedListingIsUnique | common/bencode.py:46 | A strictly sorted listing of byte strings is determined by the set of its members, which is why sorting makes the encoding canonical. |
| Numerals.RenderParses | common/bencode.py:20-21 | Every number printed by `str` passes the decoder's zero checks and parses back to itself. |
| Numerals.PrintsBackIffPlain | common/bencode.py:105-109 | Of the numerals the decoder accepts, exactly those written the way `str` writes them print back to the same bytes; `+5`, `1_0` and ` 7` are accepted and do not. |
| Numerals.OtherNumerals | common/bencode.py:105-109 | What else `int` takes, and its value: a plus sign, spaces around, single underscores between digits; an underscore at an end, two in a row or two signs it refuses. |
| Utf8.DecodeEncode | common/bencode.py:27 | UTF-8 decoding undoes encoding for every string. |
| Utf8.EncodeDecode | common/bencode.py:27 | Strict decoding accepts nothing but encodings: whatever it decodes encodes to the same bytes, so overlong and surrogate forms are refused. |
| Utf8.EncodeIsInjective | common/bencode.py:38 | Different text keys have different key bytes. |
| BencodeParser.Parser.Parse | common/bencode.py:65-69 | The cursor-based parser computes `Bdecode`: one value, and an error if anything follows it. |
| BencodeParser.Parser.ReadValue | common/bencode.py:71-88 | The marker dispatch leaves the cursor and the value that `ParseValue` gives, including the errors for the end of data and for an unknown marker. |
| BencodeParser.Parser.ReadInteger | common/bencode.py:90-114 | An integer, with the five numeral checks in the order of the source. |
| BencodeParser.Parser.ReadBytes | common/bencode.py:116-143 | A byte string, with the checks on its length and on the data that is left. |
| BencodeParser.Parser.ReadList | common/bencode.py:145-155 | The list loop collects items up to the end marker. |
| BencodeParser.Parser.ReadDictionary | common/bencode.py:157-179 | The dictionary loop refuses keys that are not bytes, out of order or repeated. |
| BencodeParser.ParseValue | common/bencode.py:71-88 | Termination: every successful parse moves the cursor forward and leaves it inside the data, on arbitrary bytes. |
| BencodeRoundTrip.RoundTrip | common/bencode.py:10-184 | `bdecode(bencode(v))` consumes all input and returns the normal form of v exactly when no dictionary in v has two keys that coincide in UTF-8; otherwise it is refused as a duplicate key. |
| BencodeRoundTrip.KnownForm | common/bencode.py:17-55 | The form itself on a nested dictionary: `d1:al2:hi0:e1:bi-7ee`. |
| BencodeRoundTrip.ParseEncoded | common/bencode.py:71-179 | The round trip at any position in any data, and at any depth: an encoding is read back and the cursor stops right behind it. |
| BencodeRoundTrip.CollidingKeysAreNotDecodable | common/bencode.py:36-46 | The round trip fails for a dictionary that holds both the text key and the byte key `a`. |
| BencodeCanonical.UniqueDecomposition | common/bencode.py:10-55 | An encoding can be read off the front of a byte string in one way only, through arbitrary nesting. |
| BencodeCanonical.EqualEncodingsIffEqualNormalForms | common/bencode.py:10-55 | Two supported values have the same encoding exactly when they have the same normal form. |
| BencodeCanonical.EncodingsArePrefixFree | common/bencode.py:10-55 | No encoding is a proper prefix of another. |
| BencodeCanonical.OrderIndependent | common/bencode.py:33-53 | Reordering the entries of dictionaries at any depth does not change the normal form, hence not the encoding. |
| BencodeDecoder.ParseIsStable | common/bencode.py:71-179 | A successful parse of arbitrary bytes is unchanged by whatever bytes are appended. |
| BencodeDecoder.DecodedIsClean | common/bencode.py:157-179 | Whatever the bytes, every dictionary in an accepted value has strictly increasing keys. |
| BencodeDecoder.DecodedIsNormal | common/bencode.py:10-184 | A decoded value is its own normal form. |
| BencodeDecoder.DecodeEncodeDecode | common/bencode.py:10-184 | `bdecode(bencode(bdecode(d))) == bdecode(d)` for every accepted d. |
| BencodeDecoder.ReencodesToItselfIffPlain | common/bencode.py:97-134 | `bencode(bdecode(d)) == d` exactly when every number and length in d is written the way `str` writes it, at every depth. |
| BencodeDecoder.PaddedNumeralIsAccepted | common/bencode.py:108-111 | The accepted input `i+5e` does not re-encode to itself. |
| Metainfo.ValidateMultipleFiles | peer/metainfo.py:213-257 | The loop over file entries: safe components, natural lengths, no path twice; the running total is the sum of the lengths. |
| Metainfo.NormalizeHashes | peer/metainfo.py:151-172 | The hash loop lower-cases and checks each piece hash, raising at the first bad one. |
| Metainfo.ValidateLayout | peer/metainfo.py:124-135 | Exactly one of `length` and `files`, each validated by its own rules. |
| Metainfo.MetainfoFile.LoadFrom | peer/metainfo.py:77-181 | Loading assigns its fields all at once and only when every check has passed; the first failing check, in the source's order, is the one reported. |
| Metainfo.LoadInfo | peer/metainfo.py:105-181 | An accepted `info` is well formed (piece count by ceiling division, distinct file paths), and its info hash is SHA-1 of its encoding. |
| Metainfo.LoadedPathsStayBelow | peer/metainfo.py:15-35 | Every file of a loaded torrent is stored at a path of safe components: none empty, `.`, `..`, with a space at either end, or holding a separator, colon or NUL. |
| Metainfo.SafeComponents | peer/metainfo.py:15-35 | A path component is accepted exactly when it is text that is not empty, `.` or `..`, holds no separator, colon or NUL, and has no space at either end. |
| Metainfo.LoadedFilesAreDeclared | peer/metainfo.py:228-254 | The files of every accepted metainfo are those it declares, in order: for `files`, one segment per entry, at the texts of its `path` in order below the name, with its `length`; for `length`, one segment of that length under the name. |
| Metainfo.LoadedFieldsAreDeclared | peer/metainfo.py:85-181 | The announce URL is the first one, stripped; name and piece length are those of the info; each piece hash is the declared one in lower case, from either form of `pieces`. |
| Metainfo.AcceptedMetainfo | peer/metainfo.py:85-181 | Exactly which metainfo is accepted: good announce URLs, a safe name, a positive piece length, one layout in order with no path twice, as many good hashes as the declared total length needs, and nothing that cannot be encoded. |
| Metainfo.PieceFormsAgree | peer/metainfo.py:184-200 | The concatenated form of `pieces` means the same hashes as the list form. |
| Metainfo.InfoHashIgnoresKeyOrder | peer/metainfo.py:259-264 | The info hash does not depend on the order of JSON keys, at any depth. |
| Metainfo.InfoHashDeterminesInfo | peer/metainfo.py:259-264 | Equal info hashes mean equal normal forms, unless the two encodings are themselves a SHA-1 collision. |
| Storage.FlatSlice | peer/piece_manager.py:73-107 | Each file, padded to its declared length, is its slice of the flat stream, zero-length files included. |
| Storage.ReadIsSlice | peer/piece_manager.py:322-352 | A virtual read succeeds exactly when every file it touches is long enough, and then returns exactly the requested slice of the flat stream. |
| Storage.WriteIsOverlay | peer/piece_manager.py:354-385 | A virtual write changes exactly its slice of the stream; bytes past each declared length, untouched files and other paths stay; it consumes all its data whenever the slice lies inside the stream. |
| Storage.PrepareBacks | peer/piece_manager.py:294-307 | Preparing creates or grows every file to its declared length, only ever by zeros, and leaves other paths alone. |
| Torrents.BuildSegments | peer/piece_manager.py:73-107 | The running-offset loop builds the segment list of the specification. |
| Torrents.SegmentsTile | peer/piece_manager.py:93-107 | The segments are a contiguous partition of the stream and no two share a path. |
| Torrents.PieceInside | peer/piece_manager.py:148-157 | Every piece has between 1 and piece-length bytes, lies inside the stream and ends where the next begins, the last one at the end of the stream. |
| Torrents.PieceContaining | peer/piece_manager.py:148-157 | Every byte of the stream lies in a piece. |
| Torrents.LeftIsZeroIffComplete | peer/piece_manager.py:118-133 | `left` is never negative or more than the total, and is 0 exactly when every bit is set. |
| Torrents.SettingOneBit | peer/piece_manager.py:118-129 | Setting a clear bit raises the owned bytes by exactly that piece's size. |
| Torrents.Missing | peer/piece_manager.py:140-146 | The missing indices are the clear bits, all of them, once each and in increasing order. |
| PieceStore.AvailableMeaning | peer/piece_manager.py:163-193 | A scan marks a piece available exactly when its files reach it and the stored bytes have its hash. |
| PieceStore.ExactBits | peer/piece_manager.py:163-183 | In an exact store a bit is set if and only if the stored bytes of the piece match its hash. |
| PieceStore.WriteChangesOnePiece | peer/piece_manager.py:220-260 | Writing a piece stores exactly its bytes, consumes all of them, and leaves the bytes and the availability of every other piece as they were. |
| PieceTheorems.WriteAccepts | peer/piece_manager.py:220-260 | A write is accepted exactly when the index is in range and the data has the piece's length and hash; a refused write changes nothing; the consumed-bytes error is unreachable. |
| PieceTheorems.WriteKeepsExact | peer/piece_manager.py:220-260 | Writing keeps the bitfield exact. |
| PieceTheorems.WriteKeepsSound | peer/piece_manager.py:220-260 | Writing never leaves a set bit wrong, even over files that are missing or short. |
| PieceTheorems.ReadInExactStore | peer/piece_manager.py:195-218 | In an exact store a read changes nothing, never reaches the mismatch branch, and returns the piece exactly when its bit is set. |
| PieceTheorems.ReadOutcome | peer/piece_manager.py:195-218 | What `read_piece` does in any store, whatever has become of the files: the piece comes back exactly when its bit is set, its files reach it and the hash matches; if only the hash differs, that bit is cleared and nothing else changes; otherwise nothing changes at all. |
| PieceTheorems.ReadFailure | peer/piece_manager.py:195-218 | Which error a read that changes nothing ends in: index out of range, bit clear, and, at the first file that does not reach the piece, missing or too short. |
| PieceTheorems.MismatchIsMissing | peer/piece_manager.py:204-212 | After a mismatch the piece is listed as missing and `left` has risen by exactly its size. |
| PieceTheorems.ReadingAllRepairs | peer/piece_manager.py:195-218 | Reading every piece once clears exactly the bits whose pieces can be read and have changed; over files that are long enough the bitfield is sound again, whatever happened to them. |
| PieceTheorems.OpenIsExact | peer/piece_manager.py:46-71 | Construction with `create_missing` gives an exact store and leaves the stream as it was. |
| PieceTheorems.OpenIsSound | peer/piece_manager.py:46-71 | Construction in either mode sets no bit that a scan would reject. |
| PieceTheorems.RunKeepsExact | peer/piece_manager.py:163-281 | After every sequence of reads, writes and rescans the bitfield is exact. |
| PieceTheorems.RunKeepsSound | peer/piece_manager.py:163-281 | After every sequence of operations, from any sound store, no set bit is wrong. |
| PieceTheorems.RescanFindsNothingNew | peer/piece_manager.py:163-183 | After any run from construction with `create_missing`, a rescan changes nothing. |
| PieceTheorems.CompleteStreamIsOriginal | peer/piece_manager.py:131-133 | A complete store's stream is the original, byte for byte, unless a stored piece and its original are themselves a SHA-1 collision. |
| PieceTheorems.CompleteFilesAreOriginal | peer/piece_manager.py:131-133 | A complete store holds in every non-empty file exactly the declared bytes of the original, with the same one exception. |
| PieceTheorems.UnpreparedStoreLosesExactness | peer/piece_manager.py:354-385 | Without `create_missing` exactness can be lost: growing a file during a write makes another piece match while its bit stays clear. |
| PieceTheorems.WriteKeepsScannedIff | peer/piece_manager.py:220-260 | Over files of any length an accepted write leaves the bitfield what a scan would find if and only if it wakes no other piece: no clear piece whose zero-padded bytes have its hash and whose files are all long enough already or grown by this write. |
| PieceTheorems.RunStaysScannedIff | peer/piece_manager.py:163-281 | Along every run, with or without `create_missing`, the bitfield stays what a scan would find if and only if no accepted write of the run wakes a piece. |
| PieceTheorems.BackedNeverWakes | peer/piece_manager.py:294-307 | Files that are all long enough have nothing to wake. |
| PieceManagers.PieceManager.constructor | peer/piece_manager.py:46-71 | The constructed object is `Open` of the files it finds. |
| PieceManagers.PieceManager.PrepareStorage | peer/piece_manager.py:294-307 | The loop over segments performs `Prepare` on the disk. |
| PieceManagers.PieceManager.ScanExisting | peer/piece_manager.py:163-183 | The loop over pieces rebuilds the bitfield as `Scan`. |
| PieceManagers.PieceManager.VirtualRead | peer/piece_manager.py:322-352 | The loop over segments computes `ReadVirtual`, including which error ends it. |
| PieceManagers.PieceManager.VirtualWrite | peer/piece_manager.py:354-385 | The loop with its running `consumed` performs `WriteVirtual`, one file after the other. |
| PieceManagers.PieceManager.ReadPieceAt | peer/piece_manager.py:195-218 | `read_piece`: new state and result are those of `ReadPiece`, including the bit cleared on a mismatch. |
| PieceManagers.PieceManager.WritePieceAt | peer/piece_manager.py:220-260 | `write_piece`: new state and exception are those of `WritePiece`. |
| PieceManagers.PieceManager.Left | peer/piece_manager.py:118-129 | `left` is the total less the sizes of the set bits, and 0 exactly when complete. |
| PieceManagers.PieceManager.MissingPieceIndices | peer/piece_manager.py:140-146 | The loop collects `Missing`. |
| MetainfoGenerator.CalculatePieceHashes | tools/create_metainfo.py:14-52 | For any files and any read-chunk boundaries the streaming hasher returns the hashes of the piece-length slices of the concatenation, and refuses a piece length that is not positive. |
| MetainfoGenerator.SliceHashesAreSlices | tools/create_metainfo.py:40-52 | There are as many hashes as the ceiling division that validation requires, and the i-th is that of the i-th slice. |
| Seeder.Generate | tools/create_metainfo.py:64-113 | The tool, with its argument checks, computes the metainfo object of the specification. |
| Seeder.GeneratedMetainfoValidates | tools/create_metainfo.py:79-108 | Generated metainfo validates exactly when the torrent name is safe and, for several files, their names are safe and distinct; what is loaded then describes those files. |
| Seeder.SeederIsComplete | peer/piece_manager.py:163-183 | A piece manager over the files the metainfo was made from scans to an all-true bitfield with `left == 0`. |
| Publication.OneHonestPeerSuffices | peer/piece_client.py:177-221 | Publish, seed and download: from any files and after any number of hostile peers, one download from the seeder completes if and only if every message of it fits the size limits; it then reports no error, and every non-empty published file is there byte for byte, unless a stored piece is a SHA-1 collision with the published one. |
| Publication.LargePiecesAreNotReceived | tools/create_metainfo.py:70-79 | The tool accepts piece lengths the exchange cannot carry: published with pieces of more than 6291456 bytes, a file's first piece stays missing after any download from the seeder. |
| TrackerSpec.RunKeepsInv | tracker/tracker_state.py:146-350 | After every history of announces, removals and expiries no swarm is empty and every record sits under its own 20-byte id with a port in 1..65535. |
| TrackerSpec.RunIsPerPeer | tracker/tracker_state.py:186-254 | After every history a peer's record is its own last accepted announce (`left` forced to 0 by `completed`) until stopped, removed or expired; no operation on one peer shows in another. |
| TrackerSpec.RecordIsLastAnnounce | tracker/tracker_state.py:186-254 | After every history a record holds what its peer said in the last valid announce it made, which was not `stopped`: address, port, counters and time, with `left` 0 after `completed`. |
| TrackerSpec.RefusalNamesTheFault | tracker/tracker_state.py:146-216 | A refused announce is told of a fault that it has, and nothing that is checked before that one was wrong. |
| TrackerSpec.RemoveIsExact | tracker/tracker_state.py:280-307 | `remove_peer` takes out that record alone and tells whether there was one. |
| TrackerSpec.TextPeerIds | tracker/tracker_state.py:68-85 | A peer id given as text stands for its UTF-8 bytes, and is refused unless there are 20 of them. |
| TrackerSpec.HexHashIsRawHash | tracker/tracker_state.py:45-65 | The hexadecimal form of an info hash, its letters in any case, names the same torrent as its bytes. |
| HexText.FromHexIgnoresCase | tracker/tracker_state.py:52-53 | `bytes.fromhex` gives the same result whatever the case of the letters, on all texts. |
| TrackerSpec.ReplyShape | tracker/tracker_state.py:372-417 | The reply to an accepted announce lists, strictly sorted, everybody in the swarm but the requester, each with the id, address and port of its record; complete counts the records with nothing left, and the counts add up to one more than the list, or to its length after `stopped`. |
| TrackerSpec.ExpiryIsExact | tracker/tracker_state.py:309-350 | A record survives expiry, unchanged, exactly when it was seen within the timeout; a swarm survives exactly when one of its records does. |
| TrackerSpec.SortedIds | tracker/tracker_state.py:416 | The ids of a swarm, strictly sorted, each once. |
| TrackerStates.TrackerState.AnnouncePeer | tracker/tracker_state.py:146-254 | `announce`: new swarms and reply or refusal are those of the state machine; the invariant is kept. |
| TrackerStates.TrackerState.BuildResponse | tracker/tracker_state.py:372-386 | The reply assembled from the counts and the listing. |
| TrackerStates.TrackerState.RemovePeer | tracker/tracker_state.py:280-307 | `remove_peer`: new swarms and the flag that tells whether a record was there. |
| TrackerStates.TrackerState.RemoveExpiredPeers | tracker/tracker_state.py:309-350 | Exactly the expired peers are removed and returned with their own address, port and time, once each, across all swarms; every other record stays and emptied swarms go. |
| TrackerStates.ExpireSwarm | tracker/tracker_state.py:325-345 | The inner loop removes and reports exactly the expired peers of one swarm. |
| TrackerStates.CountComplete | tracker/tracker_state.py:388-397 | The number of records with nothing left. |
| TrackerStates.ListPeers | tracker/tracker_state.py:399-417 | Collecting everybody but the requester and sorting by id gives the listing. |
| PercentEncoding.UnquoteQuote | peer/tracker_client.py:230-237 | Percent-decoding undoes percent-encoding (RFC 3986, sections 2.1 and 2.3) for all byte strings. |
| PercentEncoding.QuoteKeepsUnreserved | peer/tracker_client.py:231-233 | Bytes that stand for unreserved characters are printed as they are. |
| PercentEncoding.EscapeDigits | tracker/tracker_server.py:25-32 | An escape is read with hexadecimal digits of either case and no others. |
| AnnounceQuery.ReadAnnounceQuery | tracker/tracker_server.py:35-73 | The loop over query components fills the parameter dictionary, or stops with the error of the first bad component. |
| AnnounceQuery.SplitJoin | tracker/tracker_server.py:47 | Splitting the printed query at `&` gives its fields back. |
| AnnounceQuery.ServerReadsFields | tracker/tracker_server.py:47-73 | The server's parameters are exactly the client's fields, decoded. |
| AnnounceQuery.PlusStandsForSpace | tracker/tracker_server.py:25-32 | In a query a plus sign stands for a space and an unreserved character for itself. |
| AnnounceQuery.ParsedParametersAreValid | tracker/tracker_server.py:114-169 | Whatever the query, accepted parameters have 20-byte ids, natural numbers and a known event. |
| AnnounceQuery.AcceptedQueries | tracker/tracker_server.py:114-169 | A query is accepted exactly when it reads as the six required parameters and at most a known `event` besides, with two 20-byte ids and four numbers made of digits only; the values are then those parameters. |
| AnnounceQuery.QueryRoundTrip | peer/tracker_client.py:213-243 | For every base URL without a fragment, the tracker reads exactly the client's values and the event that `Arriving` says, or refuses the request; a base URL with a fragment makes it read nothing of the client's arguments. |
| AnnounceQuery.FieldsAfter | tracker/tracker_server.py:47-73 | The client's fields, read after components a base URL brings, are all added when no name is repeated, and are refused exactly when one is. |
| AnnounceQuery.BaseUrlNamesEvent | peer/tracker_client.py:235-243 | A base URL ending in `?event=stopped`, or another known event, turns every periodic announce into that event, and has every announce with an event refused. |
| TrackerReply.ReadPeers | peer/tracker_client.py:125-152 | The peer loop accepts 20-byte ids, UTF-8 addresses and ports in 1..65535, and reports the first entry that fails. |
| TrackerReply.ReadResponse | peer/tracker_client.py:99-159 | Reading a reply, check by check, computes `ParseTrackerResponse`, with the first failing check reported. |
| TrackerReply.ReplyRoundTrip | peer/tracker_client.py:99-159 | Any reply the tracker assembles can be encoded, and the client accepts it exactly when the interval is positive and every peer has a 20-byte id and a valid port; it then reads the same interval, counts and peers in order, and it never mistakes a reply for a failure. |
| TrackerReply.FailureRoundTrip | tracker/tracker_server.py:273-282 | Every failure reply reaches the caller as a `TrackerFailure` with its reason. |
| TrackerReply.AcceptedResponseIsValid | peer/tracker_client.py:99-159 | Whatever bytes a tracker sends, an accepted response has a positive interval, counts that are not negative, and peers with 20-byte ids and ports in 1..65535. |
| TrackerReply.ReachableReplyRoundTrip | tracker/tracker_server.py:234-241 | From every reachable tracker state the reply to an accepted announce is read back exactly. |
| TrackerWire.DoGet | tracker/tracker_server.py:202-252 | The request handler: endpoint check, query parsing, state change and reply, in that order. |
| TrackerWire.EveryReplyIsReadable | tracker/tracker_server.py:202-252 | Whatever the request, the tracker invariant is kept, a refused request changes nothing, and the reply is one the client reads as a response or as a failure with its reason. |
| TrackerWire.RemoteIsDirect | peer/tracker_client.py:245-336 | For every base URL: an announce over HTTP has the state change and the result of a direct call of `announce` whenever the base URL carries its event; otherwise the event of the base URL replaces the missing one, the call is refused and changes nothing, or, after a fragment, every call is the same visit. |
| TrackerWire.ClientSeesLastAnnounces | tracker/tracker_state.py:399-417 | After every history, the client of an accepted announce reads exactly the other peers that are in the swarm, once each, at the address and port that each gave in its own last accepted announce. |
| TrackerWire.ClientChecksAreServerChecks | peer/tracker_client.py:338-363 | With an IPv4 address and a valid clock, an announce passes the client's own checks exactly when it passes the tracker's. |
| TrackerWire.RemoteRunIsRun | tracker/tracker_server.py:202-252 | After every history of remote calls by any clients whose base URLs carry their events, the tracker is in the state that the same direct calls lead to. |
| PieceClients.PieceClient.RequestOne | peer/piece_client.py:128-175 | `request_piece`: checks on the reply, Base64, the write, and the session counter, in the source's order. |
| PieceClients.PieceClient.DownloadFromPeer | peer/piece_client.py:177-221 | `download_from_peer`: the request loop with its counters and errors, and which exceptions leave it. |
| DownloadTheorems.RequestEffect | peer/piece_client.py:128-175 | A request either stores verified bytes as exactly that piece and counts them, or changes nothing. |
| DownloadTheorems.DownloadAccounts | peer/piece_client.py:177-221 | Against any peer: no piece is lost; the session counter rises by exactly the drop in `left`, even when the call raises; on return, downloaded plus errors is requested, requested plus skipped is what was missing, and the bytes reported are that rise. |
| DownloadTheorems.DownloadAsks | peer/piece_client.py:177-221 | Against any peer, a download asks for exactly the missing pieces that the peer claims; each of them is then here or has its error, never both; and it raises what it does not expect exactly when an exchange that it reaches does. |
| DownloadTheorems.DownloadKeepsStore | peer/piece_client.py:177-221 | No remote peer can make a set bit wrong, or an exact bitfield inexact. |
| DownloadTheorems.DownloadsKeep | peer/piece_client.py:128-221 | The same over every sequence of downloads from any peers: sound, exact, monotone, and `left` plus the session counter constant. |
| DownloadTheorems.CompleteDownloadIsOriginal | peer/piece_client.py:128-221 | Whatever any number of peers send, a store that says it is complete holds exactly the original bytes in every non-empty file, unless a peer has produced a SHA-1 collision with a piece. |
| PeerServers.PeerServer.DispatchMessage | peer/peer_server.py:312-331 | Dispatch by message type; each handler's answer and effect on the shared state. |
| PeerServers.PeerServer.HandlePieceRequest | peer/peer_server.py:443-492 | A piece request: validation, interest, index type, then `read_piece`, with the source's treatment of each exception. |
| PeerServers.PeerServer.HandleConnection | peer/peer_server.py:248-302 | One connection, from the outcome of receiving to the frame it sends: dispatch, framing under the size limit with its exception handlers, and the upload counter raised only when the answer itself went out. |
| PeerServers.PeerServer.SendAnswer | peer/peer_server.py:256-302 | An answer that cannot be encoded, for instance over the limit, is replaced by an ERROR, or by nothing if it was an ERROR for an exception already. |
| PeerServers.BeginKeepsReady | peer/peer_server.py:312-331 | Up to `read_piece` a message touches neither the store nor the counter, and a request gets there only with interest registered for its info hash and peer id. |
| PeerServerTheorems.SentPieceIsLabelled | peer/peer_server.py:443-492 | Every piece that is answered was asked for by its index, is a piece of this torrent that the server has, and goes out with the server's id, the torrent's hash and the SHA-1 of the very bytes it carries. |
| PeerServerTheorems.PieceRequestFailure | peer/peer_server.py:443-492 | How a request for a piece fails: unavailable if the index is out of range, the bit is clear or the file too short; silence if the file is missing; an error, and the piece no longer had, if it has changed on the disk. |
| PeerServerTheorems.OtherAnswersAreLabelled | peer/peer_server.py:391-441 | Every bitfield, unchoke and error as it goes out: the server's id, the torrent's hash, the bits, the requester registered, and the wording of the error. |
| PeerServerTheorems.RunKeepsInv | peer/peer_server.py:238-331 | The server's invariant in every interleaving of receiving, fetching, sending and accounting steps with other uses of the piece manager. |
| PeerServerTheorems.PiecesFollowInterest | peer/peer_server.py:443-492 | In every interleaving a piece is sent only after an INTERESTED with the same info hash and peer id, and only with bytes of that piece's length and hash. |
| PeerServerTheorems.UploadsAreSentPieces | peer/peer_server.py:254-263 | In every interleaving the upload counter is the sum of the sizes of the pieces sent, short only of those not yet accounted. |
| PeerServerTheorems.HandlingIsFourSteps | peer/peer_server.py:254-263 | Handling a connection in one go is the four steps in a row. |
| PeerWire.FrameCrosses | peer/peer_protocol.py:21-140 | A message crosses unchanged, in either direction, exactly when it can be encoded within both limits. |
| PeerWire.AnswerIsHeard | peer/peer_server.py:256-302 | The client hears the server's answer if it fits, and otherwise an ERROR or nothing. |
| PeerWire.OversizedAnswer | peer/peer_server.py:256-302 | In place of an answer over the server's limit the client hears an ERROR that says so, if that fits; an ERROR that was raised already is dropped. |
| PeerWire.UnreadableRequest | peer/peer_server.py:248-284 | Whatever the server cannot receive is answered with an ERROR that says why, if that fits, and changes nothing. |
| PeerWire.RequestIsHeard | peer/piece_client.py:223-239 | A request that fits is handled as it was sent; one that does not changes nothing and is refused. |
| PeerPings.PingIsAnswered | peer/peer_server.py:333-367 | Every good PING is answered, without changing anything, by a PONG that is received with the PING's nonce and time, the server's id and the server's clock, if both messages fit the limits; otherwise nothing is heard that could pass for one. |
| PeerPings.PingExchange | peer/ping_client.py:57-148 | A ping of the real client to the real server succeeds exactly when the server is the peer the tracker named and both messages fit. |
| PeerExchange.BitfieldExchange | peer/piece_client.py:62-99 | The client reads the server's own bitfield when BITFIELD_REQUEST and BITFIELD fit the limits of both sides, and an error when they do not. |
| PeerExchange.InterestExchange | peer/piece_client.py:101-126 | Interest is acknowledged exactly when INTERESTED and UNCHOKE fit; it is registered under the client's id once INTERESTED does. |
| PeerExchange.PieceExchange | peer/piece_client.py:128-175 | A piece the server has crosses exactly when REQUEST and PIECE fit: then the client gains exactly it and both counters rise by its size; otherwise the client reports an error and keeps what it had. |
| PeerExchange.HonestDownload | peer/piece_client.py:177-221 | Downloading from a peer that runs the real server: the call returns exactly when the bitfield, and interest if needed, fit; it leaves the client with what it had and every piece of the server that fits, one error for each that does not, and equal counters; it is free of errors, and from a seeder complete, if and only if every message fits. |
| PeerExchange.LargePieceStaysMissing | peer/peer_protocol.py:51-54 | A missing piece of more than 6291456 bytes never crosses, whatever the server's limit: the download is not free of errors and the piece is still missing. |
| PeerExchange.LargeBitfieldRaises | peer/peer_protocol.py:51-54 | With more than 1677721 pieces every download raises and changes nothing. |
| Workers.TorrentWorker.Announce | peer/torrent_worker.py:210-218 | Each announce carries valid arguments, the uploads of its moment, and a downloaded and a left that add up to what was missing at the start. |
| Workers.TorrentWorker.Contact | peer/torrent_worker.py:262-271 | The downloads of one turn: the store ends as after the shortest run of responsive peers at which it is complete, one raises, or none is left; it raises exactly when the pings or the last of those downloads did; bytes are counted for those that returned. |
| Workers.TorrentWorker.Turn | peer/torrent_worker.py:231-318 | One turn: the store moves by exactly its downloads, and the announces are exactly `completed`, if this turn is the first to find the store complete, and a periodic one, unless the worker raises, exits, is stopped or is out of cycles. |
| Workers.TorrentWorker.Conclude | peer/torrent_worker.py:284-318 | The rest of a turn after its downloads: which announces it makes and whether there is a next turn. |
| Workers.TorrentWorker.Turns | peer/torrent_worker.py:231-318 | The `while` loop: every turn that can be taken with an incomplete store is taken, each leaves the store as its downloads do, the one that completes it announces that, and the loop ends for one of its reasons. |
| Workers.TorrentWorker.Serve | peer/torrent_worker.py:231-343 | Loop and shutdown together: the announces form a whole lifecycle that ends in one `stopped`, and the store is what the turns taken lead to. |
| Workers.TorrentWorker.Run | peer/torrent_worker.py:210-343 | In every environment: `started` first; `stopped` exactly once and last if and only if `started` succeeded; `completed` at most once, with nothing left, by a worker that began incomplete; the result agrees with the announces; periodic announces only while incomplete if the worker exits on completion or has one cycle, and otherwise also after it; the store is what the downloads of the turns taken lead to, each turn that nothing prevents is taken, and the one that completes the store announces that in the same turn. |
| WorkerTurns.Stop | peer/torrent_worker.py:262-271 | How many of the responsive peers a turn downloads from: the least number after which the store is complete, a download has raised, or none is left. |
| WorkerTurns.TurnsTaken | peer/torrent_worker.py:231-318 | The turns taken with an incomplete store are exactly those that nothing in the environment keeps the worker from. |
| WorkerExchange.SeederCompletesContact | peer/torrent_worker.py:262-271 | If one responsive peer runs the real server with every piece, all its messages fit and no download before it raises, the turn raises nothing and ends complete. |
| WorkerExchange.SeederCompletesTurn | peer/torrent_worker.py:231-293 | A turn that is reached and meets such a seeder is one that completes the store. |
| WorkerExchange.RunBesideSeeder | peer/torrent_worker.py:125-395 | A worker that takes such a turn ends complete: it announces `completed`, with nothing left, in that same turn, and its result says so. |
| Workers.UndisturbedEnvironment | peer/torrent_worker.py:231-318 | The environment exists in which a worker that starts complete, with exit-on-complete off and two cycles or more, announces periodically with nothing left. |
| SwarmRuns.LifecycleIsWalk | peer/torrent_worker.py:220-337 | A list of announces is a whole worker run exactly when the worker phases of the interleaving model lead it from start to end. |
| SwarmRuns.EveryWorkerIsInItsLifecycle | peer/torrent_worker.py:220-337 | In every interleaving the announces each worker has made so far begin a whole lifecycle, and with the one it may be waiting for they are exactly the requests it has sent, in order. |
| SwarmRuns.SwarmsHoldLiveWorkers | tracker/tracker_state.py:186-254 | After every interleaving of many workers and the tracker, with requests and replies lost or late, the swarms hold exactly the workers whose `started` was granted and whose `stopped` was not. |
| SwarmRuns.OnlyOvertakenAreRefused | tracker/tracker_state.py:212-216 | In every reachable state a worker's request is refused exactly when it is a periodic or `completed` announce that the worker's own `stopped` has overtaken. |
| SwarmRuns.OvertakenIsRefused | tracker/tracker_state.py:212-216 | For every valid worker there is a run in which its late periodic announce is refused as a first announce. |
| SwarmRuns.PatientWorkersAreNeverRefused | tracker/tracker_state.py:212-216 | If no worker gives up on a request still in flight, no announce is ever refused as a first announce. |
| SwarmRuns.RunOverWireIsRun | tracker/tracker_server.py:202-252 | The same interleavings with every request going through the tracker client, HTTP query and Bencode reach the same states, for a base URL that brings no fragment and no parameters. |
| SwarmRuns.RemoteSwarmsHoldLiveWorkers | tracker/tracker_state.py:186-254 | Over the wire as well, the swarms hold exactly the workers whose `started` was granted and whose `stopped` was not. |
| Framing.HeaderRoundTrip | peer/peer_protocol.py:56 | Unpacking undoes packing of the 4-byte big-endian length. |
| Framing.HeadersKeepOrder | peer/peer_protocol.py:56 | The header is big-endian: headers compare as bytes the way their lengths compare as numbers. |
| Framing.DefaultLimitFitsHeader | peer/peer_protocol.py:9-56 | Under the default limit of 8 MiB the length always fits the 4-byte header. |
| Framing.DefaultLimit | peer/peer_protocol.py:10 | The default limit lets through payloads of up to 8388608 bytes and nothing longer, in both directions. |
| Framing.SentMessages | peer/peer_protocol.py:21-56 | Exactly the messages with a type that is not blank, that can be encoded and whose payload is neither empty nor over the limit are sent. |
| Framing.Socket.Recv | peer/peer_protocol.py:80 | What a receive call may return: some non-empty part of the next chunk, nothing once the connection is closed, or a timeout. |
| Framing.Socket.RecvExact | peer/peer_protocol.py:70-92 | The loop takes exactly the requested bytes off the stream, or fails with the whole rest used up. |
| Framing.Socket.ReceiveMessage | peer/peer_protocol.py:95-140 | The outcome of receiving, and what it consumes, depend on the bytes of the stream alone and never on the chunks. |
| Framing.ReceiveInTurn | peer/peer_protocol.py:95-140 | Repeated receiving on a socket reads what the stream as a whole holds. |
| Framing.FrameRoundTrip | peer/peer_protocol.py:21-56 | A received frame is the sent message whatever follows it, and exactly 4 plus the payload length is consumed; a receiver with a smaller limit refuses it. |
| Framing.AllMessagesInOrder | peer/peer_protocol.py:21-140 | Any number of encodable messages come back in order and nothing after them is touched. |
| Framing.ReceiveFragmented | peer/peer_protocol.py:70-140 | However the frames of some messages are cut into non-empty chunks, a socket that receives those chunks gives the same messages in the same order and keeps what follows them. |
| Framing.ReceivedIsAWholeFrame | peer/peer_protocol.py:95-140 | Whatever is returned as a message came as one whole frame within the limit, is what its payload decodes to, and names a type that is not blank. |
| Framing.TruncatedFrameIsRefused | peer/peer_protocol.py:70-92 | A frame cut short anywhere is never returned as a message. |

A class method's row states the whole new state and result of the call, by the specification
function named in its contract. `Workers` and `Framing.Socket` state their properties outright.

## Left out

- Sockets, HTTP serving, `urlopen`, status codes and headers, timeouts as durations, thread
  start and join, the start barrier and the thread pool: input and output. Their outcomes are
  parameters: a lost or late request, a reply that does not come, chunks of any size.
- The insides of SHA-1, JSON, Base64 and `ipaddress`, as said above.
- Event logging: log calls are no-ops that cannot fail.
- `peer/ping_client.py` beyond one ping: the thread pool, the sorted results and the periodic
  service. A turn's responsive peers are part of the worker's environment.
- CPython's limits: recursion depth, the digit limit of `int`, floats beyond the reals (NaN,
  infinities, overflow of `float(sent_at)`). Unicode text is a sequence of scalar values, so
  lone surrogates do not occur.
- Filesystem quirks: case folding, a path that is both a file and a directory, symbolic links,
  writes that fail half-way, `resolve` and the containment check of `_storage_path`.
- Time: timestamps are parameters, and nothing is claimed about their order.
- Guaranteed completion against arbitrary peers: it depends on them. Safety and accounting are
  proved instead, and completion against an honest peer.
- `get_peers`, `get_statistics`, `snapshot`, `peer_count`, `swarm_count`, `summary`,
  `has_piece`, `generate_peer_id`: direct reads of what is modelled.
- Demonstration, submission and verification tools: orchestration and packaging.
- Metainfo.MetainfoFile.LoadFrom: starts from the parsed JSON object; the ten attributes it
  assigns are one `Torrent` value, the list of announce URLs is reduced to the first, and
  `lower()` is modelled on ASCII, which is all a hexadecimal digit can come from.
- Seeder.Generate: stops at the metainfo object; writing the JSON file, and reading it back to
  an equal object, is not modelled, nor are the checks that the input files exist.
- TrackerStates.TrackerState.RemoveExpiredPeers: the returned list is stated as exact and
  without repetition, but not its order, which in the source is dictionary order.
- TrackerWire.DoGet: the text of a refusal is a parameter, except for the unknown endpoint; the
  500 reply to an unexpected exception is not modelled, since none can occur in the model.
- TrackerWire.RemoteIsDirect: the base URL leads to the tracker's `/announce` and is one that
  `urlopen` accepts as it stands.
- PieceClients.PieceClient.DownloadFromPeer: error texts are replaced by error kinds, and the
  peer's address plays no part.
- PeerServers.PeerServer.HandleConnection: whether the socket takes the frame is a parameter;
  the texts of errors are one too.
- PeerExchange.HonestDownload: connections are made and frames arrive in time; only the size
  limits and the encoding can stop a message.
- PeerServerTheorems.RunKeepsInv: the steps of a connection are atomic as the locks make them;
  starting and stopping the listener is left out.
- Workers.TorrentWorker.Contact: the peers to contact, after `_unique_peers` and the pings, are
  part of the environment.
- Workers.TorrentWorker.Run: set-up before the first announce is one outcome, success or
  failure; the counts of peers, pings and pieces and the texts in `errors` are left out of the
  result, and the waiting time is not modelled.
- SwarmRuns.SwarmsHoldLiveWorkers: without expiry and removal, as stated there.
- Framing.Socket.Recv: a chunk is never empty while the connection is open, and errors other
  than closing and timing out are left out.
- Framing.FrameRoundTrip: a codec that raises anything but its expected exceptions is left out.
