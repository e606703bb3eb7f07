# burp protocol-1 data layer, modelled in Dafny

This project models the protocol-1 data layer of the burp backup system:

- **The manifest record codec** (`src/protocol1/sbufl.c`). A record is framed as
  `<command char><four hex digits of length><payload><one trailing byte>`.
  - `read_fp_msg` and `read_fp` read one framed record from a manifest.
  - `read_stat` skips data-path records up to the attributes. It stops cleanly
    on one of five control strings.
  - `do_sbufl_fill_from_file` and `do_sbufl_fill_from_net` put one entry
    together: attributes, path, link, end-of-file record.
  - `sbufl_to_fp`, `sbufl_to_zp` and `sbufl_to_manifest(_phase1)` write an
    entry's records in a fixed order.
  - The manifest is a `Reader` class: immutable bytes plus a read cursor. A
    manifest being written is a `Sink` class. The network is an `Asfd` class:
    the records it delivers, a read cursor, the records sent, and the number of
    writes left before one fails. Each reading method is proved against a pure
    specification function over a source value (`FillSpec`, `ReadStatSpec`,
    `ReadAll`). Lemmas then prove about those functions that what the writer
    emits reads back unchanged.
- **The storage path cursor** (`src/server/protocol1/dpth.c`). It is a
  `Cursor` class holding the `prim/seco/tert` triple.
  - The cursor renders as `%04X/%04X/%04X[.gz]`.
  - It is recovered from an in-memory directory tree by taking the highest
    entry at each of three levels.
  - It adopts a data path only when no component would go down.
- **Phase-1 dispatch on the client** (`src/client/backup_phase1.c`).
  - The `send_file` switch is a pure function from entry type to action.
  - The module-level symbols and the static sbuf are fields of a
    `Phase1Client` class.
  - What the client sends for an entry is proved to be read back by the
    server's `sbufl_fill` as that same entry.
- **The diff server** (`src/server/diff.c`).
  - It selects the first matching backup, or lists every backup when no
    backup is named.
  - It forwards every manifest entry's attributes, path and link.
  - The loops are methods proved against `DiffPlan` and `ManifestDiff`, which
    read the manifest with the codec above.
- **The listing client** (`src/list_client.c`):
  - `encode_mode`, working on an `array<char>`;
  - `json_escape`;
  - the JSON bracket nesting of `open_tag`/`close_tag` over the static
    `current_tag`, held in a `JsonOut` class;
  - the " (deletable)" suffix of `json_backup`;
  - the listing request;
  - the record checks of the `do_list_client` loop;
  - the time `ls_to_buf` shows.

The files are:

- `libc.dfy` (module `Libc`): the C library behaviour the core relies on. It
  covers C strings, `%04X` printing and scanning, `%d` printing, `strtol` base 16, `strtoul`
  base 10, and C's truncating remainder.
- `records.dfy` (module `Records`): command letters, `struct iobuf`, result
  codes and the network channel.
- `sbufl.dfy`, `dpth.dfy`, `phase1.dfy`, `diff.dfy`, `listclient.dfy`: one
  module per core file.

Some behaviours of the code are easy to misread, and the model keeps them:

- A data path is adopted when each component is **at least** the current one
  (`dpth.c:118-120`), although the comment above that test (`dpth.c:117`)
  speaks of a higher one.
- A data path that does not scan is an **error** (-1, `dpth.c:114-115`), not a
  no-op. Only NULL and a tree-style path (leading `t`) are no-ops.
- Recovering the cursor never fails on an unreadable directory: it counts
  as 0 (`dpth.c:43`). Only allocation of the joined path can fail.
- An entry reads its optional data path **before** the attributes
  (`sbufl.c:101-104`), and the writer puts it first as well.
- A payload cut short by the end of a manifest is end of file (1), not a
  separate truncation error (`sbufl.c:21-24`).
- The client sends the attributes first, then the path, then the link
  (`backup_phase1.c:50-53`).
- Directory names that are not hex are not skipped by `get_highest_entry`
  (`dpth.c:50`). `strtol` skips white space and reads an optional sign, an
  optional "0x" and then the leading hex digits. So `abc.txt` counts as
  0xABC, and a name that starts with neither a hex digit, white space nor a
  sign counts as 0.
- A scan problem or an unknown entry type is not silent: `logw` sends it to
  the server as a warning record (`backup_phase1.c:74-75`, `166-168`), which
  the server skips.
- A manifest that cannot be opened is reported to the client as an
  out-of-memory error record (`diff.c:16-24`).

## Model

| member | source | states |
|---|---|---|
| Sbufl.Reader.ReadMsg | src/protocol1/sbufl.c:4-33 | The read loop delivers exactly `len` bytes from the cursor. When the data runs out first it gives end of file, or an error on a stream that fails at its end. The cursor moves as `ReadMsgSpec` says and never passes the data. |
| Sbufl.Reader.ReadFp | src/protocol1/sbufl.c:35-62 | One framed record: a five-byte header, then `len + 1` bytes of which the last is dropped. A successful read always frames a record whose command is not NUL and whose length fits four hex digits. |
| Sbufl.HeaderParses | src/protocol1/sbufl.c:48-54 | The header written for a command and a length up to 0xFFFF is five bytes and parses back to that command and length. |
| Sbufl.BadHeaderFails | src/protocol1/sbufl.c:48-53 | A complete header whose command is NUL or whose length field does not start with a hex digit is a read error (-1), after five bytes. |
| Sbufl.ReadFrame | src/protocol1/sbufl.c:57-59 | A framed record reads back as itself whatever its trailing byte, and the cursor ends just past the frame. |
| Sbufl.TruncatedPayloadIsEof | src/protocol1/sbufl.c:14-26 | A payload cut short by the end of the manifest is end of file (1), not a separate error, unless the stream fails at its end. |
| Sbufl.ReadStatSpec | src/protocol1/sbufl.c:71-126 | Success always leaves an attributes record in the sbuf and consumes input. Path, link and end-of-file are never touched. The attributes change only on success. |
| Sbufl.ReadStat | src/protocol1/sbufl.c:71-126 | The `read_stat` loop over a manifest or the network computes exactly `ReadStatSpec` and leaves the network's sent records alone. |
| Sbufl.DatapathStored | src/protocol1/sbufl.c:101-104 | A data-path record where an entry starts is kept in the sbuf, and reading goes on from the next record, from a manifest or the network alike. |
| Sbufl.DatapathsStored | src/protocol1/sbufl.c:101-104 | After a run of data-path records the sbuf holds the last of them, and reading goes on after the run. |
| Sbufl.LastDatapathKept | src/protocol1/sbufl.c:101-111 | Of any number of data-path records before the attributes, from a manifest or the network, the last is the one the entry keeps, and the read stops just past the attributes with success. |
| Sbufl.ControlStops | src/protocol1/sbufl.c:112-122 | A generic record where an entry must start ends the read cleanly (1) exactly when it is one of the five control strings; otherwise it is unexpected (-1). |
| Sbufl.NetWarningSkipped | src/protocol1/sbufl.c:88-99 | On the network a warning before an entry is skipped: reading gives what reading from the next record gives. |
| Sbufl.OrderEnforced | src/protocol1/sbufl.c:101-122 | Any record other than a data path, the attributes or a generic record is refused (-1) where an entry starts. This includes a path before its attributes, and a warning in a manifest. |
| Sbufl.FillSpec | src/protocol1/sbufl.c:128-174 | A successful fill has attributes and a path. A link entry has a link-command link record. File data read from a full manifest has an end-of-file record. |
| Sbufl.FillFromFile | src/protocol1/sbufl.c:148-174 | `do_sbufl_fill_from_file` computes `FillSpec` over the manifest's cursor: path unchecked, link checked for links, end-of-file checked for file data outside phase 1. |
| Sbufl.FillFromNet | src/protocol1/sbufl.c:128-146 | `do_sbufl_fill_from_net` computes `FillSpec` over the channel's records, with no end-of-file step, and writes nothing. |
| Sbufl.SbuflFill | src/protocol1/sbufl.c:176-181 | Reads a full entry from the manifest when one is given, else from the network. |
| Sbufl.SbuflFillPhase1 | src/protocol1/sbufl.c:183-186 | Reads a phase-1 entry, without an end-of-file record, from the manifest. |
| Sbufl.Sink.SendMsg | src/protocol1/sbufl.c:192-203 | One record write: it is appended exactly when the sink still has room, and the result says whether it was. |
| Sbufl.ManifestRecordsIndex | src/protocol1/sbufl.c:188-206 | Where each buffer sits in the records written for an entry: data path if set, attributes, path, link if set, then end-of-file only when asked for and the entry carries file data. |
| Sbufl.ToSink | src/protocol1/sbufl.c:188-226 | The entry's records go out in order until a write fails; the result is 0 exactly when all of them fit. An entry without a path writes nothing and succeeds. |
| Sbufl.ToManifest | src/protocol1/sbufl.c:228-242 | The plain file is preferred to the gzip stream and the other is left untouched. End-of-file records are written for a full manifest only. With neither sink the result is -1. |
| Sbufl.FillYields | src/protocol1/sbufl.c:101-174 | Record-level round trip: a source that yields the records written for a well-formed entry gives that entry back, read into a freed sbuf, from a manifest or the network. |
| Sbufl.ManifestRoundTrip | src/protocol1/sbufl.c:176-242 | `sbufl_to_manifest` then `sbufl_fill`, and the phase-1 pair: the entry written at a position reads back unchanged, and the cursor ends just past its frames. |
| Sbufl.ManifestReadAll | src/protocol1/sbufl.c:176-242 | A whole manifest of well-formed entries reads back as exactly those entries, then a clean end (an error on a stream that fails at its end). |
| Sbufl.ReadAllAtEnd | src/protocol1/sbufl.c:14-26 | At the end of a manifest no entry is read and the result is end of file. |
| Dpth.MkShape | src/server/protocol1/dpth.c:11-20 | The data path is three four-digit upper-case hex fields holding the components, separated by '/'. ".gz" is appended exactly when compressed and not an EFS file, so it is 14 or 17 characters and fits the 32-byte buffer. |
| Dpth.MkPrefixes | src/server/protocol1/dpth.c:22-34 | The prim and prim/seco directory names are prefixes of the data path of the same cursor. |
| Dpth.MkRoundTrip | src/server/protocol1/dpth.c:11-20 | Scanning a rendered data path, with or without ".gz", gives back the cursor it was rendered from. |
| Dpth.GetHighestEntry | src/server/protocol1/dpth.c:36-54 | The directory loop computes `Highest`: 0 for a directory that cannot be opened; ".", ".." and freed slots are skipped. |
| Dpth.HighestIsMax | src/server/protocol1/dpth.c:42-53 | When every name fits 16 bits, the result is the largest value among the counted names, is one of them (or 0), and is 0 for a missing directory. |
| Dpth.ScanIsMax | src/server/protocol1/dpth.c:44-52 | The loop's running maximum is at least its start and every key, and is the start or one of the keys. |
| Dpth.NameValue | src/server/protocol1/dpth.c:50 | A name made of `%04X` of v and a non-hex suffix such as ".gz" counts as v. |
| Dpth.NameWithoutDigits | src/server/protocol1/dpth.c:50 | A name starting with neither a hex digit, white space nor a sign counts as 0. |
| Dpth.HighestTruncates | src/server/protocol1/dpth.c:38-51 | A value above 0xFFFF is stored cut to 16 bits, so the result depends on the order of the names. |
| Dpth.GetNextComp | src/server/protocol1/dpth.c:56-72 | Returns 0 and the highest entry of the base directory, or of the given path below it. |
| Dpth.LocatedMissing | src/server/protocol1/dpth.c:83-90 | A missing directory at any of the three levels reads as 0 without error. |
| Dpth.LocatedIsHighest | src/server/protocol1/dpth.c:83-90 | prim is the highest name in the base directory. seco is the highest inside that prim directory only, and tert the highest inside that prim/seco only. |
| Dpth.Cursor.Init | src/server/protocol1/dpth.c:74-102 | Stores the subdirectory limit. It calls `dpth_incr` exactly once, on the located cursor, and keeps its result. It returns -1 exactly when `dpth_incr` does, else 0. |
| Dpth.SetFromStringCodes | src/server/protocol1/dpth.c:104-116 | NULL or a tree-style path leaves the cursor alone with 0. A path that does not scan is the only error (-1) and also leaves the cursor alone. |
| Dpth.SetFromStringAdopts | src/server/protocol1/dpth.c:117-125 | The cursor moves only to the scanned triple, and moves to it exactly when it covers the cursor component by component. |
| Dpth.SetFromStringMonotone | src/server/protocol1/dpth.c:117-125 | No component of the cursor ever goes down. |
| Dpth.SetFromStringIdempotent | src/server/protocol1/dpth.c:104-126 | Applying the same data path twice is applying it once. |
| Dpth.SetFromRendered | src/server/protocol1/dpth.c:104-126 | A rendered data path is accepted and moves the cursor to its triple exactly when that triple covers the cursor. |
| Dpth.SetFromStringNotLexicographic | src/server/protocol1/dpth.c:118-120 | 0000/0005/0000 ignores 0001/0000/0000, although the latter comes later in allocation order. |
| Dpth.Cursor.SetFromString | src/server/protocol1/dpth.c:104-126 | The return code and the new triple are those of `SetFromStringSpec`. |
| BackupPhase1.SelectSymbolsFacts | src/client/backup_phase1.c:183-192 | From the defaults, the file and metadata symbols become the encrypted ones exactly when protocol 1 has an encryption password. Otherwise nothing changes. The directory symbol never changes, and selecting twice is selecting once. |
| BackupPhase1.Phase1Client.BackupPhase1Client | src/client/backup_phase1.c:172-208 | Reassigns the symbols as `SelectSymbols` says; the result is 0 exactly when the scan succeeds. |
| BackupPhase1.DispatchCommands | src/client/backup_phase1.c:138-169 | Regular files, raw devices and FIFOs go as file data at the `in_exclude_comp` level. Directories, reparse points and junctions go under the directory symbol. Only the two link types get a link command. The four scan problems, and only they, go to `ft_err`; unknown types are logged. |
| BackupPhase1.FtErrResult | src/client/backup_phase1.c:74-77 | -1 exactly when scan problems raise errors or logging fails, 0 otherwise. |
| BackupPhase1.SendFileRecords | src/client/backup_phase1.c:138-169 | An entry that goes to the server is sent as records that start with its attributes. Every other entry is sent as exactly one warning record. |
| BackupPhase1.ProblemSkipped | src/client/backup_phase1.c:74-75 | The server reading the network passes over the warning sent for an entry that is not backed up: the next entry it reads is the one after the warning. |
| BackupPhase1.Logw | src/client/backup_phase1.c:74-75 | The message goes out as one warning record; 0 exactly when the write fits, else -1. |
| BackupPhase1.FtErr | src/client/backup_phase1.c:67-78 | Sends the warning "[Err: ]msg path: error text". The result is -1 exactly when that write fails or scan problems raise errors, 0 otherwise. |
| BackupPhase1.Phase1Client.UsualStuff | src/client/backup_phase1.c:46-57 | Sends the attributes, then the path under `cmd`, then the link only for links, stopping at the first failed write. The result is 0 exactly when all fit. |
| BackupPhase1.Phase1Client.MaybeSendExtrameta | src/client/backup_phase1.c:59-65 | Sends nothing without extra metadata. Otherwise it sends the usual records under the given symbol without a link. |
| BackupPhase1.Phase1Client.DoToServer | src/client/backup_phase1.c:80-112 | Sets the compression and stat data before encoding the attributes. It then sends the entry and, when there is some, its extra metadata under the metadata symbol. |
| BackupPhase1.Phase1Client.SendFile | src/client/backup_phase1.c:121-170 | Carries out the action the switch selects. It sends the entry through `do_to_server` at the right level, or it sends one warning through `ft_err` or `logw` and leaves the static sbuf alone. The sent records are `SendFileRecords`, up to the first failed write. The result is that of `ft_err`, or 0 exactly when the `logw` write fits. |
| BackupPhase1.UsualReadBack | src/client/backup_phase1.c:46-57 | The records `usual_stuff` sends are read back by the server's `sbufl_fill` as one entry with that attribute payload, path, command and link, whatever follows them. |
| BackupPhase1.EntryReadBack | src/client/backup_phase1.c:80-112 | Everything `do_to_server` sends is read back as the entry, followed, when there is extra metadata, by the metadata entry for the same path. |
| Diff.ManifestPathInBackup | src/server/diff.c:16-17 | The manifest is a file directly inside the backup's directory. The protocol-1 and other manifest paths of one backup differ. |
| Diff.ForwardedShape | src/server/diff.c:37-43 | For a filled entry exactly attributes, then path, then the link for a link go out; data path and end-of-file records never do. |
| Diff.ForwardEntry | src/server/diff.c:37-43 | The entry's records go out in order until a write fails; success exactly when all fit. |
| Diff.DiffManifest | src/server/diff.c:6-54 | Forwards the records of every entry the manifest yields until a write fails. It returns 0 exactly when the manifest ends cleanly and every write fits. A manifest that cannot be opened sends the out-of-memory error record and is -1. |
| Diff.DiffForwardsManifest | src/server/diff.c:27-45 | A manifest burp wrote is forwarded entry by entry, and the read ends in success. |
| Diff.NameIsTimestamp | src/server/diff.c:56-63 | The name sent is a timestamp record holding the timestamp alone, cut to 63 characters. |
| Diff.SendBackupNameToClient | src/server/diff.c:56-63 | Writes that record; 0 exactly when the write fits. |
| Diff.NameAndDiff | src/server/diff.c:92-94 | The first match gets its name, then its manifest's records; the diff is not attempted once the name cannot be sent. |
| Diff.FirstMatch | src/server/diff.c:85-95 | The backup chosen matches (timestamp equal to the argument, or number equal to its decimal value), and no earlier one does. With no result, none matches. |
| Diff.LaterMatchesIgnored | src/server/diff.c:87-91 | Backups after the first match are ignored, whatever they are. |
| Diff.ListBackups | src/server/diff.c:97-103 | Without an argument every backup is named, in list order, until a write fails. |
| Diff.SearchBackups | src/server/diff.c:82-96 | With an argument only the first match is named and diffed. `found` holds exactly when there is a match, and nothing is sent when there is none. |
| Diff.DoDiffServer | src/server/diff.c:65-115 | Sends what `DiffPlan` says until a write fails: every name without an argument; the first match and its manifest with one; "backup not found" and -1 when nothing matches. A failed `bu_get_list` is -1 and sends nothing. The backup number of the argument is `strtoul` in base 10, which saturates at `ULONG_MAX` and negates modulo 2^64 after a minus sign. |
| ListClient.EncodeMode | src/list_client.c:14-30 | Writes exactly the ten characters of the mode string and a NUL from the start position, returns the position of the NUL, and leaves the rest of the buffer alone. |
| ListClient.ModeStringKeepsPermissions | src/list_client.c:19-27 | Reading the mode string back gives all twelve permission bits, set-id and sticky bits included (s/S, t/T). |
| ListClient.ModeStringKeepsType | src/list_client.c:17-18 | Reading the mode string back gives the file type of a directory, block or character device, link, FIFO, socket or regular file. |
| ListClient.TypeBits | src/list_client.c:17-18 | The type letter never reads back as a permission bit, and reads back as the type for a known type. |
| ListClient.EcharIndex | src/list_client.c:110-112 | The inner loop ends nonzero exactly when the character is one of `echars` (its NUL included), at that character's index plus one. |
| ListClient.JsonEscape | src/list_client.c:91-117 | NULL gives NULL. Otherwise the result is a fresh buffer holding the escaped string and a NUL, in an allocation corrected to 2n + 1. |
| ListClient.EscapeLength | src/list_client.c:108-115 | The escaped length is n plus the number of backslashes and quotes. |
| ListClient.UnescapeEscape | src/list_client.c:108-115 | Escaping loses nothing: unescaping gives the string back. |
| ListClient.EscapeQuoteSafe | src/list_client.c:108-115 | No quote or backslash in the escaped string stands on its own. |
| ListClient.EscapeFits | src/list_client.c:102-115 | The escaped string and its NUL fit in 2n + 1 characters. |
| ListClient.AsWrittenOverflows | src/list_client.c:102-115 | The 2n allocation is too small exactly when every character is escaped, which includes the empty string. |
| ListClient.JsonOut.PrintSpaces | src/list_client.c:121-125 | Prints `count` spaces, none for a count of 0 or less. |
| ListClient.JsonOut.CloseTag | src/list_client.c:127-135 | `current_tag` becomes `level - 1` when it was at least `level`, and is unchanged otherwise. Each depth left prints its closing bracket, and the nesting stays balanced. |
| ListClient.JsonOut.OpenTag | src/list_client.c:137-162 | `current_tag` becomes `level`. Deeper levels are closed, a sibling is separated, or the levels down to this one are opened. The nesting stays balanced when a sibling separator is printed only at an even level. |
| ListClient.BracketsMatch | src/list_client.c:127-162 | The bracket that enters a depth is the partner of the one that leaves it. |
| ListClient.CloseKeepsNesting | src/list_client.c:129-134 | Closing down to a level pops the open brackets in order. |
| ListClient.OpenKeepsNesting | src/list_client.c:152-161 | Opening up to a level pushes one bracket per depth. |
| ListClient.SiblingNesting | src/list_client.c:144-151 | The sibling separator "},{" keeps the nesting right exactly at an even level. |
| ListClient.TagKeepsNesting | src/list_client.c:137-162 | `open_tag` at a level, with a sibling only at an even level, leaves exactly the brackets of the depths up to that level open. |
| ListClient.SplitDeletable | src/list_client.c:207-211 | The timestamp is cut at the first " (deletable)", and the flag holds exactly when the marker occurs. |
| ListClient.DeletableRoundTrip | src/list_client.c:207-215 | A timestamp with the marker appended reads back as that timestamp and deletable. Without the marker it reads back as itself and not deletable. |
| ListClient.JsonOut.JsonBackup | src/list_client.c:204-226 | Opens a backup object at depth 2 with the timestamp (marker cut off) and the deletable flag. When a backup was named it adds the directory, the regex and an "items" array at depth 3, and the nesting stays balanced. |
| ListClient.ListRequestRoundTrip | src/list_client.c:267-272 | A request that fits its 512-byte buffer parses back into the browse flag, the backup and the directory or regex, provided the backup holds no colon. |
| ListClient.ListLoopRoundTrip | src/list_client.c:284-366 | What a server sends for a well-formed listing is listed as it was: timestamps, items with their links, and unlistable entries. The loop ends with 0 when the records run out. |
| ListClient.ListLoopFailureSticks | src/list_client.c:343-359 | A link record that is missing or of another command makes the result -1. The loop goes on, and the -1 stays. |
| ListClient.ListOnce | src/list_client.c:286-365 | One turn of the loop reads and hands on what `ListTurn` says. In JSON mode the output stays inside the "backups" array with balanced nesting. |
| ListClient.ReadListing | src/list_client.c:284-366 | The loop lists and returns what `ListLoop` says, and keeps the JSON nesting balanced. |
| ListClient.DoListClient | src/list_client.c:257-373 | Sends the request and lists only when the server answers "ok", else -1. In JSON mode every bracket opened is closed by the end. |
| ListClient.TimeShown | src/list_client.c:72-73 | The time shown is the later of the change and modification times. |

## Left out

- Sbufl.ParseHeader: `sscanf("%c%04X")` is modelled as one to four hex digits after the command. The white space, sign and "0x" prefix that `%X` would also accept are not modelled.
- Sbufl.Frame: the writers `iobuf_send_msg_fp`/`_zp` are not part of this model. Their framing is taken to mirror `read_fp`, with a newline as the trailing byte.
- Sbufl.ToSink: requires the attributes, and for file data with end-of-file records the end-of-file record, to be set. The source would pass a NULL buffer to the writer, which is not part of this model.
- Sbufl.Reader: gzip decompression and compression are not modelled. A manifest is its decompressed bytes, and `failsAtEnd` says whether running off its end is an error rather than end of file.
- The attribute payload is opaque: `attribs_encode` and `attribs_decode` are not part of this model. So is `iobuf_move`, beyond moving a record into a buffer.
- `malloc` failures are not modelled. This affects `read_fp_msg`, `json_escape`, the static sbuf of `send_file` and the joined path of `get_next_comp`.
- Local logging (`logp`), counters (`cntr_*`), `write_status` and the messages printed on errors are not modelled. Warnings and errors sent over the network are.
- log.c is not part of this model. `logw` with a channel is taken to send its message as one `CMD_WARNING` record and to return that write's result. Its message buffer size, the estimate mode that prints instead of sending, and the warning counter are not modelled.
- `log_and_send_oom` (log.c) is taken to send "out of memory in <function>()" and a newline as one `CMD_ERROR` record. Its write result is dropped, as `diff_manifest` fails in any case.
- Network reads and writes are records in an `Asfd` channel. A write fails once `room` writes have been made. `asfd->read`, `write_str` and `async_read_expect` are not part of this model.
- `async_read_expect` is taken to fail unless the next record is the generic record "ok".
- cmd.h is not part of this model. The command letters follow burp's; the proofs use only that they differ from each other.
- `mode_t` uses Linux's bit values; sys/stat.h is not part of this model.
- `dpth_incr` is not part of this model. `Init` takes it as a function parameter and calls it exactly once.
- Dpth.ScanTriple, Dpth.SetFromStringCodes, Dpth.Cursor.SetFromString: each `%04X` of the `sscanf` at `dpth.c:114` is modelled as one to four hex digits. The leading white space, sign and "0x" prefix that `%X` also accepts are not. A path such as "0001/+002/0003" is therefore an error in the model, while the C code scans it. burp's own data paths (`Mk`) never contain them.
- Dpth.Cursor.Init: returns -1 only when `dpth_incr` does, because `get_next_comp` can fail only on allocation.
- `opendir`/`readdir` are a map from directory path to its list of entries.
- The Win32, VSS and EFS `#ifdef` branches of `backup_phase1.c` are not modelled.
- The file-system scan (`find_files_*`) of `backup_phase1_client` is one success flag.
- `in_exclude_comp`, `has_extrameta`, `attribs_encode` and the text of `strerror(errno)` are given as parameters (`Externals`).
- BackupPhase1.UnknownTypeText: the unknown type is printed with `%d` of its code. The gettext translation `_()` is not modelled.
- Diff.DiffManifest: `manio_sbuf_fill` is not part of this model. It is modelled by this codec's reader over the manifest's bytes, as a full manifest. `manio_init_read` fails exactly when the manifest is missing from the store; the other failures of that block are allocation failures.
- Diff.DoDiffServer: `bu_get_list` is given as its result, None when it fails.
- ListClient.DoListClient: states the JSON nesting and what is listed, not the full text printed.
- `encode_time`, the numeric columns of `ls_to_buf`, `ls_long_output(_json)`, `ls_short_output(_json)` and `list_item` are display formatting over libc and are not modelled.
- `decode_stat` is not modelled.
- ListClient.JsonOut.OpenTag: balanced nesting is promised only when the sibling separator is printed at an even level. At an odd level the "}" does not close the "[" (SiblingNesting). `do_list_client` reaches it only at levels 2 and 4.

## Findings

| source | as written | input that shows it | evidently intended | confidence | as-written member | corrected member |
|---|---|---|---|---|---|---|
| src/list_client.c:102 | `json_escape` allocates `2*n` bytes and then writes the escaped string and a NUL | the empty string (n = 0: the NUL is written into a zero-byte allocation), or a single `"` (three characters into two bytes) | an allocation of `2*n+1` bytes | not executed | ListClient.AsWrittenOverflows | ListClient.EscapeFits |
