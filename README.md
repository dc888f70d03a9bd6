# ftp.py file-transfer protocol, modelled in Dafny

`ftp.py` runs two roles at once on each peer. The sender (`send_file`) pushes
files over one TCP connection. The receiver (`as_server`) writes whatever
arrives into its folder `ftp-recv`. The wire protocol is stop-and-wait. For
each file the sender sends three kinds of frame:

1. the base name;
2. the size, as a decimal string;
3. the content, in chunks of at most `BUFFER_SIZE` (8192) bytes.

After the name it reads one acknowledgement, after the size another, and
after the last chunk a third. The receiver is a loop over three states:

- state 0 takes a name, or `EXIT`, which ends the session;
- state 1 takes the size;
- state 2 appends data frames to the file until its byte counter equals the
  size.

It answers `OK` at fixed points.

The project has five modules, one file each:

- `wire.dfy` (`Wire`): bytes, frames and the protocol constants
  (`BUFFER_SIZE`, `FOLDER_RECV`, `OK`, `EXIT`). It also holds the text codec
  for names and sizes, `str(n)` (`ShowNat`) and `int(s)` (`ParseInt`), and
  `Flatten`, which concatenates frames.
- `paths.dfy` (`Paths`): the quote stripping at the top of `send_file`, plus
  POSIX `os.path.basename` and `os.path.join`.
- `sender.dfy` (`Sender`): the specification functions `Chunks`,
  `EncodeFile`, `EncodeFiles` and `FileList`. It also holds the imperative
  sending loops `SendChunks`, `SendOne`, `SendFiles` and `SendFile`, each
  proved against those functions.
- `receiver.dfy` (`Receiver`): the receive loop as a pure transition function
  `Next` over a `Session` record, and its iteration `Run` over a sequence of
  frames. It also holds the class `Server`, whose fields are the loop
  variables of `as_server` (`state`, `fileName`, `filePath`, `fileSize`,
  `fileSizeRecv`) and the destination folder. `Server.Step` runs one
  iteration and `Server.Serve` runs the loop; both are proved against
  `Next`/`Run`.
- `transfer.dfy` (`Transfer`): what the two halves do together. The sender's
  frames, fed to a receiver waiting for a name, put each file's bytes under
  its base name in `ftp-recv` and draw as many `OK`s as the sender reads.

Modelling assumptions:

- Each `sendall` on the sender arrives as exactly one `recv` on the
  receiver. A frame is one such unit.
- The receiver's folder is a map from path to content (`Destination`). Opening
  a file in `'ab'` mode and writing to it is `Appended`: a missing file is
  created, and an existing one keeps its bytes with the new bytes after them.
- On the sender, the filesystem is a map from path to `RegularFile(content)`
  or `Directory(listing)`. The listing is what `get_files` returns, given as
  an input.

## Model

| member | source | states |
|---|---|---|
| `Wire.DecodeEncode` | ftp.py:158 | decoding a name that was encoded gives the name back |
| `Wire.EncodeDecode` | ftp.py:91 | encoding a decoded frame gives the frame back |
| `Wire.EncodeTextInjective` | ftp.py:91 | distinct names are sent as distinct frames |
| `Wire.ShowNat` | ftp.py:94 | `str(n)` of a non-negative size is a canonical decimal: only digits, no leading zero |
| `Wire.ParseShow` | ftp.py:168 | the size encoding round-trips: `int(str(n)) == n` for every n ≥ 0 |
| `Wire.ShowParse` | ftp.py:168 | conversely, `str(int(s)) == s` for every canonical decimal s |
| `Wire.ParseNegative` | ftp.py:168 | `int` accepts a leading '-', so a frame like "-5" parses to a negative size |
| `Wire.FlattenAppend` | ftp.py:181-182 | concatenating the bytes of two frame sequences is the bytes of their concatenation |
| `Paths.StripPair` | ftp.py:72-73 | a text of two or more characters that starts and ends with the quote is that quote, the result, and the quote again; a lone quote becomes empty; any other text is kept as it is |
| `Paths.StripQuotesUnquoted` | ftp.py:72-75 | a path not wrapped in either kind of quote is used as typed |
| `Paths.StripQuotesNested` | ftp.py:72-75 | `"'p'"` is cleaned to `p`: double quotes first, then single quotes |
| `Paths.StripQuotesOnce` | ftp.py:72-73 | only one pair of double quotes is removed |
| `Paths.StripQuotesSingleOutside` | ftp.py:72-75 | single quotes outside double quotes leave the double quotes in place |
| `Paths.StripQuotesInfix` | ftp.py:72-75 | at most two characters go from each end, and the result is a contiguous middle part of the path |
| `Paths.BasenameSpec` | ftp.py:87 | the base name contains no '/', is a suffix of the path, and is the whole path or follows a '/' |
| `Paths.BasenameAfterSlash` | ftp.py:87 | the base name of any path followed by '/' and a name without '/' is that name |
| `Paths.JoinRecvBasenameBack` | ftp.py:163 | the base name of a name's path inside `ftp-recv` is the name again, so the receiver's path keeps the sender's base name |
| `Paths.JoinRecvBasename` | ftp.py:163 | a base name lands directly inside `ftp-recv` |
| `Paths.JoinRecvInjective` | ftp.py:163 | different names without '/' get different destination paths |
| `Sender.ChunksSpec` | ftp.py:99-105 | every chunk is non-empty and at most 8192 bytes long; all but the last are exactly 8192; the chunks concatenate to the file's bytes |
| `Sender.ChunksEmpty` | ftp.py:99-103 | a file has no data frames exactly when it is empty |
| `Sender.ChunksCount` | ftp.py:99-105 | the number of data frames is the size divided by 8192, rounded up |
| `Sender.FileListMissing` | ftp.py:76-78 | a path that does not exist sends no frames |
| `Sender.FileListRegular` | ftp.py:79-81 | an existing regular file gives a one-element file list, sent under its own path |
| `Sender.ChunksStep` | ftp.py:100-105 | one read of a non-empty remainder yields the next chunk, and the rest is chunked the same way |
| `Sender.SendChunks` | ftp.py:99-105 | the read-and-send loop sends exactly the chunks of the file's bytes |
| `Sender.SendOne` | ftp.py:85-106 | for one file: base name, then `str(size)`, then the chunks, with exactly three acknowledgement reads |
| `Sender.SendFiles` | ftp.py:85-108 | a file list is sent file after file, with 3 reads per file |
| `Sender.SendFile` | ftp.py:70-108 | after quote stripping: a missing path sends nothing and reads nothing; a regular file sends its own frames and reads three acks |
| `Receiver.AppendedTwice` | ftp.py:181-182 | two appends to one file are one append of both pieces |
| `Receiver.NextConsistent` | ftp.py:155-195 | every iteration keeps the loop invariant: size and counter are 0 outside state 2; in state 2 the size is non-zero and not yet reached |
| `Receiver.NameFrame` | ftp.py:157-166 | in state 0 any name but `EXIT` becomes `file_name`, `file_path` becomes `ftp-recv/name`, one OK goes back, state 1 is next, and nothing is written |
| `Receiver.ExitFrame` | ftp.py:157-162 | the session ends exactly on `EXIT` in state 0, and ending it writes nothing |
| `Receiver.CrashFrame` | ftp.py:168 | the receiver dies exactly on a size frame that `int` cannot parse |
| `Receiver.ZeroSizeFrame` | ftp.py:167-179 | size 0: two OKs, back to state 0 without state 2; the file is created if missing, and otherwise kept as it was; no other file changes |
| `Receiver.NonZeroSizeFrame` | ftp.py:167-173 | any other size: one OK, and state 2 is next with that size; nothing is written |
| `Receiver.DataFrame` | ftp.py:180-195 | in state 2 the frame is appended and counted. An OK is sent exactly when the counter reaches the size, and then name, path, size and counter are reset and the state is 0. Otherwise nothing is sent and the state stays 2 |
| `Receiver.RunAppend` | ftp.py:155-156 | running the loop over `a + b` is running it over `a` and then over `b` |
| `Receiver.DataRun` | ftp.py:180-185 | while the size is not reached, the file holds its earlier content followed by every frame received for it, in order. The counter is their total length, nothing is sent, and no other file changes |
| `Receiver.DataComplete` | ftp.py:180-195 | non-empty frames totalling the remaining size complete the file: exactly one OK, then the loop is back in state 0 with all variables reset |
| `Receiver.OvershootStuck` | ftp.py:184-186 | once the counter has passed the size, no later frame completes the file: state 2 forever and no ack ever again |
| `Receiver.NegativeSizeStuck` | ftp.py:168-173 | a negative size draws one OK and then leaves the loop in state 2 for good |
| `Receiver.Server.constructor` | ftp.py:148-154 | the loop variables start at state 0, empty name and path, and size and counter 0 |
| `Receiver.Server.Step` | ftp.py:155-195 | one iteration updates the fields exactly as `Next` does, returns its acks, exit or crash, and keeps the invariant |
| `Receiver.Server.Serve` | ftp.py:155-195 | the loop over the received frames ends in the state `Run` describes and has sent every ack `Run` lists |
| `Transfer.RunNameFrame` | ftp.py:157-166 | the name frame of a file not called `EXIT` draws one OK and sets name and path |
| `Transfer.RunSizeFrame` | ftp.py:167-179 | the frame `str(size)` draws two OKs and a return to state 0 when the size is 0, and otherwise one OK and state 2 |
| `Transfer.RunFileHeader` | ftp.py:163-166 | the first frame of a file points the receiver at `ftp-recv/` plus the file's base name |
| `Transfer.ReceiveEmptyData` | ftp.py:171-179 | the size frame of an empty file, followed by no data, draws two OKs and creates the file |
| `Transfer.ReceiveContentData` | ftp.py:180-195 | the size and data frames of a non-empty file draw two OKs, append the content and reset the loop |
| `Transfer.ReceiveEmptyFile` | ftp.py:165-179 | an empty file: three OKs, back in state 0, and the target exists with its earlier content |
| `Transfer.ReceiveNonEmptyFile` | ftp.py:180-195 | a non-empty file: three OKs, and the content is appended to the target with the loop reset |
| `Transfer.ReceiveFile` | ftp.py:85-106 | any one file: the receiver sends three OKs, as many as the sender reads, and returns to state 0 with the bytes at the target |
| `Transfer.ReceiveOneMore` | ftp.py:85-106 | after a run that left the receiver in state 0, one more file adds three OKs and its bytes |
| `Transfer.ReceiveFiles` | ftp.py:85-108 | a list of files: 3 OKs per file, all of them `OK`, and every file appended at its target in order |
| `Transfer.TargetInjective` | ftp.py:163 | files with different base names go to different targets |
| `Transfer.AppendedFresh` | ftp.py:176-182 | appending to a missing file creates it with exactly the appended bytes and adds nothing else |
| `Transfer.AppendAllDistinct` | ftp.py:181-182 | writes to distinct, missing paths leave each path holding exactly its bytes; nothing else is changed or added |
| `Transfer.DeliverWrites` | ftp.py:85-108 | delivering files is appending their writes in order |
| `Transfer.DeliverDistinct` | ftp.py:85-108 | round trip: if base names are distinct and no target exists yet, each target ends up equal to its source file's bytes, and nothing else changes |
| `Transfer.ReceiveThenExit` | ftp.py:136 | files followed by `EXIT`: every file lands, then the receiver stops without writing anything more |
| `Transfer.ExitNamedFile` | ftp.py:159-162 | a file whose base name is `EXIT` is never written: its name frame ends the receiver's session |
| `Transfer.SendRegularFile` | ftp.py:70-106 | a regular file, whatever quotes surround its path, ends up under its base name byte for byte if that target did not exist; three OKs go back; existing files are kept |
| `Transfer.SendMissingPath` | ftp.py:76-78 | a path that does not exist leaves the receiver untouched |

## Left out

- Sockets are left out: creating, binding, listening, accepting and connecting
  them, and `get_host_ip`. So are the threads in `main`, because the two roles
  share no variables.
- Console I/O is left out: `my_input`, `my_print`, `colorful`, the progress
  bars and the status messages. These are presentation only.
- The config file holding the destination host is left out. So are the
  `ftp-send` folder prompt, `shutil.rmtree`, and the walk over `sys.argv` and
  prompted paths in `as_client`. Only the final `EXIT` frame (ftp.py:136)
  appears, in `Transfer.ReceiveThenExit`.
- `get_files` does not walk a real directory tree. It calls `os.path.isdir`
  on the bare entry name, so its result depends on the process's working
  directory. A directory's file list is therefore an input (`Directory(listing)`).
- TCP may merge or split sends. The model assumes one `recv` per `send`.
  Under that assumption, a name frame longer than 8192 bytes, which `recv`
  would cut, is not modelled. `Receiver.OvershootStuck` shows that once more
  bytes arrive than were announced, the receiver stays in state 2 forever.
- `Wire.EncodeText` and `Wire.DecodeText` use one byte per character, for
  characters below 256. This agrees with Python's UTF-8 `encode()`/`decode()`
  only on ASCII. Characters 128 to 255 take two bytes in UTF-8, and
  undecodable frames raise in Python. Neither case is modelled.
- `Wire.ParseInt` accepts an optional sign and ASCII digits. It does not
  accept the surrounding whitespace and the underscores that Python's `int`
  also allows. A frame it rejects ends the receiver with `Crash`, standing in
  for the uncaught `ValueError`.
- Acknowledgement contents are left out. The sender reads each ack and
  ignores its bytes, so the model only counts the reads.
- Failures of `open()` are left out. The receiver's `open(path, 'ab')` fails
  when `ftp-recv` holds a folder of that name, and the sender's
  `open(path, 'rb')` fails without read permission. In both cases the program
  dies with an uncaught exception. A `FileSystem` only holds readable files,
  and a `Destination` only holds files.
- Base names that cannot name a regular file are left out. A path ending in
  '/' has an empty base name. The sender's `sendall` of an empty name sends
  no bytes, so the receiver never gets a name frame and both sides wait
  forever. The names "." and ".." make the receiver open a folder, which
  fails. `Paths.ProperName` excludes these three names, and the lemmas below
  require it of every base name:
- Transfer.ReceiveFile: requires a `ProperName` base name.
- Transfer.ReceiveOneMore: requires a `ProperName` base name.
- Transfer.ReceiveFiles: requires a `ProperName` base name for every file.
- Transfer.DeliverDistinct: requires a `ProperName` base name for every file.
- Transfer.ReceiveThenExit: requires a `ProperName` base name for every file.
- Transfer.SendRegularFile: requires a `ProperName` base name for the cleaned path.
- An empty file makes the receiver send two `OK`s in a row (ftp.py:170 and
  ftp.py:178) with no frame in between. TCP may deliver both to the
  sender's `recv` at ftp.py:95. The `recv` at ftp.py:106 then waits for
  bytes that never come. The model assumes one `recv` per `send`, so it
  counts three separate acks.
- `os.path` is taken with POSIX semantics. On Windows, `ntpath.basename`
  also splits at `\` and after a drive letter's colon. That is not modelled.
- File sizes are taken from the content's length. `os.path.getsize` and the
  reads see the same snapshot; concurrent changes to the file are not
  modelled.
