# A verified model of the file-to-request core of utils/read.py

`utils/read.py` is a command-line tool. It takes file and directory paths,
finds the text files among them, cuts each file into chunks of at most
20 * 1024 characters, and turns the chunks into the message list of a
chat-completion request. This project models that pipeline in Dafny:

- **Chunker** (`chunker.dfy`): `chunk`. The file's decoded contents are a
  whole chunk when they fit. Otherwise they are cut into consecutive slices
  of `MAX_CHUNK_SIZE` characters.
- **FileSelector** (`selector.dfy`): `isText` and `getFiles`.
  - The suffix rule of `isText` is modelled exactly. The MIME guess and the
    UTF-8 probe are opaque functions in a `Probes` value.
  - The file system is a map from input path to a regular file or a
    directory tree. `os.walk`, with its in-place pruning of
    `IGNORED_FOLDERS`, is the function `Walk`.
  - `getFiles` is the method `GetFiles`, with its loops in the helper
    methods `WalkTextFiles` and `DirTextFiles`.
- **MessageBuilder** (`messages.dfy`): `buildMessage`.
  - The dict is a sequence of `(path, chunks)` entries in insertion order.
  - `BuildMessage` and `EntryMessages` are the two loops of the source.
  - The inner loop variable `chunks` shadows the parameter, so each label
    counts the chunks of its own file.
- **Pipeline** (`pipeline.dfy`): the loop of `main` that fills the chunk
  dict, and the path from `getFiles` to `buildMessage`.
  - Dict assignment is `Put`.
  - Reading a file is a function parameter `read`. It gives `None` when
    `open` raises, which ends the run at that path.
- **Text** (`text.dfy`) and **Sorting** (`sorting.dfy`) hold the Python
  built-ins the core relies on:
  - `str.endswith` and `str.startswith`.
  - `str.strip()`.
  - `str(n)` for integers.
  - Python's string order.
  - `sorted`, as an insertion sort proved to be the unique sorted
    permutation.
- **Wrappers** and **Seqs** are helpers: `Option`/`Result`, and small
  sequence lemmas.

Main results:

- Joining the chunks gives back the contents (`ChunkConcat`).
- Every chunk fits, and only the last may be short (`ChunkShape`).
- `getFiles` returns a sorted permutation of what it collects, duplicates
  included. A path is in the result exactly when it passes `isText` and some
  input path accounts for it: the path itself, or a file below an input
  directory that is reached without entering an ignored folder (`GetFiles`,
  `CollectedIff`, `WalkSound`, `WalkComplete`).
- The request is the stripped instruction, the guardrail, one message per
  chunk in dict order, then the stripped prompt (`MessagesShape`,
  `MessageAt`). The `[chunk i/n]` tag appears exactly when a file has more
  than one chunk, and it reads back as `(i, n)` (`LabelTagged`).
- The chunk dict has each collected path once as a key, in sorted order,
  holding that file's chunks. The loop fails exactly when some file cannot
  be opened, and then it fails at the first such file (`RequestEntries`,
  `ChunkMapEntries`, `ChunkMapSucceeds`, `ChunkMapFails`).

## Model

| member | source | states |
|---|---|---|
| Chunker.Chunk | utils/read.py:53-58 | `chunk` on the decoded contents: `[data]` when it holds at most MAX_CHUNK_SIZE characters, otherwise the slices `data[i:i+MAX_CHUNK_SIZE]` for i in `range(0, len(data), MAX_CHUNK_SIZE)`, the last one cut at the end. |
| Chunker.PieceCount | utils/read.py:58 | The number of starts in `range(0, n, MAX_CHUNK_SIZE)` is the least c with c * MAX_CHUNK_SIZE >= n. |
| Chunker.ChunkShape | utils/read.py:56-58 | Contents of at most MAX_CHUNK_SIZE characters, empty ones included, give the single chunk `[data]`. Longer contents give ceil(L / MAX_CHUNK_SIZE) chunks: all full except the last, which holds 1 to MAX_CHUNK_SIZE characters. No chunk is over the limit, and none is empty unless the contents are. |
| Chunker.ChunkPrefix | utils/read.py:58 | The first n chunks of long contents join to their first min(n * MAX_CHUNK_SIZE, L) characters. |
| Chunker.ChunkConcat | utils/read.py:53-58 | Joining the chunks in order gives back the decoded contents exactly (round trip). |
| Text.EndsWith | utils/read.py:26 | `str.endswith`: the suffix is no longer than the string and equals its tail. |
| Text.StartsWith | utils/read.py:30 | `str.startswith`: the prefix is no longer than the string and equals its head. |
| Text.IsSpace | utils/read.py:62 | `str.isspace` on one character: the code points Python counts as whitespace. |
| Text.Strip | utils/read.py:62 | `str.strip()` with no argument: leading whitespace dropped, then trailing whitespace dropped. |
| Text.Decimal | utils/read.py:69 | `str(n)` of a non-negative integer: its base-10 digits, most significant first. |
| Text.Le | utils/read.py:51 | The `<=` of Python str values that `sorted` uses: compare code point by code point, and a proper prefix comes first. |
| Text.TrimStartSpec | utils/read.py:62 | Stripping the start leaves the suffix after a run of whitespace, and that suffix starts with a non-space. |
| Text.TrimEndSpec | utils/read.py:62 | Stripping the end leaves the prefix before a run of whitespace, and that prefix ends with a non-space. |
| Text.StripIsTrimmedSlice | utils/read.py:74 | `strip()` returns a slice of its argument with only whitespace around it, and the slice neither starts nor ends with whitespace. |
| Text.StripIdempotent | utils/read.py:62 | Stripping twice gives what stripping once gives. |
| Text.DecimalDigits | utils/read.py:69 | `str(n)` is a non-empty run of ASCII digits with no leading zero unless n = 0. |
| Text.DecimalRoundTrip | utils/read.py:69 | Parsing `str(n)` gives back n. |
| Text.LeReflexive | utils/read.py:51 | Python's string order is reflexive. |
| Text.LeTotal | utils/read.py:51 | Python's string order is total. |
| Text.LeTransitive | utils/read.py:51 | Python's string order is transitive. |
| Text.LeAntisymmetric | utils/read.py:51 | Python's string order is antisymmetric, so `sorted` has one answer. |
| Sorting.Insert | utils/read.py:51 | Inserting into a sorted list keeps it sorted and adds exactly one occurrence of the element. |
| Sorting.Sort | utils/read.py:51 | `sorted` returns a sorted permutation of its input, duplicates kept. |
| Sorting.SortedUnique | utils/read.py:51 | Any two sorted lists holding the same elements the same number of times are equal. |
| FileSelector.EndsWithAny | utils/read.py:25-27 | The loop over the suffix list: true at the first suffix that ends the path, false when none does. |
| FileSelector.MimeSaysText | utils/read.py:29-30 | The MIME guess is present and starts with "text". |
| FileSelector.IsText | utils/read.py:23-37 | `isText`: false on an IGNORED_FILES suffix, else true on a text MIME guess, else the answer of the UTF-8 probe. |
| FileSelector.TextTest | utils/read.py:42 | isText with the platform's answers fixed, as the test getFiles applies to each path. |
| FileSelector.Join | utils/read.py:48 | POSIX `os.path.join(a, b)`: b when it is absolute, a + b when a is empty or ends in "/", else a + "/" + b. |
| FileSelector.Walk | utils/read.py:45-46 | `os.walk(root)` top-down with `dirnames` pruned in place: the directory itself, then the walks of its subdirectories not named in IGNORED_FOLDERS, in listing order. |
| FileSelector.WalkSubdirs | utils/read.py:45-46 | The walks of the subdirectories in listing order, skipping every name in IGNORED_FOLDERS. |
| FileSelector.TextFilesIn | utils/read.py:47-50 | The loop over `filenames`: each name joined to the walk's root, kept when it passes the test, in listing order. |
| FileSelector.WalkFiles | utils/read.py:45-50 | What the walk loop appends: the kept files of each visit, visit after visit. |
| FileSelector.PathFiles | utils/read.py:42-50 | What one input path appends: itself when it is a regular file that passes the test, the walk's files when it is a directory, nothing otherwise. |
| FileSelector.Collected | utils/read.py:40-50 | The list `files` before sorting: the contributions of the input paths, in input order. |
| FileSelector.EndsWithAnyIff | utils/read.py:25-27 | The early-return suffix loop answers true exactly when some listed suffix ends the path. |
| FileSelector.IgnoredNeverText | utils/read.py:25-27 | A path ending with any entry of IGNORED_FILES is not text, whatever the MIME guess and the probe say. |
| FileSelector.OtherwiseTextIff | utils/read.py:29-37 | A path with no ignored suffix is text exactly when its MIME guess starts with "text" or its UTF-8 probe succeeds. |
| FileSelector.KeepPyIsText | utils/read.py:23-37 | `proj/keep.py` has no ignored suffix, so a successful probe makes it text. |
| FileSelector.JoinPlain | utils/read.py:48 | `os.path.join` of a path without a trailing "/" and a relative name puts exactly one "/" between them. |
| FileSelector.WalkSubdirsFrom | utils/read.py:45-46 | Every directory visited below a directory lies in the walk of one of its subdirectories whose name is not in IGNORED_FOLDERS. |
| FileSelector.WalkSubdirsHas | utils/read.py:45-46 | The walk of every subdirectory not named in IGNORED_FOLDERS is part of the parent's walk. |
| FileSelector.WalkSound | utils/read.py:45-46 | Each visit of the pruned walk is a directory reached from the start through names none of which is in IGNORED_FOLDERS. Its root is the path those names join to. |
| FileSelector.StepDown | utils/read.py:46-48 | Descending into a kept subdirectory extends both the path of names and the joined root by that name. |
| FileSelector.WalkComplete | utils/read.py:45-46 | Every directory reached through names none of which is ignored is visited, with its joined path as root. |
| FileSelector.InTextFilesIn | utils/read.py:47-50 | The loop over one directory's file names collects exactly the joined names that pass isText. |
| FileSelector.InWalkFiles | utils/read.py:45-50 | The walk collects exactly what some visited directory contributes. |
| FileSelector.WalkFilesIff | utils/read.py:44-50 | A directory input collects exactly the text files in its directories that are not pruned. |
| FileSelector.PathFilesIff | utils/read.py:42-50 | One input path collects exactly the text files it accounts for: itself if a regular file, the unpruned tree below it if a directory, nothing otherwise. |
| FileSelector.CollectedSound | utils/read.py:39-50 | Every collected path passes isText and is accounted for by some input path. |
| FileSelector.CollectedComplete | utils/read.py:39-50 | Every path that passes isText and is accounted for by an input path is collected. |
| FileSelector.CollectedIff | utils/read.py:39-50 | A path is collected exactly when it passes isText and some input path accounts for it. |
| FileSelector.CollectedAppend | utils/read.py:41-50 | Collecting over a + b is collecting over a followed by collecting over b, so overlapping inputs contribute their files again. |
| FileSelector.ScenarioWalk | utils/read.py:45-46 | The walk of `proj` does not enter `proj/.git`. |
| FileSelector.ScenarioTop | utils/read.py:47-50 | Of `keep.py` and `ignore.png` in `proj`, only `proj/keep.py` is kept when only it passes the test. |
| FileSelector.ScenarioProj | utils/read.py:44-50 | The directory input `proj` collects only `proj/keep.py`. |
| FileSelector.ScenarioWith | utils/read.py:39-51 | For any test that keeps `proj/keep.py` and drops `proj/ignore.png`: input `proj` collects `[proj/keep.py]`, and inputs `proj` and `proj/keep.py` collect it twice. |
| FileSelector.Scenario | utils/read.py:39-51 | With isText itself: `.png` is ignored and `.git` is pruned, so only `proj/keep.py` is collected, and twice when it is also named directly. |
| FileSelector.GetFiles | utils/read.py:39-51 | The result is sorted and a permutation of what the loops collect, duplicates kept. A path is in it exactly when it passes isText and some input path accounts for it. |
| FileSelector.WalkTextFiles | utils/read.py:45-50 | The `os.walk` loop collects, visit after visit, each directory's text files. |
| FileSelector.DirTextFiles | utils/read.py:47-50 | The loop over one directory's file names collects, in listing order, the joined names that pass isText. |
| MessageBuilder.Label | utils/read.py:67-69 | The label of chunk idx of n: the path, plus " [chunk idx+1/n]" only when n > 1. |
| MessageBuilder.ChunkTag | utils/read.py:69 | The tag " [chunk {idx+1}/{n}]". |
| MessageBuilder.ChunkMessage | utils/read.py:70-73 | The user message "File: " + label + the chunk in a fenced block. |
| MessageBuilder.TotalChunks | utils/read.py:65-66 | The chunk count summed over the dict's entries. |
| MessageBuilder.Messages | utils/read.py:60-75 | The list buildMessage returns: the stripped instruction and the guardrail as system messages, the chunk messages entry by entry and chunk by chunk, and "User prompt: " + the stripped prompt. |
| MessageBuilder.FileMessages | utils/read.py:66-73 | A file's messages number exactly its chunks. |
| MessageBuilder.ChunkMessages | utils/read.py:65-73 | There are as many chunk messages as chunks over all entries. |
| MessageBuilder.ChunkMessageAt | utils/read.py:65-73 | Chunk idx of entry j is chunk message (chunks of the earlier entries) + idx, labelled with its own path, index and count. |
| MessageBuilder.MessageAt | utils/read.py:60-75 | Chunk idx of entry j is request message 2 + (chunks of the earlier entries) + idx, which lies before the final prompt. |
| MessageBuilder.MessagesShape | utils/read.py:60-75 | The request has 3 + (total chunks) messages: the stripped instruction and the guardrail as system messages first, and the "User prompt: " message with the stripped prompt last. |
| MessageBuilder.ChunkTagRoundTrip | utils/read.py:69 | The tag " [chunk i/n]" of chunk idx of n reads back as (idx + 1, n). |
| MessageBuilder.LabelTagged | utils/read.py:67-69 | A label starts with the file path. It carries a tag exactly when the file has more than one chunk, and the tag gives back the 1-based index and the count. |
| MessageBuilder.SingleChunkExample | utils/read.py:67-72 | The only chunk of `a.txt` becomes "File: a.txt" followed by the fenced chunk. |
| MessageBuilder.TagExample | utils/read.py:69 | The tags of a two-chunk file are " [chunk 1/2]" and " [chunk 2/2]". |
| MessageBuilder.TwoChunkLabels | utils/read.py:67-69 | The labels of a two-chunk `a.txt` are "a.txt [chunk 1/2]" and "a.txt [chunk 2/2]". |
| MessageBuilder.FirstOfTwoExample | utils/read.py:67-72 | The first chunk of a two-chunk file becomes "File: a.txt [chunk 1/2]" followed by the fenced chunk. |
| MessageBuilder.SecondOfTwoExample | utils/read.py:67-72 | The second chunk of a two-chunk file becomes "File: a.txt [chunk 2/2]" followed by the fenced chunk. |
| MessageBuilder.LabelExamples | utils/read.py:60-75 | In whole requests, a one-chunk file's message has no tag, and a two-chunk file's messages are tagged 1/2 and 2/2. |
| MessageBuilder.ChunkMessagesStep | utils/read.py:65-66 | One more dict entry appends exactly that entry's messages. |
| MessageBuilder.BuildMessage | utils/read.py:60-75 | `buildMessage` returns the message list Messages specifies. |
| MessageBuilder.EntryMessages | utils/read.py:66-73 | The inner loop produces one message per chunk, in order. Each is labelled with the entry's own chunk count, because the loop variable shadows the parameter. |
| Pipeline.Keys | utils/read.py:94-96 | The keys of the chunk dict, in insertion order. |
| Pipeline.Get | utils/read.py:96 | `d[key]`, or None when the key is absent. |
| Pipeline.Put | utils/read.py:96 | `d[key] = value`: a present key keeps its place and takes the new value; a new key goes at the end. |
| Pipeline.Dedup | utils/read.py:94-96 | The list without repetitions, each element where it first occurs: the keys the loop leaves. |
| Pipeline.ChunkMapOf | utils/read.py:94-96 | The chunk-dict loop over the sorted list: each path's chunks assigned in turn, or failure at the first path whose file cannot be opened. |
| Pipeline.Request | utils/read.py:94-102 | `main` from getFiles to buildMessage: the messages for the chunk dict of the sorted text files, or the first path that cannot be opened. |
| Pipeline.KeysLength | utils/read.py:94-96 | A dict has one key per entry, the entry's path, in insertion order. |
| Pipeline.GetSome | utils/read.py:96 | A key has a value exactly when it is among the keys. |
| Pipeline.PutKeys | utils/read.py:96 | Assigning to a present key keeps the key order. Assigning to a new key appends it. |
| Pipeline.PutGet | utils/read.py:96 | After `d[key] = value`, key reads value and every other key reads what it read before. |
| Pipeline.PutSpec | utils/read.py:96 | Assignment keeps the keys distinct, appends the key exactly when it was missing, stores the value, and leaves other keys alone. |
| Pipeline.DedupElements | utils/read.py:94-96 | Removing repetitions keeps exactly the elements of the list. |
| Pipeline.DedupDistinct | utils/read.py:94-96 | Removing repetitions leaves no repetition. |
| Pipeline.DedupSorted | utils/read.py:94-96 | Removing repetitions from a sorted list leaves it sorted. |
| Pipeline.DedupSpec | utils/read.py:94-96 | The result has no repetition, has the same elements, and is sorted when the input is. |
| Pipeline.SuccessReadsAll | utils/read.py:94-96 | When the loop finishes, every listed file could be opened. |
| Pipeline.ChunkMapSucceeds | utils/read.py:94-96 | The loop finishes exactly when every listed file can be opened. |
| Pipeline.ChunkMapFails | utils/read.py:94-96 | A failing loop stops at a file that cannot be opened, and all files before it could be. |
| Pipeline.ChunkMapEntries | utils/read.py:94-96 | The finished dict's keys are the listed paths in order of first occurrence, each once. Each key holds the chunks of that file's contents. |
| Pipeline.FailureStays | utils/read.py:94-96 | Once a prefix of the list fails, the whole loop fails with the same path. |
| Pipeline.BuildChunkMap | utils/read.py:94-96 | The loop returns the dict ChunkMapOf specifies, or the first path that cannot be opened. |
| Pipeline.BuildRequest | utils/read.py:94-102 | `main`, from getFiles to buildMessage, returns the request Request specifies. |
| Pipeline.RequestEntries | utils/read.py:94-102 | A successful request's dict keys are sorted and distinct, and are exactly the collected files. Each key holds its file's chunks, and the messages are built from that dict. |

## Left out

- The HTTP request and its response handling (utils/read.py:111-118): network I/O.
- Token counting with tiktoken (utils/read.py:18-21, 109): external library, used only for a printed estimate.
- The timers (utils/read.py:10, 77-84): clock reads only.
- Argument parsing and printing (utils/read.py:86-92, 98-100): command-line I/O; the model takes the parsed values as parameters.
- File reading and decoding (utils/read.py:33-34, 54-55): `chunk` is modelled on the decoded contents, and the reads in `main` are the parameter `read`. A file that changes between the getFiles probe and the chunk read is not modelled.
- The UTF-8 probe and `mimetypes.guess_type` (utils/read.py:29, 32-37): opaque functions in `Probes`.
- `chunk` with `errors='ignore'`: the bytes the decoder drops are not modelled, since the model starts from decoded text.
- `os.walk`: modelled on a finite tree in listing order. Symbolic links, permission errors and changes during the walk are not modelled.
- `os.path.isfile`/`os.path.isdir`: an input path is a regular file, a directory, or absent from the map, and absent means neither test holds.
- Strings are sequences of Unicode scalar values (a Dafny char). `str.strip()` uses Python's whitespace code points, and there is no Unicode normalisation.
- File names whose bytes are not UTF-8, which Python carries as lone surrogates, are not representable: a Dafny char is a Unicode scalar value.
- The helper methods WalkTextFiles, DirTextFiles and EntryMessages are the inner loops of the source, written as separate methods.
- utils/so.py is not part of this model.
