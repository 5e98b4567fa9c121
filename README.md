# xseek in Dafny

xseek takes repeated snapshots of another process's memory without attaching
to it. On each tick it reads the process's `/proc/<pid>/maps` listing line by
line. A line becomes one file in the working directory when all of these hold:

- it parses;
- its permissions are exactly `rw-`;
- `calloc` returns a buffer for the region;
- the read of the region does not fail;
- the file's name is free and can be created.

That file is named
`mem-<start>-<end>-<tick>.bin` for an anonymous region or
`map-<start>-<end>-<tick>.bin` for a file-backed one. It holds the region's
bytes, read from `/proc/<pid>/mem`. The driver runs ticks 0 to 99.

The model has six modules:

- `CText` covers the C library pieces the program relies on: `unsigned long`
  and `int`, `isspace` and `isxdigit`, and the numerals that `%lx` and `%d`
  read and print.
- `MapsLine` covers `sscanf(tmp, "%lx-%lx %c%c%cp", ...)`, the wrapping
  length `en - st` and the `rw-` filter. An independent `Layout` description
  of matching lines is proved to agree with the parser both ways.
- `Naming` covers the `/`-based classification and the artifact name. An
  inverse parser shows that a name determines its kind, both addresses and
  the tick.
- `Host` covers what the program asks of the system once both proc files are
  open:
  - the memory image, as a partial map from address to byte, with `read`'s
    error and short-read behaviour;
  - `calloc`'s and `open`'s answers, as oracles;
  - the working directory, as a `Workdir` class whose `files` map is changed
    by `CreateExclusive` (`O_CREAT|O_EXCL`) and `Write`.
- `Xseek` holds the spec functions `LineOutcome`, `Dump` and `RunTicks`, which
  give the outcome of one line, of one tick and of the whole run. Beside them
  are their imperative counterparts:
  - `DumpMemory`, the `while (fgets ...)` loop;
  - `DumpLine`, `DumpRegion` and `CreateAndWrite`, the loop body, which fills
    a zeroed `array` in place through `ReadInto`;
  - `DumpWrapper`, the `count` loop.

  Each method is proved to leave the directory exactly as its spec function
  says. The lemmas state the program's guarantees: skipping, no overwrite,
  where each new file comes from, tick separation, the abort condition and
  content.
- `Scenarios` works through concrete listing lines.

Four behaviours of the program are easy to misread:

- **Short reads.** After a short read the program still writes the whole
  `len`-byte `calloc` buffer (xseek.c:98, 121), so the unread tail of the
  file is zeros. `Dumped`, `ArtifactContent` and `DumpedFrom` state this.
- **Classification.** A region counts as file-backed when its listing line
  contains a `/` anywhere (xseek.c:84); no path field is looked for.
  `Xseek.NameShowsBacking` ties the name's prefix to that test.
- **Wrap-around.** The length `en - st` is computed in `unsigned long` and
  wraps when the end lies below the start (xseek.c:80). `MapsLine.Length`
  states the wrap.
- **Per-call cap.** On Linux one `read` or `write` moves at most
  `MAX_RW_COUNT` (0x7ffff000) bytes. For a larger region the file therefore
  holds only that many bytes, and the program reports a short write
  (xseek.c:107, 121-122). `Host.Read`, `Host.Workdir.Write` and `DumpedFrom`
  state the cap.

## Model

| member | source | states |
|---|---|---|
| MapsLine.ScanHex | xseek.c:74 | one `%lx` conversion consumes input: what is left is strictly shorter |
| MapsLine.ScanHexOf | xseek.c:74 | white space then a run of hex digits convert to the run's value, saturated at ULONG_MAX as `strtoul` does, and leave exactly what follows the run |
| MapsLine.ScanHexSplit | xseek.c:74 | conversely, every successful `%lx` conversion was white space, a non-empty hex run whose saturated value it returns, and a rest not starting with a hex digit |
| MapsLine.ParseLine | xseek.c:74-77 | the `sscanf` call; characterised by `ParseComplete`, `ParseSound`, `MalformedHasNoLayout` and `ParsedLineHasNoLeadingSlash` |
| MapsLine.ParseComplete | xseek.c:74-77 | every well-formed line (blanks, hex run, `-`, blanks, hex run, blanks, three characters, anything) parses, to exactly the addresses and permission characters it spells; a trailing `s` instead of `p` does not matter |
| MapsLine.ParseSound | xseek.c:74-77 | every line that yields five conversions is such a well-formed line of the fields it yields |
| MapsLine.Decompose | xseek.c:74-77 | gives the well-formed layout a parsed line was read from |
| MapsLine.MalformedHasNoLayout | xseek.c:74-77 | a line that is skipped as malformed matches no well-formed layout |
| MapsLine.ParsedLineHasNoLeadingSlash | xseek.c:84-85 | a parsed line never starts with `/`, so `*(filepath-1)=0` stays inside the buffer |
| MapsLine.Kept | xseek.c:93 | the permission filter; characterised by `Xseek.FilteredIff` |
| MapsLine.Length | xseek.c:80 | `en - st` when end ≥ start; 2^64 − (st − en) when end < start |
| CText.Numeral | xseek.c:86 | `%lx` prints a non-empty run of lower-case hex digits: `0` for zero, and no leading zero otherwise |
| CText.NumeralRoundTrip | xseek.c:86 | the printed hex numeral reads back as the same number |
| CText.FormatInt | xseek.c:86 | `%d` prints a leading `-` exactly for negative values |
| CText.IntRoundTrip | xseek.c:86 | the printed tick reads back as the same integer |
| CText.SpanOfConcat | xseek.c:74 | a conversion's run stops exactly where the matching characters end |
| Naming.Name | xseek.c:86-89 | the `sprintf` of the artifact name; characterised by `ParseNameRoundTrip`, `NameInjective` and `PrefixShowsKind` |
| Naming.ParseName | xseek.c:86-89 | reads an artifact name back; `ParseNameRoundTrip` shows it inverts `Name` |
| Naming.ParseNameRoundTrip | xseek.c:86-89 | parsing an artifact name gives back its kind, start, end and tick |
| Naming.NameInjective | xseek.c:86-89 | two artifact names are equal exactly when kind, start, end and tick all are |
| Naming.PrefixShowsKind | xseek.c:21-22 | the first four characters are `map-` exactly for file-backed and `mem-` exactly for anonymous regions |
| Host.Readable | xseek.c:107 | the bytes reachable from `at` are at most `n`, are the image's bytes from `at` onwards, and stop early only at an unreadable address |
| Host.Read | xseek.c:105-107 | `read` fails exactly when at least one byte is asked for and the first one is unreadable; otherwise it returns at least one byte when any was asked for, never more than `n` or MAX_RW_COUNT, each the image's byte at its address, stopping short of both limits only at an unreadable address |
| Host.ReadFullRegion | xseek.c:105-107 | a region readable throughout is read in full, up to MAX_RW_COUNT bytes |
| Host.ReadInto | xseek.c:107 | returns -1 and leaves the buffer alone, or returns the count read and overwrites exactly that many leading bytes |
| Host.Workdir.CreateExclusive | xseek.c:114-119 | succeeds exactly when the name is absent and creatable; an existing file is never touched; a new file starts empty |
| Host.Workdir.Write | xseek.c:121 | appends the buffer, cut to MAX_RW_COUNT bytes, to the named file, returns how many bytes that was and changes nothing else |
| Xseek.Dumped | xseek.c:98 | the written buffer has exactly `len` bytes: the bytes read, then zeros |
| Xseek.OverlayOnZeros | xseek.c:98-107 | a `calloc`'ed buffer after `read` is that written buffer |
| Xseek.LineOutcome | xseek.c:67-124 | one pass of the loop body; characterised by `WrittenIff`, `FilteredIff`, `NameShowsBacking`, `WrittenIsArtifact` and `ArtifactContent` |
| Xseek.RegionOutcome | xseek.c:93-124 | the loop body from the filter on; `DumpRegion` is proved to do what it says, and `ArtifactContent`, `EmptyRegionWritesEmptyFile` and `UniformRegionOutcome` state it |
| Xseek.Create | xseek.c:114-124 | the exclusive create and the write; `CreateAndWrite` is proved to do what it says |
| Xseek.Dump | xseek.c:67-125 | the `while (fgets ...)` loop over a listing; characterised by `DumpKeepsExisting`, `DumpNewFiles`, `DumpWritesArtifact` and `DumpNamesCarryTick` |
| Xseek.Tick | xseek.c:48-126 | one call of `dump_memory`; `DumpMemory` is proved to do what it says |
| Xseek.RunTicks | xseek.c:128-136 | the `count` loop; characterised by `RunKeepsExisting`, `RunNewNames`, `RunAbortsIff` and `RunAppend`, and `DumpWrapper` is proved to do what it says |
| Xseek.WrittenIff | xseek.c:74-121 | a line yields an artifact exactly when it parses, is `rw-`, is allocated, reads without error and its name is free and creatable |
| Xseek.WrittenIsNew | xseek.c:114-119 | an artifact never takes a name already in the directory |
| Xseek.EmptyRegionWritesEmptyFile | xseek.c:80 | a zero-length kept region is still processed and gives an empty file |
| Xseek.UnkeptLineWritesNothing | xseek.c:93-96 | a malformed or filtered line leaves any directory unchanged |
| Xseek.FilteredIff | xseek.c:93-96 | a line is turned away by the filter exactly when it parses and its permission triple is not `rw-` |
| Xseek.NameShowsBacking | xseek.c:84-89 | an artifact's name starts with `map-` exactly when its line contains a `/`, and with `mem-` exactly when it contains none |
| Xseek.ArtifactContent | xseek.c:98-121 | an artifact is one `write` of the whole `len`-byte buffer after the read, never cut to the bytes read |
| Xseek.DumpedFrom | xseek.c:98-121 | the file holds the image's bytes from `st` up to the first unreadable address, then zeros, `len` bytes in all or MAX_RW_COUNT when `len` is larger |
| Xseek.WrittenIsArtifact | xseek.c:84-121 | a written outcome is named and filled from its own line |
| Xseek.DumpKeepsExisting | xseek.c:114-119 | during a tick no file already present is removed or changed |
| Xseek.DumpAppend | xseek.c:67 | going through `a + b` is going through `a` and then `b` |
| Xseek.SkippedLineChangesNothing | xseek.c:67-77 | a line that yields no artifact, whatever the reason, changes nothing for the lines after it (with `calloc`'s answer depending only on the size) |
| Xseek.DumpNewFiles | xseek.c:67-125 | every file a tick adds is the artifact of one of its lines, with that line's name and content |
| Xseek.NewFileOrigin | xseek.c:67-125 | a new file comes from the first line or from one of the rest |
| Xseek.DumpWritesArtifact | xseek.c:67-125 | conversely, every line that would yield an artifact in the directory the tick starts from has that artifact, name and bytes, in the directory the tick leaves |
| Xseek.SameNameSameContent | xseek.c:84-121 | two lines whose artifacts get the same name write the same bytes |
| Xseek.DumpNamesCarryTick | xseek.c:86-89 | every file a tick adds carries that tick's count in its name |
| Xseek.RunKeepsExisting | xseek.c:128-136 | no tick of the run removes or changes a file that existed before it |
| Xseek.RunNewNames | xseek.c:128-136 | every file the run adds is named after one of its ticks |
| Xseek.RunAbortsIff | xseek.c:53-65 | the run ends on a fatal error exactly when some tick cannot open the proc files |
| Xseek.RunAppend | xseek.c:132-135 | running the ticks in two stretches is the same as running them at once |
| Xseek.NoProcessNoArtifacts | xseek.c:56-58 | when the first tick cannot open the proc files the program exits with the directory unchanged |
| Xseek.EarlierTicksNeverBlock | xseek.c:130-135 | earlier ticks' artifacts never make a later tick's exclusive create fail |
| Xseek.DumpMemory | xseek.c:48-126 | fatal exactly when the proc files cannot be opened; otherwise the directory ends as the lines, in order, say |
| Xseek.DumpLine | xseek.c:67-96 | one loop pass changes the directory exactly as that line's outcome says |
| Xseek.DumpRegion | xseek.c:93-121 | from the filter on: filter, `calloc`, `lseek`/`read`, exclusive create and write, as the region's outcome says |
| Xseek.CreateAndWrite | xseek.c:114-124 | an exclusive create then a write of the whole buffer adds the file exactly when the name is free and creatable |
| Xseek.DumpWrapper | xseek.c:128-136 | runs ticks 0, 1, 2, … in order (each once); every tick before the last was accessible, and it stops at the first fatal tick or after all 100; the directory is what the ticks make of it |
| Scenarios.AnonymousReadWriteRegionIsDumped | xseek.c:74-121 | the anonymous `rw-p` (or `rw-s`) line for 7f0000000000-7f0000001000 over memory of 0xAA gives `mem-7f0000000000-7f0000001000-0.bin`, 4096 bytes of 0xAA |
| Scenarios.UniformRegionOutcome | xseek.c:98-121 | a kept region readable throughout as one byte gives a file of that byte, `len` bytes long or MAX_RW_COUNT when `len` is larger |
| Scenarios.ReadOnlyRegionIsSkipped | xseek.c:93-96 | the same line with `r--p` yields no artifact |
| Scenarios.SharedMappingParses | xseek.c:74 | a `rw-s` line parses to the same fields as `rw-p` |
| Scenarios.FileBackedRegionName | xseek.c:84-86 | a line ending in `/usr/bin/foo` is named `map-400000-401000-<tick>.bin` |
| Scenarios.NoDashAfterStart | xseek.c:74-77 | any line whose first `%lx` conversion succeeds but is not followed at once by `-` is malformed |
| Scenarios.HeaderLineIsMalformed | xseek.c:74-77 | the listing's column header `address perms offset dev inode pathname` is malformed: its number `add` is not followed by `-` |
| Scenarios.NoAddressNoEntry | xseek.c:74-77 | a line starting with neither a blank nor a hex digit is malformed |
| Scenarios.MalformedLineIsSkipped | xseek.c:67-77 | a malformed line in front of the `rw-p` line changes nothing |

## Left out

- Opening `/proc/<pid>/maps` and `/proc/<pid>/mem` (xseek.c:53-65). A tick is either `Inaccessible` (a fatal `exit(1)`) or a snapshot of the listing and the system's answers.
- `usage`, `atoi` and `main` (xseek.c:43-46, 138-149): command-line glue.
- `usleep` between ticks (xseek.c:134): timing only.
- Diagnostics on stderr, including the short-write message (xseek.c:32-35, 122): they change no result.
- The real system calls.
  - `calloc` and `open` are oracles (`Env.allocates`, `Env.opens`).
  - `lseek` is taken to put the read cursor at the region's start. Its return value is ignored by the program, and the model does not model a failed seek.
  - `write` is taken to transfer as much as one call can, the whole buffer up to MAX_RW_COUNT bytes; a failing write (a full disk, say) is not modelled.
  - `close` is not modelled. The program closes each artifact (xseek.c:124) but never closes `mapfile` or `memfd` (xseek.c:54, 61), so each tick leaks a stream and a descriptor, 200 over the run. Under a low descriptor limit a later tick's `fopen` or `open` fails (a fatal exit), or an artifact's `open` fails. The model leaves both to the per-tick `Inaccessible` input and to `Env.opens`, without tying them to this leak.
- The 0600 mode given to each artifact (xseek.c:114): the model records names and bytes only, not permissions.
- Host.Readable: models memory byte by byte. The kernel reads `/proc/<pid>/mem` page by page, so a read may stop at a page boundary rather than at the exact unreadable byte.
- The memory image is fixed for the duration of a tick: the target process keeps running in reality, and concurrent changes to its memory are not modelled. The target is also taken to stay alive through the tick. If it exits after both proc files are open, Linux's read of `/proc/<pid>/mem` returns 0 rather than -1, and the region's file holds only zeros. `Host.Read` never returns zero bytes when some were asked for, so its "fails exactly when" holds only for a live target.
- The `calloc` buffers are never freed (xseek.c:98-121), across lines and across all 100 ticks, so in reality the leaked memory can make a later `calloc` fail. `Env.allocates` depends only on the size asked for, so the model does not capture that; `SkippedLineChangesNothing` holds only under this abstraction.
- The NUL bytes written into `tmp` at xseek.c:85 and 88: they come after the fields `sscanf` has already read and only shorten text that is not used again.
- Listing lines are taken to contain no NUL byte, as kernel listings never do. C's `sscanf` and `strchr` stop at a NUL, while `ParseLine` and `Classify` look at the whole Dafny string.
- `%lx` finer points: an optional `0x` prefix and a sign. A hex field is a non-empty run of hex digits after optional white space; values too large saturate as `strtoul` does.
- `fgets` splits lines longer than 8191 characters (xseek.c:17, 67); listing lines are taken as given.
- The `DEBUG` and `FILTER` switches are fixed at their compiled values: `DEBUG` is 0 and `FILTER` is 1.
