/**
 * xseek's extraction loop. `dump_memory` reads the maps listing line by
 * line; a line that parses, passes the `rw-` filter, gets a buffer, reads
 * without error and has a free name becomes one artifact file, and any other
 * line leaves the directory as it was and the loop goes on with the next
 * line. `dump_wrapper` runs `dump_memory` for ticks 0 to INTERVALS - 1.
 *
 * The functions LineOutcome, Dump and RunTicks say what the two loops do;
 * the methods DumpMemory and DumpWrapper are the loops themselves, proved to
 * agree with them; the lemmas state what the program promises about them.
 */
module Xseek {
  import opened CText
  import opened MapsLine
  import opened Naming
  import opened Host

  /** The number of ticks `dump_wrapper` runs. */
  const INTERVALS: int := 100

  /** The working directory as a value: each name with its file's bytes. */
  type Files = map<string, seq<bv8>>

  /** What happens to one line of the listing. */
  datatype Outcome =
    | Malformed     // sscanf did not yield five conversions
    | Filtered      // permissions other than rw-
    | NoMemory      // calloc returned NULL
    | ReadFailed    // read returned -1
    | CreateFailed  // open with O_EXCL returned -1
    | Written(name: string, content: seq<bv8>)

  function Zeros(n: nat): (z: seq<bv8>)
    ensures |z| == n && forall i :: 0 <= i < n ==> z[i] == 0
  {
    seq(n, _ => 0)
  }

  /**
   * The `calloc`'ed buffer of `len` bytes after `read` placed `data` at its
   * start: all `len` bytes are written out, the unread tail as zeros.
   */
  function Dumped(data: seq<bv8>, len: nat): (buf: seq<bv8>)
    requires |data| <= len
    ensures |buf| == len
    ensures buf[..|data|] == data
    ensures forall i :: |data| <= i < len ==> buf[i] == 0
  {
    data + Zeros(len - |data|)
  }

  /** The name xseek gives the artifact of a parsed line. */
  function ArtifactName(line: string, e: Entry, count: Int32): string {
    Name(Fields(Classify(line), e.start, e.end, count))
  }

  /** One pass of the body of the `while (fgets ...)` loop, in directory `files`. */
  function LineOutcome(files: Files, line: string, env: Env, count: Int32): Outcome {
    match ParseLine(line)
    case None => Malformed
    case Some(e) => RegionOutcome(files, ArtifactName(line, e, count), e, env)
  }

  /** The rest of the loop body, for a parsed line whose artifact would be called `name`. */
  function RegionOutcome(files: Files, name: string, e: Entry, env: Env): Outcome {
    var len := Length(e);
    if !Kept(e) then Filtered
    else if !env.allocates(len) then NoMemory
    else
      match Read(env.image, e.start, len)
      case ReadError => ReadFailed
      case ReadBytes(data) => Create(files, name, Dumped(data, len), env)
  }

  /** The exclusive create, then one `write` of the whole buffer. */
  function Create(files: Files, name: string, buffer: seq<bv8>, env: Env): Outcome {
    if name in files || !env.opens(name) then CreateFailed else Written(name, Transfer(buffer))
  }

  /** The directory after one line's outcome: only a written artifact changes it. */
  function Apply(files: Files, o: Outcome): Files {
    if o.Written? then files[o.name := o.content] else files
  }

  /** The directory after `dump_memory` has gone through `lines` in order. */
  function Dump(files: Files, lines: seq<string>, env: Env, count: Int32): Files
    decreases |lines|
  {
    if lines == [] then files
    else Dump(Apply(files, LineOutcome(files, lines[0], env, count)), lines[1..], env, count)
  }

  /**
   * A line yields an artifact exactly when it parses, its permissions are
   * `rw-`, the buffer is allocated, the read does not fail (it fails only
   * when the region is not empty and its first byte is unreadable), and the
   * name is free and can be created.
   */
  lemma WrittenIff(files: Files, line: string, env: Env, count: Int32)
    ensures LineOutcome(files, line, env, count).Written? <==>
      && ParseLine(line).Some?
      && Kept(ParseLine(line).value)
      && env.allocates(Length(ParseLine(line).value))
      && (Length(ParseLine(line).value) == 0 || ParseLine(line).value.start in env.image)
      && ArtifactName(line, ParseLine(line).value, count) !in files
      && env.opens(ArtifactName(line, ParseLine(line).value, count))
  {
  }

  /** Because the create is exclusive, an artifact never takes a name already in the directory. */
  lemma WrittenIsNew(files: Files, line: string, env: Env, count: Int32)
    ensures var o := LineOutcome(files, line, env, count);
            o.Written? ==> o.name !in files && Apply(files, o) == files[o.name := o.content]
  {
    match ParseLine(line)
    case None =>
    case Some(e) =>
      var name := ArtifactName(line, e, count);
      assert LineOutcome(files, line, env, count) == RegionOutcome(files, name, e, env);
  }

  /**
   * A zero-length region gets no special case: when `calloc(0, 1)` returns a
   * buffer and the name is free, an empty artifact is created.
   */
  lemma EmptyRegionWritesEmptyFile(files: Files, name: string, e: Entry, env: Env)
    requires Kept(e) && e.start == e.end
    requires env.allocates(0) && name !in files && env.opens(name)
    ensures RegionOutcome(files, name, e, env) == Written(name, [])
  {
    assert Read(env.image, e.start, 0) == ReadBytes([]);
  }

  /** A line that does not parse or is not `rw-` never yields an artifact, whatever the directory holds. */
  lemma UnkeptLineWritesNothing(files: Files, line: string, env: Env, count: Int32)
    requires ParseLine(line).None? || !Kept(ParseLine(line).value)
    ensures Apply(files, LineOutcome(files, line, env, count)) == files
  {
  }

  /** The filter turns a line away exactly when it parses and its permission triple is not `rw-`. */
  lemma FilteredIff(files: Files, line: string, env: Env, count: Int32)
    ensures LineOutcome(files, line, env, count) == Filtered <==>
              && ParseLine(line).Some?
              && var e := ParseLine(line).value;
                 [e.r, e.w, e.x] != "rw-"
  {
    if ParseLine(line).Some? {
      var e := ParseLine(line).value;
      var name := ArtifactName(line, e, count);
      assert LineOutcome(files, line, env, count) == RegionOutcome(files, name, e, env);
      RegionFilteredIff(files, name, e, env);
    }
  }

  lemma RegionFilteredIff(files: Files, name: string, e: Entry, env: Env)
    ensures RegionOutcome(files, name, e, env) == Filtered <==> [e.r, e.w, e.x] != "rw-"
  {
    if [e.r, e.w, e.x] == "rw-" {
      assert [e.r, e.w, e.x][0] == e.r && [e.r, e.w, e.x][1] == e.w && [e.r, e.w, e.x][2] == e.x;
    }
  }

  /**
   * An artifact's name starts with `map-` exactly when its line has a `/`
   * somewhere, and with `mem-` exactly when it has none.
   */
  lemma NameShowsBacking(files: Files, line: string, env: Env, count: Int32)
    ensures var o := LineOutcome(files, line, env, count);
            o.Written? ==>
              && |o.name| > 4
              && (o.name[..4] == "map-" <==> exists i :: 0 <= i < |line| && line[i] == '/')
              && (o.name[..4] == "mem-" <==> forall i :: 0 <= i < |line| ==> line[i] != '/')
  {
    var o := LineOutcome(files, line, env, count);
    if o.Written? {
      var e := ParseLine(line).value;
      WrittenIsArtifact(files, line, env, count);
      PrefixShowsKind(Fields(Classify(line), e.start, e.end, count));
    }
  }

  /**
   * A kept, allocated, readable region with a free name is written out as
   * the whole `len`-byte buffer after the read, never cut short to what was
   * read; only the per-call `write` cap can shorten it (DumpedFrom says what
   * the file then holds).
   */
  lemma ArtifactContent(files: Files, name: string, e: Entry, env: Env)
    requires RegionOutcome(files, name, e, env).Written?
    ensures Read(env.image, e.start, Length(e)).ReadBytes?
    ensures RegionOutcome(files, name, e, env)
            == Written(name, Transfer(Dumped(Read(env.image, e.start, Length(e)).data, Length(e))))
  {
  }

  /**
   * The file written for a region of `len` bytes at `at`: the target's memory
   * from `at` up to the first unreadable address, then zeros, as many bytes
   * in all as one call reads and writes (`len`, unless it exceeds the cap).
   */
  lemma DumpedFrom(image: Image, at: nat, len: nat)
    requires Read(image, at, len).ReadBytes?
    ensures var got := Read(image, at, len).data;
            && |got| <= Capped(len)
            && var file := Transfer(Dumped(got, len));
            && |file| == Capped(len)
            && (len > 0 ==> |got| > 0)
            && (forall a :: at <= a < at + |got| ==> a in image && file[a - at] == image[a])
            && (forall i :: |got| <= i < |file| ==> file[i] == 0)
            && (|got| < |file| ==> at + |got| !in image)
  {
    var got := Read(image, at, len).data;
    OverlaidImage(image, at, got, len);
  }

  lemma OverlaidImage(image: Image, at: nat, got: seq<bv8>, len: nat)
    requires |got| <= Capped(len)
    requires forall a :: at <= a < at + |got| ==> a in image && got[a - at] == image[a]
    ensures var file := Transfer(Dumped(got, len));
            && (forall a :: at <= a < at + |got| ==> file[a - at] == image[a])
            && (forall i :: |got| <= i < |file| ==> file[i] == 0)
  {
    var buffer := Dumped(got, len);
    var file := Transfer(buffer);
    forall a | at <= a < at + |got|
      ensures file[a - at] == image[a]
    {
      assert file[a - at] == buffer[a - at];
      assert buffer[..|got|][a - at] == got[a - at];
    }
  }

  /** A written outcome is the artifact of its line. */
  lemma WrittenIsArtifact(files: Files, line: string, env: Env, count: Int32)
    requires LineOutcome(files, line, env, count).Written?
    ensures var o := LineOutcome(files, line, env, count);
            ArtifactOf(o.name, o.content, line, env, count)
  {
    var e := ParseLine(line).value;
    var name := ArtifactName(line, e, count);
    assert LineOutcome(files, line, env, count) == RegionOutcome(files, name, e, env);
    var got := Read(env.image, e.start, Length(e)).data;
    assert RegionOutcome(files, name, e, env) == Written(name, Transfer(Dumped(got, Length(e))));
  }

  /** A file that was in the directory before is still there, with the same bytes. */
  lemma {:induction false} DumpKeepsExisting(files: Files, lines: seq<string>, env: Env, count: Int32)
    ensures forall n :: n in files ==> n in Dump(files, lines, env, count) && Dump(files, lines, env, count)[n] == files[n]
    decreases |lines|
  {
    if lines != [] {
      var next := Apply(files, LineOutcome(files, lines[0], env, count));
      WrittenIsNew(files, lines[0], env, count);
      DumpKeepsExisting(next, lines[1..], env, count);
    }
  }

  /** Going through `a + b` is going through `a`, then through `b`. */
  lemma {:induction false} DumpAppend(files: Files, a: seq<string>, b: seq<string>, env: Env, count: Int32)
    ensures Dump(files, a + b, env, count) == Dump(Dump(files, a, env, count), b, env, count)
    decreases |a|
  {
    if a == [] {
      assert a + b == b;
    } else {
      assert (a + b)[0] == a[0];
      assert (a + b)[1..] == a[1..] + b;
      DumpAppend(Apply(files, LineOutcome(files, a[0], env, count)), a[1..], b, env, count);
    }
  }

  /**
   * A line that yields no artifact, for any of the per-line failure reasons,
   * might as well not be in the listing: the lines after it are processed
   * exactly as they would have been without it.
   */
  lemma SkippedLineChangesNothing(files: Files, before: seq<string>, line: string, after: seq<string>,
                                  env: Env, count: Int32)
    requires !LineOutcome(Dump(files, before, env, count), line, env, count).Written?
    ensures Dump(files, before + [line] + after, env, count) == Dump(files, before + after, env, count)
  {
    var mid := Dump(files, before, env, count);
    DumpAppend(files, before, [line] + after, env, count);
    assert before + [line] + after == before + ([line] + after);
    assert ([line] + after)[1..] == after;
    DumpAppend(files, before, after, env, count);
  }

  /** `name` with bytes `content` is the artifact that `line` yields during tick `count`. */
  ghost predicate ArtifactOf(name: string, content: seq<bv8>, line: string, env: Env, count: Int32) {
    && ParseLine(line).Some?
    && var e := ParseLine(line).value;
       && Kept(e)
       && name == ArtifactName(line, e, count)
       && Read(env.image, e.start, Length(e)).ReadBytes?
       && content == Transfer(Dumped(Read(env.image, e.start, Length(e)).data, Length(e)))
  }

  /** Every file a tick adds is the artifact of one of the listing's lines. */
  lemma {:induction false} DumpNewFiles(files: Files, lines: seq<string>, env: Env, count: Int32)
    ensures forall n :: n in Dump(files, lines, env, count) && n !in files ==>
              exists i :: 0 <= i < |lines| && ArtifactOf(n, Dump(files, lines, env, count)[n], lines[i], env, count)
    decreases |lines|, 1
  {
    forall n | n in Dump(files, lines, env, count) && n !in files
      ensures exists i :: 0 <= i < |lines| && ArtifactOf(n, Dump(files, lines, env, count)[n], lines[i], env, count)
    {
      NewFileOrigin(files, lines, env, count, n);
    }
  }

  /** A new file comes from the first line, or from one of the rest. */
  lemma {:induction false} NewFileOrigin(files: Files, lines: seq<string>, env: Env, count: Int32, n: string)
    requires n in Dump(files, lines, env, count) && n !in files
    ensures exists i :: 0 <= i < |lines| && ArtifactOf(n, Dump(files, lines, env, count)[n], lines[i], env, count)
    decreases |lines|, 0
  {
    var o := LineOutcome(files, lines[0], env, count);
    var next := Apply(files, o);
    var result := Dump(files, lines, env, count);
    if n in next {
      FirstLineOrigin(files, lines, env, count, n);
    } else {
      assert result == Dump(next, lines[1..], env, count);
      DumpNewFiles(next, lines[1..], env, count);
      var i :| 0 <= i < |lines[1..]| && ArtifactOf(n, result[n], lines[1..][i], env, count);
      assert lines[1..][i] == lines[i + 1];
    }
  }

  /** A new file already there after the first line is that line's artifact. */
  lemma FirstLineOrigin(files: Files, lines: seq<string>, env: Env, count: Int32, n: string)
    requires lines != [] && n !in files
    requires n in Apply(files, LineOutcome(files, lines[0], env, count))
    ensures n in Dump(files, lines, env, count)
    ensures ArtifactOf(n, Dump(files, lines, env, count)[n], lines[0], env, count)
  {
    var o := LineOutcome(files, lines[0], env, count);
    FirstLineKeeps(files, lines, env, count, n);
    assert o.Written? && n == o.name && Dump(files, lines, env, count)[n] == o.content;
    WrittenIsArtifact(files, lines[0], env, count);
  }

  /**
   * Conversely, every line that would yield an artifact in the directory the
   * tick starts from has that artifact in the directory the tick leaves:
   * either the line writes it, or an earlier line wrote the same name, which
   * then holds the same bytes.
   */
  lemma {:induction false} DumpWritesArtifact(files: Files, lines: seq<string>, env: Env, count: Int32, i: nat)
    requires i < |lines| && LineOutcome(files, lines[i], env, count).Written?
    ensures var o := LineOutcome(files, lines[i], env, count);
            o.name in Dump(files, lines, env, count) && Dump(files, lines, env, count)[o.name] == o.content
    decreases i
  {
    var o := LineOutcome(files, lines[i], env, count);
    var first := LineOutcome(files, lines[0], env, count);
    var next := Apply(files, first);
    if o.name in next {
      WrittenByFirst(files, lines, env, count, i);
    } else {
      assert i > 0;
      StillWritten(files, next, lines[i], env, count);
      assert lines[1..][i - 1] == lines[i];
      DumpWritesArtifact(next, lines[1..], env, count, i - 1);
      assert Dump(files, lines, env, count) == Dump(next, lines[1..], env, count);
    }
  }

  /** The case where the first line already wrote the name. */
  lemma WrittenByFirst(files: Files, lines: seq<string>, env: Env, count: Int32, i: nat)
    requires i < |lines| && LineOutcome(files, lines[i], env, count).Written?
    requires LineOutcome(files, lines[i], env, count).name in Apply(files, LineOutcome(files, lines[0], env, count))
    ensures var o := LineOutcome(files, lines[i], env, count);
            o.name in Dump(files, lines, env, count) && Dump(files, lines, env, count)[o.name] == o.content
  {
    var o := LineOutcome(files, lines[i], env, count);
    var first := LineOutcome(files, lines[0], env, count);
    WrittenIsNew(files, lines[i], env, count);
    assert first.Written? && first.name == o.name;
    SameNameSameContent(files, lines[0], lines[i], env, count);
    FirstLineKeeps(files, lines, env, count, o.name);
  }

  /** What the first line leaves in the directory, the rest of the tick keeps. */
  lemma FirstLineKeeps(files: Files, lines: seq<string>, env: Env, count: Int32, name: string)
    requires lines != []
    requires name in Apply(files, LineOutcome(files, lines[0], env, count))
    ensures name in Dump(files, lines, env, count)
    ensures Dump(files, lines, env, count)[name] == Apply(files, LineOutcome(files, lines[0], env, count))[name]
  {
    var next := Apply(files, LineOutcome(files, lines[0], env, count));
    assert Dump(files, lines, env, count) == Dump(next, lines[1..], env, count);
    DumpKeepsExisting(next, lines[1..], env, count);
  }

  /** Two lines whose artifacts share a name write the same bytes to it. */
  lemma SameNameSameContent(files: Files, line: string, other: string, env: Env, count: Int32)
    requires LineOutcome(files, line, env, count).Written? && LineOutcome(files, other, env, count).Written?
    requires LineOutcome(files, line, env, count).name == LineOutcome(files, other, env, count).name
    ensures LineOutcome(files, line, env, count).content == LineOutcome(files, other, env, count).content
  {
    WrittenIsArtifact(files, line, env, count);
    WrittenIsArtifact(files, other, env, count);
    var e := ParseLine(line).value;
    var d := ParseLine(other).value;
    NameInjective(Fields(Classify(line), e.start, e.end, count), Fields(Classify(other), d.start, d.end, count));
    assert Length(e) == Length(d);
  }

  /** A line's artifact does not depend on the rest of the directory, only on its name being absent. */
  lemma StillWritten(files: Files, now: Files, line: string, env: Env, count: Int32)
    requires LineOutcome(files, line, env, count).Written?
    requires LineOutcome(files, line, env, count).name !in now
    ensures LineOutcome(now, line, env, count) == LineOutcome(files, line, env, count)
  {
    var e := ParseLine(line).value;
    var name := ArtifactName(line, e, count);
    assert LineOutcome(files, line, env, count) == RegionOutcome(files, name, e, env);
    assert LineOutcome(now, line, env, count) == RegionOutcome(now, name, e, env);
    RegionStillWritten(files, now, name, e, env);
  }

  lemma RegionStillWritten(files: Files, now: Files, name: string, e: Entry, env: Env)
    requires RegionOutcome(files, name, e, env).Written?
    requires RegionOutcome(files, name, e, env).name !in now
    ensures RegionOutcome(now, name, e, env) == RegionOutcome(files, name, e, env)
  {
    var len := Length(e);
    var r := Read(env.image, e.start, len);
    assert r.ReadBytes?;
    assert RegionOutcome(files, name, e, env) == Create(files, name, Dumped(r.data, len), env);
    assert RegionOutcome(now, name, e, env) == Create(now, name, Dumped(r.data, len), env);
  }

  /** Every file a tick adds carries that tick's count in its name. */
  lemma DumpNamesCarryTick(files: Files, lines: seq<string>, env: Env, count: Int32)
    ensures forall n :: n in Dump(files, lines, env, count) && n !in files ==>
              ParseName(n).Some? && ParseName(n).value.tick == count
  {
    DumpNewFiles(files, lines, env, count);
    forall n | n in Dump(files, lines, env, count) && n !in files
      ensures ParseName(n).Some? && ParseName(n).value.tick == count
    {
      var i :| 0 <= i < |lines| && ArtifactOf(n, Dump(files, lines, env, count)[n], lines[i], env, count);
      var e := ParseLine(lines[i]).value;
      ParseNameRoundTrip(Fields(Classify(lines[i]), e.start, e.end, count));
    }
  }

  /** What `dump_memory` meets when it opens `/proc/<pid>/maps` and `/proc/<pid>/mem`. */
  datatype TickInput =
    | Inaccessible                                 // either open failed: fatal, exit(1)
    | Snapshot(listing: seq<string>, env: Env)     // the lines fgets returns, and the system's answers

  /** The directory after one call of `dump_memory`. */
  function Tick(files: Files, input: TickInput, count: Int32): Files {
    match input
    case Inaccessible => files
    case Snapshot(listing, env) => Dump(files, listing, env, count)
  }

  /**
   * The directory after the ticks `from`, `from + 1`, ... have run on
   * `inputs`, and whether the program exited on a fatal error: the first
   * inaccessible tick ends the run.
   */
  function RunTicks(files: Files, inputs: seq<TickInput>, from: nat): (Files, bool)
    requires from + |inputs| <= INTERVALS
    decreases |inputs|
  {
    if inputs == [] then (files, false)
    else if inputs[0].Inaccessible? then (files, true)
    else RunTicks(Tick(files, inputs[0], from), inputs[1..], from + 1)
  }

  /** No file that existed before the run is removed or changed by any tick. */
  lemma {:induction false} RunKeepsExisting(files: Files, inputs: seq<TickInput>, from: nat)
    requires from + |inputs| <= INTERVALS
    ensures forall n :: n in files ==> n in RunTicks(files, inputs, from).0 && RunTicks(files, inputs, from).0[n] == files[n]
    decreases |inputs|
  {
    if inputs != [] && inputs[0].Snapshot? {
      DumpKeepsExisting(files, inputs[0].listing, inputs[0].env, from);
      RunKeepsExisting(Tick(files, inputs[0], from), inputs[1..], from + 1);
    }
  }

  /** Every file the run adds is named after a tick of the run. */
  lemma {:induction false} RunNewNames(files: Files, inputs: seq<TickInput>, from: nat)
    requires from + |inputs| <= INTERVALS
    ensures forall n :: n in RunTicks(files, inputs, from).0 && n !in files ==>
              ParseName(n).Some? && from <= ParseName(n).value.tick < from + |inputs|
    decreases |inputs|
  {
    if inputs != [] && inputs[0].Snapshot? {
      var next := Tick(files, inputs[0], from);
      DumpNamesCarryTick(files, inputs[0].listing, inputs[0].env, from);
      RunNewNames(next, inputs[1..], from + 1);
    }
  }

  /** The run exits on a fatal error exactly when some tick is inaccessible. */
  lemma {:induction false} RunAbortsIff(files: Files, inputs: seq<TickInput>, from: nat)
    requires from + |inputs| <= INTERVALS
    ensures RunTicks(files, inputs, from).1 <==> exists k :: 0 <= k < |inputs| && inputs[k].Inaccessible?
    decreases |inputs|
  {
    if inputs != [] && inputs[0].Snapshot? {
      RunAbortsIff(Tick(files, inputs[0], from), inputs[1..], from + 1);
      if exists k :: 0 <= k < |inputs| && inputs[k].Inaccessible? {
        var k :| 0 <= k < |inputs| && inputs[k].Inaccessible?;
        assert inputs[1..][k - 1] == inputs[k];
      }
      if exists k :: 0 <= k < |inputs[1..]| && inputs[1..][k].Inaccessible? {
        var k :| 0 <= k < |inputs[1..]| && inputs[1..][k].Inaccessible?;
        assert inputs[k + 1] == inputs[1..][k];
      }
    }
  }

  /** Running ticks `from .. from + |a| + |b|` is running the first `|a|`, then the rest. */
  lemma {:induction false} RunAppend(files: Files, a: seq<TickInput>, b: seq<TickInput>, from: nat)
    requires from + |a| + |b| <= INTERVALS
    requires !RunTicks(files, a, from).1
    ensures RunTicks(files, a + b, from) == RunTicks(RunTicks(files, a, from).0, b, from + |a|)
    decreases |a|
  {
    if a == [] {
      assert a + b == b;
    } else {
      assert (a + b)[0] == a[0];
      assert (a + b)[1..] == a[1..] + b;
      RunAppend(Tick(files, a[0], from), a[1..], b, from + 1);
    }
  }

  /** When the first tick cannot open the proc files the program exits and no artifact exists. */
  lemma NoProcessNoArtifacts(files: Files, inputs: seq<TickInput>)
    requires 0 < |inputs| <= INTERVALS && inputs[0].Inaccessible?
    ensures RunTicks(files, inputs, 0) == (files, true)
  {
  }

  /**
   * When tick `c` starts, after ticks 0 .. c-1 ran without a fatal error, a
   * name of tick `c` is taken only if it was taken before the run began: the
   * artifacts of earlier ticks never make tick `c`'s exclusive create fail.
   */
  lemma EarlierTicksNeverBlock(files: Files, inputs: seq<TickInput>, c: nat, f: Fields)
    requires c <= |inputs| <= INTERVALS
    requires f.tick == c
    ensures Name(f) in RunTicks(files, inputs[..c], 0).0 ==> Name(f) in files
  {
    RunNewNames(files, inputs[..c], 0);
    ParseNameRoundTrip(f);
  }

  /**
   * The body of `dump_memory`: a fatal error when either proc file cannot be
   * opened; otherwise every line of the listing in order, each one either
   * skipped or turned into one artifact file.
   */
  method DumpMemory(dir: Workdir, input: TickInput, count: Int32) returns (fatal: bool)
    modifies dir
    ensures fatal <==> input.Inaccessible?
    ensures dir.files == Tick(old(dir.files), input, count)
  {
    if input.Inaccessible? {
      return true;
    }
    fatal := false;
    var lines, env := input.listing, input.env;
    var i := 0;
    while i < |lines|
      invariant 0 <= i <= |lines|
      invariant Dump(old(dir.files), lines, env, count) == Dump(dir.files, lines[i..], env, count)
    {
      assert lines[i..][0] == lines[i] && lines[i..][1..] == lines[i + 1..];
      DumpLine(dir, lines[i], env, count);
      i := i + 1;
    }
  }

  /**
   * One pass of the loop body: parse, classify and name, filter, allocate a
   * zeroed buffer of `len` bytes, read into it, create the file exclusively
   * and write the whole buffer. Every failure leaves the directory unchanged.
   */
  method DumpLine(dir: Workdir, line: string, env: Env, count: Int32)
    modifies dir
    ensures dir.files == Apply(old(dir.files), LineOutcome(old(dir.files), line, env, count))
  {
    var parsed := ParseLine(line);
    if parsed.None? {
      return;
    }
    var e := parsed.value;
    DumpRegion(dir, ArtifactName(line, e, count), e, env);
  }

  /** The loop body from the permission filter on. */
  method DumpRegion(dir: Workdir, name: string, e: Entry, env: Env)
    modifies dir
    ensures dir.files == Apply(old(dir.files), RegionOutcome(old(dir.files), name, e, env))
  {
    var len := Length(e);
    if !Kept(e) {
      return;
    }
    if !env.allocates(len) {
      return;
    }
    var buf := new bv8[len](_ => 0);
    ghost var zeroed := buf[..];
    var retval := ReadInto(env.image, e.start, buf);
    if retval == -1 {
      return;
    }
    ghost var data := Read(env.image, e.start, len).data;
    OverlayOnZeros(data, zeroed);
    CreateAndWrite(dir, name, buf[..], env);
  }

  /** `open(name, O_WRONLY | O_TRUNC | O_CREAT | O_EXCL, 0600)`, then `write` of the whole buffer. */
  method CreateAndWrite(dir: Workdir, name: string, content: seq<bv8>, env: Env)
    modifies dir
    ensures dir.files == Apply(old(dir.files), Create(old(dir.files), name, content, env))
  {
    var created := dir.CreateExclusive(name, env.opens);
    if !created {
      return;
    }
    var written := dir.Write(name, content);
    assert [] + Transfer(content) == Transfer(content);
  }

  /** What `read` leaves in a `calloc`'ed buffer is the buffer that is written out. */
  lemma OverlayOnZeros(data: seq<bv8>, zeroed: seq<bv8>)
    requires |data| <= |zeroed|
    requires forall i :: 0 <= i < |zeroed| ==> zeroed[i] == 0
    ensures data + zeroed[|data|..] == Dumped(data, |zeroed|)
  {
    assert zeroed[|data|..] == Zeros(|zeroed| - |data|);
  }

  /**
   * `dump_wrapper`: `dump_memory` for counts 0, 1, ..., INTERVALS - 1 in that
   * order, stopping at a fatal error. `ticks` records the counts passed, one
   * call after another.
   */
  method DumpWrapper(dir: Workdir, inputs: seq<TickInput>) returns (aborted: bool, ghost ticks: seq<int>)
    requires |inputs| == INTERVALS
    modifies dir
    ensures (dir.files, aborted) == RunTicks(old(dir.files), inputs, 0)
    ensures ticks == seq(|ticks|, k => k)
    ensures aborted ==> 0 < |ticks| <= INTERVALS && inputs[|ticks| - 1].Inaccessible?
    ensures !aborted ==> |ticks| == INTERVALS
    ensures forall k :: 0 <= k < |ticks| - 1 ==> inputs[k].Snapshot?
    ensures !aborted ==> forall k :: 0 <= k < INTERVALS ==> inputs[k].Snapshot?
  {
    var count: Int32 := 0;
    aborted, ticks := false, [];
    while count < INTERVALS
      invariant 0 <= count <= INTERVALS
      invariant RunTicks(old(dir.files), inputs, 0) == RunTicks(dir.files, inputs[count..], count)
      invariant ticks == seq(count, k => k)
      invariant forall k :: 0 <= k < count ==> inputs[k].Snapshot?
    {
      assert inputs[count..][0] == inputs[count] && inputs[count..][1..] == inputs[count + 1..];
      var fatal := DumpMemory(dir, inputs[count], count);
      ticks := ticks + [count];
      count := count + 1;
      if fatal {
        aborted := true;
        return;
      }
    }
  }
}
