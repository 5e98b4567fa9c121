/**
 * Concrete listings and what one tick makes of them: an anonymous read-write
 * region dumped whole, the same line with other permissions skipped, a
 * file-backed region named with the `map-` prefix, a shared mapping that
 * still parses, and a malformed line that does not disturb the next one.
 */
module Scenarios {
  import opened CText
  import opened MapsLine
  import opened Naming
  import opened Host
  import opened Xseek

  /** One more hex digit at the end of a numeral. */
  lemma NumeralStep(n: nat, d: nat)
    requires 0 < n && d < 16
    ensures Numeral(16 * n + d, 16) == Numeral(n, 16) + [Digit(d)]
  {
    assert (16 * n + d) / 16 == n && (16 * n + d) % 16 == d;
  }

  lemma Hex7f0000000000()
    ensures Numeral(0x7f00_0000_0000, 16) == "7f0000000000"
  {
    NumeralStep(0x7, 0xf);
    NumeralStep(0x7f, 0);
    NumeralStep(0x7f0, 0);
    NumeralStep(0x7f00, 0);
    NumeralStep(0x7f000, 0);
    NumeralStep(0x7f0000, 0);
    NumeralStep(0x7f00000, 0);
    NumeralStep(0x7f000000, 0);
    NumeralStep(0x7f0000000, 0);
    NumeralStep(0x7f00000000, 0);
    NumeralStep(0x7f000000000, 0);
  }

  lemma Hex7f0000001000()
    ensures Numeral(0x7f00_0000_1000, 16) == "7f0000001000"
  {
    NumeralStep(0x7, 0xf);
    NumeralStep(0x7f, 0);
    NumeralStep(0x7f0, 0);
    NumeralStep(0x7f00, 0);
    NumeralStep(0x7f000, 0);
    NumeralStep(0x7f0000, 0);
    NumeralStep(0x7f00000, 0);
    NumeralStep(0x7f000000, 1);
    NumeralStep(0x7f0000001, 0);
    NumeralStep(0x7f00000010, 0);
    NumeralStep(0x7f000000100, 0);
  }

  lemma Hex400000()
    ensures Numeral(0x40_0000, 16) == "400000"
  {
    NumeralStep(0x4, 0);
    NumeralStep(0x40, 0);
    NumeralStep(0x400, 0);
    NumeralStep(0x4000, 0);
    NumeralStep(0x40000, 0);
  }

  lemma Hex401000()
    ensures Numeral(0x40_1000, 16) == "401000"
  {
    NumeralStep(0x4, 0);
    NumeralStep(0x40, 1);
    NumeralStep(0x401, 0);
    NumeralStep(0x4010, 0);
    NumeralStep(0x40100, 0);
  }

  /** A line spelt by a layout whose two numbers are printed numerals parses to those numbers. */
  lemma ParsesTo(p: Layout, st: Ulong, en: Ulong)
    requires p.first == Numeral(st, 16) && p.second == Numeral(en, 16)
    requires All(p.lead, IsSpace) && All(p.gap, IsSpace) && All(p.sep, IsSpace)
    requires !IsSpace(p.r) && (p.sep == [] ==> !IsHexDigit(p.r))
    ensures ParseLine(Render(p)) == Some(Entry(st, en, p.r, p.w, p.x))
  {
    NumeralRoundTrip(st, 16);
    NumeralRoundTrip(en, 16);
    ParseComplete(p);
  }

  const ANON_START: Ulong := 0x7f00_0000_0000
  const ANON_END: Ulong := 0x7f00_0000_1000

  /** The listing line of an anonymous region with permissions `perms`. */
  function AnonLine(perms: string): string {
    "7f0000000000-7f0000001000 " + perms + " 00000000 00:00 0"
  }

  lemma AnonLineParses(perms: string)
    requires |perms| == 4 && !IsSpace(perms[0])
    ensures ParseLine(AnonLine(perms)) == Some(Entry(ANON_START, ANON_END, perms[0], perms[1], perms[2]))
  {
    Hex7f0000000000();
    Hex7f0000001000();
    var p := AnonLayout(perms);
    ParsesTo(p, ANON_START, ANON_END);
  }

  function AnonLayout(perms: string): (p: Layout)
    requires |perms| == 4
    ensures p.first == "7f0000000000" && p.second == "7f0000001000"
    ensures p.lead == p.gap == "" && p.sep == " " && [p.r, p.w, p.x] == perms[..3]
    ensures Render(p) == AnonLine(perms)
  {
    var p := Layout("", "7f0000000000", "", "7f0000001000", " ", perms[0], perms[1], perms[2],
                    [perms[3]] + " 00000000 00:00 0");
    assert [p.r, p.w, p.x] + p.rest == perms + " 00000000 00:00 0";
    p
  }

  lemma AnonLineIsAnonymous(perms: string)
    requires '/' !in perms
    ensures Classify(AnonLine(perms)) == Anonymous
  {
  }

  /**
   * An anonymous `rw-p` (or `rw-s`) region of 0x1000 bytes, all readable as
   * 0xAA, in an empty directory at tick 0, with every buffer allocated and
   * every free name creatable: the file `mem-7f0000000000-7f0000001000-0.bin`
   * of 4096 bytes, every one 0xAA.
   */
  lemma AnonymousReadWriteRegionIsDumped(image: Image, perms: string)
    requires |perms| == 4 && perms[0] == 'r' && perms[1] == 'w' && perms[2] == '-' && '/' !in perms
    requires forall a :: ANON_START <= a < ANON_END ==> a in image && image[a] == 0xAA
    ensures var o := LineOutcome(map[], AnonLine(perms), Env(image, _ => true, _ => true), 0);
            && o.Written? && o.name == "mem-7f0000000000-7f0000001000-0.bin"
            && |o.content| == 4096
            && forall i :: 0 <= i < |o.content| ==> o.content[i] == 0xAA
  {
    var env := Env(image, _ => true, _ => true);
    AnonLineOutcome(map[], env, perms);
    AnonRegionOutcome(image);
  }

  /** The line's outcome at tick 0 is decided by its region from the filter on. */
  lemma AnonLineOutcome(files: Files, env: Env, perms: string)
    requires |perms| == 4 && !IsSpace(perms[0]) && '/' !in perms
    ensures LineOutcome(files, AnonLine(perms), env, 0)
            == RegionOutcome(files, AnonName(), Entry(ANON_START, ANON_END, perms[0], perms[1], perms[2]), env)
  {
    AnonLineParses(perms);
    AnonLineIsAnonymous(perms);
  }

  lemma AnonRegionOutcome(image: Image)
    requires forall a :: ANON_START <= a < ANON_END ==> a in image && image[a] == 0xAA
    ensures var o := RegionOutcome(map[], AnonName(), Entry(ANON_START, ANON_END, 'r', 'w', '-'),
                                   Env(image, _ => true, _ => true));
            && o.Written? && o.name == AnonName()
            && |o.content| == 4096
            && forall i :: 0 <= i < |o.content| ==> o.content[i] == 0xAA
  {
    var e := Entry(ANON_START, ANON_END, 'r', 'w', '-');
    UniformRegionOutcome(image, e, AnonName(), 0xAA);
    assert Capped(Length(e)) == 4096;
  }

  /**
   * A kept region readable throughout as one byte value: the artifact holds
   * that byte as far as one `read` and one `write` reach.
   */
  lemma UniformRegionOutcome(image: Image, e: Entry, name: string, b: bv8)
    requires Kept(e)
    requires forall a :: e.start <= a < e.start + Length(e) ==> a in image && image[a] == b
    ensures var o := RegionOutcome(map[], name, e, Env(image, _ => true, _ => true));
            && o.Written? && o.name == name
            && |o.content| == Capped(Length(e))
            && (forall i :: 0 <= i < |o.content| ==> o.content[i] == b)
  {
    var env := Env(image, _ => true, _ => true);
    ReadFullRegion(image, e.start, Length(e));
    ArtifactContent(map[], name, e, env);
  }

  function AnonName(): (name: string)
    ensures name == "mem-7f0000000000-7f0000001000-0.bin"
  {
    Hex7f0000000000();
    Hex7f0000001000();
    assert FormatInt(0) == "0";
    var name := Name(Fields(Anonymous, ANON_START, ANON_END, 0));
    assert name == "mem-" + ("7f0000000000" + ("-" + ("7f0000001000" + ("-" + ("0" + ".bin")))));
    AnonNameSpelling();
    name
  }

  lemma AnonNameSpelling()
    ensures "mem-" + ("7f0000000000" + ("-" + ("7f0000001000" + ("-" + ("0" + ".bin")))))
            == "mem-7f0000000000-7f0000001000-0.bin"
  {
  }

  /** The same line with permissions `r--p` yields no file, whatever the system would allow. */
  lemma ReadOnlyRegionIsSkipped(files: Files, env: Env, count: Int32)
    ensures LineOutcome(files, AnonLine("r--p"), env, count) == Filtered
  {
    AnonLineParses("r--p");
  }

  /** A shared read-write mapping: the trailing `s` where the pattern says `p` does not stop the parse. */
  lemma SharedMappingParses()
    ensures ParseLine(AnonLine("rw-s")) == Some(Entry(ANON_START, ANON_END, 'r', 'w', '-'))
  {
    AnonLineParses("rw-s");
  }

  /** The fields after the permissions, ending in the backing file's path. */
  const FILE_TAIL: string := "p 00000000 08:01 1234 /usr/bin/foo"
  const FILE_LINE: string := "400000" + "-" + "401000" + " " + "rw-" + FILE_TAIL

  /** A region backed by `/usr/bin/foo` is named `map-400000-401000-<tick>.bin`. */
  lemma FileBackedRegionName(count: Int32)
    ensures ParseLine(FILE_LINE) == Some(Entry(0x40_0000, 0x40_1000, 'r', 'w', '-'))
    ensures ArtifactName(FILE_LINE, ParseLine(FILE_LINE).value, count)
            == "map-" + ("400000" + ("-" + ("401000" + ("-" + (FormatInt(count) + ".bin")))))
  {
    FileLineParses();
    FileLineIsFileBacked();
    Hex400000();
    Hex401000();
  }

  lemma FileLineParses()
    ensures ParseLine(FILE_LINE) == Some(Entry(0x40_0000, 0x40_1000, 'r', 'w', '-'))
  {
    Hex400000();
    Hex401000();
    var p := Layout("", "400000", "", "401000", " ", 'r', 'w', '-', FILE_TAIL);
    assert Render(p) == FILE_LINE;
    ParsesTo(p, 0x40_0000, 0x40_1000);
  }

  lemma FileLineIsFileBacked()
    ensures Classify(FILE_LINE) == FileBacked
  {
    assert FILE_TAIL[22] == '/';
    assert '/' in FILE_LINE;
  }

  const HEADER_REST: string := "ress perms offset dev inode pathname"

  /** A line whose first number is not followed at once by `-` is malformed. */
  lemma NoDashAfterStart(line: string)
    requires ScanHex(line).Some?
    requires ScanHex(line).value.1 == [] || ScanHex(line).value.1[0] != '-'
    ensures ParseLine(line) == None
  {
  }

  /** A header line is not a mapping: the number `add` is not followed by `-`. */
  lemma HeaderLineIsMalformed()
    ensures ParseLine("add" + HEADER_REST) == None
  {
    assert All("add", IsHexDigit);
    assert !IsHexDigit(HEADER_REST[0]);
    ScanHexOf("", "add", HEADER_REST);
    assert "" + ("add" + HEADER_REST) == "add" + HEADER_REST;
    NoDashAfterStart("add" + HEADER_REST);
  }

  /** A line that starts with neither white space nor a hex digit has no first address. */
  lemma NoAddressNoEntry(line: string)
    requires line != [] && !IsSpace(line[0]) && !IsHexDigit(line[0])
    ensures ParseLine(line) == None
  {
    assert Span(line, IsSpace) == 0;
    assert Span(line, IsHexDigit) == 0;
  }

  /**
   * A malformed line ahead of the anonymous `rw-p` line leaves the directory
   * exactly as the `rw-p` line alone would.
   */
  lemma MalformedLineIsSkipped(files: Files, env: Env, count: Int32)
    ensures Dump(files, ["garbage", AnonLine("rw-p")], env, count) == Dump(files, [AnonLine("rw-p")], env, count)
  {
    NoAddressNoEntry("garbage");
    SkippedLineChangesNothing(files, [], "garbage", [AnonLine("rw-p")], env, count);
    assert [] + ["garbage"] + [AnonLine("rw-p")] == ["garbage", AnonLine("rw-p")];
    assert [] + [AnonLine("rw-p")] == [AnonLine("rw-p")];
  }
}
