/**
 * One line of a `/proc/<pid>/maps` listing, as xseek reads it with
 * `sscanf(line, "%lx-%lx %c%c%cp", &st, &en, &r, &w, &x)`, and the two
 * decisions taken from what that yields: the region length and the fixed
 * `rw-` permission filter.
 */
module MapsLine {
  import opened CText

  /** What the five conversions deliver when all of them succeed. */
  datatype Entry = Entry(start: Ulong, end: Ulong, r: char, w: char, x: char)

  /** `strtoul` saturates a value that does not fit an `unsigned long`. */
  function Saturate(v: nat): Ulong {
    if v < TWO_TO_64 then v else ULONG_MAX
  }

  /**
   * One `%lx` conversion: leading white space is skipped, then the longest
   * non-empty run of hexadecimal digits is converted. Gives the value and
   * the unread rest of the input, or None when no digit follows.
   */
  function ScanHex(s: string): (res: Option<(Ulong, string)>)
    ensures res.Some? ==> |res.value.1| < |s|
  {
    var lead := Span(s, IsSpace);
    var t := s[lead..];
    var n := Span(t, IsHexDigit);
    if n == 0 then None else Some((Saturate(ValueOf(t[..n], 16)), t[n..]))
  }

  /**
   * The whole pattern `%lx-%lx %c%c%cp`. The literal `-` must follow the
   * first number; the blank in the pattern consumes zero or more white-space
   * characters; each `%c` takes the next character whatever it is. The final
   * literal `p` comes after the fifth conversion and cannot change the count,
   * so it is not checked. None stands for every count other than 5.
   */
  function ParseLine(line: string): Option<Entry> {
    match ScanHex(line)
    case None => None
    case Some((st, afterStart)) => ParseAfterStart(st, afterStart)
  }

  /** The part of the pattern after the first number: `-%lx %c%c%c`. */
  function ParseAfterStart(st: Ulong, afterStart: string): Option<Entry> {
    if afterStart == [] || afterStart[0] != '-' then None
    else
      match ScanHex(afterStart[1..])
      case None => None
      case Some((en, afterEnd)) => ParsePerms(st, en, afterEnd)
  }

  /** The part of the pattern after the second number: ` %c%c%c`. */
  function ParsePerms(st: Ulong, en: Ulong, afterEnd: string): Option<Entry> {
    var perms := afterEnd[Span(afterEnd, IsSpace)..];
    if |perms| < 3 then None else Some(Entry(st, en, perms[0], perms[1], perms[2]))
  }

  /**
   * An independent description of the lines the pattern matches: white space,
   * a hex run, `-`, white space, a hex run, white space, then three characters
   * and anything at all.
   */
  datatype Layout = Layout(lead: string, first: string, gap: string, second: string,
                           sep: string, r: char, w: char, x: char, rest: string)

  function Render(p: Layout): string {
    p.lead + (p.first + ("-" + (p.gap + (p.second + (p.sep + ([p.r, p.w, p.x] + p.rest))))))
  }

  /**
   * The pieces are what the conversions will take: white space where the
   * pattern skips it, non-empty hex runs for the numbers, and a first
   * permission character that neither the white-space skip nor the second
   * number would swallow.
   */
  predicate WellFormed(p: Layout) {
    && All(p.lead, IsSpace) && All(p.gap, IsSpace) && All(p.sep, IsSpace)
    && p.first != [] && All(p.first, IsHexDigit)
    && p.second != [] && All(p.second, IsHexDigit)
    && !IsSpace(p.r)
    && (p.sep == [] ==> !IsHexDigit(p.r))
  }

  function EntryOf(p: Layout): Entry
    requires WellFormed(p)
  {
    Entry(Saturate(ValueOf(p.first, 16)), Saturate(ValueOf(p.second, 16)), p.r, p.w, p.x)
  }

  /** A run of white space followed by something that is not white space is skipped whole. */
  lemma ScanHexOf(ws: string, digits: string, rest: string)
    requires All(ws, IsSpace) && digits != [] && All(digits, IsHexDigit)
    requires rest != [] ==> !IsHexDigit(rest[0])
    ensures ScanHex(ws + (digits + rest)) == Some((Saturate(ValueOf(digits, 16)), rest))
  {
    var s := ws + (digits + rest);
    SpanOfConcat(ws, digits + rest, IsSpace);
    assert s[|ws|..] == digits + rest;
    SpanOfConcat(digits, rest, IsHexDigit);
    assert (digits + rest)[..|digits|] == digits;
    assert (digits + rest)[|digits|..] == rest;
  }

  /** Every well-formed layout parses, to exactly the fields it spells. */
  lemma ParseComplete(p: Layout)
    requires WellFormed(p)
    ensures ParseLine(Render(p)) == Some(EntryOf(p))
  {
    var rwx := [p.r, p.w, p.x] + p.rest;
    var afterStart := "-" + (p.gap + (p.second + (p.sep + rwx)));
    StartOf(p.lead, p.first, afterStart);
    AfterStartOf(Saturate(ValueOf(p.first, 16)), p.gap, p.second, p.sep, rwx);
  }

  /** The first conversion of a line, and what the rest of the pattern is matched against. */
  lemma StartOf(lead: string, first: string, afterStart: string)
    requires All(lead, IsSpace) && first != [] && All(first, IsHexDigit)
    requires afterStart != [] && afterStart[0] == '-'
    ensures ParseLine(lead + (first + afterStart)) == ParseAfterStart(Saturate(ValueOf(first, 16)), afterStart)
  {
    ScanHexOf(lead, first, afterStart);
  }

  /** `-%lx %c%c%c` on a dash, white space, a hex run, white space and the permissions. */
  lemma AfterStartOf(st: Ulong, gap: string, second: string, sep: string, rwx: string)
    requires All(gap, IsSpace) && second != [] && All(second, IsHexDigit) && All(sep, IsSpace)
    requires |rwx| >= 3 && !IsSpace(rwx[0]) && (sep == [] ==> !IsHexDigit(rwx[0]))
    ensures ParseAfterStart(st, "-" + (gap + (second + (sep + rwx))))
            == Some(Entry(st, Saturate(ValueOf(second, 16)), rwx[0], rwx[1], rwx[2]))
  {
    var tail := sep + rwx;
    if sep != [] {
      assert tail[0] == sep[0];
    }
    ScanHexOf(gap, second, tail);
    var en := Saturate(ValueOf(second, 16));
    AfterDashOf(st, gap + (second + tail), en, tail);
    PermsOf(st, en, sep, rwx);
  }

  lemma AfterDashOf(st: Ulong, afterDash: string, en: Ulong, tail: string)
    requires ScanHex(afterDash) == Some((en, tail))
    ensures ParseAfterStart(st, "-" + afterDash) == ParsePerms(st, en, tail)
  {
    assert ("-" + afterDash)[1..] == afterDash;
  }

  lemma PermsOf(st: Ulong, en: Ulong, sep: string, rwx: string)
    requires All(sep, IsSpace) && |rwx| >= 3 && !IsSpace(rwx[0])
    ensures ParsePerms(st, en, sep + rwx) == Some(Entry(st, en, rwx[0], rwx[1], rwx[2]))
  {
    SpanOfConcat(sep, rwx, IsSpace);
    assert (sep + rwx)[|sep|..] == rwx;
  }

  /** Every line that parses is a well-formed layout of the fields it yields. */
  lemma ParseSound(line: string)
    requires ParseLine(line).Some?
    ensures exists p :: WellFormed(p) && Render(p) == line && EntryOf(p) == ParseLine(line).value
  {
    var p := Decompose(line);
  }

  /** The layout a parsed line was read from. */
  lemma Decompose(line: string) returns (p: Layout)
    requires ParseLine(line).Some?
    ensures WellFormed(p) && Render(p) == line && EntryOf(p) == ParseLine(line).value
  {
    UnfoldParseLine(line);
    var lead, first := ScanHexSplit(line);
    var st := ScanHex(line).value.0;
    var afterStart := ScanHex(line).value.1;
    var gap, second, sep, rwx := DecomposeAfterStart(st, afterStart);
    p := Layout(lead, first, gap, second, sep, rwx[0], rwx[1], rwx[2], rwx[3..]);
    Reassemble(p, line, afterStart, rwx);
  }

  lemma DecomposeAfterStart(st: Ulong, afterStart: string)
    returns (gap: string, second: string, sep: string, rwx: string)
    requires ParseAfterStart(st, afterStart).Some?
    requires afterStart != [] ==> !IsHexDigit(afterStart[0])
    ensures afterStart == "-" + (gap + (second + (sep + rwx)))
    ensures All(gap, IsSpace) && second != [] && All(second, IsHexDigit) && All(sep, IsSpace)
    ensures |rwx| >= 3 && !IsSpace(rwx[0]) && (sep == [] ==> !IsHexDigit(rwx[0]))
    ensures ParseAfterStart(st, afterStart)
            == Some(Entry(st, Saturate(ValueOf(second, 16)), rwx[0], rwx[1], rwx[2]))
  {
    UnfoldAfterStart(st, afterStart);
    var u := afterStart[1..];
    Rejoin(afterStart, 1);
    assert afterStart[..1] == "-";
    gap, second := ScanHexSplit(u);
    var en := ScanHex(u).value.0;
    var afterEnd := ScanHex(u).value.1;
    sep, rwx := PermsSplit(st, en, afterEnd);
  }

  lemma Reassemble(p: Layout, line: string, afterStart: string, rwx: string)
    requires line == p.lead + (p.first + afterStart)
    requires afterStart == "-" + (p.gap + (p.second + (p.sep + rwx)))
    requires |rwx| >= 3 && p.r == rwx[0] && p.w == rwx[1] && p.x == rwx[2] && p.rest == rwx[3..]
    ensures Render(p) == line
  {
    assert rwx == [p.r, p.w, p.x] + p.rest;
  }

  /** The pieces one successful `%lx` conversion consumed. */
  lemma ScanHexSplit(s: string) returns (ws: string, digits: string)
    requires ScanHex(s).Some?
    ensures s == ws + (digits + ScanHex(s).value.1)
    ensures All(ws, IsSpace) && digits != [] && All(digits, IsHexDigit)
    ensures ScanHex(s).value.0 == Saturate(ValueOf(digits, 16))
    ensures ScanHex(s).value.1 != [] ==> !IsHexDigit(ScanHex(s).value.1[0])
  {
    var lead := Span(s, IsSpace);
    var t := s[lead..];
    var n := Span(t, IsHexDigit);
    ws, digits := s[..lead], t[..n];
    Rejoin(t, n);
    Rejoin(s, lead);
  }

  /** The pieces the blank and the three `%c` conversions consumed. */
  lemma PermsSplit(st: Ulong, en: Ulong, afterEnd: string) returns (sep: string, rwx: string)
    requires ParsePerms(st, en, afterEnd).Some?
    ensures afterEnd == sep + rwx && All(sep, IsSpace) && |rwx| >= 3
    ensures afterEnd != [] && sep == [] ==> rwx[0] == afterEnd[0]
    ensures !IsSpace(rwx[0])
    ensures rwx == [rwx[0], rwx[1], rwx[2]] + rwx[3..]
    ensures ParsePerms(st, en, afterEnd) == Some(Entry(st, en, rwx[0], rwx[1], rwx[2]))
  {
    var k := Span(afterEnd, IsSpace);
    sep, rwx := afterEnd[..k], afterEnd[k..];
    Rejoin(afterEnd, k);
    Rejoin(rwx, 3);
    assert rwx[0] == afterEnd[k];
  }

  lemma UnfoldParseLine(line: string)
    requires ParseLine(line).Some?
    ensures ScanHex(line).Some?
    ensures ParseAfterStart(ScanHex(line).value.0, ScanHex(line).value.1) == ParseLine(line)
  {
  }

  lemma UnfoldAfterStart(st: Ulong, afterStart: string)
    requires ParseAfterStart(st, afterStart).Some?
    ensures afterStart != [] && afterStart[0] == '-' && ScanHex(afterStart[1..]).Some?
    ensures ParsePerms(st, ScanHex(afterStart[1..]).value.0, ScanHex(afterStart[1..]).value.1)
            == ParseAfterStart(st, afterStart)
  {
  }

  lemma Rejoin(s: string, k: nat)
    requires k <= |s|
    ensures s == s[..k] + s[k..]
  {
  }

  /** No layout spells a line that does not parse: the pattern and the layout agree both ways. */
  lemma MalformedHasNoLayout(line: string, p: Layout)
    requires ParseLine(line).None?
    ensures !(WellFormed(p) && Render(p) == line)
  {
    if WellFormed(p) && Render(p) == line {
      ParseComplete(p);
    }
  }

  /**
   * A parsed line never starts with `/`, so the first `/` in it, when there is
   * one, has a character before it: xseek's `*(filepath-1)=0` stays inside
   * the line buffer.
   */
  lemma ParsedLineHasNoLeadingSlash(line: string)
    requires ParseLine(line).Some?
    ensures line != [] && line[0] != '/'
  {
    var lead := Span(line, IsSpace);
    if lead == 0 {
      assert line[lead..][0] == line[0];
    } else {
      assert line[..lead][0] == line[0];
    }
  }

  /** The permission filter `RWX_FILTER`, a fixed constant of the program. */
  const RWX_FILTER: string := "rw-"

  /** A region is kept exactly when its permission characters are `r`, `w`, `-`. */
  predicate Kept(e: Entry) {
    e.r == RWX_FILTER[0] && e.w == RWX_FILTER[1] && e.x == RWX_FILTER[2]
  }

  /** `len = en - st` in `unsigned long` arithmetic: it wraps when the end is below the start. */
  function Length(e: Entry): (len: Ulong)
    ensures e.start <= e.end ==> len == e.end - e.start
    ensures e.end < e.start ==> len == TWO_TO_64 - (e.start - e.end)
  {
    (e.end - e.start) % TWO_TO_64
  }
}
