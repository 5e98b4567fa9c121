/**
 * How xseek names the file it dumps a region into: the line is classified as
 * file-backed when it contains a `/` anywhere, and the name is
 * `map-<st>-<en>-<count>.bin` or `mem-<st>-<en>-<count>.bin`, the addresses
 * printed with `%lx` and the tick with `%d`. ParseName reads such a name back,
 * which shows that the name determines every field it was built from.
 */
module Naming {
  import opened CText

  const MAPPREFIX: string := "map-"
  const MEMPREFIX: string := "mem-"
  const BINSUFFIX: string := ".bin"

  /** File-backed (the line names a path) or anonymous memory. */
  datatype Kind = FileBacked | Anonymous

  /** `strchr(line, '/')`: any `/` in the line, wherever it stands, makes it file-backed. */
  function Classify(line: string): Kind {
    if '/' in line then FileBacked else Anonymous
  }

  function Prefix(k: Kind): string {
    match k
    case FileBacked => MAPPREFIX
    case Anonymous => MEMPREFIX
  }

  /** What a name is formatted from. */
  datatype Fields = Fields(kind: Kind, start: nat, end: nat, tick: int)

  /** `sprintf(line, PREFIX "%lx-%lx-%d" BINSUFFIX, st, en, count)`. */
  function Name(f: Fields): string {
    Prefix(f.kind) + (Numeral(f.start, 16) + ("-" + (Numeral(f.end, 16) + ("-" + (FormatInt(f.tick) + BINSUFFIX)))))
  }

  function ParseKind(s: string): Option<Kind> {
    if s == MAPPREFIX then Some(FileBacked)
    else if s == MEMPREFIX then Some(Anonymous)
    else None
  }

  /** A non-empty hex run and the `-` after it; gives the value and what follows the `-`. */
  function ParseHexField(s: string): Option<(nat, string)> {
    var n := Span(s, IsHexDigit);
    if n == 0 || n == |s| || s[n] != '-' then None else Some((ValueOf(s[..n], 16), s[n + 1..]))
  }

  /** The decimal tick and the suffix that closes the name. */
  function ParseTick(s: string): Option<int> {
    if |s| < |BINSUFFIX| || s[|s| - |BINSUFFIX|..] != BINSUFFIX then None
    else ParseInt(s[..|s| - |BINSUFFIX|])
  }

  function ParseName(s: string): Option<Fields> {
    if |s| < |MAPPREFIX| then None
    else
      match ParseKind(s[..|MAPPREFIX|])
      case None => None
      case Some(kind) => ParseFields(kind, s[|MAPPREFIX|..])
  }

  /** The part of a name after its prefix: `<st>-<en>-<count>.bin`. */
  function ParseFields(kind: Kind, s: string): Option<Fields> {
    match ParseHexField(s)
    case None => None
    case Some((st, afterStart)) =>
      match ParseHexField(afterStart)
      case None => None
      case Some((en, afterEnd)) =>
        match ParseTick(afterEnd)
        case None => None
        case Some(tick) => Some(Fields(kind, st, en, tick))
  }

  lemma HexFieldOf(v: nat, rest: string)
    ensures ParseHexField(Numeral(v, 16) + ("-" + rest)) == Some((v, rest))
  {
    var digits := Numeral(v, 16);
    var s := digits + ("-" + rest);
    SpanOfConcat(digits, "-" + rest, IsHexDigit);
    assert s[|digits|] == '-';
    assert s[..|digits|] == digits;
    assert s[|digits| + 1..] == rest;
    NumeralRoundTrip(v, 16);
  }

  lemma TickOf(t: int)
    ensures ParseTick(FormatInt(t) + BINSUFFIX) == Some(t)
  {
    var s := FormatInt(t) + BINSUFFIX;
    assert s[|s| - |BINSUFFIX|..] == BINSUFFIX;
    assert s[..|s| - |BINSUFFIX|] == FormatInt(t);
    IntRoundTrip(t);
  }

  /** Reading a name back recovers the kind, both addresses and the tick. */
  lemma ParseNameRoundTrip(f: Fields)
    ensures ParseName(Name(f)) == Some(f)
  {
    var s := Name(f);
    var body := Numeral(f.start, 16) + ("-" + (Numeral(f.end, 16) + ("-" + (FormatInt(f.tick) + BINSUFFIX))));
    assert s == Prefix(f.kind) + body;
    assert s[..|MAPPREFIX|] == Prefix(f.kind);
    assert s[|MAPPREFIX|..] == body;
    KindOf(f.kind);
    FieldsRoundTrip(f);
  }

  lemma KindOf(k: Kind)
    ensures ParseKind(Prefix(k)) == Some(k)
  {
    assert MEMPREFIX[1] != MAPPREFIX[1];
  }

  lemma FieldsRoundTrip(f: Fields)
    ensures ParseFields(f.kind, Numeral(f.start, 16) + ("-" + (Numeral(f.end, 16) + ("-" + (FormatInt(f.tick) + BINSUFFIX)))))
            == Some(f)
  {
    var afterEnd := FormatInt(f.tick) + BINSUFFIX;
    var afterStart := Numeral(f.end, 16) + ("-" + afterEnd);
    HexFieldOf(f.start, afterStart);
    HexFieldOf(f.end, afterEnd);
    TickOf(f.tick);
  }

  /** Different fields never give the same name; in particular two ticks never collide. */
  lemma NameInjective(f: Fields, g: Fields)
    ensures Name(f) == Name(g) <==> f == g
  {
    if Name(f) == Name(g) {
      ParseNameRoundTrip(f);
      ParseNameRoundTrip(g);
    }
  }

  /** The prefix of a name tells file-backed from anonymous dumps. */
  lemma PrefixShowsKind(f: Fields)
    ensures |Name(f)| > |MAPPREFIX|
    ensures f.kind == FileBacked <==> Name(f)[..|MAPPREFIX|] == MAPPREFIX
    ensures f.kind == Anonymous <==> Name(f)[..|MAPPREFIX|] == MEMPREFIX
  {
    assert Name(f)[..|MAPPREFIX|] == Prefix(f.kind);
  }
}
