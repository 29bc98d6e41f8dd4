/**
 Conflict markers: the writer of one conflict block, the line-driven parser of a file, and
 exactly when the parser recovers what was written.
 */
module ConflictMarkers {
  import opened Objects

  const START := "<<<<<<<"
  const BASE := "|||||||"
  const SEPARATOR := "======="
  const END := ">>>>>>>"

  predicate StartsWith(line: string, marker: string) {
    marker <= line
  }

  predicate IsStart(line: string) {
    StartsWith(line, START)
  }

  predicate IsBase(line: string) {
    StartsWith(line, BASE)
  }

  predicate IsSeparator(line: string) {
    StartsWith(line, SEPARATOR)
  }

  predicate IsEndMarker(line: string) {
    StartsWith(line, END)
  }

  // ---------------------------------------------------------------- lines of a text

  function FirstNewline(s: string): (n: nat)
    ensures n <= |s| && (n < |s| ==> s[n] == '\n') && forall i :: 0 <= i < n ==> s[i] != '\n'
  {
    if s == "" || s[0] == '\n' then 0 else 1 + FirstNewline(s[1..])
  }

  function StripCarriageReturn(line: string): string {
    if line != "" && line[|line| - 1] == '\r' then line[..|line| - 1] else line
  }

  /** Rust's `str::lines`: a final newline opens no further line, and "\r\n" ends a line too. */
  function Lines(s: string): seq<string>
    decreases |s|
  {
    if s == "" then []
    else
      var n := FirstNewline(s);
      if n == |s| then [s] else [StripCarriageReturn(s[..n])] + Lines(s[n + 1..])
  }

  predicate EmptyOrTerminated(s: string) {
    s == "" || s[|s| - 1] == '\n'
  }

  lemma FirstNewlineJoin(a: string, b: string)
    requires FirstNewline(a) < |a|
    ensures var n := FirstNewline(a);
            FirstNewline(a + b) == n && (a + b)[..n] == a[..n] && (a + b)[n + 1..] == a[n + 1..] + b
  {
    var n := FirstNewline(a);
    assert forall i :: 0 <= i <= n ==> (a + b)[i] == a[i];
  }

  lemma LinesFirst(s: string)
    requires FirstNewline(s) < |s|
    ensures Lines(s) == [StripCarriageReturn(s[..FirstNewline(s)])] + Lines(s[FirstNewline(s) + 1..])
  {
    hide FirstNewline, StripCarriageReturn;
  }

  lemma ConcatAssociates<T>(a: seq<T>, b: seq<T>, c: seq<T>)
    ensures a + b + c == a + (b + c)
  {
  }

  lemma {:induction false} LinesJoin(a: string, b: string)
    requires EmptyOrTerminated(a)
    ensures Lines(a + b) == Lines(a) + Lines(b)
    decreases |a|
  {
    if a == "" {
      assert a + b == b;
      assert [] + Lines(b) == Lines(b);
    } else {
      var n := FirstNewline(a);
      assert EmptyOrTerminated(a[n + 1..]);
      hide *;
      FirstNewlineJoin(a, b);
      LinesFirst(a);
      LinesFirst(a + b);
      LinesJoin(a[n + 1..], b);
      ConcatAssociates([StripCarriageReturn(a[..n])], Lines(a[n + 1..]), Lines(b));
    }
  }

  lemma OneLine(line: string)
    requires '\n' !in line
    ensures Lines(line + "\n") == [StripCarriageReturn(line)]
  {
    var s := line + "\n";
    assert s[|line|] == '\n' && forall i :: 0 <= i < |line| ==> s[i] == line[i];
    assert FirstNewline(s) == |line| && s[..|line|] == line && s[|line| + 1..] == "";
  }

  // ---------------------------------------------------------------- the writer

  datatype Block = Block(base: Option<string>, ours: string, theirs: string, oursLabel: string, theirsLabel: string)

  function Terminated(s: string): string {
    if s != "" && s[|s| - 1] != '\n' then s + "\n" else s
  }

  function BasePart(base: Option<string>): string {
    if base.Some? then BASE + " BASE\n" + Terminated(base.value) else ""
  }

  /** The text of one conflict block. */
  function Rendered(b: Block): string {
    START + " " + b.oursLabel + "\n" + Terminated(b.ours) + BasePart(b.base)
    + (SEPARATOR + "\n") + Terminated(b.theirs) + (END + " " + b.theirsLabel + "\n")
  }

  /** The idiom the writer repeats for each section. */
  method WriteSection(output: string, s: string) returns (output': string)
    ensures output' == output + Terminated(s)
  {
    output' := output + s;
    if s != "" && !(s != "" && s[|s| - 1] == '\n') {
      output' := output' + "\n";
      assert output' == output + (s + "\n");
    }
  }

  method WriteConflictMarkers(base: Option<string>, ours: string, theirs: string, oursLabel: string,
      theirsLabel: string)
    returns (output: string)
    ensures output == Rendered(Block(base, ours, theirs, oursLabel, theirsLabel))
  {
    hide Terminated;
    var opening := START + " " + oursLabel + "\n";
    var beforeBase := WriteSection(opening, ours);
    output := beforeBase;
    if base.Some? {
      output := output + (BASE + " BASE\n");
      output := WriteSection(output, base.value);
      ConcatAssociates(beforeBase, BASE + " BASE\n", Terminated(base.value));
    }
    assert beforeBase + "" == beforeBase;
    assert output == beforeBase + BasePart(base);
    output := output + (SEPARATOR + "\n");
    output := WriteSection(output, theirs);
    output := output + (END + " " + theirsLabel + "\n");
  }

  // ---------------------------------------------------------------- the parser

  datatype Section = Ours | Base | Theirs

  datatype Region = Region(startLine: nat, endLine: nat, ours: string, base: Option<string>, theirs: string)

  /** A region whose end marker has not been seen. */
  datatype Open = Open(section: Section, ours: string, base: Option<string>, theirs: string)

  const FRESH: Open := Open(Ours, "", None, "")

  /** A newline goes in front only when there is text already. */
  function Appended(text: string, line: string): string {
    if text == "" then line else text + "\n" + line
  }

  predicate IsInnerMarker(line: string) {
    IsBase(line) || IsSeparator(line)
  }

  predicate IsEnd(line: string) {
    !IsInnerMarker(line) && IsEndMarker(line)
  }

  function Absorbed(o: Open, line: string): Open {
    if IsBase(line) then o.(section := Base, base := Some(""))
    else if IsSeparator(line) then o.(section := Theirs)
    else match o.section
      case Ours => o.(ours := Appended(o.ours, line))
      case Base => if o.base.Some? then o.(base := Some(Appended(o.base.value, line))) else o
      case Theirs => o.(theirs := Appended(o.theirs, line))
  }

  /** The regions of the lines, `at` lines into the file and outside any region. */
  function Outside(lines: seq<string>, at: nat): seq<Region>
    decreases |lines|
  {
    if lines == [] then []
    else if IsStart(lines[0]) then Inside(lines[1..], at + 1, at + 1, FRESH)
    else Outside(lines[1..], at + 1)
  }

  /** The same inside a region; one without an end marker is dropped. */
  function Inside(lines: seq<string>, at: nat, startLine: nat, o: Open): seq<Region>
    decreases |lines|
  {
    if lines == [] then []
    else if IsEnd(lines[0]) then
      [Region(startLine, at + 1, o.ours, o.base, o.theirs)] + Outside(lines[1..], at + 1)
    else Inside(lines[1..], at + 1, startLine, Absorbed(o, lines[0]))
  }

  lemma OutsideAt(lines: seq<string>, i: nat)
    requires i < |lines|
    ensures Outside(lines[i..], i) == if IsStart(lines[i]) then Inside(lines[i + 1..], i + 1, i + 1, FRESH)
                                      else Outside(lines[i + 1..], i + 1)
  {
    assert lines[i..][1..] == lines[i + 1..];
  }

  lemma InsideAt(lines: seq<string>, i: nat, startLine: nat, o: Open)
    requires i < |lines|
    ensures Inside(lines[i..], i, startLine, o) ==
            if IsEnd(lines[i])
            then [Region(startLine, i + 1, o.ours, o.base, o.theirs)] + Outside(lines[i + 1..], i + 1)
            else Inside(lines[i + 1..], i + 1, startLine, Absorbed(o, lines[i]))
  {
    assert lines[i..][1..] == lines[i + 1..];
  }

  /** The regions found before line `i` and those still to find; past the end there are none. */
  ghost predicate Splits(all: seq<Region>, found: seq<Region>, lines: seq<string>, i: nat) {
    all == found + if i <= |lines| then Outside(lines[i..], i) else []
  }

  ghost predicate SplitsInside(all: seq<Region>, found: seq<Region>, lines: seq<string>, i: nat, startLine: nat,
      o: Open) {
    i <= |lines| && all == found + Inside(lines[i..], i, startLine, o)
  }

  lemma EnterRegion(all: seq<Region>, found: seq<Region>, lines: seq<string>, i: nat)
    requires i < |lines| && Splits(all, found, lines, i)
    ensures if IsStart(lines[i]) then SplitsInside(all, found, lines, i + 1, i + 1, FRESH)
            else Splits(all, found, lines, i + 1)
  {
    OutsideAt(lines, i);
  }

  lemma NextInside(all: seq<Region>, found: seq<Region>, lines: seq<string>, i: nat, startLine: nat, o: Open)
    requires i < |lines| && SplitsInside(all, found, lines, i, startLine, o)
    ensures if IsEnd(lines[i])
            then Splits(all, found + [Region(startLine, i + 1, o.ours, o.base, o.theirs)], lines, i + 1)
            else SplitsInside(all, found, lines, i + 1, startLine, Absorbed(o, lines[i]))
  {
    InsideAt(lines, i, startLine, o);
  }

  lemma NothingLeft(all: seq<Region>, found: seq<Region>, lines: seq<string>, i: nat, startLine: nat, o: Open)
    requires SplitsInside(all, found, lines, i, startLine, o) && i == |lines|
    ensures Splits(all, found, lines, i + 1)
  {
    assert lines[i..] == [];
  }

  /** The idiom the parser repeats for each section. */
  method AppendLine(text: string, line: string) returns (text': string)
    ensures text' == Appended(text, line)
  {
    text' := text;
    if text' != "" { text' := text' + "\n"; }
    text' := text' + line;
    assert "" + line == line;
  }

  method ParseConflictRegions(content: string) returns (regions: seq<Region>)
    ensures regions == Outside(Lines(content), 0)
  {
    regions := [];
    var lines := Lines(content);
    var i := 0;
    assert lines[0..] == lines;
    assert Splits(Outside(lines, 0), regions, lines, i);
    while i < |lines|
      invariant Splits(Outside(lines, 0), regions, lines, i)
    {
      hide Splits, SplitsInside, Inside, Outside, IsStart, IsBase, IsSeparator, IsEndMarker, Appended, Lines;
      EnterRegion(Outside(lines, 0), regions, lines, i);
      if IsStart(lines[i]) {
        var startLine := i + 1; // 1-indexed
        var ours, base, theirs := "", None, "";
        var section := Ours;
        i := i + 1;
        ghost var ended := false;
        while i < |lines|
          invariant !ended
          invariant SplitsInside(Outside(lines, 0), regions, lines, i, startLine, Open(section, ours, base, theirs))
        {
          var line := lines[i];
          ghost var o := Open(section, ours, base, theirs);
          NextInside(Outside(lines, 0), regions, lines, i, startLine, o);
          if IsBase(line) {
            section := Base;
            base := Some("");
          } else if IsSeparator(line) {
            section := Theirs;
          } else if IsEndMarker(line) {
            regions := regions + [Region(startLine, i + 1, ours, base, theirs)];
            ended := true;
            break;
          } else {
            match section
            case Ours => ours := AppendLine(ours, line);
            case Base => if base.Some? { var b := AppendLine(base.value, line); base := Some(b); }
            case Theirs => theirs := AppendLine(theirs, line);
          }
          assert Open(section, ours, base, theirs) == Absorbed(o, line);
          i := i + 1;
        }
        if !ended { NothingLeft(Outside(lines, 0), regions, lines, i, startLine, Open(section, ours, base, theirs)); }
      }
      i := i + 1;
    }
    assert lines[|lines|..] == [];
  }

  // ---------------------------------------------------------------- line ranges, for every file

  /** The region spans a start marker and the first end marker after it. */
  predicate Delimits(r: Region, lines: seq<string>) {
    && 1 <= r.startLine < r.endLine <= |lines|
    && IsStart(lines[r.startLine - 1]) && IsEnd(lines[r.endLine - 1])
    && forall i :: r.startLine <= i < r.endLine - 1 ==> !IsEnd(lines[i])
  }

  /** The regions are delimited, increasing and disjoint, and come after line `from`. */
  predicate InOrder(regions: seq<Region>, lines: seq<string>, from: nat) {
    regions == [] ||
    (from < regions[0].startLine && Delimits(regions[0], lines) && InOrder(regions[1..], lines, regions[0].endLine))
  }

  lemma {:induction false} OutsideInOrder(lines: seq<string>, i: nat)
    requires i <= |lines|
    ensures InOrder(Outside(lines[i..], i), lines, i)
    decreases |lines| - i
  {
    if i < |lines| {
      OutsideAt(lines, i);
      if IsStart(lines[i]) {
        InsideInOrder(lines, i + 1, i + 1, FRESH);
      } else {
        OutsideInOrder(lines, i + 1);
        LaterInOrder(Outside(lines[i + 1..], i + 1), lines, i + 1, i);
      }
    }
  }

  lemma FirstInOrder(region: Region, rest: seq<Region>, lines: seq<string>, from: nat)
    requires from < region.startLine && Delimits(region, lines) && InOrder(rest, lines, region.endLine)
    ensures InOrder([region] + rest, lines, from)
  {
    assert ([region] + rest)[1..] == rest;
  }

  lemma {:induction false} InsideInOrder(lines: seq<string>, i: nat, startLine: nat, o: Open)
    requires 1 <= startLine <= i <= |lines| && IsStart(lines[startLine - 1])
    requires forall k :: startLine <= k < i ==> !IsEnd(lines[k])
    ensures InOrder(Inside(lines[i..], i, startLine, o), lines, startLine - 1)
    decreases |lines| - i
  {
    hide IsStart, IsEnd;
    if i < |lines| {
      InsideAt(lines, i, startLine, o);
      if IsEnd(lines[i]) {
        OutsideInOrder(lines, i + 1);
        var region := Region(startLine, i + 1, o.ours, o.base, o.theirs);
        assert Delimits(region, lines);
        hide *;
        FirstInOrder(region, Outside(lines[i + 1..], i + 1), lines, startLine - 1);
      } else {
        InsideInOrder(lines, i + 1, startLine, Absorbed(o, lines[i]));
      }
    }
  }

  lemma LaterInOrder(regions: seq<Region>, lines: seq<string>, from: nat, earlier: nat)
    requires InOrder(regions, lines, from) && earlier <= from
    ensures InOrder(regions, lines, earlier)
  {
  }

  /** Whatever the file contains, its regions lie where their markers are, in order and apart. */
  lemma RegionsInOrder(content: string)
    ensures InOrder(Outside(Lines(content), 0), Lines(content), 0)
  {
    assert Lines(content)[0..] == Lines(content);
    OutsideInOrder(Lines(content), 0);
  }
}
