/**
 Exactly when parsing recovers written conflict blocks: any number of them between other text,
 with their line ranges and sections.
 */
module ConflictRoundTrip {
  import opened Objects
  import opened ConflictMarkers

  // ---------------------------------------------------------------- what should be recovered

  function TrimLeadingNewlines(s: string): string {
    if s != "" && s[0] == '\n' then TrimLeadingNewlines(s[1..]) else s
  }

  function DropFinalNewline(s: string): string {
    if s != "" && s[|s| - 1] == '\n' then s[..|s| - 1] else s
  }

  /** A section up to leading blank lines and one trailing newline. */
  function Recovered(s: string): string {
    DropFinalNewline(TrimLeadingNewlines(s))
  }

  function SectionLines(s: string): seq<string> {
    Lines(Terminated(s))
  }

  function BaseLines(base: Option<string>): seq<string> {
    if base.Some? then [BASE + " BASE"] + SectionLines(base.value) else []
  }

  /** The lines between the start and the end marker. */
  function InnerLines(b: Block): seq<string> {
    SectionLines(b.ours) + BaseLines(b.base) + [SEPARATOR] + SectionLines(b.theirs)
  }

  function OpeningLine(b: Block): string {
    StripCarriageReturn(START + " " + b.oursLabel)
  }

  function ClosingLine(b: Block): string {
    StripCarriageReturn(END + " " + b.theirsLabel)
  }

  function BlockLines(b: Block): seq<string> {
    [OpeningLine(b)] + InnerLines(b) + [ClosingLine(b)]
  }

  /** The region of a block whose start marker is on line `at + 1`. */
  function RegionOf(b: Block, at: nat): Region {
    Region(at + 1, at + |InnerLines(b)| + 2, Recovered(b.ours),
           if b.base.Some? then Some(Recovered(b.base.value)) else None, Recovered(b.theirs))
  }

  /** A block after some other text. */
  datatype Item = Item(text: string, block: Block)

  function Document(items: seq<Item>, tail: string): string {
    if items == [] then tail else items[0].text + Rendered(items[0].block) + Document(items[1..], tail)
  }

  function RegionsOf(items: seq<Item>, at: nat): seq<Region> {
    if items == [] then []
    else
      var start := at + |Lines(items[0].text)|;
      [RegionOf(items[0].block, start)] + RegionsOf(items[1..], start + |InnerLines(items[0].block)| + 2)
  }

  predicate NoStartMarker(lines: seq<string>) {
    forall line :: line in lines ==> !IsStart(line)
  }

  /** Newline-terminated, and no line starts with the start marker. */
  predicate IsOtherText(text: string) {
    EmptyOrTerminated(text) && NoStartMarker(Lines(text))
  }

  predicate WellFormedItem(item: Item) {
    IsOtherText(item.text) && '\n' !in item.block.oursLabel && '\n' !in item.block.theirsLabel
  }

  predicate WellFormed(items: seq<Item>) {
    forall item :: item in items ==> WellFormedItem(item)
  }

  predicate HasInnerMarker(lines: seq<string>) {
    exists line :: line in lines && IsInnerMarker(line)
  }

  predicate HasEnd(lines: seq<string>) {
    exists line :: line in lines && IsEnd(line)
  }

  predicate CrLfAt(s: string, i: nat) {
    i + 1 < |s| && s[i] == '\r' && s[i + 1] == '\n'
  }

  predicate NoCrLf(s: string) {
    forall i :: 0 <= i < |s| ==> !CrLfAt(s, i)
  }

  /** No line of the section starts with a marker or ends in a carriage return. */
  predicate CleanSection(s: string) {
    !HasInnerMarker(SectionLines(s)) && !HasEnd(SectionLines(s)) && NoCrLf(Terminated(s))
  }

  predicate Clean(b: Block) {
    CleanSection(b.ours) && (b.base.Some? ==> CleanSection(b.base.value)) && CleanSection(b.theirs)
  }

  /** The lines of a block as Git writes them, the base section only if there is one. */
  lemma MarkersOfGit(b: Block)
    ensures OpeningLine(b) == StripCarriageReturn("<<<<<<< " + b.oursLabel)
    ensures ClosingLine(b) == StripCarriageReturn(">>>>>>> " + b.theirsLabel)
    ensures BaseLines(b.base) == if b.base.Some? then ["||||||| BASE"] + SectionLines(b.base.value) else []
    ensures BlockLines(b) ==
            [OpeningLine(b)]
            + (SectionLines(b.ours) + BaseLines(b.base) + ["======="] + SectionLines(b.theirs))
            + [ClosingLine(b)]
  {
    hide SectionLines, StripCarriageReturn;
    assert START + " " == "<<<<<<< ";
    assert END + " " == ">>>>>>> ";
    assert BASE + " BASE" == "||||||| BASE";
    assert InnerLines(b) == SectionLines(b.ours) + BaseLines(b.base) + ["======="] + SectionLines(b.theirs);
    hide *;
  }

  /** Clean means: no line begins with seven bars, equals or greater signs, and none ends in CR LF. */
  lemma CleanSectionExactly(s: string)
    ensures CleanSection(s) <==>
            && (forall line :: line in SectionLines(s) ==>
                  !("|||||||" <= line) && !("=======" <= line) && !(">>>>>>>" <= line))
            && forall i :: 0 <= i < |Terminated(s)| - 1 ==> !(Terminated(s)[i] == '\r' && Terminated(s)[i + 1] == '\n')
  {
    var lines, t := SectionLines(s), Terminated(s);
    hide SectionLines, Terminated;
    if NoCrLf(t) {
      forall i | 0 <= i < |t| - 1 ensures !(t[i] == '\r' && t[i + 1] == '\n') { assert !CrLfAt(t, i); }
    }
    if !HasInnerMarker(lines) && !HasEnd(lines) {
      forall line | line in lines ensures !IsBase(line) && !IsSeparator(line) && !IsEndMarker(line) {
        assert !IsInnerMarker(line) && !IsEnd(line);
      }
    }
  }

  /** Other text is exactly text, newline-terminated, none of whose lines begins with seven less signs. */
  lemma OtherTextExactly(text: string)
    ensures IsOtherText(text) <==>
            (text == "" || text[|text| - 1] == '\n') && forall line :: line in Lines(text) ==> !("<<<<<<<" <= line)
  {
    hide Lines;
  }

  // ---------------------------------------------------------------- the lines of a rendered block

  lemma MarkerLines(b: Block)
    ensures IsStart(OpeningLine(b)) && IsEnd(ClosingLine(b))
    ensures IsInnerMarker(SEPARATOR) && IsInnerMarker(BASE + " BASE")
    ensures !IsEnd(SEPARATOR) && !IsEnd(BASE + " BASE")
  {
    var closing := ClosingLine(b);
    assert START + " " == START + [' '] && END + " " == END + [' '];
    assert closing[0] == '>' && BASE[0] == '|' && SEPARATOR[0] == '=';
  }

  lemma LinesOfBase(base: Option<string>)
    ensures EmptyOrTerminated(BasePart(base)) && Lines(BasePart(base)) == BaseLines(base)
  {
    if base.Some? {
      var opening := BASE + " BASE";
      assert BASE + " BASE\n" == opening + "\n";
      assert '\n' !in opening;
      OneLine(opening);
      LinesJoin(opening + "\n", Terminated(base.value));
    }
  }

  lemma LinesOfBlock(b: Block)
    requires '\n' !in b.oursLabel && '\n' !in b.theirsLabel
    ensures EmptyOrTerminated(Rendered(b)) && Lines(Rendered(b)) == BlockLines(b)
  {
    var opening, closing := START + " " + b.oursLabel, END + " " + b.theirsLabel;
    OneLine(opening);
    OneLine(closing);
    OneLine(SEPARATOR);
    LinesOfBase(b.base);
    JoinSix(opening + "\n", Terminated(b.ours), BasePart(b.base), SEPARATOR + "\n", Terminated(b.theirs),
            closing + "\n");
    hide Lines, BasePart, BaseLines, Terminated;
    RegroupLines([OpeningLine(b)], SectionLines(b.ours), BaseLines(b.base), [SEPARATOR], SectionLines(b.theirs),
                 [ClosingLine(b)]);
  }

  lemma JoinSix(a: string, b: string, c: string, d: string, e: string, f: string)
    requires EmptyOrTerminated(a) && EmptyOrTerminated(b) && EmptyOrTerminated(c)
    requires EmptyOrTerminated(d) && EmptyOrTerminated(e) && EmptyOrTerminated(f)
    ensures EmptyOrTerminated(a + b + c + d + e + f)
    ensures Lines(a + b + c + d + e + f) == Lines(a) + Lines(b) + Lines(c) + Lines(d) + Lines(e) + Lines(f)
  {
    TerminatedJoin(a, b);
    TerminatedJoin(a + b, c);
    TerminatedJoin(a + b + c, d);
    TerminatedJoin(a + b + c + d, e);
    TerminatedJoin(a + b + c + d + e, f);
    hide *;
    LinesJoin(a, b);
    LinesJoin(a + b, c);
    LinesJoin(a + b + c, d);
    LinesJoin(a + b + c + d, e);
    LinesJoin(a + b + c + d + e, f);
  }

  lemma TerminatedJoin(a: string, b: string)
    requires EmptyOrTerminated(a) && EmptyOrTerminated(b)
    ensures EmptyOrTerminated(a + b)
  {
    if b == "" { assert a + b == a; }
  }

  lemma RegroupLines<T>(a: seq<T>, b: seq<T>, c: seq<T>, d: seq<T>, e: seq<T>, f: seq<T>)
    ensures a + b + c + d + e + f == a + (b + c + d + e) + f
  {
  }

  // ---------------------------------------------------------------- skipping over lines

  function AbsorbedAll(o: Open, lines: seq<string>): Open
    decreases |lines|
  {
    if lines == [] then o else AbsorbedAll(Absorbed(o, lines[0]), lines[1..])
  }

  lemma {:induction false} AbsorbedJoin(o: Open, a: seq<string>, b: seq<string>)
    ensures AbsorbedAll(o, a + b) == AbsorbedAll(AbsorbedAll(o, a), b)
    decreases |a|
  {
    if a == [] {
      assert a + b == b;
    } else {
      assert (a + b)[1..] == a[1..] + b;
      AbsorbedJoin(Absorbed(o, a[0]), a[1..], b);
    }
  }

  lemma {:induction false} OutsideSkips(a: seq<string>, b: seq<string>, at: nat)
    requires NoStartMarker(a)
    ensures Outside(a + b, at) == Outside(b, at + |a|)
    decreases |a|
  {
    if a == [] {
      assert a + b == b;
    } else {
      assert (a + b)[1..] == a[1..] + b && a[0] in a;
      OutsideSkips(a[1..], b, at + 1);
    }
  }

  lemma {:induction false} InsideSkips(a: seq<string>, b: seq<string>, at: nat, startLine: nat, o: Open)
    requires !HasEnd(a)
    ensures Inside(a + b, at, startLine, o) == Inside(b, at + |a|, startLine, AbsorbedAll(o, a))
    decreases |a|
  {
    if a == [] {
      assert a + b == b;
    } else {
      assert (a + b)[1..] == a[1..] + b && a[0] in a;
      InsideSkips(a[1..], b, at + 1, startLine, Absorbed(o, a[0]));
    }
  }

  /** An end marker among the lines closes the region there. */
  lemma {:induction false} InsideEndsEarly(a: seq<string>, b: seq<string>, at: nat, startLine: nat, o: Open)
    requires HasEnd(a)
    ensures var regions := Inside(a + b, at, startLine, o); regions != [] && regions[0].endLine <= at + |a|
    decreases |a|
  {
    assert (a + b)[1..] == a[1..] + b;
    if !IsEnd(a[0]) {
      assert HasEnd(a[1..]);
      InsideEndsEarly(a[1..], b, at + 1, startLine, Absorbed(o, a[0]));
    }
  }

  // ---------------------------------------------------------------- clean sections are recovered

  function Folded(text: string, lines: seq<string>): string
    decreases |lines|
  {
    if lines == [] then text else Folded(Appended(text, lines[0]), lines[1..])
  }

  lemma {:induction false} AbsorbedPlain(o: Open, lines: seq<string>)
    requires !HasInnerMarker(lines) && (o.section == Section.Base ==> o.base.Some?)
    ensures AbsorbedAll(o, lines) ==
            match o.section
            case Ours => o.(ours := Folded(o.ours, lines))
            case Base => o.(base := Some(Folded(o.base.value, lines)))
            case Theirs => o.(theirs := Folded(o.theirs, lines))
    decreases |lines|
  {
    if lines != [] {
      assert lines[0] in lines && !IsInnerMarker(lines[0]);
      AbsorbedPlain(Absorbed(o, lines[0]), lines[1..]);
    }
  }

  lemma CrLfShifts(s: string, k: nat, i: nat)
    requires k <= |s|
    ensures CrLfAt(s[k..], i) <==> CrLfAt(s, k + i)
  {
  }

  lemma StripsExactly(s: string, n: nat)
    requires n < |s| && s[n] == '\n'
    ensures StripCarriageReturn(s[..n]) == s[..n] <==> CleanEnd(s, n)
  {
    if n > 0 { assert s[..n][n - 1] == s[n - 1]; }
  }

  lemma NoCrLfTail(s: string, k: nat)
    requires NoCrLf(s) && k <= |s|
    ensures NoCrLf(s[k..])
  {
    hide CrLfAt;
    forall i | 0 <= i < |s[k..]| ensures !CrLfAt(s[k..], i) { CrLfShifts(s, k, i); }
  }

  lemma NoCrLfFrom(s: string, k: nat)
    requires k <= |s| && NoCrLf(s[k..]) && forall i :: 0 <= i < k ==> !CrLfAt(s, i)
    ensures NoCrLf(s)
  {
    hide CrLfAt;
    forall i | 0 <= i < |s| ensures !CrLfAt(s, i) {
      if i >= k { CrLfShifts(s, k, i - k); }
    }
  }

  predicate CleanEnd(s: string, n: nat) {
    n == 0 || !CrLfAt(s, n - 1)
  }

  lemma NoCrLfParts(s: string, n: nat)
    requires n < |s| && NoCrLf(s)
    ensures CleanEnd(s, n) && NoCrLf(s[n + 1..])
  {
    NoCrLfTail(s, n + 1);
    hide CrLfAt;
  }

  lemma NoCrLfWhole(s: string, n: nat)
    requires n < |s| && s[n] == '\n' && forall i :: 0 <= i < n ==> s[i] != '\n'
    requires CleanEnd(s, n) && NoCrLf(s[n + 1..])
    ensures NoCrLf(s)
  {
    hide NoCrLf;
    forall i | 0 <= i < n + 1 ensures !CrLfAt(s, i) {}
    NoCrLfFrom(s, n + 1);
  }

  lemma NoCrLfFirst(s: string)
    requires FirstNewline(s) < |s|
    ensures var n := FirstNewline(s);
            NoCrLf(s) <==> StripCarriageReturn(s[..n]) == s[..n] && NoCrLf(s[n + 1..])
  {
    hide *;
    var n := FirstNewline(s);
    StripsExactly(s, n);
    if NoCrLf(s) { NoCrLfParts(s, n); }
    if CleanEnd(s, n) && NoCrLf(s[n + 1..]) { NoCrLfWhole(s, n); }
  }

  /** A text at its first newline, with and without its own final newline. */
  lemma AtFirstNewline(s: string)
    requires s != "" && EmptyOrTerminated(s) && NoCrLf(s)
    ensures var line, rest := s[..FirstNewline(s)], s[FirstNewline(s) + 1..];
            && FirstNewline(s) < |s| && EmptyOrTerminated(rest) && NoCrLf(rest) && Lines(s) == [line] + Lines(rest)
            && s[..|s| - 1] == if rest == "" then line else line + "\n" + rest[..|rest| - 1]
  {
    var n := FirstNewline(s);
    assert n < |s|;
    CutOffFinalNewline(s, n);
    hide *;
    NoCrLfFirst(s);
    LinesFirst(s);
  }

  lemma CutOffFinalNewline(s: string, n: nat)
    requires n < |s| && s[n] == '\n' && EmptyOrTerminated(s)
    ensures var line, rest := s[..n], s[n + 1..];
            && EmptyOrTerminated(rest)
            && s[..|s| - 1] == if rest == "" then line else line + "\n" + rest[..|rest| - 1]
  {
  }

  lemma FoldedFirst(text: string, line: string, lines: seq<string>)
    ensures Folded(text, [line] + lines) == Folded(Appended(text, line), lines)
  {
    assert ([line] + lines)[1..] == lines;
  }

  lemma Regroup<T>(a: seq<T>, b: seq<T>, c: seq<T>, d: seq<T>, e: seq<T>)
    ensures a + b + c + d + e == a + b + (c + d + e)
  {
  }

  lemma {:induction false} FoldedOntoText(text: string, s: string)
    requires text != "" && s != "" && EmptyOrTerminated(s) && NoCrLf(s)
    ensures Folded(text, Lines(s)) == text + "\n" + s[..|s| - 1]
    decreases |s|
  {
    AtFirstNewline(s);
    var line, rest := s[..FirstNewline(s)], s[FirstNewline(s) + 1..];
    var more := text + "\n" + line;
    assert Appended(text, line) == more;
    assert Lines("") == [] && Folded(more, []) == more;
    hide *;
    FoldedFirst(text, line, Lines(rest));
    if rest != "" {
      FoldedOntoText(more, rest);
      Regroup(text, "\n", line, "\n", rest[..|rest| - 1]);
    }
  }

  lemma {:induction false} FoldedFresh(s: string)
    requires EmptyOrTerminated(s) && NoCrLf(s)
    ensures Folded("", Lines(s)) == DropFinalNewline(TrimLeadingNewlines(s))
    decreases |s|
  {
    if s != "" {
      AtFirstNewline(s);
      var line, rest := s[..FirstNewline(s)], s[FirstNewline(s) + 1..];
      assert Appended("", line) == line;
      assert s[0] == '\n' <==> line == "";
      hide Lines, Folded, FirstNewline, NoCrLf, DropFinalNewline;
      FoldedFirst("", line, Lines(rest));
      if line == "" {
        assert rest == s[1..];
        FoldedFresh(rest);
      } else {
        assert TrimLeadingNewlines(s) == s;
        hide *;
        if rest != "" { FoldedOntoText(line, rest); }
        assert Folded("", Lines(s)) == s[..|s| - 1];
        DropsFinal(s);
      }
    }
  }

  lemma DropsFinal(s: string)
    requires s != "" && EmptyOrTerminated(s)
    ensures DropFinalNewline(s) == s[..|s| - 1]
  {
  }

  lemma {:induction false} TrimOfTerminated(s: string)
    requires !EmptyOrTerminated(s)
    ensures TrimLeadingNewlines(s + "\n") == TrimLeadingNewlines(s) + "\n" && !EmptyOrTerminated(TrimLeadingNewlines(s))
    decreases |s|
  {
    if s[0] == '\n' {
      assert (s + "\n")[1..] == s[1..] + "\n";
      TrimOfTerminated(s[1..]);
    }
  }

  lemma SectionRecovered(s: string)
    requires NoCrLf(Terminated(s))
    ensures Folded("", SectionLines(s)) == Recovered(s)
  {
    FoldedFresh(Terminated(s));
    if !EmptyOrTerminated(s) {
      TrimOfTerminated(s);
      var t := TrimLeadingNewlines(s);
      assert (t + "\n")[..|t|] == t;
    }
  }

  lemma AbsorbedMarker(o: Open)
    ensures AbsorbedAll(o, [BASE + " BASE"]) == o.(section := Section.Base, base := Some(""))
    ensures AbsorbedAll(o, [SEPARATOR]) == o.(section := Theirs)
  {
    MarkerLines(Block(None, "", "", "", ""));
    assert SEPARATOR[0] == '=' && BASE[0] == '|' && !IsBase(SEPARATOR);
    assert IsBase(BASE + " BASE");
  }

  lemma CleanBlockAbsorbed(b: Block)
    requires Clean(b)
    ensures var o, r := AbsorbedAll(FRESH, InnerLines(b)), RegionOf(b, 0);
            o.ours == r.ours && o.base == r.base && o.theirs == r.theirs
  {
    var ours, theirs := SectionLines(b.ours), SectionLines(b.theirs);
    SectionRecovered(b.ours);
    SectionRecovered(b.theirs);
    AbsorbedPlain(FRESH, ours);
    var o1 := AbsorbedAll(FRESH, ours);
    var o2 := AbsorbedAll(o1, BaseLines(b.base));
    AbsorbedMarker(o1);
    AbsorbedMarker(o2);
    if b.base.Some? {
      var inner := SectionLines(b.base.value);
      SectionRecovered(b.base.value);
      AbsorbedJoin(o1, [BASE + " BASE"], inner);
      AbsorbedPlain(AbsorbedAll(o1, [BASE + " BASE"]), inner);
    }
    AbsorbedPlain(AbsorbedAll(o2, [SEPARATOR]), theirs);
    hide SectionLines, Recovered;
    AbsorbedJoin(FRESH, ours, BaseLines(b.base));
    AbsorbedJoin(FRESH, ours + BaseLines(b.base), [SEPARATOR]);
    AbsorbedJoin(FRESH, ours + BaseLines(b.base) + [SEPARATOR], theirs);
  }

  // ---------------------------------------------------------------- and no others: a weight argument

  /** The number of characters that are not newlines. */
  function Weight(s: string): nat {
    if s == "" then 0 else (if s[0] == '\n' then 0 else 1) + Weight(s[1..])
  }

  lemma {:induction false} WeightJoin(a: string, b: string)
    ensures Weight(a + b) == Weight(a) + Weight(b)
    decreases |a|
  {
    if a == "" {
      assert a + b == b;
    } else {
      assert (a + b)[1..] == a[1..] + b;
      WeightJoin(a[1..], b);
    }
  }

  function BaseWeight(base: Option<string>): nat {
    if base.Some? then Weight(base.value) else 0
  }

  function OpenWeight(o: Open): nat {
    Weight(o.ours) + BaseWeight(o.base) + Weight(o.theirs)
  }

  /** What the lines can add to the sections: inner markers add nothing. */
  function LinesWeight(lines: seq<string>): nat {
    if lines == [] then 0 else (if IsInnerMarker(lines[0]) then 0 else Weight(lines[0])) + LinesWeight(lines[1..])
  }

  lemma {:induction false} LinesWeightJoin(a: seq<string>, b: seq<string>)
    ensures LinesWeight(a + b) == LinesWeight(a) + LinesWeight(b)
    decreases |a|
  {
    if a == [] {
      assert a + b == b;
    } else {
      assert (a + b)[1..] == a[1..] + b;
      LinesWeightJoin(a[1..], b);
    }
  }

  lemma AppendedWeight(text: string, line: string)
    ensures Weight(Appended(text, line)) == Weight(text) + Weight(line)
  {
    WeightJoin(text + "\n", line);
    WeightJoin(text, "\n");
  }

  lemma AbsorbedOneWeight(o: Open, line: string)
    ensures OpenWeight(Absorbed(o, line)) <= OpenWeight(o) + if IsInnerMarker(line) then 0 else Weight(line)
  {
    if IsInnerMarker(line) {
      MarkerWeight(o, line);
    } else {
      hide IsBase, IsSeparator, Appended, Weight;
      match o.section
      case Ours => AppendedWeight(o.ours, line);
      case Base => if o.base.Some? { AppendedWeight(o.base.value, line); }
      case Theirs => AppendedWeight(o.theirs, line);
    }
  }

  lemma MarkerWeight(o: Open, line: string)
    requires IsInnerMarker(line)
    ensures OpenWeight(Absorbed(o, line)) <= OpenWeight(o)
  {
    hide IsBase, IsSeparator;
    assert Weight("") == 0;
  }

  lemma {:induction false} AbsorbedWeight(o: Open, lines: seq<string>)
    ensures OpenWeight(AbsorbedAll(o, lines)) <= OpenWeight(o) + LinesWeight(lines)
    decreases |lines|
  {
    if lines != [] {
      hide OpenWeight, Absorbed, Weight, IsInnerMarker;
      AbsorbedOneWeight(o, lines[0]);
      AbsorbedWeight(Absorbed(o, lines[0]), lines[1..]);
    }
  }

  lemma StripWeight(line: string)
    ensures Weight(StripCarriageReturn(line)) + (if StripCarriageReturn(line) != line then 1 else 0) == Weight(line)
  {
    if StripCarriageReturn(line) != line {
      var n := |line| - 1;
      assert line == line[..n] + "\r";
      WeightJoin(line[..n], "\r");
    }
  }

  /** Marker lines and carriage returns make a text's lines lighter than the text. */
  lemma {:induction false} TextWeight(s: string)
    requires EmptyOrTerminated(s)
    ensures LinesWeight(Lines(s)) <= Weight(s)
    ensures LinesWeight(Lines(s)) == Weight(s) ==> !HasInnerMarker(Lines(s)) && NoCrLf(s)
    decreases |s|
  {
    if s != "" {
      var n := FirstNewline(s);
      var before, rest := s[..n], s[n + 1..];
      assert EmptyOrTerminated(rest);
      NoCrLfFirst(s);
      LinesFirst(s);
      CutWeight(s, n);
      hide *;
      StripWeight(before);
      TextWeight(rest);
      FirstLineWeight(StripCarriageReturn(before), Lines(rest));
    }
  }

  lemma CutWeight(s: string, n: nat)
    requires n < |s| && s[n] == '\n'
    ensures Weight(s) == Weight(s[..n]) + Weight(s[n + 1..])
  {
    var rest := s[n + 1..];
    assert s == s[..n] + ("\n" + rest);
    WeightJoin(s[..n], "\n" + rest);
    assert ("\n" + rest)[1..] == rest;
  }

  lemma FirstLineWeight(line: string, rest: seq<string>)
    ensures LinesWeight([line] + rest) <= Weight(line) + LinesWeight(rest)
    ensures LinesWeight([line] + rest) == Weight(line) + LinesWeight(rest) && !HasInnerMarker(rest) ==>
              !HasInnerMarker([line] + rest)
  {
    assert ([line] + rest)[1..] == rest;
    if IsInnerMarker(line) { InnerMarkerWeighs(line); }
  }

  lemma InnerMarkerWeighs(line: string)
    requires IsInnerMarker(line)
    ensures Weight(line) > 0
  {
    assert line[0] == '|' || line[0] == '=';
  }

  lemma {:induction false} RecoveredWeight(s: string)
    ensures Weight(Recovered(s)) == Weight(s) == Weight(Terminated(s))
    decreases |s|
  {
    WeightJoin(s, "\n");
    if s != "" && s[0] == '\n' {
      RecoveredWeight(s[1..]);
    } else if s != "" && s[|s| - 1] == '\n' {
      assert s == s[..|s| - 1] + "\n";
      WeightJoin(s[..|s| - 1], "\n");
    }
  }

  lemma SectionWeight(s: string)
    ensures LinesWeight(SectionLines(s)) <= Weight(Recovered(s))
    ensures LinesWeight(SectionLines(s)) == Weight(Recovered(s)) && !HasEnd(SectionLines(s)) ==> CleanSection(s)
  {
    TextWeight(Terminated(s));
    RecoveredWeight(s);
  }

  lemma InnerWeight(b: Block)
    ensures LinesWeight(InnerLines(b)) ==
            LinesWeight(SectionLines(b.ours)) + (if b.base.Some? then LinesWeight(SectionLines(b.base.value)) else 0)
            + LinesWeight(SectionLines(b.theirs))
  {
    MarkerLines(b);
    var ours, theirs := SectionLines(b.ours), SectionLines(b.theirs);
    LinesWeightJoin(ours, BaseLines(b.base));
    LinesWeightJoin(ours + BaseLines(b.base), [SEPARATOR]);
    LinesWeightJoin(ours + BaseLines(b.base) + [SEPARATOR], theirs);
    if b.base.Some? { LinesWeightJoin([BASE + " BASE"], SectionLines(b.base.value)); }
  }

  /** Without an end marker inside, an unclean block loses some of its characters. */
  lemma UncleanLosesWeight(b: Block)
    requires !HasEnd(InnerLines(b)) && !Clean(b)
    ensures var o, r := AbsorbedAll(FRESH, InnerLines(b)), RegionOf(b, 0);
            !(o.ours == r.ours && o.base == r.base && o.theirs == r.theirs)
  {
    InnerWeight(b);
    AbsorbedWeight(FRESH, InnerLines(b));
    SectionWeight(b.ours);
    SectionWeight(b.theirs);
    EndsInSections(b);
    if b.base.Some? { SectionWeight(b.base.value); }
  }

  lemma EndsInSections(b: Block)
    ensures HasEnd(InnerLines(b)) <==>
            HasEnd(SectionLines(b.ours)) || (b.base.Some? && HasEnd(SectionLines(b.base.value)))
                || HasEnd(SectionLines(b.theirs))
  {
    MarkerLines(b);
    var lines := InnerLines(b);
    if line :| line in SectionLines(b.ours) && IsEnd(line) { assert line in lines; }
    if line :| line in SectionLines(b.theirs) && IsEnd(line) { assert line in lines; }
    if b.base.Some? {
      if line :| line in SectionLines(b.base.value) && IsEnd(line) {
        assert line in BaseLines(b.base) && line in lines;
      }
    }
  }

  // ---------------------------------------------------------------- one block, then all of them

  /** The regions are this one and then the others. */
  ghost predicate Yields(regions: seq<Region>, first: Region, others: seq<Region>) {
    regions == [first] + others
  }

  ghost predicate FirstIs(regions: seq<Region>, region: Region) {
    regions != [] && regions[0] == region
  }

  lemma YieldsFirst(regions: seq<Region>, first: Region, others: seq<Region>, region: Region)
    requires Yields(regions, first, others)
    ensures FirstIs(regions, region) <==> first == region
  {
  }

  lemma InsideAtEnd(closing: string, rest: seq<string>, at: nat, startLine: nat, o: Open)
    requires IsEnd(closing)
    ensures Yields(Inside([closing] + rest, at, startLine, o), Region(startLine, at + 1, o.ours, o.base, o.theirs),
                   Outside(rest, at + 1))
  {
    assert ([closing] + rest)[1..] == rest;
  }

  lemma OutsideAtBlock(b: Block, rest: seq<string>, at: nat)
    ensures Outside(BlockLines(b) + rest, at) ==
            Inside(InnerLines(b) + ([ClosingLine(b)] + rest), at + 1, at + 1, FRESH)
  {
    MarkerLines(b);
    hide OpeningLine, ClosingLine, InnerLines;
    var inside := InnerLines(b) + ([ClosingLine(b)] + rest);
    assert BlockLines(b) + rest == [OpeningLine(b)] + inside;
    assert ([OpeningLine(b)] + inside)[1..] == inside;
  }

  lemma CleanBlockRegion(b: Block, at: nat)
    requires Clean(b)
    ensures var o := AbsorbedAll(FRESH, InnerLines(b));
            RegionOf(b, at) == Region(at + 1, at + 1 + |InnerLines(b)| + 1, o.ours, o.base, o.theirs)
  {
    CleanBlockAbsorbed(b);
  }

  lemma CleanHasNoEnd(b: Block)
    requires Clean(b)
    ensures !HasEnd(InnerLines(b)) && IsEnd(ClosingLine(b))
  {
    MarkerLines(b);
    EndsInSections(b);
  }

  /** Parsing at a clean block yields its region and goes on after its end marker. */
  lemma CleanBlockParsed(b: Block, rest: seq<string>, at: nat)
    requires Clean(b)
    ensures Yields(Outside(BlockLines(b) + rest, at), RegionOf(b, at), Outside(rest, at + |InnerLines(b)| + 2))
  {
    hide *;
    var inner := InnerLines(b);
    CleanHasNoEnd(b);
    OutsideAtBlock(b, rest, at);
    CleanBlockRegion(b, at);
    InsideSkips(inner, [ClosingLine(b)] + rest, at + 1, at + 1, FRESH);
    InsideAtEnd(ClosingLine(b), rest, at + 1 + |inner|, at + 1, AbsorbedAll(FRESH, inner));
  }

  /** Parsing at an unclean block does not: the region ends too early or has lost characters. */
  lemma UncleanBlockParsed(b: Block, rest: seq<string>, at: nat)
    requires !Clean(b)
    ensures !FirstIs(Outside(BlockLines(b) + rest, at), RegionOf(b, at))
  {
    MarkerLines(b);
    OutsideAtBlock(b, rest, at);
    var inner, after := InnerLines(b), [ClosingLine(b)] + rest;
    hide InnerLines, Recovered, IsEnd, HasEnd, AbsorbedAll, OpeningLine, ClosingLine, BlockLines, Outside, Inside,
        Yields, Clean;
    if HasEnd(inner) {
      InsideEndsEarly(inner, after, at + 1, at + 1, FRESH);
    } else {
      InsideSkips(inner, after, at + 1, at + 1, FRESH);
      var o := AbsorbedAll(FRESH, inner);
      var end := at + 1 + |inner|;
      InsideAtEnd(ClosingLine(b), rest, end, at + 1, o);
      UncleanLosesWeight(b);
      YieldsFirst(Outside(BlockLines(b) + rest, at), Region(at + 1, end + 1, o.ours, o.base, o.theirs),
                  Outside(rest, end + 1), RegionOf(b, at));
    }
  }

  lemma LinesOfDocument(item: Item, rest: string)
    requires WellFormedItem(item)
    ensures Lines(item.text + Rendered(item.block) + rest) == Lines(item.text) + (BlockLines(item.block) + Lines(rest))
  {
    LinesOfBlock(item.block);
    assert EmptyOrTerminated(item.text) && EmptyOrTerminated(item.text + Rendered(item.block));
    hide *;
    LinesJoin(item.text, Rendered(item.block));
    LinesJoin(item.text + Rendered(item.block), rest);
    ConcatAssociates(Lines(item.text), BlockLines(item.block), Lines(rest));
  }

  ghost predicate AllClean(items: seq<Item>) {
    forall item :: item in items ==> Clean(item.block)
  }

  lemma TextHasNoStart(item: Item)
    requires WellFormedItem(item)
    ensures NoStartMarker(Lines(item.text))
  {
  }

  /** A document's first block, after the text in front of it. */
  lemma OutsideAtItem(item: Item, rest: string, at: nat)
    requires WellFormedItem(item)
    ensures Outside(Lines(item.text + Rendered(item.block) + rest), at)
            == Outside(BlockLines(item.block) + Lines(rest), at + |Lines(item.text)|)
  {
    hide *;
    TextHasNoStart(item);
    LinesOfDocument(item, rest);
    OutsideSkips(Lines(item.text), BlockLines(item.block) + Lines(rest), at);
  }

  lemma FirstItem(items: seq<Item>, tail: string, at: nat)
    requires items != []
    ensures var item := items[0];
            var start := at + |Lines(item.text)|;
            && Document(items, tail) == item.text + Rendered(item.block) + Document(items[1..], tail)
            && Yields(RegionsOf(items, at), RegionOf(item.block, start),
                      RegionsOf(items[1..], start + |InnerLines(item.block)| + 2))
  {
    hide Lines, Rendered, InnerLines, RegionOf;
  }

  lemma FirstAndRest(items: seq<Item>)
    requires items != []
    ensures WellFormed(items) ==> WellFormedItem(items[0]) && WellFormed(items[1..])
    ensures AllClean(items) <==> Clean(items[0].block) && AllClean(items[1..])
  {
    hide WellFormedItem, Clean;
    assert items == [items[0]] + items[1..];
  }

  lemma NoItems(tail: string, at: nat)
    requires NoStartMarker(Lines(tail))
    ensures Outside(Lines(Document([], tail)), at) == RegionsOf([], at) && AllClean([])
  {
    OutsideSkips(Lines(tail), [], at);
    assert Lines(tail) + [] == Lines(tail);
  }

  lemma YieldSame(regions: seq<Region>, regions': seq<Region>, first: Region, others: seq<Region>, others': seq<Region>)
    requires Yields(regions, first, others) && Yields(regions', first, others')
    ensures regions == regions' <==> others == others'
  {
    assert regions[1..] == others && regions'[1..] == others';
  }

  /**
   Any number of blocks between other text parse to exactly their regions, in order, with the right
   line ranges and the sections up to leading blank lines and one trailing newline, if and only if no
   section has a line starting with the base, separator or end marker or ending in a carriage return.
   Labels are free but for newlines, and sections may contain start markers.
   */
  lemma {:induction false} RoundTripExactly(items: seq<Item>, tail: string, at: nat)
    requires WellFormed(items) && NoStartMarker(Lines(tail))
    ensures Outside(Lines(Document(items, tail)), at) == RegionsOf(items, at) <==> AllClean(items)
    decreases |items|
  {
    hide *;
    if items == [] {
      NoItems(tail, at);
    } else {
      FirstItem(items, tail, at);
      FirstAndRest(items);
      var item, rest := items[0], Document(items[1..], tail);
      var start := at + |Lines(item.text)|;
      var next := start + |InnerLines(item.block)| + 2;
      var regions, expected := Outside(Lines(Document(items, tail)), at), RegionsOf(items, at);
      OutsideAtItem(item, rest, at);
      RoundTripExactly(items[1..], tail, next);
      YieldsFirst(expected, RegionOf(item.block, start), RegionsOf(items[1..], next), RegionOf(item.block, start));
      if Clean(item.block) {
        CleanBlockParsed(item.block, Lines(rest), start);
        YieldSame(regions, expected, RegionOf(item.block, start), Outside(Lines(rest), next),
                  RegionsOf(items[1..], next));
      } else {
        UncleanBlockParsed(item.block, Lines(rest), start);
      }
    }
  }

  /** A section that is itself a separator line, as under a Markdown heading, does not come back. */
  lemma SeparatorLineIsLost()
    ensures var items := [Item("", Block(None, SEPARATOR, "", "", ""))];
            Outside(Lines(Document(items, "")), 0) != RegionsOf(items, 0)
  {
    var item := Item("", Block(None, SEPARATOR, "", "", ""));
    var items := [item];
    assert item in items;
    OneLine(SEPARATOR);
    MarkerLines(item.block);
    assert Terminated(SEPARATOR) == SEPARATOR + "\n" && SectionLines(SEPARATOR) == [SEPARATOR];
    assert SEPARATOR in SectionLines(SEPARATOR);
    assert !Clean(item.block) && !AllClean(items);
    RoundTripExactly(items, "", 0);
  }
}
