/** `cfe_reader_find_pc`: the function that a PC lies in, found by two binary searches in the compact unwind section. */
module CompactSearch {
  import opened Common

  ghost predicate Nondecreasing(values: seq<uint32>) {
    forall i, j :: 0 <= i <= j < |values| ==> values[i] <= values[j]
  }

  /** `i` is a last place at or before `pc`, or one that starts exactly at `pc`. */
  predicate Covers(values: seq<uint32>, pc: nat, i: nat) {
    i < |values| && values[i] <= pc && (values[i] == pc || i + 1 == |values| || values[i + 1] > pc)
  }

  /**
   * `CFE_FUN_BINARY_SEARCH`. Whatever is in the table, the search ends, stays inside it and does not wrap its 32-bit
   * indices; in an ordered table it finds a covering entry, unless all entries lie behind `pc`.
   */
  method BinarySearch(values: seq<uint32>, pc: nat) returns (found: Option<nat>)
    requires 0 < |values| < 0x8000_0000
    ensures found.Some? ==> found.value < |values| && values[found.value] <= pc
    ensures Nondecreasing(values) ==>
      (if pc < values[0] then found == None else found.Some? && Covers(values, pc, found.value))
  {
    var min: uint32, mid: uint32, max: uint32 := 0, 0, |values| - 1;
    found := None;
    while max >= min
      invariant 0 <= min <= |values| && max < |values|
      invariant Nondecreasing(values) ==> min <= max
      invariant Nondecreasing(values) && min > 0 ==> values[min] <= pc
      invariant Nondecreasing(values) && max + 1 < |values| ==> values[max + 1] > pc
      decreases max + 1 - min
    {
      mid := (min + max) / 2;
      var midFunOffset := values[mid];
      if midFunOffset < pc {
        if mid == max || values[mid + 1] > pc {
          found := Some(mid);
          break;
        }
        min := mid + 1;
      } else if midFunOffset > pc {
        if mid == 0 {
          break;
        }
        max := mid - 1;
      } else if midFunOffset == pc {
        found := Some(mid);
        break;
      }
    }
  }

  /** A covering entry has the greatest value that is at most `pc`. */
  lemma CoveringIsGreatest(values: seq<uint32>, pc: nat, i: nat)
    requires Nondecreasing(values) && Covers(values, pc, i)
    ensures forall j :: 0 <= j < |values| && values[j] <= pc ==> values[j] <= values[i]
  {
    forall j | 0 <= j < |values| && values[j] <= pc ensures values[j] <= values[i] {
      if j > i {
        assert values[i + 1] <= values[j];
      }
    }
  }

  datatype Function = Function(offset: uint32, encoding: uint32)

  datatype Page =
    | Regular(functions: seq<Function>)
    | Compressed(entries: seq<uint32>, encodings: seq<uint32>)
    | OtherKind

  datatype IndexEntry = IndexEntry(offset: uint32, page: Page)

  /**
   * The section, with its fields in host order; `foreign` says that they are stored in the other one. The last index
   * entry is a sentinel that only ends the last page.
   */
  datatype Section = Section(common: seq<uint32>, index: seq<IndexEntry>, foreign: bool)

  function CompressedOffset(entry: uint32): (r: uint32)
    ensures r < 0x100_0000
  {
    entry % 0x100_0000
  }

  function EncodingIndex(entry: uint32): uint8 {
    entry / 0x100_0000
  }

  function FunctionOffset(base: uint32, entry: uint32): uint32 {
    (base + CompressedOffset(entry)) % 0x1_0000_0000
  }

  function Byte(x: uint32, i: nat): uint8
    requires i < 4
  {
    match i
    case 0 => x % 0x100
    case 1 => x / 0x100 % 0x100
    case 2 => x / 0x1_0000 % 0x100
    case _ => x / 0x100_0000
  }

  function ReverseBytes(x: uint32): uint32 {
    Byte(x, 0) * 0x100_0000 + Byte(x, 1) * 0x1_0000 + Byte(x, 2) * 0x100 + Byte(x, 3)
  }

  /**
   * `byteorder->swap32`, in a section of the other byte order. `cfe_reader_init` takes sections for x86 only, which are
   * little-endian, so this is the case on a big-endian host.
   */
  function Swap32(foreign: bool, x: uint32): uint32 {
    if foreign then ReverseBytes(x) else x
  }

  /** The encoding with index `i`: common encodings come first, then those of the page. */
  function EncodingAt(common: seq<uint32>, encodings: seq<uint32>, i: nat): Result<uint32> {
    if i < |common + encodings| then Ok((common + encodings)[i]) else Err(EINVAL)
  }

  /**
   * A line of the function table that the section stands for. `shown` is the function base that the reader gives for
   * it: a compressed entry, already in host order, is swapped a second time.
   */
  datatype Line = Line(offset: uint32, shown: uint32, encoding: Result<uint32>)

  function CompressedLine(foreign: bool, common: seq<uint32>, encodings: seq<uint32>, base: uint32, entry: uint32): Line {
    Line(FunctionOffset(base, entry), FunctionOffset(base, Swap32(foreign, entry)),
         EncodingAt(common, encodings, EncodingIndex(entry)))
  }

  function PageLines(foreign: bool, common: seq<uint32>, e: IndexEntry): (r: seq<Line>) {
    match e.page
    case Regular(fs) => seq(|fs|, i requires 0 <= i < |fs| => Line(fs[i].offset, fs[i].offset, Ok(fs[i].encoding)))
    case Compressed(es, encodings) =>
      seq(|es|, i requires 0 <= i < |es| => CompressedLine(foreign, common, encodings, e.offset, es[i]))
    case OtherKind => []
  }

  function Flat(foreign: bool, common: seq<uint32>, index: seq<IndexEntry>): seq<Line> {
    if index == [] then [] else PageLines(foreign, common, index[0]) + Flat(foreign, common, index[1..])
  }

  function Offsets(lines: seq<Line>): (r: seq<uint32>)
    ensures |r| == |lines| && forall i :: 0 <= i < |r| ==> r[i] == lines[i].offset
  {
    seq(|lines|, i requires 0 <= i < |lines| => lines[i].offset)
  }

  function Pages(s: Section): seq<IndexEntry> {
    if s.index == [] then [] else s.index[..|s.index| - 1]
  }

  function Lines(s: Section): seq<Line> {
    Flat(s.foreign, s.common, Pages(s))
  }

  /** What the reader relies on: no search is made in an empty table. */
  predicate Searchable(s: Section) {
    && |s.index| < 0x8000_0000 && |s.index| != 1
    && forall i :: 0 <= i < |s.index| - 1 ==>
      match s.index[i].page
      case Regular(fs) => 0 < |fs| < 0x1_0000
      case Compressed(es, encodings) => 0 < |es| < 0x1_0000 && |encodings| < 0x1_0000
      case OtherKind => true
  }

  /** What a linker writes: functions in order, and every page begins where its index entry says. */
  ghost predicate WellFormed(s: Section) {
    && Searchable(s)
    && (forall i :: 0 <= i < |Pages(s)| ==>
          !Pages(s)[i].page.OtherKind? && PageLines(s.foreign, s.common, Pages(s)[i])[0].offset == Pages(s)[i].offset)
    && Nondecreasing(Offsets(Lines(s)))
  }

  /** A linear search: the last line at or before `pc`. */
  function Linear(lines: seq<Line>, pc: nat): Option<Line> {
    if lines == [] then None
    else
      var rest := Linear(lines[1..], pc);
      if rest.Some? then rest
      else if lines[0].offset <= pc then Some(lines[0])
      else None
  }

  function Report(line: Option<Line>): Result<Function> {
    match line
    case None => Err(ENOTFOUND)
    case Some(Line(_, _, Err(e))) => Err(e)
    case Some(Line(_, shown, Ok(encoding))) => Ok(Function(shown, encoding))
  }

  function IndexOffsets(index: seq<IndexEntry>): (r: seq<uint32>)
    ensures |r| == |index| && forall i :: 0 <= i < |r| ==> r[i] == index[i].offset
  {
    seq(|index|, i requires 0 <= i < |index| => index[i].offset)
  }

  /** What the search in a page gives. */
  ghost predicate PageResult(lines: seq<Line>, pc: nat, r: Result<Function>) {
    lines != [] && Nondecreasing(Offsets(lines)) ==>
      if pc < lines[0].offset then r == Err(ENOTFOUND)
      else exists k :: 0 <= k < |lines| && Covers(Offsets(lines), pc, k) && r == Report(Some(lines[k]))
  }

  lemma LineFound(lines: seq<Line>, pc: nat, k: nat, r: Result<Function>)
    requires k < |lines| && (Nondecreasing(Offsets(lines)) ==> Covers(Offsets(lines), pc, k) && pc >= lines[0].offset)
    requires r == Report(Some(lines[k]))
    ensures PageResult(lines, pc, r)
  {
  }

  /** The encoding of a compressed entry. */
  method FindEncoding(common: seq<uint32>, encodings: seq<uint32>, encodingIndex: uint8) returns (r: Result<uint32>)
    ensures r == EncodingAt(common, encodings, encodingIndex)
  {
    if encodingIndex < |common| {
      return Ok(common[encodingIndex]);
    }
    var index: uint8 := encodingIndex - |common|;
    if index >= |encodings| {
      return Err(EINVAL);
    }
    return Ok(encodings[index]);
  }

  /** The second level: the search in one page. */
  method SearchPage(foreign: bool, common: seq<uint32>, e: IndexEntry, pc: nat) returns (r: Result<Function>)
    requires 0 < |PageLines(foreign, common, e)| < 0x1_0000 || e.page.OtherKind?
    ensures e.page.OtherKind? ==> r == Err(EINVAL)
    ensures PageResult(PageLines(foreign, common, e), pc, r)
  {
    hide Nondecreasing, Covers, PageResult, EncodingAt, FunctionOffset, EncodingIndex, Swap32;
    ghost var lines := PageLines(foreign, common, e);
    match e.page {
      case Regular(fs) =>
        var values := seq(|fs|, i requires 0 <= i < |fs| => fs[i].offset);
        assert values == Offsets(lines);
        var k := BinarySearch(values, pc);
        if k.None? {
          NoLine(lines, pc);
          return Err(ENOTFOUND);
        }
        r := Ok(fs[k.value]);
        LineFound(lines, pc, k.value, r);
      case Compressed(es, encodings) =>
        var base := e.offset;
        var values := seq(|es|, i requires 0 <= i < |es| => FunctionOffset(base, es[i]));
        assert values == Offsets(lines);
        var k := BinarySearch(values, pc);
        if k.None? {
          NoLine(lines, pc);
          return Err(ENOTFOUND);
        }
        var entry := es[k.value];
        var functionBase: uint32 := FunctionOffset(base, Swap32(foreign, entry));
        var encoding := FindEncoding(common, encodings, EncodingIndex(entry));
        r := if encoding.Ok? then Ok(Function(functionBase, encoding.value)) else Err(encoding.error);
        LineFound(lines, pc, k.value, r);
      case OtherKind =>
        EmptyPage(lines, pc);
        return Err(EINVAL);
    }
  }

  lemma NoLine(lines: seq<Line>, pc: nat)
    requires lines != [] && (Nondecreasing(Offsets(lines)) ==> pc < lines[0].offset)
    ensures PageResult(lines, pc, Err(ENOTFOUND))
  {
  }

  lemma EmptyPage(lines: seq<Line>, pc: nat)
    requires lines == []
    ensures PageResult(lines, pc, Err(EINVAL))
  {
  }

  /** The lines of the first `p` pages. */
  function Before(s: Section, p: nat): nat
    requires p <= |Pages(s)|
  {
    |Flat(s.foreign, s.common, Pages(s)[..p])|
  }

  lemma {:induction false} FlatConcat(foreign: bool, common: seq<uint32>, a: seq<IndexEntry>, b: seq<IndexEntry>)
    ensures Flat(foreign, common, a + b) == Flat(foreign, common, a) + Flat(foreign, common, b)
  {
    if a == [] {
      assert a + b == b;
    } else {
      assert (a + b)[1..] == a[1..] + b;
      FlatConcat(foreign, common, a[1..], b);
    }
  }

  /** Where the lines of page `p` are in the flattened table. */
  lemma PageInFlat(s: Section, p: nat)
    requires p < |Pages(s)|
    ensures
      var lines := PageLines(s.foreign, s.common, Pages(s)[p]);
      && Before(s, p) + |lines| == Before(s, p + 1) <= |Lines(s)|
      && Lines(s)[Before(s, p)..Before(s, p + 1)] == lines
  {
    hide Flat, PageLines, Pages;
    var pages := Pages(s);
    var rest := pages[p + 1..];
    assert pages == pages[..p] + ([pages[p]] + rest) && pages[..p + 1] == pages[..p] + [pages[p]];
    FlatConcat(s.foreign, s.common, pages[..p], [pages[p]] + rest);
    FlatConcat(s.foreign, s.common, pages[..p], [pages[p]]);
    FlatConcat(s.foreign, s.common, [pages[p]], rest);
    OnePage(s.foreign, s.common, pages[p]);
    Middle(Flat(s.foreign, s.common, pages[..p]), PageLines(s.foreign, s.common, pages[p]), Flat(s.foreign, s.common, rest));
  }

  lemma OnePage(foreign: bool, common: seq<uint32>, e: IndexEntry)
    ensures Flat(foreign, common, [e]) == PageLines(foreign, common, e)
  {
    hide PageLines;
    assert [e][1..] == [];
  }

  lemma Middle(a: seq<Line>, b: seq<Line>, c: seq<Line>)
    ensures (a + (b + c))[|a|..|a| + |b|] == b
  {
  }

  /** The table begins with the first index entry, and what follows page `p` begins with the next one. */
  lemma PageBegins(s: Section, p: nat)
    requires WellFormed(s) && p < |Pages(s)|
    ensures Before(s, p) < |Lines(s)| && Lines(s)[Before(s, p)].offset == Pages(s)[p].offset
  {
    PageInFlat(s, p);
    assert PageLines(s.foreign, s.common, Pages(s)[p]) != [];
    assert Lines(s)[Before(s, p)..Before(s, p + 1)][0] == Lines(s)[Before(s, p)];
  }

  lemma AllBefore(s: Section)
    ensures Before(s, |Pages(s)|) == |Lines(s)| && Before(s, 0) == 0
  {
    assert Pages(s)[..|Pages(s)|] == Pages(s);
  }

  lemma {:induction false} BeforeGrows(s: Section, p: nat, q: nat)
    requires p <= q <= |Pages(s)|
    ensures Before(s, p) <= Before(s, q)
    decreases q - p
  {
    if p < q {
      PageInFlat(s, p);
      BeforeGrows(s, p + 1, q);
    }
  }

  lemma IndexInOrder(s: Section)
    requires WellFormed(s)
    ensures Nondecreasing(IndexOffsets(Pages(s)))
  {
    forall p, q | 0 <= p <= q < |Pages(s)| ensures Pages(s)[p].offset <= Pages(s)[q].offset {
      PageBegins(s, p);
      PageBegins(s, q);
      BeforeGrows(s, p, q);
      assert Offsets(Lines(s))[Before(s, p)] <= Offsets(Lines(s))[Before(s, q)];
    }
  }

  /** Line `k` of page `p` in the flattened table. */
  lemma LineInFlat(s: Section, p: nat, k: nat)
    requires p < |Pages(s)| && k < |PageLines(s.foreign, s.common, Pages(s)[p])|
    ensures Before(s, p) + k < |Lines(s)| && Lines(s)[Before(s, p) + k]
      == PageLines(s.foreign, s.common, Pages(s)[p])[k]
  {
    hide Flat, Lines, PageLines, Pages, Before;
    PageInFlat(s, p);
    assert Lines(s)[Before(s, p)..Before(s, p + 1)][k] == Lines(s)[Before(s, p) + k];
  }

  lemma InOrder(lines: seq<Line>, i: nat, j: nat)
    requires Nondecreasing(Offsets(lines)) && i <= j < |lines|
    ensures lines[i].offset <= lines[j].offset
  {
    assert Offsets(lines)[i] <= Offsets(lines)[j];
  }

  lemma LinesInOrder(s: Section)
    requires WellFormed(s)
    ensures Nondecreasing(Offsets(Lines(s)))
  {
  }

  lemma PageInOrder(s: Section, p: nat)
    requires WellFormed(s) && p < |Pages(s)|
    ensures Nondecreasing(Offsets(PageLines(s.foreign, s.common, Pages(s)[p])))
  {
    hide WellFormed, Flat, Lines, PageLines, Pages, Before;
    LinesInOrder(s);
    var lines := PageLines(s.foreign, s.common, Pages(s)[p]);
    forall i, j | 0 <= i <= j < |lines| ensures lines[i].offset <= lines[j].offset {
      LineInFlat(s, p, i);
      LineInFlat(s, p, j);
      InOrder(Lines(s), Before(s, p) + i, Before(s, p) + j);
    }
  }

  /** What follows line `k` of page `p`: the next line of the page, the next page, or nothing. */
  lemma LineAfter(s: Section, p: nat, k: nat)
    requires WellFormed(s) && p < |Pages(s)| && k < |PageLines(s.foreign, s.common, Pages(s)[p])|
    ensures
      var lines := PageLines(s.foreign, s.common, Pages(s)[p]);
      var next := Before(s, p) + k + 1;
      if k + 1 < |lines| then next < |Lines(s)| && Lines(s)[next] == lines[k + 1]
      else if p + 1 < |Pages(s)| then next < |Lines(s)| && Lines(s)[next].offset == Pages(s)[p + 1].offset
      else next == |Lines(s)|
  {
    hide WellFormed, Flat, Lines, PageLines, Pages, Before;
    PageInFlat(s, p);
    if k + 1 < |PageLines(s.foreign, s.common, Pages(s)[p])| {
      LineInFlat(s, p, k + 1);
    } else if p + 1 < |Pages(s)| {
      PageBegins(s, p + 1);
    } else {
      AllBefore(s);
    }
  }

  /** A covering line of a covering page covers in the flattened table. */
  lemma CoversInFlat(s: Section, pc: nat, p: nat, k: nat)
    requires WellFormed(s) && p < |Pages(s)| && k < |PageLines(s.foreign, s.common, Pages(s)[p])|
    requires Covers(IndexOffsets(Pages(s)), pc, p)
    requires Covers(Offsets(PageLines(s.foreign, s.common, Pages(s)[p])), pc, k)
    ensures
      var i := Before(s, p) + k;
      i < |Lines(s)| && Covers(Offsets(Lines(s)), pc, i)
        && Lines(s)[i] == PageLines(s.foreign, s.common, Pages(s)[p])[k]
  {
    hide WellFormed, Flat, Lines, PageLines, Pages, Before, Nondecreasing;
    LineInFlat(s, p, k);
    LineAfter(s, p, k);
    FirstOfPage(s, p);
    PageInOrder(s, p);
    InOrder(PageLines(s.foreign, s.common, Pages(s)[p]), 0, k);
  }

  lemma FirstOfPage(s: Section, p: nat)
    requires WellFormed(s) && p < |Pages(s)|
    ensures
      var lines := PageLines(s.foreign, s.common, Pages(s)[p]);
      lines != [] && lines[0].offset == Pages(s)[p].offset
  {
    hide Flat;
  }

  lemma {:induction false} LinearFindsLast(lines: seq<Line>, pc: nat, i: nat)
    requires Increasing(lines) && i < |lines| && Covers(Offsets(lines), pc, i)
    ensures Linear(lines, pc) == Some(lines[i])
  {
    if i > 0 {
      assert Increasing(lines[1..]);
      LinearFindsLast(lines[1..], pc, i - 1);
    } else {
      assert forall line :: line in lines[1..] ==> line.offset > pc;
      LinearFindsNone(lines[1..], pc);
    }
  }

  lemma {:induction false} LinearFindsNone(lines: seq<Line>, pc: nat)
    requires forall line :: line in lines ==> line.offset > pc
    ensures Linear(lines, pc) == None
  {
    if lines != [] {
      LinearFindsNone(lines[1..], pc);
    }
  }

  ghost predicate Increasing(lines: seq<Line>) {
    forall i, j :: 0 <= i < j < |lines| ==> lines[i].offset < lines[j].offset
  }

  /** The answer belongs to a line that covers `pc`, or no line begins at or before `pc`. */
  ghost predicate Answers(s: Section, pc: nat, r: Result<Function>) {
    || (r == Err(ENOTFOUND) && forall line :: line in Lines(s) ==> line.offset > pc)
    || (exists i :: 0 <= i < |Lines(s)| && Covers(Offsets(Lines(s)), pc, i) && r == Report(Some(Lines(s)[i])))
  }

  /** Where no two functions begin at the same place, there is one answer: that of the linear search. */
  lemma AnswerIsLinear(s: Section, pc: nat, r: Result<Function>)
    requires WellFormed(s) && Increasing(Lines(s)) && Answers(s, pc, r)
    ensures r == Report(Linear(Lines(s), pc))
  {
    if r == Err(ENOTFOUND) && forall line :: line in Lines(s) ==> line.offset > pc {
      LinearFindsNone(Lines(s), pc);
    } else {
      var i :| 0 <= i < |Lines(s)| && Covers(Offsets(Lines(s)), pc, i) && r == Report(Some(Lines(s)[i]));
      LinearFindsLast(Lines(s), pc, i);
    }
  }

  lemma NothingBefore(s: Section, pc: nat)
    requires WellFormed(s) && Pages(s) != [] && pc < Pages(s)[0].offset
    ensures Answers(s, pc, Err(ENOTFOUND))
  {
    PageBegins(s, 0);
    AllBefore(s);
    forall line | line in Lines(s) ensures line.offset > pc {
      var i :| 0 <= i < |Lines(s)| && Lines(s)[i] == line;
      assert Offsets(Lines(s))[0] <= Offsets(Lines(s))[i];
    }
  }

  lemma PageAnswers(s: Section, pc: nat, p: nat, r: Result<Function>)
    requires WellFormed(s) && p < |Pages(s)| && Covers(IndexOffsets(Pages(s)), pc, p)
    requires PageResult(PageLines(s.foreign, s.common, Pages(s)[p]), pc, r)
    ensures Answers(s, pc, r)
  {
    var lines := PageLines(s.foreign, s.common, Pages(s)[p]);
    PageInOrder(s, p);
    var k :| 0 <= k < |lines| && Covers(Offsets(lines), pc, k) && r == Report(Some(lines[k]));
    CoversInFlat(s, pc, p, k);
  }

  /** What the reader should give for a line. */
  function Promised(line: Option<Line>): Result<Function> {
    match line
    case None => Err(ENOTFOUND)
    case Some(Line(_, _, Err(e))) => Err(e)
    case Some(Line(offset, _, Ok(encoding))) => Ok(Function(offset, encoding))
  }

  /** The bytes of an entry that the second swap puts in each other's place are the same. */
  predicate Palindromic(entry: uint32) {
    Byte(entry, 1) == Byte(entry, 2) && Byte(entry, 0) == Byte(entry, 3)
  }

  lemma JoinedBytes(x: uint32)
    ensures x == Byte(x, 3) * 0x100_0000 + Byte(x, 2) * 0x1_0000 + Byte(x, 1) * 0x100 + Byte(x, 0)
  {
    assert x / 0x1_0000 == x / 0x100 / 0x100 && x / 0x100_0000 == x / 0x1_0000 / 0x100;
  }

  lemma LowBytes(a: uint8, b: uint8, c: uint8, d: uint8)
    ensures CompressedOffset(a * 0x100_0000 + b * 0x1_0000 + c * 0x100 + d) == b * 0x1_0000 + c * 0x100 + d
  {
  }

  lemma ReversedOffset(entry: uint32)
    ensures CompressedOffset(ReverseBytes(entry)) == CompressedOffset(entry) <==> Palindromic(entry)
  {
    hide Byte, CompressedOffset;
    JoinedBytes(entry);
    LowBytes(Byte(entry, 3), Byte(entry, 2), Byte(entry, 1), Byte(entry, 0));
    LowBytes(Byte(entry, 0), Byte(entry, 1), Byte(entry, 2), Byte(entry, 3));
  }

  /** The function base of a compressed entry is right if and only if the second swap does nothing to the entry. */
  lemma CompressedRightIff(foreign: bool, common: seq<uint32>, encodings: seq<uint32>, base: uint32, entry: uint32)
    ensures
      var line := CompressedLine(foreign, common, encodings, base, entry);
      Report(Some(line)) == Promised(Some(line)) <==> line.encoding.Err? || !foreign || Palindromic(entry)
  {
    hide ReverseBytes, Palindromic, CompressedOffset, EncodingAt, EncodingIndex;
    ReversedOffset(entry);
    SameSum(base, CompressedOffset(Swap32(foreign, entry)), CompressedOffset(entry));
  }

  lemma SameSum(base: uint32, x: nat, y: nat)
    requires x < 0x100_0000 && y < 0x100_0000
    ensures (base + x) % 0x1_0000_0000 == (base + y) % 0x1_0000_0000 <==> x == y
  {
  }

  /** In host order, and in regular pages, what is given is right. */
  lemma {:induction false} HostOrderRight(common: seq<uint32>, index: seq<IndexEntry>)
    ensures forall line :: line in Flat(false, common, index) ==> line.shown == line.offset
  {
    if index != [] {
      HostOrderRight(common, index[1..]);
    }
  }

  lemma {:induction false} LinearIsLine(lines: seq<Line>, pc: nat)
    ensures Linear(lines, pc).Some? ==> Linear(lines, pc).value in lines
  {
    if lines != [] {
      LinearIsLine(lines[1..], pc);
    }
  }

  /** `cfe_reader_find_pc` returns what a linear search of the flattened function table gives. */
  method FindPc(s: Section, pc: nat) returns (r: Result<Function>)
    requires Searchable(s)
    ensures s.index == [] ==> r == Err(ENOTFOUND)
    ensures WellFormed(s) ==> Answers(s, pc, r)
    ensures WellFormed(s) && Increasing(Lines(s)) ==> r == Report(Linear(Lines(s), pc))
    ensures WellFormed(s) && Increasing(Lines(s)) && !s.foreign ==> r == Promised(Linear(Lines(s), pc))
  {
    hide WellFormed, Answers, Increasing, Nondecreasing, Covers, Linear, Lines, PageResult, Report, Promised;
    if |s.index| == 0 {
      NoLines(s, pc);
      return Err(ENOTFOUND);
    }
    var pages := s.index[..|s.index| - 1];
    var p := BinarySearch(IndexOffsets(pages), pc);
    if p.None? {
      r := Err(ENOTFOUND);
    } else {
      r := SearchPage(s.foreign, s.common, pages[p.value], pc);
    }
    if WellFormed(s) {
      IndexInOrder(s);
      if p.None? {
        NothingBefore(s, pc);
      } else {
        PageAnswers(s, pc, p.value, r);
      }
      if Increasing(Lines(s)) {
        AnswerIsLinear(s, pc, r);
        HostAnswer(s, pc);
      }
    }
  }

  lemma HostAnswer(s: Section, pc: nat)
    ensures !s.foreign ==> Report(Linear(Lines(s), pc)) == Promised(Linear(Lines(s), pc))
  {
    hide Linear, Flat;
    HostOrderRight(s.common, Pages(s));
    LinearIsLine(Lines(s), pc);
  }

  lemma NoLines(s: Section, pc: nat)
    requires s.index == []
    ensures Answers(s, pc, Err(ENOTFOUND))
    ensures Report(Linear(Lines(s), pc)) == Promised(Linear(Lines(s), pc)) == Err(ENOTFOUND)
  {
  }
}
