/**
 * Compact unwind sections as they stand for lists of functions: what `find_pc` answers, in the functions that a
 * linker put in.
 */
module CompactTables {
  import opened Common
  import opened CompactSearch

  /** Encodings are numbered: first the common ones, then those of the page. */
  predicate StandsAt(common: seq<uint32>, encodings: seq<uint32>, index: nat, encoding: uint32) {
    if index < |common| then common[index] == encoding
    else index - |common| < |encodings| && encodings[index - |common|] == encoding
  }

  /**
   * A compressed entry holds the number of the encoding in its highest byte, and the distance from the page's first
   * function in the others.
   */
  predicate IsEntry(common: seq<uint32>, encodings: seq<uint32>, base: uint32, entry: uint32, index: nat, f: Function) {
    && base <= f.offset < base + 0x100_0000
    && entry == index * 0x100_0000 + (f.offset - base)
    && StandsAt(common, encodings, index, f.encoding)
  }

  /** The page stands for the functions. */
  ghost predicate PageHolds(common: seq<uint32>, e: IndexEntry, fs: seq<Function>) {
    && 0 < |fs| < 0x1_0000 && e.offset == fs[0].offset
    && (e.page == Regular(fs)
        || (e.page.Compressed? && |e.page.entries| == |fs| && |e.page.encodings| < 0x1_0000
            && forall i :: 0 <= i < |fs| ==>
              exists index: nat :: IsEntry(common, e.page.encodings, e.offset, e.page.entries[i], index, fs[i])))
  }

  function Concat(pages: seq<seq<Function>>): seq<Function> {
    if pages == [] then [] else pages[0] + Concat(pages[1..])
  }

  ghost predicate PagesHold(common: seq<uint32>, index: seq<IndexEntry>, pages: seq<seq<Function>>) {
    |index| == |pages| && forall i :: 0 <= i < |pages| ==> PageHolds(common, index[i], pages[i])
  }

  /** The section stands for the functions of all pages, in order, and ends in a sentinel. */
  ghost predicate Holds(s: Section, pages: seq<seq<Function>>) {
    && 1 < |s.index| < 0x8000_0000
    && PagesHold(s.common, s.index[..|s.index| - 1], pages)
    && var fs := Concat(pages);
       forall i, j :: 0 <= i < j < |fs| ==> fs[i].offset < fs[j].offset
  }

  /** The function is the last one at or before `pc`. */
  predicate IsLast(fs: seq<Function>, pc: nat, i: nat) {
    i < |fs| && fs[i].offset <= pc && (i + 1 < |fs| ==> pc < fs[i + 1].offset)
  }

  /** The line says what the function is; where the section is in host order, the reader shows it right. */
  predicate IsLine(foreign: bool, line: Line, f: Function) {
    line.offset == f.offset && line.encoding == Ok(f.encoding) && (!foreign ==> line.shown == f.offset)
  }

  lemma EntryParts(index: nat, distance: nat, entry: uint32)
    requires distance < 0x100_0000 && entry == index * 0x100_0000 + distance
    ensures EncodingIndex(entry) == index && CompressedOffset(entry) == distance
  {
  }

  lemma EntryIsLine(foreign: bool, common: seq<uint32>, encodings: seq<uint32>, base: uint32, entry: uint32, index: nat,
                    f: Function)
    requires IsEntry(common, encodings, base, entry, index, f)
    ensures IsLine(foreign, CompressedLine(foreign, common, encodings, base, entry), f)
  {
    hide EncodingIndex, CompressedOffset, ReverseBytes;
    EntryParts(index, f.offset - base, entry);
    assert (base + (f.offset - base)) % 0x1_0000_0000 == f.offset;
  }

  lemma PageIsLines(foreign: bool, common: seq<uint32>, e: IndexEntry, fs: seq<Function>)
    requires PageHolds(common, e, fs)
    ensures
      var lines := PageLines(foreign, common, e);
      |lines| == |fs| && forall i :: 0 <= i < |fs| ==> IsLine(foreign, lines[i], fs[i])
  {
    hide CompressedLine, IsEntry;
    var lines := PageLines(foreign, common, e);
    forall i | 0 <= i < |fs| ensures IsLine(foreign, lines[i], fs[i]) {
      if e.page.Compressed? {
        var index: nat :| IsEntry(common, e.page.encodings, e.offset, e.page.entries[i], index, fs[i]);
        EntryIsLine(foreign, common, e.page.encodings, e.offset, e.page.entries[i], index, fs[i]);
      }
    }
  }

  lemma {:induction false} LinesAreFunctions(foreign: bool, common: seq<uint32>, index: seq<IndexEntry>,
                                             pages: seq<seq<Function>>)
    requires PagesHold(common, index, pages)
    ensures
      var lines, fs := Flat(foreign, common, index), Concat(pages);
      |lines| == |fs| && forall i :: 0 <= i < |fs| ==> IsLine(foreign, lines[i], fs[i])
    decreases pages
  {
    hide PageHolds, PageLines, IsLine;
    if pages != [] {
      assert PageHolds(common, index[0], pages[0]);
      PageIsLines(foreign, common, index[0], pages[0]);
      LinesAreFunctions(foreign, common, index[1..], pages[1..]);
    }
  }

  lemma SectionIsWellFormed(s: Section, pages: seq<seq<Function>>)
    requires Holds(s, pages)
    ensures WellFormed(s) && Increasing(Lines(s))
    ensures
      var fs := Concat(pages);
      |Lines(s)| == |fs| && forall i :: 0 <= i < |fs| ==> IsLine(s.foreign, Lines(s)[i], fs[i])
  {
    hide Flat, PageLines, Concat, CompressedLine;
    LinesAreFunctions(s.foreign, s.common, Pages(s), pages);
    forall i | 0 <= i < |Pages(s)|
      ensures !Pages(s)[i].page.OtherKind? && PageLines(s.foreign, s.common, Pages(s)[i]) != []
      ensures PageLines(s.foreign, s.common, Pages(s)[i])[0].offset == Pages(s)[i].offset
    {
      assert PageHolds(s.common, Pages(s)[i], pages[i]);
      PageIsLines(s.foreign, s.common, Pages(s)[i], pages[i]);
      assert IsLine(s.foreign, PageLines(s.foreign, s.common, Pages(s)[i])[0], pages[i][0]);
    }
    forall i | 0 <= i < |s.index| - 1 ensures Pages(s)[i] == s.index[i] && PageHolds(s.common, s.index[i], pages[i]) {
    }
    var lines := Lines(s);
    forall i, j | 0 <= i < j < |lines| ensures lines[i].offset < lines[j].offset {
      assert IsLine(s.foreign, lines[i], Concat(pages)[i]) && IsLine(s.foreign, lines[j], Concat(pages)[j]);
    }
  }

  lemma {:induction false} LinearIsLast(foreign: bool, lines: seq<Line>, fs: seq<Function>, pc: nat, i: nat)
    requires |lines| == |fs| && forall i :: 0 <= i < |fs| ==> IsLine(foreign, lines[i], fs[i])
    requires forall i, j :: 0 <= i < j < |fs| ==> fs[i].offset < fs[j].offset
    ensures IsLast(fs, pc, i) ==> Linear(lines, pc) == Some(lines[i])
    ensures (forall f :: f in fs ==> f.offset > pc) ==> Linear(lines, pc) == None
  {
    if IsLast(fs, pc, i) {
      assert IsLine(foreign, lines[i], fs[i]) && (i + 1 < |fs| ==> IsLine(foreign, lines[i + 1], fs[i + 1]));
      forall i, j | 0 <= i < j < |lines| ensures lines[i].offset < lines[j].offset {
        assert IsLine(foreign, lines[i], fs[i]) && IsLine(foreign, lines[j], fs[j]);
      }
      LinearFindsLast(lines, pc, i);
    }
    if forall f :: f in fs ==> f.offset > pc {
      forall line | line in lines ensures line.offset > pc {
        var k :| 0 <= k < |lines| && lines[k] == line;
        assert IsLine(foreign, lines[k], fs[k]) && fs[k] in fs;
      }
      LinearFindsNone(lines, pc);
    }
  }

  /**
   * `cfe_reader_find_pc` on a section that stands for these functions: it finds the last function at or before the
   * PC, with its encoding and, in host order, its offset; and nothing if and only if all functions lie behind the PC.
   */
  method FindFunction(s: Section, pc: nat, ghost pages: seq<seq<Function>>) returns (r: Result<Function>)
    requires Holds(s, pages)
    ensures
      var fs := Concat(pages);
      && (forall i: nat :: IsLast(fs, pc, i) ==>
            r.Ok? && r.value.encoding == fs[i].encoding && (!s.foreign ==> r == Ok(fs[i])))
      && ((forall f :: f in fs ==> f.offset > pc) ==> r == Err(ENOTFOUND))
  {
    hide WellFormed, Linear, Concat, Lines, PagesHold, Answers, Increasing;
    SectionIsWellFormed(s, pages);
    SearchableSection(s);
    r := FindPc(s, pc);
    LinearIsLast(s.foreign, Lines(s), Concat(pages), pc, 0);
    forall i: nat | IsLast(Concat(pages), pc, i)
      ensures r.Ok? && r.value.encoding == Concat(pages)[i].encoding && (!s.foreign ==> r == Ok(Concat(pages)[i]))
    {
      LinearIsLast(s.foreign, Lines(s), Concat(pages), pc, i);
      assert IsLine(s.foreign, Lines(s)[i], Concat(pages)[i]);
    }
  }

  lemma SearchableSection(s: Section)
    requires WellFormed(s)
    ensures Searchable(s)
  {
  }

  /** An index behind both tables is an error, and every other one has its encoding. */
  lemma EncodingFound(common: seq<uint32>, encodings: seq<uint32>, index: nat)
    ensures EncodingAt(common, encodings, index) == Err(EINVAL) <==> index >= |common| + |encodings|
    ensures forall encoding: uint32 :: StandsAt(common, encodings, index, encoding) <==>
              EncodingAt(common, encodings, index) == Ok(encoding)
  {
  }

  /** A page with two functions: the second common encoding, and the first one of the page. */
  method FindSecondEncoding() returns (r: Result<Function>, q: Result<Function>)
    ensures r == Ok(Function(0x1040, 0xB)) && q == Ok(Function(0x1080, 0xC))
  {
    var s := Section([0xA, 0xB], [IndexEntry(0x1040, Compressed([0x0100_0000, 0x0200_0040], [0xC])),
                                  IndexEntry(0x2000, OtherKind)], false);
    ghost var fs := [Function(0x1040, 0xB), Function(0x1080, 0xC)];
    ExampleHolds(s, fs);
    assert IsLast(fs, 0x1050, 0) && IsLast(fs, 0x1090, 1);
    r := FindFunction(s, 0x1050, [fs]);
    q := FindFunction(s, 0x1090, [fs]);
  }

  lemma ExampleHolds(s: Section, fs: seq<Function>)
    requires s == Section([0xA, 0xB], [IndexEntry(0x1040, Compressed([0x0100_0000, 0x0200_0040], [0xC])),
                                       IndexEntry(0x2000, OtherKind)], false)
    requires fs == [Function(0x1040, 0xB), Function(0x1080, 0xC)]
    ensures Holds(s, [fs]) && Concat([fs]) == fs
  {
    var e := s.index[0];
    assert [fs][1..] == [];
    assert s.index[..1] == [e];
    assert IsEntry(s.common, e.page.encodings, e.offset, e.page.entries[0], 1, fs[0]);
    assert IsEntry(s.common, e.page.encodings, e.offset, e.page.entries[1], 2, fs[1]);
  }
}
