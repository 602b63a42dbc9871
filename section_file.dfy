/** The grouping rules of a section file, as `SectionReader::load`
    (celsus/section_reader.cpp) applies them to the lines of a file: a line
    that the scanner recognises as a `[name]` header starts a new section,
    every other non-empty line is a row of the latest section, rows before
    any header belong to the section named "", empty lines are skipped, a
    section without rows is never stored, and a name that is stored already
    keeps its first rows. */
module SectionFile {
  import opened Wrappers
  import opened MapInsert

  /** What the scanner says about one line: `Some(name)` when it is a
      section header `[name]`, `None` otherwise. */
  type HeaderScan = string -> Option<string>

  /** The variables of the grouping loop: the section table, the name of the
      latest header and the rows collected under it. */
  datatype Scanning = Scanning(sections: map<string, seq<string>>, header: string, rows: seq<string>)

  /** Storing the collected rows under `header`, which happens only when there
      are some. */
  function Store(sections: map<string, seq<string>>, header: string, rows: seq<string>): map<string, seq<string>>
  {
    if rows != [] then InsertFirst(sections, header, rows) else sections
  }

  /** One iteration of the grouping loop. */
  function Step(isHeader: HeaderScan, st: Scanning, line: string): Scanning
  {
    if |line| == 0 then st
    else match isHeader(line)
      case Some(name) => Scanning(Store(st.sections, st.header, st.rows), name, [])
      case None => st.(rows := st.rows + [line])
  }

  /** The grouping loop over `lines`, in order. */
  function ScanLines(isHeader: HeaderScan, st: Scanning, lines: seq<string>): Scanning
    decreases |lines|
  {
    if lines == [] then st
    else Step(isHeader, ScanLines(isHeader, st, lines[..|lines| - 1]), lines[|lines| - 1])
  }

  /** One more line is one more iteration. */
  lemma ScanLinesSnoc(isHeader: HeaderScan, st: Scanning, lines: seq<string>, i: nat)
    requires i < |lines|
    ensures ScanLines(isHeader, st, lines[..i + 1]) == Step(isHeader, ScanLines(isHeader, st, lines[..i]), lines[i])
  {
    assert lines[..i + 1][..i] == lines[..i];
  }

  /** The section table after loading `lines` into a reader whose table was
      `sections`: the loop, then the store of the last section. */
  function Parse(isHeader: HeaderScan, sections: map<string, seq<string>>, lines: seq<string>): (r: map<string, seq<string>>)
    ensures forall n :: n in sections ==> n in r && r[n] == sections[n]
    ensures forall n :: n in r && n !in sections ==> r[n] != []
  {
    var st := ScanLines(isHeader, Scanning(sections, "", []), lines);
    ScanKeeps(isHeader, Scanning(sections, "", []), lines);
    Store(st.sections, st.header, st.rows)
  }

  /** The loop keeps every section it started with, and every section it
      adds has rows. */
  lemma {:induction false} ScanKeeps(isHeader: HeaderScan, st: Scanning, lines: seq<string>)
    ensures var r := ScanLines(isHeader, st, lines);
      && (forall n :: n in st.sections ==> n in r.sections && r.sections[n] == st.sections[n])
      && (forall n :: n in r.sections && n !in st.sections ==> r.sections[n] != [])
    decreases |lines|
  {
    if lines != [] {
      ScanKeeps(isHeader, st, lines[..|lines| - 1]);
    }
  }

  // A reference description of the file, independent of the loop.

  /** The blocks of a file: the block named "" that precedes any header, then
      one block per header, each with the non-empty non-header lines that
      follow it up to the next header. */
  function Blocks(isHeader: HeaderScan, lines: seq<string>): (r: seq<(string, seq<string>)>)
    ensures |r| >= 1
    decreases |lines|
  {
    if lines == [] then [("", [])]
    else AddLine(isHeader, Blocks(isHeader, lines[..|lines| - 1]), lines[|lines| - 1])
  }

  /** How one line extends the blocks: an empty line not at all, a header
      with a new block, any other line with one more row of the last block. */
  function AddLine(isHeader: HeaderScan, b: seq<(string, seq<string>)>, line: string): (r: seq<(string, seq<string>)>)
    requires |b| >= 1
    ensures |r| >= 1
  {
    if |line| == 0 then b
    else match isHeader(line)
      case Some(name) => b + [(name, [])]
      case None => b[..|b| - 1] + [(b[|b| - 1].0, b[|b| - 1].1 + [line])]
  }

  /** The blocks that have rows, in order. */
  function Stored(blocks: seq<(string, seq<string>)>): seq<(string, seq<string>)>
    decreases |blocks|
  {
    if blocks == [] then []
    else
      var last := blocks[|blocks| - 1];
      Stored(blocks[..|blocks| - 1]) + (if last.1 != [] then [last] else [])
  }

  /** The names of the header lines, in order. */
  function Headers(isHeader: HeaderScan, lines: seq<string>): seq<string>
    decreases |lines|
  {
    if lines == [] then []
    else
      var line := lines[|lines| - 1];
      Headers(isHeader, lines[..|lines| - 1]) + (if |line| > 0 && isHeader(line).Some? then [isHeader(line).value] else [])
  }

  /** The non-empty lines that are not headers, in order. */
  function Rows(isHeader: HeaderScan, lines: seq<string>): seq<string>
    decreases |lines|
  {
    if lines == [] then []
    else
      var line := lines[|lines| - 1];
      Rows(isHeader, lines[..|lines| - 1]) + (if |line| > 0 && isHeader(line).None? then [line] else [])
  }

  /** The non-empty lines, in order. */
  function NonEmptyLines(lines: seq<string>): seq<string>
    decreases |lines|
  {
    if lines == [] then []
    else
      var line := lines[|lines| - 1];
      NonEmptyLines(lines[..|lines| - 1]) + (if |line| > 0 then [line] else [])
  }

  /** The rows of all blocks, one block after the other. */
  function Flatten(blocks: seq<(string, seq<string>)>): seq<string>
    decreases |blocks|
  {
    if blocks == [] then [] else Flatten(blocks[..|blocks| - 1]) + blocks[|blocks| - 1].1
  }

  lemma StoredSnoc(blocks: seq<(string, seq<string>)>, b: (string, seq<string>))
    ensures Stored(blocks + [b]) == Stored(blocks) + (if b.1 != [] then [b] else [])
  {
    assert (blocks + [b])[..|blocks|] == blocks;
  }

  lemma FlattenSnoc(blocks: seq<(string, seq<string>)>, b: (string, seq<string>))
    ensures Flatten(blocks + [b]) == Flatten(blocks) + b.1
  {
    assert (blocks + [b])[..|blocks|] == blocks;
  }

  /** The loop state that stands for blocks `b`: the stored blocks before the
      latest one, and the latest block itself. */
  function Summary(m: map<string, seq<string>>, b: seq<(string, seq<string>)>): Scanning
    requires |b| >= 1
  {
    Scanning(InsertAll(m, Stored(b[..|b| - 1])), b[|b| - 1].0, b[|b| - 1].1)
  }

  /** Storing the latest block is inserting it when it has rows. */
  lemma StoreStored(m: map<string, seq<string>>, front: seq<(string, seq<string>)>, last: (string, seq<string>))
    ensures Store(InsertAll(m, Stored(front)), last.0, last.1) == InsertAll(m, Stored(front + [last]))
  {
    StoredSnoc(front, last);
    if last.1 != [] {
      InsertAllSnoc(m, Stored(front), last.0, last.1);
    } else {
      assert Stored(front) + [] == Stored(front);
    }
  }

  lemma SummaryHeader(m: map<string, seq<string>>, b: seq<(string, seq<string>)>, name: string)
    requires |b| >= 1
    ensures Summary(m, b + [(name, [])]) ==
      Scanning(Store(Summary(m, b).sections, Summary(m, b).header, Summary(m, b).rows), name, [])
  {
    var front, last := b[..|b| - 1], b[|b| - 1];
    assert b == front + [last];
    StoreStored(m, front, last);
    assert (b + [(name, [])])[..|b|] == b;
  }

  lemma SummaryRow(m: map<string, seq<string>>, b: seq<(string, seq<string>)>, line: string)
    requires |b| >= 1
    ensures var front, last := b[..|b| - 1], b[|b| - 1];
      Summary(m, front + [(last.0, last.1 + [line])]) == Summary(m, b).(rows := Summary(m, b).rows + [line])
  {
    var front, last := b[..|b| - 1], b[|b| - 1];
    assert (front + [(last.0, last.1 + [line])])[..|b| - 1] == front;
  }

  /** The loop keeps, as its state, the stored blocks before the latest one
      and the latest block itself. */
  lemma {:induction false} ScanMatchesBlocks(isHeader: HeaderScan, m: map<string, seq<string>>, lines: seq<string>)
    ensures ScanLines(isHeader, Scanning(m, "", []), lines) == Summary(m, Blocks(isHeader, lines))
    decreases |lines|
  {
    if lines == [] {
      assert Blocks(isHeader, lines)[..0] == [];
    } else {
      var init, line := lines[..|lines| - 1], lines[|lines| - 1];
      ScanMatchesBlocks(isHeader, m, init);
      var b := Blocks(isHeader, init);
      assert Blocks(isHeader, lines) == AddLine(isHeader, b, line);
      if |line| > 0 {
        match isHeader(line)
        case Some(name) =>
          SummaryHeader(m, b, name);
        case None =>
          SummaryRow(m, b, line);
      }
    }
  }

  /** Loading stores exactly the blocks that have rows, in file order, each
      inserted first-wins into the table the reader already had. */
  lemma ParseMatchesBlocks(isHeader: HeaderScan, m: map<string, seq<string>>, lines: seq<string>)
    ensures Parse(isHeader, m, lines) == InsertAll(m, Stored(Blocks(isHeader, lines)))
  {
    ScanMatchesBlocks(isHeader, m, lines);
    var b := Blocks(isHeader, lines);
    assert b == b[..|b| - 1] + [b[|b| - 1]];
    StoreStored(m, b[..|b| - 1], b[|b| - 1]);
  }

  /** The first block is named "", and block `k + 1` is named after header
      `k`: one block per header, in file order. */
  lemma {:induction false} BlockNames(isHeader: HeaderScan, lines: seq<string>)
    ensures var b := Blocks(isHeader, lines);
      && b[0].0 == ""
      && |b| == |Headers(isHeader, lines)| + 1
      && forall k :: 0 <= k < |Headers(isHeader, lines)| ==> b[k + 1].0 == Headers(isHeader, lines)[k]
    decreases |lines|
  {
    if lines != [] {
      var init, line := lines[..|lines| - 1], lines[|lines| - 1];
      BlockNames(isHeader, init);
      var b := Blocks(isHeader, init);
      if |line| > 0 {
        match isHeader(line)
        case Some(name) =>
          assert Headers(isHeader, lines) == Headers(isHeader, init) + [name];
        case None =>
          assert Headers(isHeader, lines) == Headers(isHeader, init) + [];
          var last := b[|b| - 1];
          assert forall k :: 0 <= k < |b| - 1 ==> Blocks(isHeader, lines)[k] == b[k];
      }
    }
  }

  /** Every non-empty line that is not a header is a row of exactly one
      block, and the blocks hold them in file order: no row is lost,
      duplicated or reordered. */
  lemma {:induction false} BlockRows(isHeader: HeaderScan, lines: seq<string>)
    ensures Flatten(Blocks(isHeader, lines)) == Rows(isHeader, lines)
    decreases |lines|
  {
    if lines == [] {
      assert Flatten([("", [])]) == Flatten([]) + [];
    } else {
      var init, line := lines[..|lines| - 1], lines[|lines| - 1];
      BlockRows(isHeader, init);
      var b := Blocks(isHeader, init);
      var front, last := b[..|b| - 1], b[|b| - 1];
      if |line| > 0 {
        match isHeader(line)
        case Some(name) =>
          FlattenSnoc(b, (name, []));
          assert Rows(isHeader, lines) == Rows(isHeader, init) + [];
        case None =>
          assert b == front + [last];
          FlattenSnoc(front, last);
          FlattenSnoc(front, (last.0, last.1 + [line]));
      } else {
        assert Rows(isHeader, lines) == Rows(isHeader, init) + [];
      }
    }
  }

  /** A file without headers has the single block "", holding all of its
      non-empty lines. */
  lemma {:induction false} NoHeaderOneBlock(isHeader: HeaderScan, lines: seq<string>)
    requires Headers(isHeader, lines) == []
    ensures Blocks(isHeader, lines) == [("", NonEmptyLines(lines))]
    decreases |lines|
  {
    if lines != [] {
      var init, line := lines[..|lines| - 1], lines[|lines| - 1];
      assert Headers(isHeader, init) == [];
      NoHeaderOneBlock(isHeader, init);
      assert Blocks(isHeader, lines) == AddLine(isHeader, [("", NonEmptyLines(init))], line);
      if |line| > 0 {
        assert isHeader(line).None?;
        assert [("", NonEmptyLines(init))][..0] == [];
      } else {
        assert NonEmptyLines(lines) == NonEmptyLines(init) + [] == NonEmptyLines(init);
      }
    }
  }

  /** Empty lines make no difference: loading a file is loading its
      non-empty lines. */
  lemma {:induction false} EmptyLinesIgnored(isHeader: HeaderScan, lines: seq<string>)
    ensures Blocks(isHeader, lines) == Blocks(isHeader, NonEmptyLines(lines))
    decreases |lines|
  {
    if lines != [] {
      var init, line := lines[..|lines| - 1], lines[|lines| - 1];
      EmptyLinesIgnored(isHeader, init);
      var ne := NonEmptyLines(init);
      assert Blocks(isHeader, lines) == AddLine(isHeader, Blocks(isHeader, ne), line);
      if |line| > 0 {
        assert NonEmptyLines(lines) == ne + [line];
        assert (ne + [line])[..|ne|] == ne;
        assert Blocks(isHeader, ne + [line]) == AddLine(isHeader, Blocks(isHeader, ne), line);
      } else {
        assert NonEmptyLines(lines) == ne + [] == ne;
      }
    }
  }

  /** Every stored block has rows. */
  lemma {:induction false} StoredHaveRows(blocks: seq<(string, seq<string>)>, k: nat)
    requires k < |Stored(blocks)|
    ensures Stored(blocks)[k].1 != []
    decreases |blocks|
  {
    var init, last := blocks[..|blocks| - 1], blocks[|blocks| - 1];
    if k < |Stored(init)| {
      StoredHaveRows(init, k);
    }
  }

  /** No section without rows is ever stored: when the table had none,
      loading leaves it without one. */
  lemma SectionsHaveRows(isHeader: HeaderScan, m: map<string, seq<string>>, lines: seq<string>, name: string)
    requires forall n :: n in m ==> m[n] != []
    requires name in Parse(isHeader, m, lines)
    ensures Parse(isHeader, m, lines)[name] != []
  {
    ParseMatchesBlocks(isHeader, m, lines);
    var s := Stored(Blocks(isHeader, lines));
    var k := InsertAllOrigin(m, s, name);
    if k >= 0 {
      StoredHaveRows(Blocks(isHeader, lines), k);
    }
  }

  /** A section name is in the table after loading exactly when it was
      before or some block with rows carries it. */
  lemma SectionNames(isHeader: HeaderScan, m: map<string, seq<string>>, lines: seq<string>, name: string)
    ensures name in Parse(isHeader, m, lines) <==>
      name in m || exists k :: 0 <= k < |Stored(Blocks(isHeader, lines))| && Stored(Blocks(isHeader, lines))[k].0 == name
  {
    ParseMatchesBlocks(isHeader, m, lines);
    InsertAllKeys(m, Stored(Blocks(isHeader, lines)), name);
  }

  /** First insert wins: a section the reader had keeps its rows, and a new
      name gets the rows of its first block with rows; later blocks with the
      same name are dropped. */
  lemma FirstSectionWins(isHeader: HeaderScan, m: map<string, seq<string>>, lines: seq<string>, name: string, k: nat)
    requires name !in m && FirstKeyAt(Stored(Blocks(isHeader, lines)), name, k)
    ensures name in Parse(isHeader, m, lines)
    ensures Parse(isHeader, m, lines)[name] == Stored(Blocks(isHeader, lines))[k].1
  {
    ParseMatchesBlocks(isHeader, m, lines);
    InsertAllFirstWins(m, Stored(Blocks(isHeader, lines)), name, k);
  }

  /** Loading never changes a section the reader already had. */
  lemma KnownSectionKept(isHeader: HeaderScan, m: map<string, seq<string>>, lines: seq<string>, name: string)
    requires name in m
    ensures name in Parse(isHeader, m, lines) && Parse(isHeader, m, lines)[name] == m[name]
  {
    ParseMatchesBlocks(isHeader, m, lines);
    InsertAllKeepsExisting(m, Stored(Blocks(isHeader, lines)), name);
  }
}
