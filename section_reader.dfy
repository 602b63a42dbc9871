/** `SectionReader` (celsus/section_reader.cpp): loads a `[section]` file into
    a table from section name to rows, then reads the rows of one selected
    section one at a time through a cursor. */
module Sections {
  import opened Wrappers
  import opened MapInsert
  import opened SectionFile

  /** A 32-bit float, kept as its bit pattern: only counts and copies of
      floats matter here. */
  datatype Float = Float(bits: bv32)

  /** The text scanner the reader relies on: header recognition, the length
      of the first line of a row (`None` when there is no line), and the
      numbers a row parses to. */
  datatype Scanner = Scanner(
    header: HeaderScan,
    lineLength: string -> Option<nat>,
    ints: string -> seq<int>,
    floats: string -> seq<Float>)

  /** A line the scanner finds in a row never runs past the row. */
  ghost predicate ScannerValid(sc: Scanner)
  {
    forall s :: sc.lineLength(s).Some? ==> sc.lineLength(s).value <= |s|
  }

  /** Copies `v` to the front of `out`, element by element. */
  method Copy<T>(v: seq<T>, out: array<T>)
    requires |v| <= out.Length
    modifies out
    ensures out[..|v|] == v && out[|v|..] == old(out[|v|..])
  {
    ghost var out0 := out[..];
    for i := 0 to |v|
      invariant out[..i] == v[..i]
      invariant out[i..] == out0[i..]
    {
      out[i] := v[i];
      assert out[..i + 1] == out[..i] + [v[i]];
      assert v[..i + 1] == v[..i] + [v[i]];
    }
  }

  class SectionReader {
    const scanner: Scanner
    /** `_sections` */
    var sections: map<string, seq<string>>
    /** The name under which `_cur_section` points into `_sections`. */
    var current: Option<string>
    /** `_section_ofs` */
    var offset: nat

    /** The selected section is a stored one and the cursor is within it; no
        stored section is empty. */
    ghost predicate Valid()
      reads this
    {
      && ScannerValid(scanner)
      && (current.None? ==> offset == 0)
      && (current.Some? ==> current.value in sections && offset <= |sections[current.value]|)
      && (forall n :: n in sections ==> sections[n] != [])
    }

    /** The rows of the selected section that the cursor has not passed. */
    ghost function Remaining(): seq<string>
      reads this
      requires Valid()
    {
      if current.Some? then sections[current.value][offset..] else []
    }

    constructor(scanner: Scanner)
      requires ScannerValid(scanner)
      ensures Valid() && this.scanner == scanner
      ensures sections == map[] && current == None && offset == 0
    {
      this.scanner := scanner;
      sections := map[];
      current := None;
      offset := 0;
    }

    /** Loads the lines of a file (`None` when it cannot be opened or read)
        and, when `section` is given, selects it. Sections already loaded
        are kept, so a selected section still reads the same rows. */
    method Load(file: Option<seq<string>>, section: Option<string>) returns (ok: bool)
      requires Valid()
      modifies this
      ensures Valid()
      ensures file.None? ==> !ok && sections == old(sections) && current == old(current) && offset == old(offset)
      ensures file.Some? ==> sections == Parse(scanner.header, old(sections), file.value)
      ensures file.Some? && section.None? ==>
        ok && current == old(current) && offset == old(offset) && Remaining() == old(Remaining())
      ensures file.Some? && section.Some? ==>
        (ok <==> section.value in sections) && offset == 0 && current == (if ok then section else None)
    {
      if file.None? {
        return false;
      }
      var lines := file.value;
      ghost var sections0, current0, offset0 := sections, current, offset;
      var header: string := "";
      var rows: seq<string> := [];
      var i := 0;
      while i < |lines|
        invariant 0 <= i <= |lines|
        invariant current == current0 && offset == offset0
        invariant Scanning(sections, header, rows) == ScanLines(scanner.header, Scanning(sections0, "", []), lines[..i])
      {
        var line := lines[i];
        ScanLinesSnoc(scanner.header, Scanning(sections0, "", []), lines, i);
        if |line| > 0 {
          var h := scanner.header(line);
          if h.Some? {
            if rows != [] {
              sections := InsertFirst(sections, header, rows);
              rows := [];
            }
            header := h.value;
          } else {
            rows := rows + [line];
          }
        }
        i := i + 1;
      }
      assert lines[..i] == lines;
      if rows != [] {
        sections := InsertFirst(sections, header, rows);
      }
      assert sections == Parse(scanner.header, sections0, lines);
      ok := true;
      if section.Some? {
        ok := LoadSection(section.value);
      }
    }

    /** Selects a section by name, with the cursor at its first row; an
        unknown name leaves no section selected. */
    method LoadSection(name: string) returns (ok: bool)
      requires Valid()
      modifies this
      ensures Valid()
      ensures sections == old(sections) && offset == 0
      ensures ok <==> name in sections
      ensures current == (if ok then Some(name) else None)
      ensures ok ==> Remaining() == sections[name]
    {
      current := None;
      offset := 0;
      if name !in sections {
        return false;
      }
      current := Some(name);
      return true;
    }

    /** Takes the row under the cursor and moves the cursor past it; fails,
        changing nothing, when no section is selected or the section has no
        row left. */
    method InitCurSection() returns (row: Option<string>)
      requires Valid()
      modifies this
      ensures Valid()
      ensures sections == old(sections) && current == old(current)
      ensures row.None? <==> old(current).None? || old(offset) >= |old(sections)[old(current).value]|
      ensures row.None? ==> offset == old(offset)
      ensures row.Some? ==> offset == old(offset) + 1
      ensures row.Some? ==> old(Remaining()) != [] && row.value == old(Remaining())[0] && Remaining() == old(Remaining())[1..]
    {
      if current.None? || offset >= |sections[current.value]| {
        return None;
      }
      row := Some(sections[current.value][offset]);
      offset := offset + 1;
    }

    /** Reads one row as exactly `count` values: the row is consumed even
        when it holds another number of values, and `out` is written only
        when it holds exactly `count`. */
    method ReadValues<T>(count: int, parse: string -> seq<T>, out: array<T>) returns (ok: bool)
      requires Valid() && count <= out.Length
      modifies this, out
      ensures Valid()
      ensures sections == old(sections) && current == old(current)
      ensures old(Remaining()) == [] ==> offset == old(offset)
      ensures old(Remaining()) != [] ==> offset == old(offset) + 1 && Remaining() == old(Remaining())[1..]
      ensures ok <==> old(Remaining()) != [] && |parse(old(Remaining())[0])| == count
      ensures ok ==> out[..count] == parse(old(Remaining())[0]) && out[count..] == old(out[count..])
      ensures !ok ==> out[..] == old(out[..])
    {
      var row := InitCurSection();
      if row.None? {
        return false;
      }
      var v := parse(row.value);
      if |v| != count {
        return false;
      }
      Copy(v, out);
      return true;
    }

    /** `read_ints_inner` */
    method ReadIntsInner(count: int, out: array<int>) returns (ok: bool)
      requires Valid() && count <= out.Length
      modifies this, out
      ensures Valid()
      ensures sections == old(sections) && current == old(current)
      ensures old(Remaining()) == [] ==> offset == old(offset)
      ensures old(Remaining()) != [] ==> offset == old(offset) + 1 && Remaining() == old(Remaining())[1..]
      ensures ok <==> old(Remaining()) != [] && |scanner.ints(old(Remaining())[0])| == count
      ensures ok ==> out[..count] == scanner.ints(old(Remaining())[0]) && out[count..] == old(out[count..])
      ensures !ok ==> out[..] == old(out[..])
    {
      ok := ReadValues(count, scanner.ints, out);
    }

    /** `read_floats_inner` */
    method ReadFloatsInner(count: int, out: array<Float>) returns (ok: bool)
      requires Valid() && count <= out.Length
      modifies this, out
      ensures Valid()
      ensures sections == old(sections) && current == old(current)
      ensures old(Remaining()) == [] ==> offset == old(offset)
      ensures old(Remaining()) != [] ==> offset == old(offset) + 1 && Remaining() == old(Remaining())[1..]
      ensures ok <==> old(Remaining()) != [] && |scanner.floats(old(Remaining())[0])| == count
      ensures ok ==> out[..count] == scanner.floats(old(Remaining())[0]) && out[count..] == old(out[count..])
      ensures !ok ==> out[..] == old(out[..])
    {
      ok := ReadValues(count, scanner.floats, out);
    }

    /** Reads the first line of the next row; fails when no row is left or
        the scanner finds no line in it. */
    method ReadString() returns (r: Option<string>)
      requires Valid()
      modifies this
      ensures Valid()
      ensures sections == old(sections) && current == old(current)
      ensures old(Remaining()) == [] ==> r.None? && offset == old(offset)
      ensures old(Remaining()) != [] ==> offset == old(offset) + 1 && Remaining() == old(Remaining())[1..]
      ensures r.Some? <==> old(Remaining()) != [] && scanner.lineLength(old(Remaining())[0]).Some?
      ensures r.Some? ==> r.value <= old(Remaining())[0] && |r.value| == scanner.lineLength(old(Remaining())[0]).value
    {
      var row := InitCurSection();
      if row.None? {
        return None;
      }
      var len := scanner.lineLength(row.value);
      if len.None? {
        return None;
      }
      return Some(row.value[..len.value]);
    }

    /** `read_int`: a row holding exactly one integer. */
    method ReadInt(out: array<int>) returns (ok: bool)
      requires Valid() && out.Length == 1
      modifies this, out
      ensures Valid()
      ensures sections == old(sections) && current == old(current)
      ensures old(Remaining()) == [] ==> offset == old(offset)
      ensures old(Remaining()) != [] ==> offset == old(offset) + 1 && Remaining() == old(Remaining())[1..]
      ensures ok <==> old(Remaining()) != [] && |scanner.ints(old(Remaining())[0])| == 1
      ensures ok ==> out[..] == scanner.ints(old(Remaining())[0])
      ensures !ok ==> out[..] == old(out[..])
    {
      ok := ReadIntsInner(1, out);
    }

    /** `read_float`: a row holding exactly one float. */
    method ReadFloat(out: array<Float>) returns (ok: bool)
      requires Valid() && out.Length == 1
      modifies this, out
      ensures Valid()
      ensures sections == old(sections) && current == old(current)
      ensures old(Remaining()) == [] ==> offset == old(offset)
      ensures old(Remaining()) != [] ==> offset == old(offset) + 1 && Remaining() == old(Remaining())[1..]
      ensures ok <==> old(Remaining()) != [] && |scanner.floats(old(Remaining())[0])| == 1
      ensures ok ==> out[..] == scanner.floats(old(Remaining())[0])
      ensures !ok ==> out[..] == old(out[..])
    {
      ok := ReadFloatsInner(1, out);
    }

    /** `read_vector3`: a row holding exactly three floats, x, y and z. */
    method ReadVector3(out: array<Float>) returns (ok: bool)
      requires Valid() && out.Length == 3
      modifies this, out
      ensures Valid()
      ensures sections == old(sections) && current == old(current)
      ensures old(Remaining()) == [] ==> offset == old(offset)
      ensures old(Remaining()) != [] ==> offset == old(offset) + 1 && Remaining() == old(Remaining())[1..]
      ensures ok <==> old(Remaining()) != [] && |scanner.floats(old(Remaining())[0])| == 3
      ensures ok ==> out[..] == scanner.floats(old(Remaining())[0])
      ensures !ok ==> out[..] == old(out[..])
    {
      ok := ReadFloatsInner(3, out);
    }

    /** `read_color`: a row holding exactly four floats, r, g, b and a. */
    method ReadColor(out: array<Float>) returns (ok: bool)
      requires Valid() && out.Length == 4
      modifies this, out
      ensures Valid()
      ensures sections == old(sections) && current == old(current)
      ensures old(Remaining()) == [] ==> offset == old(offset)
      ensures old(Remaining()) != [] ==> offset == old(offset) + 1 && Remaining() == old(Remaining())[1..]
      ensures ok <==> old(Remaining()) != [] && |scanner.floats(old(Remaining())[0])| == 4
      ensures ok ==> out[..] == scanner.floats(old(Remaining())[0])
      ensures !ok ==> out[..] == old(out[..])
    {
      ok := ReadFloatsInner(4, out);
    }
  }
}
