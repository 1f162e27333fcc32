/**
 * The parsing half of `FileReader`: the lines of a file, once read, are
 * grouped at blank lines or parsed as numbers. Reading the file itself is
 * I/O and is not part of this model; every operation here takes the lines.
 */
module FileReader {
  import opened Wrappers
  import opened Numeric
  import Text
  import SU = StringUtil

  /** What one line adds to its group: the trimmed line followed by the separator. */
  function Piece(line: string, sep: string): string
  {
    Text.Trim(line) + sep
  }

  /** A group as text: the pieces of its lines, in order. */
  function Joined(group: seq<string>, sep: string): string
    decreases |group|
  {
    if |group| == 0 then "" else Piece(group[0], sep) + Joined(group[1..], sep)
  }

  /** A group that is finished: emitted when its text is not empty. */
  function Emit(curr: string): (r: seq<string>)
    ensures |r| <= 1 && (forall g :: g in r ==> g != "")
    ensures curr != "" ==> r == [curr]
  {
    if curr == "" then [] else [curr]
  }

  /**
   * The loop of `readLineGroups` over the lines still to come, with `curr`
   * the text of the group collected so far: an exactly empty line ends the
   * group, any other line adds its piece.
   */
  function Scan(input: seq<string>, curr: string, sep: string): seq<string>
    decreases |input|
  {
    if |input| == 0 then []
    else if input[0] == "" then Emit(curr) + Scan(input[1..], "", sep)
    else Scan(input[1..], curr + Piece(input[0], sep), sep)
  }

  /**
   * The blocks of lines between exactly empty lines, in order: one more
   * block than there are empty lines, so blocks may be empty.
   */
  function Blocks(lines: seq<string>): (r: seq<seq<string>>)
    ensures |r| >= 1
    decreases |lines|
  {
    if |lines| == 0 then [[]]
    else
      var rest := Blocks(lines[1..]);
      if lines[0] == "" then [[]] + rest
      else [[lines[0]] + rest[0]] + rest[1..]
  }

  /** The texts of the blocks that are not empty, in order. */
  function Texts(blocks: seq<seq<string>>, sep: string): (r: seq<string>)
    ensures |r| <= |blocks|
    ensures forall g :: g in r ==> g != ""
    decreases |blocks|
  {
    if |blocks| == 0 then [] else Emit(Joined(blocks[0], sep)) + Texts(blocks[1..], sep)
  }

  /** The groups of a file: the non-empty texts of its blank-separated blocks. */
  function Groups(lines: seq<string>, sep: string): seq<string>
  {
    Texts(Blocks(lines), sep)
  }

  /**
   * `readLineGroups(sep)`: an empty line is appended so that the last group
   * is emitted too, then the lines are scanned.
   */
  method ReadLineGroups(lines: seq<string>, sep: string) returns (output: seq<string>)
    ensures output == Groups(lines, sep)
    ensures forall g :: g in output ==> g != ""
  {
    var input := lines + [""];
    output := [];
    var curr := "";
    var i := 0;
    while i < |input|
      invariant 0 <= i <= |input|
      invariant output + Scan(input[i..], curr, sep) == Scan(input, "", sep)
    {
      var s := input[i];
      assert input[i..][1..] == input[i + 1..];
      if s == "" {
        output := output + Emit(curr);
        curr := "";
      } else {
        curr := curr + Piece(s, sep);
      }
      i := i + 1;
    }
    assert input[|input|..] == [];
    ScanGroups(lines, sep);
  }

  /** Scanning the lines with the extra empty line gives exactly the groups. */
  lemma ScanGroups(lines: seq<string>, sep: string)
    ensures Scan(lines + [""], "", sep) == Groups(lines, sep)
  {
    ScanBlocks(lines, "", sep);
    var b := Blocks(lines);
    assert "" + Joined(b[0], sep) == Joined(b[0], sep);
    assert Texts(b, sep) == Emit(Joined(b[0], sep)) + Texts(b[1..], sep);
  }

  /**
   * From any point of the loop, what is emitted is the current group
   * finished with the rest of its block, then the texts of the later blocks.
   */
  lemma {:induction false} ScanBlocks(lines: seq<string>, curr: string, sep: string)
    ensures Scan(lines + [""], curr, sep)
         == Emit(curr + Joined(Blocks(lines)[0], sep)) + Texts(Blocks(lines)[1..], sep)
    decreases |lines|
  {
    var input := lines + [""];
    if |lines| == 0 {
      assert input == [""];
      assert curr + Joined([], sep) == curr;
    } else {
      assert input[1..] == lines[1..] + [""];
      var rest := Blocks(lines[1..]);
      if lines[0] == "" {
        ScanBlocks(lines[1..], "", sep);
        assert "" + Joined(rest[0], sep) == Joined(rest[0], sep);
        assert curr + Joined(Blocks(lines)[0], sep) == curr;
        assert Blocks(lines)[1..] == rest;
        assert Texts(rest, sep) == Emit(Joined(rest[0], sep)) + Texts(rest[1..], sep);
      } else {
        ScanBlocks(lines[1..], curr + Piece(lines[0], sep), sep);
        var first := [lines[0]] + rest[0];
        assert Blocks(lines)[0] == first && Blocks(lines)[1..] == rest[1..];
        assert first[1..] == rest[0];
        assert curr + Piece(lines[0], sep) + Joined(rest[0], sep) == curr + Joined(first, sep);
      }
    }
  }

  /** The texts of two runs of blocks are the texts of each, one after the other. */
  lemma {:induction false} TextsAppend(a: seq<seq<string>>, b: seq<seq<string>>, sep: string)
    ensures Texts(a + b, sep) == Texts(a, sep) + Texts(b, sep)
    decreases |a|
  {
    if |a| > 0 {
      assert (a + b)[1..] == a[1..] + b;
      TextsAppend(a[1..], b, sep);
    } else {
      assert a + b == b;
    }
  }

  /** An empty line splits the blocks: those before it, then those after it. */
  lemma {:induction false} BlocksSplit(a: seq<string>, b: seq<string>)
    ensures Blocks(a + [""] + b) == Blocks(a) + Blocks(b)
    decreases |a|
  {
    var s := a + [""] + b;
    if |a| == 0 {
      assert s == [""] + b && s[1..] == b;
    } else {
      assert s[1..] == a[1..] + [""] + b;
      BlocksSplit(a[1..], b);
    }
  }

  /**
   * An exactly empty line separates groups: the groups of the lines around
   * it are those before it followed by those after it.
   */
  lemma BlankLineSeparates(a: seq<string>, b: seq<string>, sep: string)
    ensures Groups(a + [""] + b, sep) == Groups(a, sep) + Groups(b, sep)
  {
    BlocksSplit(a, b);
    TextsAppend(Blocks(a), Blocks(b), sep);
  }

  /** The lines without any line give no group. */
  lemma NoLinesNoGroups(sep: string)
    ensures Groups([], sep) == []
  {
    assert Blocks([]) == [[]];
    assert Texts([[]], sep) == Emit(Joined([], sep)) + Texts([], sep);
  }

  /** A trailing blank line adds no group. */
  lemma TrailingBlank(a: seq<string>, sep: string)
    ensures Groups(a + [""], sep) == Groups(a, sep)
  {
    BlankLineSeparates(a, [], sep);
    NoLinesNoGroups(sep);
    assert a + [""] + [] == a + [""];
  }

  /** A leading blank line adds no group. */
  lemma LeadingBlank(b: seq<string>, sep: string)
    ensures Groups([""] + b, sep) == Groups(b, sep)
  {
    BlankLineSeparates([], b, sep);
    NoLinesNoGroups(sep);
    assert [] + [""] + b == [""] + b;
  }

  /** Consecutive blank lines act as one: no empty group comes between them. */
  lemma DoubleBlank(a: seq<string>, b: seq<string>, sep: string)
    ensures Groups(a + [""] + [""] + b, sep) == Groups(a + [""] + b, sep)
  {
    var x := a + [""];
    assert a + [""] + [""] + b == x + [""] + b;
    BlankLineSeparates(x, b, sep);
    TrailingBlank(a, sep);
    BlankLineSeparates(a, b, sep);
  }

  /** A block without empty lines is a single block. */
  lemma {:induction false} BlocksOfGroup(lines: seq<string>)
    requires forall i :: 0 <= i < |lines| ==> lines[i] != ""
    ensures Blocks(lines) == [lines]
    decreases |lines|
  {
    if |lines| > 0 {
      BlocksOfGroup(lines[1..]);
      assert [lines[0]] + lines[1..] == lines;
    }
  }

  /**
   * A file whose last group has no blank line after it still yields that
   * group: lines without an empty one form one group, unless its text is
   * empty.
   */
  lemma LastGroupEmitted(lines: seq<string>, sep: string)
    requires forall i :: 0 <= i < |lines| ==> lines[i] != ""
    ensures Joined(lines, sep) != "" ==> Groups(lines, sep) == [Joined(lines, sep)]
    ensures Joined(lines, sep) == "" ==> Groups(lines, sep) == []
  {
    BlocksOfGroup(lines);
    assert Texts([lines], sep) == Emit(Joined(lines, sep)) + Texts([], sep);
  }

  /**
   * A line of blanks only is not empty, so it separates nothing: it stays in
   * its group and adds just the separator.
   */
  lemma WhitespaceLineAddsSeparator(line: string, sep: string)
    requires |line| > 0 && forall i :: 0 <= i < |line| ==> Text.IsTrimmed(line[i])
    ensures Piece(line, sep) == sep
    ensures Blocks([line]) == [[line]]
    ensures sep != "" ==> Groups([line], sep) == [sep]
  {
    assert Text.Trim(line) == "";
    BlocksOfGroup([line]);
    assert Joined([line], sep) == sep + "";
    assert sep + "" == sep;
    assert Texts([[line]], sep) == Emit(Joined([line], sep)) + Texts([], sep);
  }

  /** The comma-separated fields of all lines, in order, as `String.split(",")` gives them. */
  function AllFields(lines: seq<string>): seq<string>
    decreases |lines|
  {
    if |lines| == 0 then [] else Text.Split(lines[0], ',') + AllFields(lines[1..])
  }

  /** Every field is a decimal number in [lo, hi]. */
  predicate AllParse(fields: seq<string>, lo: int, hi: int)
  {
    forall i :: 0 <= i < |fields| ==> Text.ParseInt(fields[i], lo, hi).Ok?
  }

  /** The parse fails exactly when some field is not a number in range. */
  lemma {:induction false} ParseAllOk(fields: seq<string>, lo: int, hi: int)
    ensures SU.ParseAll(fields, lo, hi).Ok? <==> AllParse(fields, lo, hi)
    decreases |fields|
  {
    if |fields| > 0 {
      ParseAllOk(fields[1..], lo, hi);
      if AllParse(fields, lo, hi) {
        assert AllParse(fields[1..], lo, hi) by {
          forall i | 0 <= i < |fields| - 1
            ensures Text.ParseInt(fields[1..][i], lo, hi).Ok?
          {
            assert fields[1..][i] == fields[i + 1];
          }
        }
      }
      if SU.ParseAll(fields, lo, hi).Ok? {
        forall i | 0 <= i < |fields|
          ensures Text.ParseInt(fields[i], lo, hi).Ok?
        {
        }
      }
    }
  }

  /** Each field parses to the value at its position. */
  ghost predicate Parsed(fields: seq<string>, values: seq<int>, lo: int, hi: int)
  {
    |fields| == |values| && forall k :: 0 <= k < |fields| ==> Text.ParseInt(fields[k], lo, hi) == Ok(values[k])
  }

  /** Parsed runs of fields put together are parsed. */
  lemma ParsedAppend(f1: seq<string>, v1: seq<int>, f2: seq<string>, v2: seq<int>, lo: int, hi: int)
    requires Parsed(f1, v1, lo, hi) && Parsed(f2, v2, lo, hi)
    ensures Parsed(f1 + f2, v1 + v2, lo, hi)
  {
    forall k | 0 <= k < |f1| + |f2|
      ensures Text.ParseInt((f1 + f2)[k], lo, hi) == Ok((v1 + v2)[k])
    {
      if k < |f1| {
        assert (f1 + f2)[k] == f1[k] && (v1 + v2)[k] == v1[k];
      } else {
        assert (f1 + f2)[k] == f2[k - |f1|] && (v1 + v2)[k] == v2[k - |f1|];
      }
    }
  }

  /** The parsed values of a run of fields are determined by the fields. */
  lemma ParsedUnique(fields: seq<string>, v1: seq<int>, v2: seq<int>, lo: int, hi: int)
    requires Parsed(fields, v1, lo, hi) && Parsed(fields, v2, lo, hi)
    ensures v1 == v2
  {
    assert forall k :: 0 <= k < |v1| ==> Ok(v1[k]) == Text.ParseInt(fields[k], lo, hi);
  }

  /** The fields of two runs of lines are the fields of each, one after the other. */
  lemma {:induction false} AllFieldsAppend(x: seq<string>, y: seq<string>)
    ensures AllFields(x + y) == AllFields(x) + AllFields(y)
    decreases |x|
  {
    if |x| == 0 {
      assert x + y == y;
    } else {
      assert (x + y)[0] == x[0] && (x + y)[1..] == x[1..] + y;
      AllFieldsAppend(x[1..], y);
    }
  }

  lemma AllFieldsOne(line: string)
    ensures AllFields([line]) == Text.Split(line, ',')
  {
    assert [line][1..] == [];
  }

  /** A field that does not parse spoils any run of fields it is part of. */
  lemma BadFieldSpoils(a: seq<string>, b: seq<string>)
    requires !AllParse(b, IntMin, IntMax)
    ensures !AllParse(a + b, IntMin, IntMax)
  {
    var i :| 0 <= i < |b| && !Text.ParseInt(b[i], IntMin, IntMax).Ok?;
    assert (a + b)[|a| + i] == b[i];
  }

  /**
   * `readIntArray()`: every comma-separated field of every line parsed as
   * an `int`, in order; the first field that is not one throws
   * NumberFormatException.
   */
  method ReadIntArray(lines: seq<string>) returns (r: Result<seq<int>>)
    ensures r.Ok? <==> AllParse(AllFields(lines), IntMin, IntMax)
    ensures r.Err? ==> r.error == NumberFormat
    ensures r.Ok? ==> Parsed(AllFields(lines), r.value, IntMin, IntMax)
  {
    var values: seq<int> := [];
    var i := 0;
    while i < |lines|
      invariant 0 <= i <= |lines|
      invariant Parsed(AllFields(lines[..i]), values, IntMin, IntMax)
    {
      var fields := Text.Split(lines[i], ',');
      var parsed := SU.ParseAll(fields, IntMin, IntMax);
      if parsed.Err? {
        ParseAllOk(fields, IntMin, IntMax);
        FieldsFail(lines, i);
        return Err(NumberFormat);
      }
      ParsedAppend(AllFields(lines[..i]), values, fields, parsed.value, IntMin, IntMax);
      AllFieldsAppend(lines[..i], [lines[i]]);
      AllFieldsOne(lines[i]);
      assert lines[..i + 1] == lines[..i] + [lines[i]];
      values := values + parsed.value;
      i := i + 1;
    }
    assert lines[..i] == lines;
    r := Ok(values);
  }

  /** When the fields of line i do not all parse, neither do the fields of the file. */
  lemma FieldsFail(lines: seq<string>, i: int)
    requires 0 <= i < |lines| && !AllParse(Text.Split(lines[i], ','), IntMin, IntMax)
    ensures !AllParse(AllFields(lines), IntMin, IntMax)
  {
    AllFieldsSplit(lines, i);
    BadFieldSpoils(AllFields(lines[..i]), Text.Split(lines[i], ','));
    var pre := AllFields(lines[..i]) + Text.Split(lines[i], ',');
    var j :| 0 <= j < |pre| && !Text.ParseInt(pre[j], IntMin, IntMax).Ok?;
    assert AllFields(lines)[j] == pre[j];
  }

  /** The fields of the file start with those of its first i + 1 lines. */
  lemma {:induction false} AllFieldsSplit(lines: seq<string>, i: int)
    requires 0 <= i < |lines|
    ensures AllFields(lines) == AllFields(lines[..i]) + Text.Split(lines[i], ',') + AllFields(lines[i + 1..])
  {
    var p, m, q := lines[..i], [lines[i]], lines[i + 1..];
    assert lines == p + m + q;
    AllFieldsAppend(p + m, q);
    AllFieldsAppend(p, m);
    AllFieldsOne(lines[i]);
    assert AllFields(p + m) == AllFields(p) + Text.Split(lines[i], ',');
  }

  /**
   * Lines each printed by `StringUtil.fromArray` from a non-empty array of
   * ints read back as all those ints, in order.
   */
  lemma {:induction false} ReadPrintedArrays(rows: seq<seq<int>>)
    requires forall k :: 0 <= k < |rows| ==> |rows[k]| > 0
    requires forall k, j :: 0 <= k < |rows| && 0 <= j < |rows[k]| ==> IntMin <= rows[k][j] <= IntMax
    ensures Parsed(AllFields(PrintedRows(rows)), Flatten(rows), IntMin, IntMax)
    decreases |rows|
  {
    if |rows| == 0 {
      assert PrintedRows(rows) == [];
    } else {
      var line := PrintedRows(rows)[0];
      SU.PrintedFieldsClean(rows[0]);
      Text.SplitOfJoin(SU.Printed(rows[0]), ',');
      SU.ParseAllPrinted(rows[0], IntMin, IntMax);
      assert Text.Split(line, ',') == SU.Printed(rows[0]);
      assert PrintedRows(rows)[1..] == PrintedRows(rows[1..]);
      ReadPrintedArrays(rows[1..]);
      ParsedAppend(Text.Split(line, ','), rows[0], AllFields(PrintedRows(rows[1..])), Flatten(rows[1..]), IntMin, IntMax);
    }
  }

  function PrintedRows(rows: seq<seq<int>>): (r: seq<string>)
    ensures |r| == |rows| && forall k :: 0 <= k < |rows| ==> r[k] == SU.FromArray(rows[k])
    decreases |rows|
  {
    if |rows| == 0 then [] else [SU.FromArray(rows[0])] + PrintedRows(rows[1..])
  }

  function Flatten(rows: seq<seq<int>>): seq<int>
    decreases |rows|
  {
    if |rows| == 0 then [] else rows[0] + Flatten(rows[1..])
  }

  /** `readLongArray()`: each whole line parsed as a `long`. */
  function ReadLongArray(lines: seq<string>): (r: Result<seq<int>>)
    ensures r.Ok? <==> AllParse(lines, LongMin, LongMax)
    ensures r.Err? ==> r.error == NumberFormat
    ensures r.Ok? ==> |r.value| == |lines|
    ensures r.Ok? ==> forall i :: 0 <= i < |lines| ==> Text.ParseInt(lines[i], LongMin, LongMax) == Ok(r.value[i])
  {
    ParseAllOk(lines, LongMin, LongMax);
    SU.ParseAll(lines, LongMin, LongMax)
  }
}
