/**
 * Decoding the cached text into `(id, number)` records: `split_generator`
 * reads lines until the first empty read and splits each stripped line on
 * runs of whitespace; `id_number_tuple_generator` unpacks exactly two tokens
 * and converts the second with `int()`.
 */
module RecordStream {
  import opened Wrappers
  import opened Text

  datatype Record = Record(id: string, number: int)

  /** The exceptions decoding raises: a bad tuple unpacking, or `int()` refusing a token. */
  datatype ParseError = UnpackError(tokenCount: nat) | IntError(token: string)

  /** An open file read through a cursor, as `file.readline()` sees it. */
  class TextFile {
    const content: string
    var pos: nat

    ghost predicate Valid()
      reads this
    {
      pos <= |content|
    }

    /** What is left to read. */
    function Remaining(): string
      reads this
      requires Valid()
    {
      content[pos..]
    }

    constructor (content: string)
      ensures Valid() && this.content == content && Remaining() == content
    {
      this.content := content;
      pos := 0;
    }

    /** `readline()`: the next line, or `""` once the end is reached. */
    method ReadLine() returns (line: string)
      requires Valid()
      modifies this
      ensures Valid()
      ensures old(Remaining()) == line + Remaining()
      ensures line == "" <==> old(Remaining()) == ""
      ensures Lines(old(Remaining())) == if line == "" then [] else [line] + Lines(Remaining())
    {
      var rest := content[pos..];
      line := rest[..LineEnd(rest)];
      pos := pos + |line|;
      assert rest == line + content[pos..];
    }
  }

  /** The tokens one line yields: `re.split('\\s+', line.strip())`. */
  function SplitLine(line: string): (tokens: seq<string>)
    ensures |tokens| >= 1
  {
    Fields(Strip(line))
  }

  /** The token lists of the lines, in order. */
  function Rows(lines: seq<string>): (rows: seq<seq<string>>)
    ensures |rows| == |lines|
  {
    if lines == [] then [] else [SplitLine(lines[0])] + Rows(lines[1..])
  }

  /**
   * `split_generator`: reads the file to its end and yields the tokens of
   * every line, one list per line, in file order.
   */
  method SplitGenerator(file: TextFile) returns (rows: seq<seq<string>>)
    requires file.Valid()
    modifies file
    ensures file.Valid() && file.Remaining() == ""
    ensures rows == Rows(Lines(old(file.Remaining())))
  {
    ghost var input := file.Remaining();
    rows := [];
    while true
      invariant file.Valid()
      invariant Rows(Lines(input)) == rows + Rows(Lines(file.Remaining()))
      decreases |file.Remaining()|
    {
      ghost var before := file.Remaining();
      var nextLine := file.ReadLine();
      ghost var after := file.Remaining();
      if nextLine == "" {
        assert Lines(before) == [];
        RowsDone(Rows(Lines(input)), rows, Lines(before));
        break;
      }
      RowsStep(Rows(Lines(input)), rows, Lines(before), nextLine, Lines(after));
      rows := rows + [SplitLine(nextLine)];
    }
  }

  lemma RowsDone(total: seq<seq<string>>, rows: seq<seq<string>>, lines: seq<string>)
    requires total == rows + Rows(lines) && lines == []
    ensures total == rows
  {
    assert rows + [] == rows;
  }

  lemma RowsStep(total: seq<seq<string>>, rows: seq<seq<string>>, lines: seq<string>,
                 line: string, rest: seq<string>)
    requires total == rows + Rows(lines) && lines == [line] + rest
    ensures total == (rows + [SplitLine(line)]) + Rows(rest)
  {
    RowsCons(line, rest);
  }

  lemma RowsCons(line: string, lines: seq<string>)
    ensures Rows([line] + lines) == [SplitLine(line)] + Rows(lines)
  {
    assert ([line] + lines)[1..] == lines;
  }

  /** The tuple `id_number_tuple_generator` yields for one token list. */
  function ToRecord(tokens: seq<string>): (r: Result<Record, ParseError>)
    ensures r.Ok? <==> |tokens| == 2 && ParseInt(tokens[1]).Some?
    ensures r.Ok? ==> r.value.id == tokens[0] && ParseInt(tokens[1]) == Some(r.value.number)
    ensures |tokens| != 2 ==> r == Err(UnpackError(|tokens|))
    ensures |tokens| == 2 && ParseInt(tokens[1]).None? ==> r == Err(IntError(tokens[1]))
  {
    if |tokens| != 2 then Err(UnpackError(|tokens|))
    else match ParseInt(tokens[1])
      case None => Err(IntError(tokens[1]))
      case Some(v) => Ok(Record(tokens[0], v))
  }

  /**
   * `id_number_tuple_generator` drained: one record per row in order, or the
   * error of the first row that fails (nothing after it is looked at).
   */
  function DecodeRecords(rows: seq<seq<string>>): (r: Result<seq<Record>, ParseError>)
    ensures r.Ok? ==> |r.value| == |rows|
    ensures rows != [] && ToRecord(rows[0]).Err? ==> r == Err(ToRecord(rows[0]).error)
  {
    if rows == [] then Ok([])
    else match ToRecord(rows[0])
      case Err(e) => Err(e)
      case Ok(x) =>
        match DecodeRecords(rows[1..])
        case Err(e) => Err(e)
        case Ok(xs) => Ok([x] + xs)
  }

  /**
   * Decoding succeeds exactly when every row is a record, and then yields
   * them all in order; otherwise it fails with the error of the first bad row.
   */
  lemma {:induction false} DecodeRecordsSpec(rows: seq<seq<string>>)
    ensures var r := DecodeRecords(rows);
      && (r.Ok? <==> forall i :: 0 <= i < |rows| ==> ToRecord(rows[i]).Ok?)
      && (r.Ok? ==> |r.value| == |rows| && forall i :: 0 <= i < |rows| ==> ToRecord(rows[i]) == Ok(r.value[i]))
      && (r.Err? ==> exists i :: 0 <= i < |rows| && ToRecord(rows[i]) == Err(r.error)
                        && forall j :: 0 <= j < i ==> ToRecord(rows[j]).Ok?)
    decreases |rows|
  {
    if rows != [] {
      DecodeRecordsSpec(rows[1..]);
      var r := DecodeRecords(rows);
      var tail := DecodeRecords(rows[1..]);
      if ToRecord(rows[0]).Ok? {
        forall i | 1 <= i < |rows| ensures ToRecord(rows[i]) == ToRecord(rows[1..][i - 1]) {}
        if tail.Err? {
          var i :| 0 <= i < |rows[1..]| && ToRecord(rows[1..][i]) == Err(tail.error)
            && forall j :: 0 <= j < i ==> ToRecord(rows[1..][j]).Ok?;
          assert ToRecord(rows[i + 1]) == Err(r.error);
        }
      } else {
        assert ToRecord(rows[0]) == Err(r.error);
      }
    }
  }

  /** The whole decoding of a file's text. */
  function DecodeFile(content: string): (r: Result<seq<Record>, ParseError>)
    ensures r.Ok? ==> |r.value| == |Lines(content)|
  {
    DecodeRecords(Rows(Lines(content)))
  }

  /** One line of a well-formed file: the id, a space, the number, a newline. */
  function EncodeLine(x: Record): string {
    x.id + " " + IntToString(x.number) + "\n"
  }

  /** A file whose lines are the given records. */
  function Encode(xs: seq<Record>): string {
    Concat(EncodeLines(xs))
  }

  function EncodeLines(xs: seq<Record>): (ls: seq<string>)
    ensures |ls| == |xs| && forall i :: 0 <= i < |xs| ==> ls[i] == EncodeLine(xs[i])
  {
    if xs == [] then [] else [EncodeLine(xs[0])] + EncodeLines(xs[1..])
  }

  /** An id `split` can give back: non-empty and free of whitespace. */
  predicate IsToken(id: string) {
    id != [] && NoSpace(id)
  }

  lemma DecodeEncodeLine(x: Record)
    requires IsToken(x.id)
    ensures IsLine(EncodeLine(x)) && EncodeLine(x)[|EncodeLine(x)| - 1] == '\n'
    ensures ToRecord(SplitLine(EncodeLine(x))) == Ok(x)
  {
    var num := IntToString(x.number);
    assert EncodeLine(x) == x.id + " " + num + "\n";
    TwoTokenLine(x.id, num);
    ParseIntOfIntToString(x.number);
  }

  /** Two tokens, a space between them and a newline after them, make one line that splits back into them. */
  lemma TwoTokenLine(a: string, b: string)
    requires IsToken(a) && IsToken(b)
    ensures IsLine(a + " " + b + "\n") && (a + " " + b + "\n")[|a + " " + b + "\n"| - 1] == '\n'
    ensures SplitLine(a + " " + b + "\n") == [a, b]
  {
    var body := a + " " + b;
    var line := body + "\n";
    assert IsLine(line) by {
      forall k | 0 <= k < |line| - 1 ensures line[k] != '\n' {
        assert IsSpace('\n');
        if k < |a| {
          assert line[k] == a[k];
        } else if k > |a| {
          assert line[k] == b[k - |a| - 1];
        }
      }
    }
    assert body[0] == a[0] && body[|body| - 1] == b[|b| - 1];
    assert line == [] + body + "\n";
    assert AllSpace("\n");
    StripUnique([], body, "\n");
    assert Join([a, b]) == body by {
      assert [a, b][1..] == [b];
    }
    FieldsOfJoin([a, b]);
  }

  lemma {:induction false} DecodeRecordsOfEncoded(xs: seq<Record>)
    requires forall i :: 0 <= i < |xs| ==> IsToken(xs[i].id)
    ensures DecodeRecords(Rows(EncodeLines(xs))) == Ok(xs)
    decreases |xs|
  {
    if xs != [] {
      var rows := Rows(EncodeLines(xs));
      var first := EncodeLine(xs[0]);
      DecodeEncodeLine(xs[0]);
      assert EncodeLines(xs) == [first] + EncodeLines(xs[1..]);
      RowsCons(first, EncodeLines(xs[1..]));
      assert rows[0] == SplitLine(first);
      assert rows[1..] == Rows(EncodeLines(xs[1..]));
      DecodeRecordsOfEncoded(xs[1..]);
      assert DecodeRecords(rows) == Ok([xs[0]] + xs[1..]);
      assert xs == [xs[0]] + xs[1..];
    }
  }

  /** Decoding reads back every record of a file written one record per line. */
  lemma DecodeFileOfEncode(xs: seq<Record>)
    requires forall i :: 0 <= i < |xs| ==> IsToken(xs[i].id)
    ensures DecodeFile(Encode(xs)) == Ok(xs)
  {
    var ls := EncodeLines(xs);
    forall i | 0 <= i < |xs| ensures IsLine(ls[i]) && ls[i][|ls[i]| - 1] == '\n' {
      DecodeEncodeLine(xs[i]);
    }
    LinesOfConcat(ls);
    DecodeRecordsOfEncoded(xs);
  }

  /** A last line without its newline is still read, and decoded like the others. */
  lemma FinalLineWithoutNewline(xs: seq<Record>, x: Record)
    requires forall i :: 0 <= i < |xs| ==> IsToken(xs[i].id)
    requires IsToken(x.id)
    ensures DecodeFile(Encode(xs) + x.id + " " + IntToString(x.number)) == Ok(xs + [x])
  {
    var last := x.id + " " + IntToString(x.number);
    var ls := EncodeLines(xs) + [last];
    AppendedLineText(Encode(xs), EncodeLines(xs), x.id, IntToString(x.number));
    DecodeEncodedThenUnterminated(xs, x, ls);
  }

  lemma AppendedLineText(text: string, ls: seq<string>, id: string, num: string)
    requires text == Concat(ls)
    ensures text + id + " " + num == Concat(ls + [id + " " + num])
  {
    ConcatSnoc(ls, id + " " + num);
  }

  lemma DecodeEncodedThenUnterminated(xs: seq<Record>, x: Record, ls: seq<string>)
    requires forall i :: 0 <= i < |xs| ==> IsToken(xs[i].id)
    requires IsToken(x.id)
    requires ls == EncodeLines(xs) + [x.id + " " + IntToString(x.number)]
    ensures DecodeFile(Concat(ls)) == Ok(xs + [x])
  {
    EncodedThenUnterminated(xs, x, ls);
    DecodeWellSplit(ls, xs + [x]);
  }

  /** Each encoded line, and then the unterminated last one, is a line that decodes to its record. */
  lemma EncodedThenUnterminated(xs: seq<Record>, x: Record, ls: seq<string>)
    requires forall i :: 0 <= i < |xs| ==> IsToken(xs[i].id)
    requires IsToken(x.id)
    requires ls == EncodeLines(xs) + [x.id + " " + IntToString(x.number)]
    ensures |ls| == |xs + [x]|
    ensures forall i :: 0 <= i < |ls| ==> IsLine(ls[i]) && (i < |ls| - 1 ==> ls[i][|ls[i]| - 1] == '\n')
    ensures forall i :: 0 <= i < |ls| ==> ToRecord(SplitLine(ls[i])) == Ok((xs + [x])[i])
  {
    var ys := xs + [x];
    forall i | 0 <= i < |ls|
      ensures IsLine(ls[i]) && (i < |ls| - 1 ==> ls[i][|ls[i]| - 1] == '\n')
      ensures ToRecord(SplitLine(ls[i])) == Ok(ys[i])
    {
      if i < |xs| {
        assert ls[i] == EncodeLine(xs[i]) && ys[i] == xs[i];
        DecodeEncodeLine(xs[i]);
      } else {
        assert ls[i] == x.id + " " + IntToString(x.number) && ys[i] == x;
        UnterminatedLineDecodes(x);
      }
    }
  }

  /** A text cut into lines that each decode to a record decodes to those records in order. */
  lemma DecodeWellSplit(ls: seq<string>, ys: seq<Record>)
    requires |ls| == |ys|
    requires forall i :: 0 <= i < |ls| ==> IsLine(ls[i]) && (i < |ls| - 1 ==> ls[i][|ls[i]| - 1] == '\n')
    requires forall i :: 0 <= i < |ls| ==> ToRecord(SplitLine(ls[i])) == Ok(ys[i])
    ensures DecodeFile(Concat(ls)) == Ok(ys)
  {
    assert WellSplit(ls);
    LinesOfConcat(ls);
    RowsAt(ls);
    DecodeRowsOfRecords(Rows(ls), ys);
  }

  /** The id, a space and the number, with no newline after them, form one line that decodes back. */
  lemma UnterminatedLineDecodes(x: Record)
    requires IsToken(x.id)
    ensures IsLine(x.id + " " + IntToString(x.number))
    ensures ToRecord(SplitLine(x.id + " " + IntToString(x.number))) == Ok(x)
  {
    var num := IntToString(x.number);
    var last := x.id + " " + num;
    assert IsLine(last) by {
      forall k | 0 <= k < |last| ensures last[k] != '\n' {
        assert IsSpace('\n');
        if k < |x.id| {
          assert last[k] == x.id[k];
        } else if k > |x.id| {
          assert last[k] == num[k - |x.id| - 1];
        }
      }
    }
    assert last[0] == x.id[0] && last[|last| - 1] == num[|num| - 1];
    assert last == [] + last + [];
    StripUnique([], last, []);
    FieldsOfTwo(x.id, " ", num);
    ParseIntOfIntToString(x.number);
  }

  /** Row `i` is the split of line `i`. */
  lemma {:induction false} RowsAt(lines: seq<string>)
    ensures |Rows(lines)| == |lines|
    ensures forall i :: 0 <= i < |lines| ==> Rows(lines)[i] == SplitLine(lines[i])
    decreases |lines|
  {
    if lines != [] {
      RowsAt(lines[1..]);
    }
  }

  /** Rows that each decode to a record decode, together, to those records in order. */
  lemma DecodeRowsOfRecords(rows: seq<seq<string>>, ys: seq<Record>)
    requires |rows| == |ys|
    requires forall i :: 0 <= i < |rows| ==> ToRecord(rows[i]) == Ok(ys[i])
    ensures DecodeRecords(rows) == Ok(ys)
  {
    DecodeRecordsSpec(rows);
    var r := DecodeRecords(rows);
    assert r.Ok?;
    assert r.value == ys;
  }

  /** A blank line strips to `""`, which splits into one token and cannot unpack. */
  lemma BlankLineFails()
    ensures ToRecord(SplitLine("\n")) == Err(UnpackError(1))
  {
    assert AllSpace("\n");
    assert "\n" == [] + [] + "\n";
    StripUnique([], [], "\n");
  }

  /** A line with three tokens cannot unpack into two names. */
  lemma ThreeTokensFail()
    ensures ToRecord(SplitLine("a 1 2\n")) == Err(UnpackError(3))
  {
    var body := Join(["a", "1", "2"]);
    assert body == "a 1 2";
    assert AllSpace("\n");
    assert "a 1 2\n" == [] + body + "\n";
    StripUnique([], body, "\n");
    FieldsOfJoin(["a", "1", "2"]);
  }

  /** A second token that is not a number is refused by `int()`. */
  lemma NonNumberFails()
    ensures ToRecord(SplitLine("a x\n")) == Err(IntError("x"))
  {
    assert "a x\n" == "a" + " " + "x" + "\n";
    TwoTokenLine("a", "x");
  }

  /** Surrounding whitespace is stripped, a tab separates, and a signed number is read. */
  lemma SignedNumberParses()
    ensures ToRecord(SplitLine("  a\t-3 \n")) == Ok(Record("a", -3))
  {
    assert "  a\t-3 \n" == "  " + ("a" + "\t" + "-3") + " \n";
    SpacedTwoTokens("  ", "a", "\t", "-3", " \n");
    assert "-3" == "-" + "3";
    ParseNegative("3");
    assert DigitsValue("3") == 3 by {
      assert "3"[..0] == [];
    }
  }

  /** A line holding two tokens, whitespace around and between them, splits into those two. */
  lemma SpacedTwoTokens(pre: string, a: string, sep: string, b: string, suf: string)
    requires AllSpace(pre) && AllSpace(suf) && sep != [] && AllSpace(sep)
    requires IsToken(a) && IsToken(b)
    ensures SplitLine(pre + (a + sep + b) + suf) == [a, b]
  {
    var m := a + sep + b;
    assert m[0] == a[0] && m[|m| - 1] == b[|b| - 1];
    StripUnique(pre, m, suf);
    FieldsOfTwo(a, sep, b);
  }
}
