/** Which lines and which files the text database reads, and as what. */
module TxtLines {
  import opened Inverses
  import opened TxtDb

  // ---------------------------------------------------------------- one line

  lemma {:induction false} EscapeAppend(a: string, b: string)
    ensures Escape(a + b) == Escape(a) + Escape(b)
  {
    if a == "" {
      assert a + b == b;
    } else {
      assert (a + b)[1..] == a[1..] + b && (a + b)[0] == a[0];
      EscapeAppend(a[1..], b);
      EscapeHead(a + b);
      EscapeHead(a);
      hide Escape;
      Associates(if a[0] == '\t' then "\\\t" else [a[0]], Escape(a[1..]), Escape(b));
    }
  }

  lemma EscapeHead(f: string)
    requires f != ""
    ensures Escape(f) == (if f[0] == '\t' then "\\\t" else [f[0]]) + Escape(f[1..])
  {}

  lemma EscapeChar(c: char)
    ensures Escape([c]) == if c == '\t' then "\\\t" else [c]
  {
    assert [c][1..] == "";
    EscapeHead([c]);
  }

  /** The line of a row, or the same with one tab more after a last field that does not
      end in a backslash. */
  predicate LineOf(line: string, row: Fields)
    requires |row| > 0
  {
    line == Format(row) || (line == Format(row) + "\t" && !EndsInBackslash(row[|row| - 1]))
  }

  lemma LineOfNext(head: string, line: string, row: Fields)
    requires |row| > 1 && head == Escape(row[0]) && LineOf(line, row[1..])
    ensures LineOf(head + "\t" + line, row)
  {
    hide Escape;
    assert Format(row) == head + "\t" + Format(row[1..]);
    if line == Format(row[1..]) + "\t" {
      Associates(head + "\t", Format(row[1..]), "\t");
    }
  }

  lemma LineOfOne(line: string, field: string)
    requires line == Escape(field) || (line == Escape(field) + "\t" && !EndsInBackslash(field))
    ensures LineOf(line, [field])
  {}

  /** One turn of the scan. */
  lemma ScanStep(line: string, done: Fields, field: string, esc: bool, num: nat)
    requires line != "" && (esc ==> field != "")
    ensures Scan(line, done, field, esc, num) ==
            if line[0] == '\t' && esc then Scan(line[1..], done, field[..|field| - 1] + "\t", false, num)
            else if line[0] != '\t' then Scan(line[1..], done, field + [line[0]], line[0] == '\\', num)
            else if |done| + 1 < num then Scan(line[1..], done + [field], "", false, num)
            else if |done| + 1 == num && line[1..] == "" then Some(done + [field])
            else None
  {}

  lemma ScanEnd(done: Fields, field: string, esc: bool, num: nat)
    requires esc ==> field != ""
    ensures Scan("", done, field, esc, num) == if |done| + 1 == num then Some(done + [field]) else None
  {}

  /** What has been scanned into the open field and what is left make up the line of
      the fields from the open one on. */
  ghost predicate Scanned(line: string, done: Fields, field: string, num: nat, r: Fields) {
    |r| == num > |done| && done <= r && LineOf(Escape(field) + line, r[|done|..])
  }

  lemma {:induction false} ScannedLine(line: string, done: Fields, field: string, esc: bool, num: nat)
    requires esc == EndsInBackslash(field) && Scan(line, done, field, esc, num).Some?
    ensures Scanned(line, done, field, num, Scan(line, done, field, esc, num).value)
    decreases |line|
  {
    hide Scan, Scanned;
    var r := Scan(line, done, field, esc, num).value;
    if line == "" {
      ScanEnd(done, field, esc, num);
      ScannedLast("", done, field, num);
    } else {
      ScanStep(line, done, field, esc, num);
      var rest := line[1..];
      assert line == [line[0]] + rest;
      if line[0] == '\t' && esc {
        var open := field[..|field| - 1];
        ScannedLine(rest, done, open + "\t", false, num);
        ScannedTab(open, rest, done, num, r);
        assert open + "\\" == field;
      } else if line[0] != '\t' {
        ScannedLine(rest, done, field + [line[0]], line[0] == '\\', num);
        ScannedChar(line[0], rest, done, field, num, r);
      } else if |done| + 1 < num {
        ScannedLine(rest, done + [field], "", false, num);
        ScannedField(rest, done, field, num, r);
      } else {
        assert line == "\t";
        ScannedLast(line, done, field, num);
      }
    }
  }

  lemma ScannedLast(line: string, done: Fields, field: string, num: nat)
    requires |done| + 1 == num && (line == "" || (line == "\t" && !EndsInBackslash(field)))
    ensures Scanned(line, done, field, num, done + [field])
  {
    hide Escape;
    assert (done + [field])[|done|..] == [field] && Escape(field) + "" == Escape(field);
  }

  lemma ScannedTab(open: string, rest: string, done: Fields, num: nat, r: Fields)
    requires Scanned(rest, done, open + "\t", num, r)
    ensures Scanned("\t" + rest, done, open + "\\", num, r)
  {
    hide LineOf, Escape;
    Swallowed(open, open + "\\", rest);
  }

  lemma ScannedChar(c: char, rest: string, done: Fields, field: string, num: nat, r: Fields)
    requires c != '\t' && Scanned(rest, done, field + [c], num, r)
    ensures Scanned([c] + rest, done, field, num, r)
  {
    hide LineOf, Escape;
    EscapeAppend(field, [c]);
    EscapeChar(c);
    Associates(Escape(field), [c], rest);
  }

  lemma ScannedField(rest: string, done: Fields, field: string, num: nat, r: Fields)
    requires Scanned(rest, done + [field], "", num, r)
    ensures Scanned("\t" + rest, done, field, num, r)
  {
    hide LineOf, Escape;
    NothingEscaped();
    var tail := r[|done|..];
    assert r[|done + [field]|..] == tail[1..] && r[|done|] == (done + [field])[|done|] == tail[0];
    assert "" + rest == rest;
    LineOfNext(Escape(field), rest, tail);
    Associates(Escape(field), "\t", rest);
  }

  lemma Swallowed(open: string, field: string, rest: string)
    requires field == open + "\\"
    ensures Escape(open + "\t") + rest == Escape(field) + ("\t" + rest)
  {
    EscapeAppend(open, "\t");
    EscapeAppend(open, "\\");
    EscapeChar('\t');
    EscapeChar('\\');
    hide Escape;
    assert Escape(open) + "\\\t" + rest == Escape(open) + "\\" + ("\t" + rest);
  }

  lemma FormatTab(row: Fields)
    requires |row| > 1
    ensures Format(row) + "\t" == Escape(row[0]) + ("\t" + (Format(row[1..]) + "\t"))
  {
    hide Escape;
    var f, rest := Escape(row[0]), Format(row[1..]);
    assert Format(row) == f + "\t" + rest;
    hide Format;
    Associates(f, "\t", rest);
    Associates(f, "\t" + rest, "\t");
    Associates("\t", rest, "\t");
  }

  lemma ScanClosed(f: string, rest: string, done: Fields, num: nat)
    requires !EndsInBackslash(f) && |done| + 1 < num
    ensures Scan(Escape(f) + ("\t" + rest), done, "", false, num) == Scan(rest, done + [f], "", false, num)
  {
    hide Escape, Scan, EndsInBackslash;
    ScanEscaped(f, "\t" + rest, done, "", false, num);
    ScanStep("\t" + rest, done, f, false, num);
    assert "" + f == f && ("\t" + rest)[1..] == rest;
  }

  lemma ScanLastTab(f: string, done: Fields, num: nat)
    requires !EndsInBackslash(f) && |done| + 1 == num
    ensures Scan(Escape(f) + "\t", done, "", false, num) == Some(done + [f])
  {
    hide Escape, Scan, EndsInBackslash;
    ScanEscaped(f, "\t", done, "", false, num);
    ScanStep("\t", done, f, false, num);
    assert "" + f == f;
  }

  lemma {:induction false} ScanFormatTab(row: Fields, done: Fields, num: nat)
    requires |row| > 0 && |done| + |row| == num && Separable(row) && !EndsInBackslash(row[|row| - 1])
    ensures Scan(Format(row) + "\t", done, "", false, num) == Some(done + row)
    decreases |row|
  {
    hide Escape, Scan, Separable, EndsInBackslash;
    if |row| == 1 {
      ScanLastTab(row[0], done, num);
      assert [row[0]] == row;
    } else {
      hide Format;
      FormatTab(row);
      SeparableTail(row);
      ScanClosed(row[0], Format(row[1..]) + "\t", done, num);
      ScanFormatTab(row[1..], done + [row[0]], num);
      assert done + [row[0]] + row[1..] == done + row;
    }
  }

  /** Exactly the lines that a row is read from. */
  lemma LineExactly(line: string, row: Fields, num: nat)
    requires num > 0
    ensures ParseLine(line, num) == Some(row) <==> |row| == num && Separable(row) && LineOf(line, row)
  {
    hide Scan, Format, Escape;
    if ParseLine(line, num) == Some(row) {
      ScannedLine(line, [], "", false, num);
      ScanSeparable(line, [], "", false, num);
      hide LineOf;
      NothingEscaped();
      assert row[0..] == row && "" + line == line;
    }
    if |row| == num && Separable(row) && LineOf(line, row) {
      LineRoundTrip(row);
      if line != Format(row) {
        ScanFormatTab(row, [], num);
        assert [] + row == row;
      }
    }
  }

  lemma NothingEscaped()
    ensures Escape("") == ""
  {}

  // ---------------------------------------------------------------- the buffer

  /** The buffer grows by whole steps, and by no more of them than the line needs. */
  lemma {:induction false} GrownLeast(size: nat, length: nat) returns (k: nat)
    ensures Grown(size, length) == size + 512 * k && length < Grown(size, length)
    ensures k > 0 ==> Grown(size, length) - 512 <= length
    decreases length - size
  {
    k := 0;
    if size <= length {
      k := GrownLeast(size + BUFFER, length);
      k := k + 1;
    }
  }

  /** A comment that does not fit in the buffer is skipped only as far as it fits: the
      rest of it is read as a line of its own. */
  lemma LongComment(line: string, rest: string, num: nat)
    requires '\n' !in line && Comment(line) && 511 <= |line|
    ensures Read(line + "\n" + rest, num) == ReadFrom(line[511..] + "\n" + rest, num, 512)
  {
    hide LineEnd, ParseLine, ReadFrom, Grown;
    var text := line + "\n" + rest;
    LineEndAt(line, rest);
    ReadNext(text, num, BUFFER);
    assert text[511..] == line[511..] + "\n" + rest;
  }

  // ---------------------------------------------------------------- whole files

  function Joined(lines: seq<string>): string {
    if lines == [] then "" else lines[0] + "\n" + Joined(lines[1..])
  }

  /** The rows of the lines that are no comments, or an error if one of them is bad. */
  function RowsOf(lines: seq<string>, num: nat): Option<seq<Fields>> {
    if lines == [] then Some([])
    else if Comment(lines[0]) then RowsOf(lines[1..], num)
    else Cons(ParseLine(lines[0], num), RowsOf(lines[1..], num))
  }

  /** Without newline nothing is a row. */
  lemma {:induction false} ReadTail(tail: string, num: nat, size: nat)
    requires '\n' !in tail && 1 < size
    ensures ReadFrom(tail, num, size) == Some([])
    decreases |tail|
  {
    hide ParseLine, ReadFrom, Grown;
    ReadNext(tail, num, size);
    if Comment(tail) {
      ReadTail(tail[Skipped(tail, size)..], num, size);
    } else {
      NoLineEnd(tail);
    }
  }

  lemma {:induction false} NoLineEnd(s: string)
    requires '\n' !in s
    ensures LineEnd(s) == |s|
  {
    if s != "" {
      NoLineEnd(s[1..]);
    }
  }

  lemma ShortComment(line: string, rest: string, num: nat, size: nat)
    requires '\n' !in line && Comment(line) && |line| + 1 < size
    ensures ReadFrom(line + "\n" + rest, num, size) == ReadFrom(rest, num, size)
  {
    hide LineEnd, ParseLine, ReadFrom, Grown;
    var text := line + "\n" + rest;
    LineEndAt(line, rest);
    ReadNext(text, num, size);
    assert text[|line| + 1..] == rest;
  }

  lemma {:induction false} ReadJoined(lines: seq<string>, tail: string, num: nat, size: nat)
    requires '\n' !in tail && forall l <- lines :: '\n' !in l && (Comment(l) ==> |l| < 511)
    requires 512 <= size
    ensures ReadFrom(Joined(lines) + tail, num, size) == RowsOf(lines, num)
    decreases |lines|
  {
    hide ParseLine, ReadFrom, Grown, Comment, Cons;
    if lines == [] {
      assert Joined(lines) + tail == tail;
      ReadTail(tail, num, size);
    } else {
      var line, rest := lines[0], lines[1..];
      assert line in lines && forall l <- rest :: l in lines;
      assert Joined(lines) + tail == line + "\n" + (Joined(rest) + tail) by {
        Associates(line + "\n", Joined(rest), tail);
      }
      if Comment(line) {
        ShortComment(line, Joined(rest) + tail, num, size);
        ReadJoined(rest, tail, num, size);
      } else {
        ReadLine(line, Joined(rest) + tail, num, size);
        ReadJoined(rest, tail, num, Grown(size, |line| + 1));
      }
    }
  }

  /** A file is read as its lines are: comments are left out and so is what follows the
      last newline, whatever the length of the other lines. */
  lemma FileExactly(lines: seq<string>, tail: string, num: nat)
    requires '\n' !in tail && forall l <- lines :: '\n' !in l && (Comment(l) ==> |l| < 511)
    ensures Read(Joined(lines) + tail, num) == RowsOf(lines, num)
  {
    ReadJoined(lines, tail, num, BUFFER);
  }
}
