/** The text database: one line per row, fields separated by tabs, a tab inside
    a field written with a backslash before it. */
module TxtDb {
  import opened Inverses

  type Fields = seq<string>

  function Escape(field: string): string {
    if field == "" then ""
    else (if field[0] == '\t' then "\\\t" else [field[0]]) + Escape(field[1..])
  }

  function Format(row: Fields): string
    requires |row| > 0
  {
    if |row| == 1 then Escape(row[0]) else Escape(row[0]) + "\t" + Format(row[1..])
  }

  function Write(rows: seq<Fields>): string
    requires forall r <- rows :: |r| > 0
  {
    if rows == [] then "" else Format(rows[0]) + "\n" + Write(rows[1..])
  }

  /** What the reader does with the rest of a line: `done` are the fields closed so
      far, `field` the one being filled, `esc` whether its last character is a
      backslash that was just copied. A tab after the last field ends the scan, and
      is accepted only at the very end of the line. */
  function Scan(line: string, done: Fields, field: string, esc: bool, num: nat): Option<Fields>
    requires esc ==> field != ""
    decreases |line|
  {
    if line == "" then
      if |done| + 1 == num then Some(done + [field]) else None
    else if line[0] == '\t' && esc then
      Scan(line[1..], done, field[..|field| - 1] + "\t", false, num)
    else if line[0] == '\t' then
      if |done| + 1 < num then Scan(line[1..], done + [field], "", false, num)
      else if |done| + 1 == num && line[1..] == "" then Some(done + [field])
      else None
    else
      Scan(line[1..], done, field + [line[0]], line[0] == '\\', num)
  }

  function ParseLine(line: string, num: nat): Option<Fields> {
    Scan(line, [], "", false, num)
  }

  /** Where the first line ends; a text without a newline is not a line. */
  function LineEnd(text: string): nat
    ensures LineEnd(text) <= |text|
    ensures LineEnd(text) < |text| ==> text[LineEnd(text)] == '\n'
    ensures '\n' !in text[..LineEnd(text)]
  {
    if text == "" || text[0] == '\n' then 0 else
      var n := LineEnd(text[1..]);
      assert text[..n + 1] == [text[0]] + text[1..][..n];
      n + 1
  }

  predicate Comment(line: string) {
    line != "" && line[0] == '#'
  }

  /** The size of the line buffer, and by how much it grows. */
  const BUFFER: nat := 512

  /** The buffer's size after it has grown to hold a line of a length. */
  function Grown(size: nat, length: nat): (r: nat)
    ensures size <= r
    decreases length - size
  {
    if length < size then size else Grown(size + BUFFER, length)
  }

  /** How much of a comment is skipped at once: the line, or what fits in the buffer. */
  function Skipped(text: string, size: nat): (n: nat)
    requires text != "" && 1 < size
    ensures 0 < n <= |text|
  {
    var n := LineEnd(text) + 1;
    var n := if n > |text| then |text| else n;
    if n < size then n else size - 1
  }

  function Cons(row: Option<Fields>, rows: Option<seq<Fields>>): Option<seq<Fields>> {
    if row.Some? && rows.Some? then Some([row.value] + rows.value) else None
  }

  /** Comments are skipped, a last line without newline is dropped, and one bad line
      fails the whole read. What does not fit in the buffer of a comment line is taken
      for the start of another line. */
  function ReadFrom(text: string, num: nat, size: nat): Option<seq<Fields>>
    requires 1 < size
    decreases |text|
  {
    var n := LineEnd(text);
    if Comment(text) then ReadFrom(text[Skipped(text, size)..], num, size)
    else if n == |text| then Some([])
    else Cons(ParseLine(text[..n], num), ReadFrom(text[n + 1..], num, Grown(size, n + 1)))
  }

  function Read(text: string, num: nat): Option<seq<Fields>> {
    ReadFrom(text, num, BUFFER)
  }

  // ---------------------------------------------------------------- the loops

  /** The character loop that splits one line. */
  method SplitLine(line: string, num: nat) returns (row: Option<Fields>)
    requires num > 0
    ensures row == ParseLine(line, num)
  {
    var done: Fields, field, esc, f := [], "", false, 0;
    while f < |line|
      invariant 0 <= f <= |line| && (esc ==> field != "") && |done| < num
      invariant Scan(line[f..], done, field, esc, num) == ParseLine(line, num)
    {
      assert line[f..][1..] == line[f + 1..];
      if line[f] == '\t' {
        if esc {
          field := field[..|field| - 1];
        } else {
          done := done + [field];
          f := f + 1;
          if |done| >= num {
            return if f == |line| then Some(done) else None;
          }
          field := "";
          continue;
        }
      }
      esc := line[f] == '\\';
      field := field + [line[f]];
      f := f + 1;
    }
    done := done + [field];
    return if |done| == num then Some(done) else None;
  }

  method WriteField(before: string, field: string) returns (line: string)
    ensures line == before + Escape(field) + "\t"
  {
    line := before;
    for k := 0 to |field|
      invariant line + Escape(field[k..]) == before + Escape(field)
    {
      assert field[k..][1..] == field[k + 1..];
      line := line + (if field[k] == '\t' then "\\\t" else [field[k]]);
    }
    line := line + "\t";
  }

  /** The separator after the last field is overwritten by the newline. */
  method WriteRow(row: Fields) returns (line: string)
    requires |row| > 0
    ensures line == Format(row) + "\n"
  {
    hide Escape, Format;
    line := "";
    assert row[0..] == row && "" + Format(row) == Format(row);
    for j := 0 to |row|
      invariant j < |row| ==> line + Format(row[j..]) == Format(row)
      invariant j == |row| ==> line == Format(row) + "\t"
    {
      FormatNext(row, j);
      ghost var before, rest := line, if j + 1 < |row| then Format(row[j + 1..]) else "";
      line := WriteField(line, row[j]);
      Associates(before, Escape(row[j]), "\t" + rest);
      Associates(before + Escape(row[j]), "\t", rest);
    }
    line := line[..|line| - 1] + "\n";
  }

  lemma FormatNext(row: Fields, j: nat)
    requires j < |row|
    ensures j + 1 == |row| ==> Format(row[j..]) == Escape(row[j])
    ensures j + 1 < |row| ==> Format(row[j..]) == Escape(row[j]) + ("\t" + Format(row[j + 1..]))
  {
    hide Escape;
    assert row[j..][1..] == row[j + 1..];
    if j + 1 < |row| {
      Associates(Escape(row[j]), "\t", Format(row[j + 1..]));
    }
  }

  lemma Associates(a: string, b: string, c: string)
    ensures a + b + c == a + (b + c)
  {}

  method WriteRows(rows: seq<Fields>) returns (text: string)
    requires forall r <- rows :: |r| > 0
    ensures text == Write(rows)
  {
    hide Format;
    text := "";
    for i := 0 to |rows|
      invariant text + Write(rows[i..]) == Write(rows)
    {
      assert rows[i..][1..] == rows[i + 1..];
      var line := WriteRow(rows[i]);
      text := text + line;
    }
  }

  function Prepend(rows: seq<Fields>, rest: Option<seq<Fields>>): Option<seq<Fields>> {
    if rest.Some? then Some(rows + rest.value) else None
  }

  lemma PrependNone(rest: Option<seq<Fields>>)
    ensures Prepend([], rest) == rest
  {
    if rest.Some? {
      assert [] + rest.value == rest.value;
    }
  }

  lemma PrependCons(done: seq<Fields>, row: Option<Fields>, rest: Option<seq<Fields>>)
    ensures Prepend(done, Cons(row, rest)) == if row == None then None else Prepend(done + [row.value], rest)
  {
    if row.Some? && rest.Some? {
      assert done + ([row.value] + rest.value) == done + [row.value] + rest.value;
    }
  }

  lemma ReadNext(text: string, num: nat, size: nat)
    requires 1 < size
    ensures Comment(text) ==> ReadFrom(text, num, size) == ReadFrom(text[Skipped(text, size)..], num, size)
    ensures var n := LineEnd(text); !Comment(text) ==>
              ReadFrom(text, num, size)
              == if n == |text| then Some([])
                 else Cons(ParseLine(text[..n], num), ReadFrom(text[n + 1..], num, Grown(size, n + 1)))
  {
    hide LineEnd, ParseLine, Skipped, Grown;
  }

  /** The line loop, growing its buffer. */
  method ReadRows(text: string, num: nat) returns (rows: Option<seq<Fields>>)
    requires num > 0
    ensures rows == Read(text, num)
  {
    hide ParseLine, LineEnd, ReadFrom, Prepend, Cons, Skipped, Grown;
    var done, left, size := [], text, BUFFER;
    PrependNone(Read(text, num));
    while true
      invariant 1 < size && Prepend(done, ReadFrom(left, num, size)) == Read(text, num)
      decreases |left|
    {
      ReadNext(left, num, size);
      if Comment(left) {
        left := left[Skipped(left, size)..];
        continue;
      }
      var n := LineEnd(left);
      if n == |left| {
        PrependEnd(done);
        return Some(done);
      }
      ghost var grown := Grown(size, n + 1);
      while size <= n + 1
        invariant 1 < size && Grown(size, n + 1) == grown
        decreases n + 1 - size
      {
        GrowOnce(size, n + 1);
        size := size + BUFFER;
      }
      GrowOnce(size, n + 1);
      var row := SplitLine(left[..n], num);
      PrependCons(done, row, ReadFrom(left[n + 1..], num, size));
      if row == None {
        return None;
      }
      done := done + [row.value];
      left := left[n + 1..];
    }
  }

  lemma GrowOnce(size: nat, length: nat)
    ensures Grown(size, length) == if length < size then size else Grown(size + BUFFER, length)
  {}

  lemma PrependEnd(done: seq<Fields>)
    ensures Prepend(done, Some([])) == Some(done)
  {
    assert done + [] == done;
  }

  // ---------------------------------------------------------------- one line

  predicate EndsInBackslash(s: string) {
    s != "" && s[|s| - 1] == '\\'
  }

  /** No field but the last ends in a backslash. */
  predicate Separable(row: Fields) {
    forall i :: 0 <= i < |row| - 1 ==> !EndsInBackslash(row[i])
  }

  lemma ScanTab(rest: string, done: Fields, field: string, esc: bool, num: nat)
    requires esc ==> field != ""
    ensures Scan("\\\t" + rest, done, field, esc, num) == Scan(rest, done, field + "\t", false, num)
  {
    assert ("\\\t" + rest)[1..] == "\t" + rest && ("\t" + rest)[1..] == rest;
    assert (field + "\\")[..|field|] == field;
  }

  lemma ScanChar(c: char, rest: string, done: Fields, field: string, esc: bool, num: nat)
    requires c != '\t' && (esc ==> field != "")
    ensures Scan([c] + rest, done, field, esc, num) == Scan(rest, done, field + [c], c == '\\', num)
  {
    assert ([c] + rest)[1..] == rest;
  }

  lemma {:induction false} ScanEscaped(f: string, rest: string, done: Fields, field: string, esc: bool, num: nat)
    requires esc ==> field != ""
    ensures Scan(Escape(f) + rest, done, field, esc, num)
         == Scan(rest, done, field + f, if f == "" then esc else EndsInBackslash(f), num)
    decreases |f|
  {
    hide Scan;
    if f == "" {
      assert Escape(f) + rest == rest && field + f == field;
    } else if f[0] == '\t' {
      assert Escape(f) + rest == "\\\t" + (Escape(f[1..]) + rest);
      ScanTab(Escape(f[1..]) + rest, done, field, esc, num);
      ScanEscaped(f[1..], rest, done, field + "\t", false, num);
      assert field + "\t" + f[1..] == field + f;
    } else {
      assert Escape(f) + rest == [f[0]] + (Escape(f[1..]) + rest);
      ScanChar(f[0], Escape(f[1..]) + rest, done, field, esc, num);
      ScanEscaped(f[1..], rest, done, field + [f[0]], f[0] == '\\', num);
      assert field + [f[0]] + f[1..] == field + f;
    }
  }

  /** Whatever is scanned keeps the closed fields and only extends the open one. */
  lemma {:induction false} ScanKeeps(line: string, done: Fields, field: string, num: nat)
    ensures var r := Scan(line, done, field, false, num);
            r.Some? ==> |r.value| == num > |done| && done <= r.value && field <= r.value[|done|]
    decreases |line|
  {
    if line != "" {
      if line[0] == '\t' {
        if |done| + 1 < num {
          ScanKeeps(line[1..], done + [field], "", num);
        }
      } else if line[0] == '\\' && |line| > 1 && line[1] == '\t' {
        assert (field + [line[0]])[..|field|] == field;
        assert line[1..][1..] == line[2..];
        ScanKeeps(line[2..], done, field + "\t", num);
      } else if line[0] == '\\' {
        ScanBackslash(line[1..], done, field + [line[0]], num);
        ScanKeeps(line[1..], done, field + [line[0]], num);
      } else {
        ScanKeeps(line[1..], done, field + [line[0]], num);
      }
    }
  }

  lemma ScanBackslash(line: string, done: Fields, field: string, num: nat)
    requires field != "" && (line == "" || line[0] != '\t')
    ensures Scan(line, done, field, true, num) == Scan(line, done, field, false, num)
  {}

  lemma {:induction false} ScanFormat(row: Fields, done: Fields, num: nat)
    requires |row| > 0 && |done| + |row| == num
    ensures (Scan(Format(row), done, "", false, num) == Some(done + row)) <==> Separable(row)
    decreases |row|
  {
    hide Escape;
    var f := row[0];
    assert "" + f == f;
    if |row| == 1 {
      assert Escape(f) + "" == Escape(f);
      ScanEscaped(f, "", done, "", false, num);
      assert [f] == row;
    } else {
      var rest := "\t" + Format(row[1..]);
      assert Format(row) == Escape(f) + rest by { assert Escape(f) + "\t" + Format(row[1..]) == Escape(f) + rest; }
      ScanEscaped(f, rest, done, "", false, num);
      assert rest[1..] == Format(row[1..]);
      SeparableTail(row);
      if EndsInBackslash(f) {
        var open := f[..|f| - 1] + "\t";
        ScanKeeps(Format(row[1..]), done, open, num);
        assert (done + row)[|done|] == f && open[|f| - 1] == '\t';
      } else {
        ScanFormat(row[1..], done + [f], num);
        assert done + [f] + row[1..] == done + row;
      }
    }
  }

  lemma SeparableTail(row: Fields)
    requires |row| > 1
    ensures Separable(row) <==> !EndsInBackslash(row[0]) && Separable(row[1..])
  {
    if !EndsInBackslash(row[0]) && Separable(row[1..]) {
      forall i | 0 <= i < |row| - 1 ensures !EndsInBackslash(row[i]) {
        if i > 0 { assert row[i] == row[1..][i - 1]; }
      }
    }
    if Separable(row) {
      forall i | 0 <= i < |row[1..]| - 1 ensures !EndsInBackslash(row[1..][i]) {
        assert row[1..][i] == row[i + 1];
      }
    }
  }

  /** Writing a row and scanning the line gives the row back exactly when no field
      but the last ends in a backslash. */
  lemma LineRoundTrip(row: Fields)
    requires |row| > 0
    ensures (ParseLine(Format(row), |row|) == Some(row)) <==> Separable(row)
  {
    ScanFormat(row, [], |row|);
    assert [] + row == row;
  }

  // ---------------------------------------------------------------- whole file

  predicate OneLine(row: Fields) {
    forall f <- row :: '\n' !in f
  }

  /** What a row must satisfy to survive a save and a load. */
  predicate Persistable(row: Fields) {
    |row| > 0 && OneLine(row) && Separable(row) && !Comment(row[0])
  }

  lemma {:induction false} EscapeNewline(f: string)
    ensures '\n' in Escape(f) <==> '\n' in f
  {
    if f != "" {
      EscapeNewline(f[1..]);
      assert f == [f[0]] + f[1..];
    }
  }

  lemma {:induction false} FormatNewline(row: Fields)
    requires |row| > 0 && OneLine(row)
    ensures '\n' !in Format(row)
  {
    hide Escape;
    EscapeNewline(row[0]);
    if |row| > 1 {
      FormatNewline(row[1..]);
    }
  }

  lemma FormatComment(row: Fields)
    requires |row| > 0
    ensures Comment(Format(row)) <==> Comment(row[0])
  {
    if row[0] == "" && |row| > 1 {
      assert Format(row)[0] == '\t';
    }
  }

  lemma {:induction false} LineEndAt(line: string, rest: string)
    requires '\n' !in line
    ensures LineEnd(line + "\n" + rest) == |line|
  {
    var text := line + "\n" + rest;
    if line != "" {
      LineEndAt(line[1..], rest);
      assert text[1..] == line[1..] + "\n" + rest;
    }
  }

  lemma ReadLine(line: string, rest: string, num: nat, size: nat)
    requires '\n' !in line && !Comment(line) && 1 < size
    ensures ReadFrom(line + "\n" + rest, num, size)
         == Cons(ParseLine(line, num), ReadFrom(rest, num, Grown(size, |line| + 1)))
  {
    hide LineEnd, ParseLine, ReadFrom, Grown, Cons;
    var text := line + "\n" + rest;
    LineEndAt(line, rest);
    ReadNext(text, num, size);
    assert text[..|line|] == line && text[|line| + 1..] == rest;
    assert line == "" ==> text[0] == '\n';
  }

  /** Fields read from a line hold no newline if it does not. */
  lemma {:induction false} ScanChars(line: string, done: Fields, field: string, esc: bool, num: nat)
    requires esc ==> field != ""
    requires '\n' !in line && '\n' !in field && OneLine(done)
    ensures var r := Scan(line, done, field, esc, num); r.Some? ==> OneLine(r.value)
    decreases |line|
  {
    if line != "" {
      if line[0] == '\t' && esc {
        ScanChars(line[1..], done, field[..|field| - 1] + "\t", false, num);
      } else if line[0] == '\t' {
        if |done| + 1 < num {
          ScanChars(line[1..], done + [field], "", false, num);
        }
      } else {
        ScanChars(line[1..], done, field + [line[0]], line[0] == '\\', num);
      }
    }
  }

  /** Only a line that starts with '#' can start its first field with '#'. */
  lemma FirstField(line: string, num: nat)
    requires !Comment(line)
    ensures var r := ParseLine(line, num); r.Some? ==> |r.value| > 0 && !Comment(r.value[0])
  {
    ScanKeeps(line, [], "", num);
    if line != "" && line[0] != '\t' {
      assert "" + [line[0]] == [line[0]];
      if line[0] != '\\' {
        ScanKeeps(line[1..], [], [line[0]], num);
      } else if |line| > 1 && line[1] == '\t' {
        assert line == "\\\t" + line[2..] && "" + "\t" == "\t";
        ScanTab(line[2..], [], "", false, num);
        ScanKeeps(line[2..], [], "\t", num);
      } else {
        ScanBackslash(line[1..], [], [line[0]], num);
        ScanKeeps(line[1..], [], [line[0]], num);
      }
    } else if line != "" && 1 < num {
      ScanKeeps(line[1..], [""], "", num);
      assert [] + [""] == [""];
    }
  }

  /** A field is closed only when its last character is not a backslash. */
  lemma {:induction false} ScanSeparable(line: string, done: Fields, field: string, esc: bool, num: nat)
    requires esc == EndsInBackslash(field) && forall f <- done :: !EndsInBackslash(f)
    ensures var r := Scan(line, done, field, esc, num); r.Some? ==> Separable(r.value)
    decreases |line|
  {
    if line != "" {
      if line[0] == '\t' && esc {
        ScanSeparable(line[1..], done, field[..|field| - 1] + "\t", false, num);
      } else if line[0] == '\t' {
        if |done| + 1 < num {
          ScanSeparable(line[1..], done + [field], "", false, num);
        }
      } else {
        ScanSeparable(line[1..], done, field + [line[0]], line[0] == '\\', num);
      }
    }
  }

  lemma ParsedPersists(line: string, num: nat)
    requires '\n' !in line && !Comment(line)
    ensures var r := ParseLine(line, num); r.Some? ==> |r.value| == num && Persistable(r.value)
  {
    ScanKeeps(line, [], "", num);
    ScanChars(line, [], "", false, num);
    ScanSeparable(line, [], "", false, num);
    FirstField(line, num);
    hide Scan, Separable, OneLine, Comment;
  }

  /** Every row that is read could be written and read again. */
  lemma ReadPersists(text: string, num: nat)
    ensures Read(text, num).Some? ==> forall row <- Read(text, num).value :: |row| == num && Persistable(row)
  {
    ReadFromPersists(text, num, BUFFER);
  }

  lemma {:induction false} ReadFromPersists(text: string, num: nat, size: nat)
    requires 1 < size
    ensures var r := ReadFrom(text, num, size);
            r.Some? ==> forall row <- r.value :: |row| == num && Persistable(row)
    decreases |text|
  {
    hide ParseLine, LineEnd, Persistable, ReadFrom, Skipped, Grown;
    ReadNext(text, num, size);
    var n := LineEnd(text);
    if Comment(text) {
      ReadFromPersists(text[Skipped(text, size)..], num, size);
    } else if n < |text| {
      ReadFromPersists(text[n + 1..], num, Grown(size, n + 1));
      assert Comment(text[..n]) ==> Comment(text);
      ParsedPersists(text[..n], num);
    }
  }

  /** A database written out is read back unchanged exactly when every row is
      persistable. */
  lemma FileRoundTrip(rows: seq<Fields>, num: nat)
    requires num > 0 && forall r <- rows :: |r| == num
    ensures (Read(Write(rows), num) == Some(rows)) <==> (forall r <- rows :: Persistable(r))
  {
    RoundTripFrom(rows, num, BUFFER);
  }

  lemma {:induction false} RoundTripFrom(rows: seq<Fields>, num: nat, size: nat)
    requires num > 0 && 1 < size && forall r <- rows :: |r| == num
    ensures (ReadFrom(Write(rows), num, size) == Some(rows)) <==> (forall r <- rows :: Persistable(r))
    decreases |rows|
  {
    hide Format, LineEnd, ParseLine, Separable, OneLine, Comment, ReadFrom, Grown;
    ReadFromPersists(Write(rows), num, size);
    if rows == [] {
      ReadNothing(num, size);
    } else {
      var row, rest := rows[0], rows[1..];
      assert rows == [row] + rest && row in rows;
      if OneLine(row) && !Comment(row[0]) {
        FormatNewline(row);
        FormatComment(row);
        var grown := Grown(size, |Format(row)| + 1);
        ReadLine(Format(row), Write(rest), num, size);
        LineRoundTrip(row);
        RoundTripFrom(rest, num, grown);
        assert (forall r <- rows :: Persistable(r)) <==> Persistable(row) && forall r <- rest :: Persistable(r);
        if ReadFrom(Write(rows), num, size) == Some(rows) {
          HeadTail(ParseLine(Format(row), num), ReadFrom(Write(rest), num, grown), rows);
        }
      }
    }
  }

  lemma ReadNothing(num: nat, size: nat)
    requires 1 < size
    ensures ReadFrom("", num, size) == Some([])
  {}

  lemma HeadTail(head: Option<Fields>, tail: Option<seq<Fields>>, rows: seq<Fields>)
    requires rows != [] && head.Some? && tail.Some? && [head.value] + tail.value == rows
    ensures head.value == rows[0] && tail.value == rows[1..]
  {
    assert ([head.value] + tail.value)[1..] == tail.value;
  }

  /** A field that ends in a backslash swallows the separator after it: the row of a
      backslash and an "a" is not read back. */
  lemma BackslashLost()
    ensures Read(Write([["\\", "a"]]), 2) != Some([["\\", "a"]])
  {
    hide Read, Write;
    FileRoundTrip([["\\", "a"]], 2);
    assert EndsInBackslash(["\\", "a"][0]);
    assert ["\\", "a"] in [["\\", "a"]];
  }
}
