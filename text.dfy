/** Dense text rendering of a matrix: each row's values in decimal,
    separated by single spaces, rows separated by a single line break and
    no line break after the last row. The stream the header writes to
    becomes a string; `IntToString` stands for the stream's formatting of
    an `int`. */
module Text {

  function DigitChar(d: nat): (ch: char)
    requires d < 10
    ensures '0' <= ch <= '9'
  {
    "0123456789"[d]
  }

  function DigitValue(ch: char): nat
    requires '0' <= ch <= '9'
  {
    (ch - '0') as nat
  }

  /** The decimal digits of x, most significant first, without leading
      zeros. */
  function Digits(x: nat): (s: string)
    ensures 1 <= |s|
    ensures forall i :: 0 <= i < |s| ==> '0' <= s[i] <= '9'
  {
    if x < 10 then [DigitChar(x)] else Digits(x / 10) + [DigitChar(x % 10)]
  }

  /** The decimal form of an integer: a minus sign for negatives, then the
      digits of its magnitude. */
  function IntToString(x: int): (s: string)
    ensures 1 <= |s|
    ensures forall i :: 0 <= i < |s| ==> s[i] == '-' || '0' <= s[i] <= '9'
  {
    if x < 0 then "-" + Digits(-x) else Digits(x)
  }

  /** Reads a string of decimal digits. */
  function ParseNat(s: string): nat
    requires forall i :: 0 <= i < |s| ==> '0' <= s[i] <= '9'
  {
    if |s| == 0 then 0 else ParseNat(s[..|s| - 1]) * 10 + DigitValue(s[|s| - 1])
  }

  /** Reads an optional minus sign followed by decimal digits. */
  function ParseInt(s: string): int
    requires 1 <= |s|
    requires forall i :: 0 <= i < |s| ==> s[i] == '-' || '0' <= s[i] <= '9'
    requires forall i :: 1 <= i < |s| ==> '0' <= s[i] <= '9'
  {
    if s[0] == '-' then 0 - ParseNat(s[1..]) else ParseNat(s)
  }

  lemma {:induction false} ParseDigits(x: nat)
    ensures ParseNat(Digits(x)) == x
  {
    if x >= 10 {
      var s := Digits(x);
      assert s[..|s| - 1] == Digits(x / 10);
      ParseDigits(x / 10);
    }
  }

  /** Rendering an integer can be read back. */
  lemma IntToStringRoundTrip(x: int)
    ensures var s := IntToString(x);
      && (forall i :: 1 <= i < |s| ==> '0' <= s[i] <= '9')
      && ParseInt(s) == x
  {
    var s := IntToString(x);
    if x < 0 {
      assert s[1..] == Digits(-x);
      ParseDigits(-x);
    } else {
      ParseDigits(x);
    }
  }

  /** The parts, with one separator between neighbours and none at the
      ends. */
  function Join(parts: seq<string>, sep: char): string
  {
    if |parts| == 0 then ""
    else if |parts| == 1 then parts[0]
    else Join(parts[..|parts| - 1], sep) + [sep] + parts[|parts| - 1]
  }

  /** The pieces between the separators: one more piece than there are
      separators. */
  function Split(s: string, sep: char): (parts: seq<string>)
    ensures 1 <= |parts|
  {
    if |s| == 0 then [""]
    else if s[0] == sep then [""] + Split(s[1..], sep)
    else
      var rest := Split(s[1..], sep);
      [[s[0]] + rest[0]] + rest[1..]
  }

  /** Splitting at a separator splits each side separately. */
  lemma {:induction false} SplitAround(a: string, b: string, sep: char)
    ensures Split(a + [sep] + b, sep) == Split(a, sep) + Split(b, sep)
  {
    if |a| == 0 {
      assert a + [sep] + b == [sep] + b;
      assert ([sep] + b)[1..] == b;
    } else {
      var t := a + [sep] + b;
      assert t[1..] == a[1..] + [sep] + b;
      SplitAround(a[1..], b, sep);
    }
  }

  /** A string without the separator is one piece. */
  lemma {:induction false} SplitWhole(p: string, sep: char)
    requires forall i :: 0 <= i < |p| ==> p[i] != sep
    ensures Split(p, sep) == [p]
  {
    if |p| > 0 {
      SplitWhole(p[1..], sep);
      assert [p[0]] + p[1..] == p;
    }
  }

  /** Joining pieces free of the separator and splitting again gives back
      the pieces. */
  lemma {:induction false} SplitJoin(parts: seq<string>, sep: char)
    requires 1 <= |parts|
    requires forall k, i :: 0 <= k < |parts| && 0 <= i < |parts[k]| ==> parts[k][i] != sep
    ensures Split(Join(parts, sep), sep) == parts
  {
    var last := parts[|parts| - 1];
    SplitWhole(last, sep);
    if |parts| > 1 {
      var init := parts[..|parts| - 1];
      SplitJoin(init, sep);
      SplitAround(Join(init, sep), last, sep);
      assert init + [last] == parts;
    }
  }

  /** The rendered values of one row, space separated. */
  function Words(row: seq<int>): seq<string> {
    seq(|row|, j requires 0 <= j < |row| => IntToString(row[j]))
  }

  function RenderRow(row: seq<int>): string {
    Join(Words(row), ' ')
  }

  function Lines(d: seq<seq<int>>): seq<string> {
    seq(|d|, i requires 0 <= i < |d| => RenderRow(d[i]))
  }

  /** The dense rendering of a row-major matrix. */
  function Render(d: seq<seq<int>>): string {
    Join(Lines(d), '\n')
  }

  lemma {:induction false} JoinFree(parts: seq<string>, sep: char, ch: char)
    requires forall k, i :: 0 <= k < |parts| && 0 <= i < |parts[k]| ==> parts[k][i] != ch
    requires sep != ch
    ensures forall i :: 0 <= i < |Join(parts, sep)| ==> Join(parts, sep)[i] != ch
  {
    if |parts| > 1 {
      JoinFree(parts[..|parts| - 1], sep, ch);
    }
  }

  /** The rendering of a matrix whose rows are all non-empty has one line
      per row and, on line i, one word per value of row i; each word reads
      back as that value. */
  lemma RenderLayout(d: seq<seq<int>>)
    requires 1 <= |d| && forall i :: 0 <= i < |d| ==> 1 <= |d[i]|
    ensures Split(Render(d), '\n') == Lines(d)
    ensures forall i :: 0 <= i < |d| ==> Split(Lines(d)[i], ' ') == Words(d[i])
    ensures forall i, j :: 0 <= i < |d| && 0 <= j < |d[i]| ==> ParseInt(Words(d[i])[j]) == d[i][j]
  {
    forall i | 0 <= i < |d| ensures Split(Lines(d)[i], ' ') == Words(d[i]) {
      SplitJoin(Words(d[i]), ' ');
    }
    forall i | 0 <= i < |d|
      ensures forall k :: 0 <= k < |Lines(d)[i]| ==> Lines(d)[i][k] != '\n'
    {
      JoinFree(Words(d[i]), ' ', '\n');
    }
    SplitJoin(Lines(d), '\n');
    forall i, j | 0 <= i < |d| && 0 <= j < |d[i]|
      ensures ParseInt(Words(d[i])[j]) == d[i][j]
    {
      IntToStringRoundTrip(d[i][j]);
    }
  }

  /** Joining one more part adds a separator and the part, or is the part
      alone when there was none. */
  lemma JoinSnoc(parts: seq<string>, x: string, sep: char)
    ensures Join(parts + [x], sep) == if |parts| == 0 then x else Join(parts, sep) + [sep] + x
  {
    assert (parts + [x])[..|parts|] == parts;
  }

  /** The rendering of the first j values of a row extends the rendering
      of the first j - 1 by a space and the j-th value. */
  lemma RenderRowPrefix(row: seq<int>, j: nat)
    requires 1 <= j <= |row|
    ensures RenderRow(row[..j]) ==
      if j == 1 then IntToString(row[0]) else RenderRow(row[..j - 1]) + " " + IntToString(row[j - 1])
  {
    assert Words(row[..j]) == Words(row[..j - 1]) + [IntToString(row[j - 1])];
    JoinSnoc(Words(row[..j - 1]), IntToString(row[j - 1]), ' ');
  }

  /** What has been written after the first k of the lines: each line
      followed by a line break, except the last line of all. */
  function Partial(lines: seq<string>, k: nat): string
    requires k <= |lines|
  {
    if k == 0 then "" else Partial(lines, k - 1) + lines[k - 1] + (if k < |lines| then "\n" else "")
  }

  /** One pass of the inner loop of `operator <<`: value j of a row is
      written, preceded by a space unless it is the first. */
  method WriteValue(done: string, v: int, ghost row: seq<int>, j: nat) returns (text: string)
    requires j < |row| && done == RenderRow(row[..j]) && v == row[j]
    ensures text == RenderRow(row[..j + 1])
  {
    RenderRowPrefix(row, j + 1);
    if j != 0 {
      text := done + " " + IntToString(v);
    } else {
      text := IntToString(v);
    }
  }

  /** One pass of the outer loop of `operator <<`: line i is written,
      followed by a line break unless it is the last of count lines. */
  method WriteLine(done: string, line: string, ghost lines: seq<string>, i: nat, count: nat) returns (text: string)
    requires i < count == |lines|
    requires done == Partial(lines, i) && line == lines[i]
    ensures text == Partial(lines, i + 1)
  {
    if i + 1 < count {
      text := done + line + "\n";
    } else {
      text := done + line;
    }
  }

  /** After the first k lines, the output is those lines joined by line
      breaks, followed by one more line break when lines remain. */
  lemma {:induction false} PartialJoin(lines: seq<string>, k: nat)
    requires 1 <= k <= |lines|
    ensures Partial(lines, k) == Join(lines[..k], '\n') + (if k < |lines| then "\n" else "")
  {
    assert lines[..k] == lines[..k - 1] + [lines[k - 1]];
    JoinSnoc(lines[..k - 1], lines[k - 1], '\n');
    if k > 1 {
      PartialJoin(lines, k - 1);
    }
  }

  /** After all the lines, the output is the lines joined by line breaks. */
  lemma PartialAll(lines: seq<string>)
    requires 1 <= |lines|
    ensures Partial(lines, |lines|) == Join(lines, '\n')
  {
    PartialJoin(lines, |lines|);
    assert lines[..|lines|] == lines;
  }

  lemma Join3(a: string, b: string, c: string, sep: char)
    ensures Join([a, b, c], sep) == a + [sep] + b + [sep] + c
  {
    assert [a, b, c][..2] == [a, b];
    assert [a, b][..1] == [a];
    assert Join([a, b], sep) == a + [sep] + b;
  }

  lemma Join4(a: string, b: string, c: string, d: string, sep: char)
    ensures Join([a, b, c, d], sep) == a + [sep] + b + [sep] + c + [sep] + d
  {
    assert [a, b, c, d][..3] == [a, b, c];
    Join3(a, b, c, sep);
  }

  lemma RenderRow3(a: int, b: int, c: int)
    ensures RenderRow([a, b, c]) == IntToString(a) + " " + IntToString(b) + " " + IntToString(c)
  {
    assert Words([a, b, c]) == [IntToString(a), IntToString(b), IntToString(c)];
    Join3(IntToString(a), IntToString(b), IntToString(c), ' ');
  }

  lemma RenderRow4(a: int, b: int, c: int, d: int)
    ensures RenderRow([a, b, c, d]) == IntToString(a) + " " + IntToString(b) + " " + IntToString(c) + " " + IntToString(d)
  {
    assert Words([a, b, c, d]) == [IntToString(a), IntToString(b), IntToString(c), IntToString(d)];
    Join4(IntToString(a), IntToString(b), IntToString(c), IntToString(d), ' ');
  }

  lemma Render3(r1: seq<int>, r2: seq<int>, r3: seq<int>)
    ensures Render([r1, r2, r3]) == RenderRow(r1) + "\n" + RenderRow(r2) + "\n" + RenderRow(r3)
  {
    assert Lines([r1, r2, r3]) == [RenderRow(r1), RenderRow(r2), RenderRow(r3)];
    Join3(RenderRow(r1), RenderRow(r2), RenderRow(r3), '\n');
  }

  /** Single digits render as themselves. */
  lemma SmallInts()
    ensures IntToString(0) == "0" && IntToString(1) == "1" && IntToString(2) == "2"
    ensures IntToString(3) == "3" && IntToString(4) == "4" && IntToString(5) == "5"
    ensures IntToString(7) == "7" && IntToString(-1) == "-1"
  {
    assert DigitChar(1) == '1';
  }

  /** A 3 x 3 zero matrix renders as three lines of three zeros. */
  lemma RenderZeros()
    ensures Render([[0, 0, 0], [0, 0, 0], [0, 0, 0]]) == "0 0 0\n0 0 0\n0 0 0"
  {
    SmallInts();
    RenderRow3(0, 0, 0);
    Render3([0, 0, 0], [0, 0, 0], [0, 0, 0]);
  }

  /** The anti-diagonal example with 7, 5 and 3. */
  lemma RenderAntiDiagonal()
    ensures Render([[0, 0, 7], [0, 5, 0], [3, 0, 0]]) == "0 0 7\n0 5 0\n3 0 0"
  {
    SmallInts();
    RenderRow3(0, 0, 7);
    RenderRow3(0, 5, 0);
    RenderRow3(3, 0, 0);
    Render3([0, 0, 7], [0, 5, 0], [3, 0, 0]);
  }

  /** The 3 x 4 example with a negative entry. */
  lemma RenderStandard()
    ensures Render([[1, 0, 4, 5], [2, -1, 0, 0], [0, 0, 3, 2]]) == "1 0 4 5\n2 -1 0 0\n0 0 3 2"
  {
    SmallInts();
    RenderRow4(1, 0, 4, 5);
    RenderRow4(2, -1, 0, 0);
    RenderRow4(0, 0, 3, 2);
    Render3([1, 0, 4, 5], [2, -1, 0, 0], [0, 0, 3, 2]);
  }
}
