/** Text files as getline reads them and as they are written with an endl behind each line. */
module TextFiles {

  /** The length of the first line. */
  function LineEnd(text: string): (n: nat)
    ensures n <= |text| && '\n' !in text[..n] && (n < |text| ==> text[n] == '\n')
  {
    if text == "" || text[0] == '\n' then 0 else 1 + LineEnd(text[1..])
  }

  /** The lines of a text; one without a line end behind it counts if it has a character. */
  function Lines(text: string): seq<string>
    decreases |text|
  {
    var n := LineEnd(text);
    if text == "" then [] else [text[..n]] + if n < |text| then Lines(text[n + 1..]) else []
  }

  /** The text that is written for some lines. */
  function Text(lines: seq<string>): string {
    if lines == [] then "" else lines[0] + "\n" + Text(lines[1..])
  }

  predicate AreLines(lines: seq<string>) { forall l :: l in lines ==> '\n' !in l }

  lemma {:induction false} LineEndAt(text: string, n: nat)
    requires n <= |text| && '\n' !in text[..n] && (n < |text| ==> text[n] == '\n')
    ensures LineEnd(text) == n
  {
    if n > 0 {
      assert text[..n][0] == text[0] && text[1..][..n - 1] == text[..n][1..];
      LineEndAt(text[1..], n - 1);
    }
  }

  lemma {:induction false} LinesAreLines(text: string)
    ensures AreLines(Lines(text))
    decreases |text|
  {
    var n := LineEnd(text);
    if n < |text| {
      LinesAreLines(text[n + 1..]);
    }
  }

  lemma {:induction false} LinesBack(lines: seq<string>)
    requires AreLines(lines)
    ensures Lines(Text(lines)) == lines
  {
    if lines != [] {
      var text, n := Text(lines), |lines[0]|;
      assert text[..n] == lines[0] && text[n] == '\n' && text[n + 1..] == Text(lines[1..]);
      LineEndAt(text, n);
      LinesBack(lines[1..]);
    }
  }

  /** What is written is read back line by line exactly when no line has a line end in it. */
  lemma LinesBackExactly(lines: seq<string>)
    ensures Lines(Text(lines)) == lines <==> AreLines(lines)
  {
    LinesAreLines(Text(lines));
    if AreLines(lines) {
      LinesBack(lines);
    }
  }

  lemma FirstLine(text: string, at: nat, end: nat)
    requires at <= end <= |text| && at < |text| && '\n' !in text[at..end] && (end < |text| ==> text[end] == '\n')
    ensures Lines(text[at..]) == [text[at..end]] + Lines(text[if end < |text| then end + 1 else end..])
  {
    hide LineEnd;
    var s, n := text[at..], end - at;
    assert s[..n] == text[at..end] && (end < |text| ==> s[n] == text[end]);
    LineEndAt(s, n);
    if end < |text| {
      assert s[n + 1..] == text[end + 1..];
    }
  }

  /** getline at a position: the line, and where the next one starts. */
  method GetLine(text: string, at: nat) returns (line: string, next: nat)
    requires at < |text|
    ensures at < next <= |text| && Lines(text[at..]) == [line] + Lines(text[next..])
  {
    hide Lines;
    var end := at;
    while end < |text| && text[end] != '\n'
      invariant at <= end <= |text| && '\n' !in text[at..end]
    {
      assert text[at..end + 1] == text[at..end] + [text[end]];
      end := end + 1;
    }
    FirstLine(text, at, end);
    line, next := text[at..end], if end < |text| then end + 1 else end;
  }

  /** while (getline(in, s)) */
  method GetLines(text: string) returns (line: seq<string>)
    ensures line == Lines(text)
  {
    line := [];
    var at := 0;
    assert text[0..] == text;
    while at < |text|
      invariant 0 <= at <= |text| && line + Lines(text[at..]) == Lines(text)
    {
      var s, next := GetLine(text, at);
      assert line + ([s] + Lines(text[next..])) == line + [s] + Lines(text[next..]);
      line, at := line + [s], next;
    }
    assert text[at..] == "" && line + [] == line;
  }

  lemma {:induction false} TextSnoc(lines: seq<string>, s: string)
    ensures Text(lines + [s]) == Text(lines) + s + "\n"
  {
    if lines == [] {
      assert [] + [s] == [s] && [s][1..] == [];
    } else {
      assert (lines + [s])[1..] == lines[1..] + [s];
      TextSnoc(lines[1..], s);
    }
  }

  /** out << s << endl for each line */
  method PutLines(line: seq<string>) returns (text: string)
    ensures text == Text(line)
  {
    text := "";
    for i := 0 to |line|
      invariant text == Text(line[..i])
    {
      TextSnoc(line[..i], line[i]);
      assert line[..i + 1] == line[..i] + [line[i]];
      text := text + line[i] + "\n";
    }
    assert line[..|line|] == line;
  }
}
