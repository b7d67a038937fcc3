/** lib/libnet/network_interfaces.cpp: editing and reading the stanzas of an interfaces file. */
module NetworkInterfaces {
  import opened Tokenizer
  import opened TextFiles

  /** What one call of write_interface asks for; the attributes in the iteration order of the std::map. */
  datatype Settings = Settings(
    name: string, automatic: bool, family: string, methodName: string, attributes: seq<(string, string)>)

  predicate IsStanzaWord(w: string) { w in ["iface", "auto", "mapping"] }

  /** A line without words, or one whose first word starts with a hash. */
  predicate IsIgnored(t: seq<string>) { t == [] || (t[0] != "" && t[0][0] == '#') }

  predicate IsAttributeKey(w: string) { IsWord(w) && w[0] != '#' && !IsStanzaWord(w) }

  /** Settings made of single words, with keys that can be told from stanza words and comments. */
  predicate IsWritable(s: Settings) {
    && IsWord(s.name) && IsWord(s.family) && IsWord(s.methodName)
    && (forall i :: 0 <= i < |s.attributes| ==> IsAttributeKey(s.attributes[i].0) && IsWord(s.attributes[i].1))
  }

  // ----- what the lines written look like

  function Header(s: Settings): string { "iface " + s.name + " " + s.family + " " + s.methodName }

  function AutoLine(name: string): string { "auto " + name }

  function AttributeLine(a: (string, string)): string { "\t" + a.0 + " " + a.1 }

  function AttributeLines(attributes: seq<(string, string)>): seq<string> {
    if attributes == [] then []
    else AttributeLines(attributes[..|attributes| - 1]) + [AttributeLine(attributes[|attributes| - 1])]
  }

  function Stanza(s: Settings): seq<string> {
    (if s.automatic then [AutoLine(s.name)] else []) + [Header(s)] + AttributeLines(s.attributes)
  }

  function Others(name: string, words: seq<string>): seq<string> {
    if words == [] then []
    else
      var last := words[|words| - 1];
      Others(name, words[..|words| - 1]) + (if last != name then [last] else [])
  }

  /** An auto line without the name; empty when no other name is left. */
  function WithoutName(name: string, line: string): string {
    var t := Words(line);
    if t == [] || Others(name, t[1..]) == [] then "" else Spaced([t[0]] + Others(name, t[1..]))
  }

  predicate Names(name: string, t: seq<string>) { |t| >= 2 && t[0] == "iface" && t[1] == name }

  predicate StartsAutomatically(name: string, t: seq<string>) { t != [] && t[0] == "auto" && name in t[1..] }

  /** Some line opens a stanza for the name. */
  predicate Has(name: string, lines: seq<string>) {
    lines != [] && (Names(name, Words(lines[0])) || Has(name, lines[1..]))
  }

  /** The lines after one pass of the editing loop; own says that the pass is behind a header of the name. */
  function Rewrite(s: Settings, own: bool, lines: seq<string>): seq<string>
    decreases |lines|
  {
    if lines == [] then []
    else
      var t, rest := Words(lines[0]), lines[1..];
      if IsIgnored(t) then [lines[0]] + Rewrite(s, own, rest)
      else if Names(s.name, t) then Stanza(s) + Rewrite(s, true, rest)
      else if StartsAutomatically(s.name, t) then
        (if WithoutName(s.name, lines[0]) == "" then [] else [WithoutName(s.name, lines[0])]) + Rewrite(s, false, rest)
      else if own && !IsStanzaWord(t[0]) then Rewrite(s, true, rest)
      else [lines[0]] + Rewrite(s, false, rest)
  }

  /** The whole file after write_interface. */
  function Written(s: Settings, lines: seq<string>): seq<string> {
    Rewrite(s, false, lines) + (if Has(s.name, lines) then [] else Stanza(s))
  }

  // ----- reading

  /** Where read_interface stands: inside a stanza of the name or not, and which attributes it has assigned so far. */
  datatype Reader = Reader(
    inside: bool, automatic: bool, family: string, methodName: string, log: seq<(string, string)>)

  function AtTop(name: string, r: Reader, t: seq<string>): Reader {
    if Names(name, t) && |t| >= 4 then r.(inside := true, family := t[2], methodName := t[3])
    else r.(inside := false, automatic := r.automatic || StartsAutomatically(name, t))
  }

  function ReadLine(name: string, r: Reader, t: seq<string>): Reader {
    if IsIgnored(t) then r
    else if !r.inside || IsStanzaWord(t[0]) then AtTop(name, r, t)
    else if |t| >= 2 then r.(log := r.log + [(t[0], t[1])])
    else r
  }

  function ReadLines(name: string, r: Reader, lines: seq<string>): Reader
    decreases |lines|
  {
    if lines == [] then r else ReadLines(name, ReadLine(name, r, Words(lines[0])), lines[1..])
  }

  /** The map that results from the assignments in order. */
  function ToMap(log: seq<(string, string)>): map<string, string> {
    if log == [] then map[]
    else
      var last := log[|log| - 1];
      ToMap(log[..|log| - 1])[last.0 := last.1]
  }

  /** What read_interface reports, started with given family and method. */
  function Read(name: string, family: string, methodName: string, lines: seq<string>): Reader {
    ReadLines(name, Reader(false, false, family, methodName, []), lines)
  }

  // ----- the code

  /** The file: its text, when it is present. */
  class InterfacesFile {
    var present: bool
    var content: string

    /** read_file: none of its lines has a line end in it, and writing them gives back the text, but for a missing last
        line end. */
    method ReadFile() returns (ok: bool, line: seq<string>)
      ensures ok == present && AreLines(line)
      ensures line == if present then Lines(content) else []
    {
      ok, line := present, [];
      if present {
        line := GetLines(content);
        LinesAreLines(content);
      }
    }

    /** write_file: opening for writing may fail; otherwise the lines are read back exactly if they are lines. */
    method WriteFile(line: seq<string>) returns (ok: bool)
      modifies this
      ensures ok ==> present && content == Text(line) && (Lines(content) == line <==> AreLines(line))
      ensures !ok ==> present == old(present) && content == old(content)
    {
      if * {
        return false;
      }
      var text := PutLines(line);
      LinesBackExactly(line);
      present, content := true, text;
      return true;
    }

    /** read_interface; family and method keep their values when no stanza of the name is found. */
    method ReadInterface(name: string, family0: string, methodName0: string)
      returns (ok: bool, automatic: bool, family: string, methodName: string, attributes: map<string, string>)
      ensures ok == present
      ensures present ==> var r := Read(name, family0, methodName0, Lines(content));
        automatic == r.automatic && family == r.family && methodName == r.methodName && attributes == ToMap(r.log)
    {
      hide ToMap, Read;
      automatic, family, methodName, attributes := false, family0, methodName0, map[];
      ok := present;
      if present {
        var line := GetLines(content);
        automatic, family, methodName, attributes := Scan(name, family0, methodName0, line);
      }
    }

    /** write_interface: the file holds the rewritten lines, and they are read back as such if the settings are words. */
    method WriteInterface(s: Settings) returns (ok: bool)
      modifies this
      ensures ok ==> present && content == Text(Written(s, if old(present) then Lines(old(content)) else []))
      ensures ok && IsWritable(s) ==> Lines(content) == Written(s, if old(present) then Lines(old(content)) else [])
      ensures !ok ==> present == old(present) && content == old(content)
    {
      hide Written, IsWritable;
      var ok0, line := ReadFile();
      if IsWritable(s) {
        WrittenAreLines(s, line);
      }
      line := Edit(s, line);
      ok := WriteFile(line);
    }
  }

  // ----- no line that is written has a line end in it

  lemma {:induction false} SpacedIsLine(words: seq<string>)
    requires forall w :: w in words ==> IsWord(w)
    ensures '\n' !in Spaced(words)
  {
    if words != [] {
      assert IsWord(words[0]);
      assert '\n' !in words[0] && '\n' !in " ";
      SpacedIsLine(words[1..]);
    }
  }

  lemma {:induction false} OthersAre(name: string, words: seq<string>)
    ensures forall w :: w in Others(name, words) <==> w in words && w != name
  {
    if words != [] {
      OthersAre(name, words[..|words| - 1]);
      assert words == words[..|words| - 1] + [words[|words| - 1]];
    }
  }

  lemma WithoutNameIsLine(name: string, line: string)
    ensures '\n' !in WithoutName(name, line)
  {
    var t := Words(line);
    WordsAreWords("", line);
    if t != [] {
      OthersAre(name, t[1..]);
      SpacedIsLine([t[0]] + Others(name, t[1..]));
    }
  }

  lemma {:induction false} AttributesAreLines(a: seq<(string, string)>)
    requires forall i :: 0 <= i < |a| ==> IsAttributeKey(a[i].0) && IsWord(a[i].1)
    ensures AreLines(AttributeLines(a))
  {
    if a != [] {
      AttributesAreLines(a[..|a| - 1]);
    }
  }

  lemma StanzaIsLines(s: Settings)
    requires IsWritable(s)
    ensures AreLines(Stanza(s))
  {
    AttributesAreLines(s.attributes);
    assert '\n' !in Header(s) && '\n' !in AutoLine(s.name);
  }

  lemma {:induction false} RewriteIsLines(s: Settings, own: bool, lines: seq<string>)
    requires IsWritable(s) && AreLines(lines)
    ensures AreLines(Rewrite(s, own, lines))
    decreases |lines|
  {
    hide Words, WithoutName, Stanza, IsWritable;
    if lines != [] {
      StanzaIsLines(s);
      WithoutNameIsLine(s.name, lines[0]);
      RewriteIsLines(s, true, lines[1..]);
      RewriteIsLines(s, false, lines[1..]);
    }
  }

  /** Writable settings go into a file of lines as lines. */
  lemma WrittenAreLines(s: Settings, lines: seq<string>)
    requires IsWritable(s) && AreLines(lines)
    ensures AreLines(Written(s, lines))
  {
    hide Rewrite, Stanza, Has, IsWritable;
    RewriteIsLines(s, false, lines);
    StanzaIsLines(s);
  }

  /** read_interface on an open file. */
  method Scan(name: string, family0: string, methodName0: string, content: seq<string>)
    returns (automatic: bool, family: string, methodName: string, attributes: map<string, string>)
    ensures var r := Read(name, family0, methodName0, content);
      automatic == r.automatic && family == r.family && methodName == r.methodName && attributes == ToMap(r.log)
  {
    hide Words, ToMap, ReadLines, ReadLine;
    automatic, family, methodName, attributes := false, family0, methodName0, map[];
    EmptyToMap();
    ghost var log := [];
    var next, advance := 0, true;
    assert content[0..] == content;
    NoLines(name);
    while true
      invariant 0 <= next <= |content| && (!advance ==> next > 0)
      invariant attributes == ToMap(log)
      invariant ReadLines(name, Reader(false, automatic, family, methodName, log), content[if advance then next else next - 1..])
        == Read(name, family0, methodName0, content)
      decreases |content| - next, !advance
    {
      if advance {
        if next == |content| {
          break;
        }
        next := next + 1;
      } else {
        advance := true;
      }
      var words := Words(content[next - 1]);
      assert content[next - 1..][1..] == content[next..];
      TopLine(name, Reader(false, automatic, family, methodName, log), content[next - 1..]);
      if words == [] || words[0] != "iface" {
        if words != [] && words[0] == "auto" && name in words[1..] {
          automatic := true;
        }
      } else if |words| >= 2 && words[1] == name && |words| >= 4 {
        family, methodName := words[2], words[3];
        ghost var r := Reader(true, automatic, family, methodName, log);
        var end;
        next, end, attributes, log := ScanStanza(name, content, next, attributes, r);
        if end {
          return;
        }
        advance := false;
      }
    }
  }

  /** The inner loop of read_interface: the attribute lines of one stanza, up to the next stanza word (read again
      by the outer loop) or the end of the file. */
  method ScanStanza(name: string, content: seq<string>, from: nat, attributes0: map<string, string>, ghost r: Reader)
    returns (next: nat, end: bool, attributes: map<string, string>, ghost log: seq<(string, string)>)
    requires from <= |content| && r.inside && attributes0 == ToMap(r.log)
    ensures from <= next <= |content| && attributes == ToMap(log)
    ensures end ==> ReadLines(name, r, content[from..]) == r.(log := log)
    ensures !end ==>
      && next > from
      && ReadLines(name, r, content[from..]) == ReadLines(name, r.(log := log, inside := false), content[next - 1..])
  {
    hide Words, ToMap;
    next, attributes, log := from, attributes0, r.log;
    while true
      invariant from <= next <= |content| && attributes == ToMap(log)
      invariant ReadLines(name, r, content[from..]) == ReadLines(name, r.(log := log), content[next..])
      decreases |content| - next
    {
      if next == |content| {
        end := true;
        return;
      }
      next := next + 1;
      var words := Words(content[next - 1]);
      assert content[next - 1..][1..] == content[next..];
      if words == [] || (words[0] != "" && words[0][0] == '#') {
        continue;
      }
      if words[0] == "iface" || words[0] == "auto" || words[0] == "mapping" {
        break;
      }
      if |words| < 2 {
        continue;
      }
      ToMapSnoc(log, (words[0], words[1]));
      attributes, log := attributes[words[0] := words[1]], log + [(words[0], words[1])];
    }
    end := false;
    LeavingStanza(name, r.(log := log), content[next - 1..]);
  }

  /** At top level every line, ignored or not, is read alike. */
  lemma TopLine(name: string, r: Reader, lines: seq<string>)
    requires lines != [] && !r.inside
    ensures ReadLines(name, r, lines) == ReadLines(name, AtTop(name, r, Words(lines[0])), lines[1..])
  {
  }

  lemma NoLines(name: string)
    ensures forall r :: ReadLines(name, r, []) == r
  {
  }

  lemma EmptyToMap()
    ensures ToMap([]) == map[]
  {
  }

  lemma ToMapSnoc(log: seq<(string, string)>, a: (string, string))
    ensures ToMap(log + [a]) == ToMap(log)[a.0 := a.1]
  {
    assert (log + [a])[..|log|] == log;
  }

  /** A stanza word ends a stanza: the line is read as one at top level. */
  lemma LeavingStanza(name: string, r: Reader, lines: seq<string>)
    requires lines != [] && !IsIgnored(Words(lines[0])) && IsStanzaWord(Words(lines[0])[0])
    ensures ReadLines(name, r, lines) == ReadLines(name, r.(inside := false), lines)
  {
  }

  /** write_interface between reading and writing the file. */
  method Edit(s: Settings, before: seq<string>) returns (line: seq<string>)
    ensures line == Written(s, before)
  {
    hide Words, Rewrite, Has, Header, AutoLine, AttributeLines;
    var found;
    line, found := EditLines(s, before);
    if !found {
      ghost var edited := line;
      if s.automatic {
        line := line + [AutoLine(s.name)];
      }
      line := line + [Header(s)];
      line := AddAttributes(s.attributes, line, |line|);
      assert line == edited + Stanza(s);
    }
  }

  /** The editing loop. */
  method EditLines(s: Settings, before: seq<string>) returns (line: seq<string>, found: bool)
    ensures line == Rewrite(s, false, before) && found == Has(s.name, before)
  {
    hide Words, Stanza, WithoutName;
    line, found := before, false;
    var it := 0;
    assert line[..0] == [] && line[0..] == before;
    while it < |line|
      invariant 0 <= it <= |line|
      invariant line[..it] + Rewrite(s, false, line[it..]) == Rewrite(s, false, before)
      invariant (found || Has(s.name, line[it..])) == Has(s.name, before)
      decreases |line| - it
    {
      var words := Words(line[it]);
      if words == [] || words[0] != "iface" {
        if words != [] && words[0] == "auto" && s.name in words[1..] {
          line, it := EditAutoLine(s, line, it);
        } else {
          it := Keep(s, line, it);
        }
      } else if |words| < 2 || words[1] != s.name {
        it := Keep(s, line, it);
      } else {
        found := true;
        line, it := ReplaceStanza(s, line, it);
      }
    }
    assert line[..it] + [] == line;
  }

  /** it++ on a line that is none of the interface's business. */
  method Keep(s: Settings, line: seq<string>, it: nat) returns (next: nat)
    requires it < |line| && !Names(s.name, Words(line[it])) && !StartsAutomatically(s.name, Words(line[it]))
    ensures next == it + 1
    ensures line[..next] + Rewrite(s, false, line[next..]) == line[..it] + Rewrite(s, false, line[it..])
    ensures Has(s.name, line[next..]) == Has(s.name, line[it..])
  {
    next := it + 1;
    assert line[it..][1..] == line[next..] && line[..next] == line[..it] + [line[it]];
  }

  /** The name leaves an auto line, and an auto line without names leaves the file. */
  method EditAutoLine(s: Settings, line: seq<string>, it: nat) returns (r: seq<string>, next: nat)
    requires it < |line| && StartsAutomatically(s.name, Words(line[it]))
    ensures next <= |r| && |r| - next == |line| - it - 1
    ensures r[..next] + Rewrite(s, false, r[next..]) == line[..it] + Rewrite(s, false, line[it..])
    ensures Has(s.name, r[next..]) == Has(s.name, line[it..])
  {
    var shorter := RemoveInterfaceFromLine(s.name, line[it]);
    assert line[it..][1..] == line[it + 1..];
    if shorter == "" {
      r, next := line[..it] + line[it + 1..], it;
      assert r[..next] == line[..it] && r[next..] == line[it + 1..];
    } else {
      r, next := line[it := shorter], it + 1;
      assert r[..next] == line[..it] + [shorter] && r[next..] == line[it + 1..];
    }
  }

  /** A stanza of the name is replaced: header, automatic start in front of it, new attributes, old attributes gone. */
  method ReplaceStanza(s: Settings, line: seq<string>, it: nat) returns (r: seq<string>, next: nat)
    requires it < |line| && Names(s.name, Words(line[it]))
    ensures next <= |r| && |r| - next < |line| - it
    ensures r[..next] + Rewrite(s, false, r[next..]) == line[..it] + Rewrite(s, false, line[it..])
    ensures Has(s.name, line[it..])
  {
    ghost var done, rest := line[..it], line[it + 1..];
    assert line[it..][1..] == rest;
    r, next := line[it := Header(s)], it;
    assert r == done + [Header(s)] + rest;
    if s.automatic {
      r := r[..next] + [AutoLine(s.name)] + r[next..];
      next := next + 1;
      assert r == done + [AutoLine(s.name)] + [Header(s)] + rest;
    }
    next := next + 1;
    var tail := |r| - next;
    r := AddAttributes(s.attributes, r, next);
    next := |r| - tail;
    assert r[..next] == done + Stanza(s) && r[next..] == rest;
    r, next := RemoveAttributes(s, r, next);
    assert done + Stanza(s) + Rewrite(s, true, rest) == done + (Stanza(s) + Rewrite(s, true, rest));
  }

  /** add_attributes: the lines go in front of the given position. */
  method AddAttributes(attributes: seq<(string, string)>, line: seq<string>, here: nat) returns (r: seq<string>)
    requires here <= |line|
    ensures r == line[..here] + AttributeLines(attributes) + line[here..]
  {
    r := line;
    ghost var added := [];
    for i := 0 to |attributes|
      invariant added == AttributeLines(attributes[..i])
      invariant r == line[..here] + added + line[here..]
    {
      var at := |r| - (|line| - here);
      r := r[..at] + [AttributeLine(attributes[i])] + r[at..];
      added := added + [AttributeLine(attributes[i])];
      assert attributes[..i + 1][..i] == attributes[..i];
    }
    assert attributes[..|attributes|] == attributes;
  }

  /** remove_interface_from_line */
  method RemoveInterfaceFromLine(name: string, line: string) returns (r: string)
    ensures r == WithoutName(name, line)
  {
    var words := Words(line);
    var out, atLeastOne := "", false;
    if words != [] {
      out := words[0];
      ghost var kept := [];
      var k := 1;
      while k < |words|
        invariant 1 <= k <= |words|
        invariant kept == Others(name, words[1..k]) && atLeastOne == (kept != [])
        invariant out == Spaced([words[0]] + kept)
      {
        hide Spaced, Others, Words;
        NextOther(name, words, k);
        if words[k] != name {
          out := out + " " + words[k];
          atLeastOne := true;
          kept := kept + [words[k]];
        }
        k := k + 1;
      }
      assert words[1..|words|] == words[1..];
    }
    r := if atLeastOne then out else "";
  }

  lemma OthersSnoc(name: string, words: seq<string>, w: string)
    ensures Others(name, words + [w]) == Others(name, words) + (if w != name then [w] else [])
  {
    assert (words + [w])[..|words|] == words;
  }

  lemma NextOther(name: string, words: seq<string>, k: nat)
    requires 1 <= k < |words|
    ensures var kept := Others(name, words[1..k]);
      && Others(name, words[1..k + 1]) == kept + (if words[k] != name then [words[k]] else [])
      && Spaced([words[0]] + (kept + [words[k]])) == Spaced([words[0]] + kept) + " " + words[k]
  {
    var kept := Others(name, words[1..k]);
    assert words[1..k + 1] == words[1..k] + [words[k]];
    OthersSnoc(name, words[1..k], words[k]);
    SpacedSnoc([words[0]] + kept, words[k]);
    assert [words[0]] + kept + [words[k]] == [words[0]] + (kept + [words[k]]);
  }

  lemma {:induction false} SpacedSnoc(words: seq<string>, w: string)
    requires words != []
    ensures Spaced(words + [w]) == Spaced(words) + " " + w
  {
    if |words| == 1 {
      assert (words + [w])[1..] == [w];
    } else {
      assert (words + [w])[1..] == words[1..] + [w];
      SpacedSnoc(words[1..], w);
      assert words[0] + " " + (Spaced(words[1..]) + " " + w) == Spaced(words) + " " + w;
    }
  }

  /** The inner loop of write_interface: erase up to the next stanza, but keep blank lines and comments. */
  method RemoveAttributes(s: Settings, line: seq<string>, here: nat) returns (r: seq<string>, it: nat)
    requires here <= |line|
    ensures it <= |r| && |r| - it <= |line| - here
    ensures r[..it] + Rewrite(s, false, r[it..]) == line[..here] + Rewrite(s, true, line[here..])
  {
    r, it := line, here;
    while it < |r|
      invariant 0 <= it <= |r| && |r| - it <= |line| - here
      invariant r[..it] + Rewrite(s, true, r[it..]) == line[..here] + Rewrite(s, true, line[here..])
      decreases |r| - it
    {
      var words := Words(r[it]);
      ghost var rest := r[it + 1..];
      assert r[it..][1..] == rest;
      if words == [] {
        assert r[..it + 1] == r[..it] + [r[it]];
        it := it + 1;
        continue;
      }
      if words[0] != "" && words[0][0] == '#' {
        assert r[..it + 1] == r[..it] + [r[it]];
        it := it + 1;
        continue;
      }
      if words[0] == "iface" || words[0] == "auto" || words[0] == "mapping" {
        break;
      }
      r := r[..it] + r[it + 1..];
      assert r[it..] == rest;
    }
  }
}