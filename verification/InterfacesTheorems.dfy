/** What write_interface and read_interface guarantee to each other, and exactly when. */
module InterfacesTheorems {
  import opened Tokenizer
  import opened TextFiles
  import opened NetworkInterfaces

  // ----- the words of the lines that are written

  lemma HeaderWords(s: Settings)
    requires IsWritable(s)
    ensures Words(Header(s)) == ["iface", s.name, s.family, s.methodName]
  {
    SpacedSnoc(["iface"], s.name);
    SpacedSnoc(["iface", s.name], s.family);
    SpacedSnoc(["iface", s.name, s.family], s.methodName);
    assert ["iface"] + [s.name] == ["iface", s.name];
    assert ["iface", s.name] + [s.family] == ["iface", s.name, s.family];
    assert ["iface", s.name, s.family] + [s.methodName] == ["iface", s.name, s.family, s.methodName];
    assert "iface" + " " == "iface ";
    WordsOfSpaced(["iface", s.name, s.family, s.methodName]);
  }

  lemma AutoLineWords(name: string)
    requires IsWord(name)
    ensures Words(AutoLine(name)) == ["auto", name]
    ensures WithoutName(name, AutoLine(name)) == ""
  {
    var w := ["auto", name];
    assert w[1..] == [name];
    assert Spaced(w) == AutoLine(name);
    WordsOfSpaced(w);
    assert Others(name, [name]) == Others(name, [name][..0]);
  }

  lemma AttributeWords(a: (string, string))
    requires IsAttributeKey(a.0) && IsWord(a.1)
    ensures Words(AttributeLine(a)) == [a.0, a.1]
  {
    var w := [a.0, a.1];
    assert w[1..] == [a.1];
    assert AttributeLine(a) == ['\t'] + Spaced(w);
    LeadingSpace('\t', Spaced(w));
    WordsOfSpaced(w);
  }

  lemma ShortenedWords(name: string, line: string)
    requires StartsAutomatically(name, Words(line))
    ensures WithoutName(name, line) == "" ==> forall w :: w in Words(line)[1..] ==> w == name
    ensures WithoutName(name, line) != "" ==>
      && Words(WithoutName(name, line)) == ["auto"] + Others(name, Words(line)[1..])
      && forall w :: w in Words(WithoutName(name, line))[1..] <==> w in Words(line)[1..] && w != name
  {
    var t := Words(line);
    WordsAreWords("", line);
    OthersAre(name, t[1..]);
    var w := ["auto"] + Others(name, t[1..]);
    assert w[1..] == Others(name, t[1..]);
    forall i | 0 <= i < |w|
      ensures IsWord(w[i])
    {
      assert i > 0 ==> w[i] in Others(name, t[1..]) && w[i] in t;
    }
    WordsOfSpaced(w);
  }

  // ----- following a reader through the rewriting

  /** Where the reader of interface o is while name is rewritten: outside its stanza, inside it in the old file too,
      or inside only because the auto line that ended the stanza was erased. */
  datatype Place = Away | Own | Exposed

  function Follow(name: string, o: string, p: Place, line: string): Place {
    var t := Words(line);
    if IsIgnored(t) then p
    else if Names(name, t) then if o == name then Own else Away
    else if StartsAutomatically(name, t) then if p != Away && WithoutName(name, line) == "" then Exposed else Away
    else if IsStanzaWord(t[0]) then if Names(o, t) && |t| >= 4 then Own else Away
    else p
  }

  predicate IsPlainLine(t: seq<string>) { !IsIgnored(t) && !IsStanzaWord(t[0]) }

  /** Behind a stanza of o, erasing an auto line leaves a line of at least n words to be taken for an attribute of o. */
  predicate Exposes(name: string, o: string, n: nat, p: Place, lines: seq<string>)
    decreases |lines|
  {
    lines != [] && (
      || (p == Exposed && IsPlainLine(Words(lines[0])) && |Words(lines[0])| >= n)
      || Exposes(name, o, n, Follow(name, o, p, lines[0]), lines[1..]))
  }

  lemma {:induction false} ReadLinesAppend(name: string, r: Reader, a: seq<string>, b: seq<string>)
    ensures ReadLines(name, r, a + b) == ReadLines(name, ReadLines(name, r, a), b)
    decreases |a|
  {
    if a == [] {
      assert a + b == b;
    } else {
      assert (a + b)[1..] == a[1..] + b;
      ReadLinesAppend(name, ReadLine(name, r, Words(a[0])), a[1..], b);
    }
  }

  lemma ReadOne(name: string, r: Reader, line: string, rest: seq<string>)
    ensures ReadLines(name, r, [line] + rest) == ReadLines(name, ReadLine(name, r, Words(line)), rest)
  {
    assert ([line] + rest)[1..] == rest;
  }

  /** Attribute lines are read inside a stanza and passed over outside. */
  lemma {:induction false} ReadAttributes(name: string, r: Reader, attributes: seq<(string, string)>)
    requires forall i :: 0 <= i < |attributes| ==> IsAttributeKey(attributes[i].0) && IsWord(attributes[i].1)
    ensures ReadLines(name, r, AttributeLines(attributes)) == if r.inside then r.(log := r.log + attributes) else r
  {
    if attributes == [] {
      assert r.log + [] == r.log;
    } else {
      var n := |attributes| - 1;
      ReadAttributes(name, r, attributes[..n]);
      AttributeWords(attributes[n]);
      var line := AttributeLine(attributes[n]);
      ReadLinesAppend(name, r, AttributeLines(attributes[..n]), [line]);
      assert [line] == [line] + [];
      ReadOne(name, ReadLines(name, r, AttributeLines(attributes[..n])), line, []);
      assert r.log + attributes[..n] + [attributes[n]] == r.log + attributes;
    }
  }

  lemma ReadStanza(s: Settings, o: string, r: Reader)
    requires IsWritable(s)
    ensures ReadLines(o, r, Stanza(s)) ==
      if o == s.name then Reader(true, r.automatic || s.automatic, s.family, s.methodName, r.log + s.attributes)
      else r.(inside := false)
  {
    var attributes := AttributeLines(s.attributes);
    var r1 := if s.automatic then ReadLine(o, r, Words(AutoLine(s.name))) else r;
    AutoLineWords(s.name);
    HeaderWords(s);
    if s.automatic {
      assert Stanza(s) == [AutoLine(s.name)] + ([Header(s)] + attributes);
      ReadOne(o, r, AutoLine(s.name), [Header(s)] + attributes);
    } else {
      assert Stanza(s) == [Header(s)] + attributes;
    }
    ReadOne(o, r1, Header(s), attributes);
    ReadAttributes(o, ReadLine(o, r1, Words(Header(s))), s.attributes);
  }

  lemma {:induction false} ToMapAppend(a: seq<(string, string)>, b: seq<(string, string)>)
    ensures ToMap(a + b) == ToMap(a) + ToMap(b)
    decreases |b|
  {
    if b == [] {
      assert a + b == a;
    } else {
      var n := |b| - 1;
      assert (a + b)[..|a + b| - 1] == a + b[..n];
      ToMapAppend(a, b[..n]);
    }
  }

  /** What Rewrite puts in the place of one line. */
  function Emitted(s: Settings, own: bool, line: string): seq<string> {
    var t := Words(line);
    if IsIgnored(t) then [line]
    else if Names(s.name, t) then Stanza(s)
    else if StartsAutomatically(s.name, t) then
      if WithoutName(s.name, line) == "" then [] else [WithoutName(s.name, line)]
    else if own && !IsStanzaWord(t[0]) then []
    else [line]
  }

  /** Whether the line after this one is handled as part of a stanza of the name. */
  function StillOwn(s: Settings, own: bool, line: string): bool {
    var t := Words(line);
    if Names(s.name, t) then true else own && (IsIgnored(t) || !IsStanzaWord(t[0]))
  }

  lemma RewriteOne(s: Settings, own: bool, lines: seq<string>)
    requires lines != []
    ensures Rewrite(s, own, lines) == Emitted(s, own, lines[0]) + Rewrite(s, StillOwn(s, own, lines[0]), lines[1..])
  {
    hide Words, Stanza, WithoutName;
  }

  /** The interface's own reader over what replaces one line: before and after it stands where Follow says. */
  lemma OwnReaderStep(s: Settings, p: Place, line: string, r: Reader)
    requires IsWritable(s) && r.inside == (p != Away)
    requires !(p == Exposed && IsPlainLine(Words(line)) && |Words(line)| >= 2)
    ensures StillOwn(s, p == Own, line) == (Follow(s.name, s.name, p, line) == Own)
    ensures ReadLines(s.name, r, Emitted(s, p == Own, line)) ==
      if Names(s.name, Words(line)) then
        Reader(true, r.automatic || s.automatic, s.family, s.methodName, r.log + s.attributes)
      else r.(inside := Follow(s.name, s.name, p, line) != Away)
  {
    hide Words, Stanza, WithoutName, Others;
    var t := Words(line);
    ReadStanza(s, s.name, r);
    if StartsAutomatically(s.name, t) {
      ShortenedWords(s.name, line);
    }
    var e := Emitted(s, p == Own, line);
    if |e| == 1 {
      assert e == [e[0]] + [];
      ReadOne(s.name, r, e[0], []);
    }
  }

  lemma FirstLine(name: string, n: nat, p: Place, lines: seq<string>)
    requires lines != []
    ensures Has(name, lines) <==> Names(name, Words(lines[0])) || Has(name, lines[1..])
    ensures !Exposes(name, name, n, p, lines) ==>
      && !(p == Exposed && IsPlainLine(Words(lines[0])) && |Words(lines[0])| >= n)
      && !Exposes(name, name, n, Follow(name, name, p, lines[0]), lines[1..])
  {
    hide Words, Follow, Names, IsPlainLine;
  }

  lemma {:induction false} ReadsBack(s: Settings, p: Place, lines: seq<string>, r: Reader)
    requires IsWritable(s) && r.inside == (p != Away) && !Exposes(s.name, s.name, 2, p, lines)
    ensures var q := ReadLines(s.name, r, Rewrite(s, p == Own, lines));
      if Has(s.name, lines) then
        && q.automatic == (r.automatic || s.automatic) && q.family == s.family && q.methodName == s.methodName
        && ToMap(q.log) == ToMap(r.log) + ToMap(s.attributes)
      else q.(inside := false) == r.(inside := false)
    decreases |lines|
  {
    if lines != [] {
      hide Words, Rewrite, Emitted, Follow, ToMap, ReadLines, IsWritable, StillOwn, Names, IsPlainLine, Has, Exposes;
      var line, rest := lines[0], lines[1..];
      var p1, e := Follow(s.name, s.name, p, line), Emitted(s, p == Own, line);
      var r1 := ReadLines(s.name, r, e);
      FirstLine(s.name, 2, p, lines);
      OwnReaderStep(s, p, line, r);
      RewriteOne(s, p == Own, lines);
      ReadLinesAppend(s.name, r, e, Rewrite(s, p1 == Own, rest));
      ToMapAppend(r.log, s.attributes);
      ReadsBack(s, p1, rest, r1);
    }
  }

  lemma {:induction false} LogGrows(name: string, r: Reader, lines: seq<string>)
    ensures r.log <= ReadLines(name, r, lines).log
    decreases |lines|
  {
    if lines != [] {
      LogGrows(name, ReadLine(name, r, Words(lines[0])), lines[1..]);
    }
  }

  /** When attributes get exposed, the interface's own reader assigns at least one that was never written. */
  lemma {:induction false} ReadsTooMuch(s: Settings, p: Place, lines: seq<string>, r: Reader)
    requires IsWritable(s) && r.inside == (p != Away) && Exposes(s.name, s.name, 2, p, lines)
    ensures |ReadLines(s.name, r, Rewrite(s, p == Own, lines)).log| > |r.log|
    decreases |lines|
  {
    var line, rest := lines[0], lines[1..];
    RewriteOne(s, p == Own, lines);
    if p == Exposed && IsPlainLine(Words(line)) && |Words(line)| >= 2 {
      ReadOne(s.name, r, line, Rewrite(s, false, rest));
      LogGrows(s.name, ReadLine(s.name, r, Words(line)), Rewrite(s, false, rest));
    } else {
      hide Words, Rewrite, Emitted, Follow, ToMap, ReadLines, IsWritable, StillOwn, Names;
      var p1, e := Follow(s.name, s.name, p, line), Emitted(s, p == Own, line);
      OwnReaderStep(s, p, line, r);
      ReadLinesAppend(s.name, r, e, Rewrite(s, p1 == Own, rest));
      ReadsTooMuch(s, p1, rest, ReadLines(s.name, r, e));
    }
  }

  /** read_interface reports exactly what write_interface was given. */
  predicate RoundTrips(s: Settings, family0: string, methodName0: string, lines: seq<string>) {
    var q := Read(s.name, family0, methodName0, Written(s, lines));
    q.automatic == s.automatic && q.family == s.family && q.methodName == s.methodName && ToMap(q.log) == ToMap(s.attributes)
  }

  lemma RoundTrip(s: Settings, family0: string, methodName0: string, lines: seq<string>)
    requires IsWritable(s) && !Exposes(s.name, s.name, 2, Away, lines)
    ensures RoundTrips(s, family0, methodName0, lines)
  {
    hide Words, Rewrite, Stanza;
    var r := Reader(false, false, family0, methodName0, []);
    ReadsBack(s, Away, lines, r);
    var edited := Rewrite(s, false, lines);
    var q := ReadLines(s.name, r, edited);
    ReadLinesAppend(s.name, r, edited, Stanza(s));
    ReadStanza(s, s.name, q);
    if Has(s.name, lines) {
      assert edited + [] == edited;
    } else {
      assert [] + s.attributes == s.attributes;
    }
  }

  /** With no attributes to write, an exposed line is reported as one. */
  lemma NoRoundTrip(s: Settings, family0: string, methodName0: string, lines: seq<string>)
    requires IsWritable(s) && s.attributes == [] && Exposes(s.name, s.name, 2, Away, lines)
    ensures !RoundTrips(s, family0, methodName0, lines)
  {
    hide Words, Rewrite, Stanza;
    var r := Reader(false, false, family0, methodName0, []);
    var edited := Rewrite(s, false, lines);
    var tail := if Has(s.name, lines) then [] else Stanza(s);
    ReadsTooMuch(s, Away, lines, r);
    ReadLinesAppend(s.name, r, edited, tail);
    var q := Read(s.name, family0, methodName0, Written(s, lines));
    LogGrows(s.name, ReadLines(s.name, r, edited), tail);
    assert q.log != [];
    assert q.log[|q.log| - 1].0 in ToMap(q.log);
  }

  lemma DhcpIsWritable(name: string)
    requires IsWord(name)
    ensures IsWritable(Settings(name, false, "inet", "dhcp", []))
  {
  }

  lemma StaticWords()
    ensures IsWord("inet") && IsWord("static") && IsAttributeKey("netmask")
  {
  }

  lemma StaticKeys()
    ensures IsAttributeKey("broadcast") && IsAttributeKey("gateway")
  {
  }

  /** What setStaticAttributes writes. */
  lemma StaticIsWritable(name: string, automatic: bool, address: string, netmask: string, broadcast: string, gateway: string)
    requires IsWord(name) && IsWord(address) && IsWord(netmask) && IsWord(broadcast) && IsWord(gateway)
    ensures IsWritable(Settings(name, automatic, "inet", "static",
      [("address", address), ("broadcast", broadcast), ("gateway", gateway), ("netmask", netmask)]))
  {
    hide IsWord, IsAttributeKey;
    AddressIsAttribute();
    StaticWords();
    StaticKeys();
  }

  /** What is written for a name is what is read back, whatever is written, exactly when the old file exposes no
      line of two or more words behind a stanza of the name. */
  lemma RoundTripExactly(name: string, family0: string, methodName0: string, lines: seq<string>)
    requires IsWord(name)
    ensures (forall s: Settings :: IsWritable(s) && s.name == name ==> RoundTrips(s, family0, methodName0, lines))
      <==> !Exposes(name, name, 2, Away, lines)
  {
    hide Exposes, RoundTrips, IsWritable;
    if Exposes(name, name, 2, Away, lines) {
      var s := Settings(name, false, "inet", "dhcp", []);
      DhcpIsWritable(name);
      NoRoundTrip(s, family0, methodName0, lines);
    } else {
      forall s: Settings | IsWritable(s) && s.name == name
        ensures RoundTrips(s, family0, methodName0, lines)
      {
        RoundTrip(s, family0, methodName0, lines);
      }
    }
  }

  // ----- writing the same again

  lemma {:induction false} StripAttributes(s: Settings, a: seq<(string, string)>, rest: seq<string>)
    requires forall i :: 0 <= i < |a| ==> IsAttributeKey(a[i].0) && IsWord(a[i].1)
    ensures Rewrite(s, true, AttributeLines(a) + rest) == Rewrite(s, true, rest)
  {
    if a == [] {
      assert AttributeLines(a) + rest == rest;
    } else {
      var n := |a| - 1;
      var line := AttributeLine(a[n]);
      AttributeWords(a[n]);
      assert AttributeLines(a) + rest == AttributeLines(a[..n]) + ([line] + rest);
      StripAttributes(s, a[..n], [line] + rest);
      assert ([line] + rest)[1..] == rest;
    }
  }

  /** A written stanza is replaced by itself. */
  lemma RewriteStanza(s: Settings, own: bool, rest: seq<string>)
    requires IsWritable(s)
    ensures Rewrite(s, own, Stanza(s) + rest) == Stanza(s) + Rewrite(s, true, rest)
  {
    hide Words, WithoutName;
    var body := [Header(s)] + (AttributeLines(s.attributes) + rest);
    AutoLineWords(s.name);
    HeaderWords(s);
    StripAttributes(s, s.attributes, rest);
    assert body[1..] == AttributeLines(s.attributes) + rest;
    if s.automatic {
      assert Stanza(s) + rest == [AutoLine(s.name)] + body;
      assert ([AutoLine(s.name)] + body)[1..] == body;
      assert Rewrite(s, own, [AutoLine(s.name)] + body) == [] + Rewrite(s, false, body);
    } else {
      assert Stanza(s) + rest == body;
    }
  }

  /** The second pass over what replaced one line. */
  lemma SecondPass(s: Settings, p: Place, line: string, rest: seq<string>)
    requires IsWritable(s)
    ensures var p1 := Follow(s.name, s.name, p, line); var e := Emitted(s, p == Own, line);
      Rewrite(s, p != Away, e + rest) ==
        (if p == Exposed && IsPlainLine(Words(line)) then [] else e) + Rewrite(s, p1 != Away, rest)
  {
    hide Words, WithoutName, Stanza, Others;
    var e := Emitted(s, p == Own, line);
    RewriteStanza(s, p != Away, rest);
    if StartsAutomatically(s.name, Words(line)) {
      ShortenedWords(s.name, line);
    }
    if |e| == 1 {
      assert (e + rest)[1..] == rest;
    } else if e == [] {
      assert e + rest == rest;
    }
  }

  /** A second pass keeps the first one's result, except for exposed lines, which it erases. */
  lemma {:induction false} RewriteAgain(s: Settings, p: Place, lines: seq<string>)
    requires IsWritable(s)
    ensures var once := Rewrite(s, p == Own, lines); var twice := Rewrite(s, p != Away, once);
      if Exposes(s.name, s.name, 1, p, lines) then |twice| < |once| else twice == once
    decreases |lines|
  {
    if lines != [] {
      var line, rest := lines[0], lines[1..];
      var p1, e := Follow(s.name, s.name, p, line), Emitted(s, p == Own, line);
      RewriteOne(s, p == Own, lines);
      assert StillOwn(s, p == Own, line) == (p1 == Own);
      SecondPass(s, p, line, Rewrite(s, p1 == Own, rest));
      RewriteAgain(s, p1, rest);
    }
  }

  lemma {:induction false} NothingExposed(s: Settings, n: nat, lines: seq<string>)
    requires !Has(s.name, lines)
    ensures !Exposes(s.name, s.name, n, Away, lines)
    decreases |lines|
  {
    if lines != [] {
      NothingExposed(s, n, lines[1..]);
    }
  }

  /** Without a stanza of the name the pass never enters one, and what follows is edited on its own. */
  lemma {:induction false} RewriteAppend(s: Settings, a: seq<string>, b: seq<string>)
    requires !Has(s.name, a)
    ensures Rewrite(s, false, a + b) == Rewrite(s, false, a) + Rewrite(s, false, b)
    decreases |a|
  {
    if a == [] {
      assert a + b == b;
    } else {
      RewriteAppend(s, a[1..], b);
      RewriteAppendStep(s, a, b);
    }
  }

  lemma RewriteAppendStep(s: Settings, a: seq<string>, b: seq<string>)
    requires a != [] && !Names(s.name, Words(a[0]))
    requires Rewrite(s, false, a[1..] + b) == Rewrite(s, false, a[1..]) + Rewrite(s, false, b)
    ensures Rewrite(s, false, a + b) == Rewrite(s, false, a) + Rewrite(s, false, b)
  {
    hide Words, Rewrite, Emitted, Names, IsIgnored;
    RewriteOne(s, false, a);
    RewriteOne(s, false, a + b);
    assert (a + b)[1..] == a[1..] + b;
  }

  lemma {:induction false} HasAppend(name: string, a: seq<string>, b: seq<string>)
    ensures Has(name, a + b) == (Has(name, a) || Has(name, b))
    decreases |a|
  {
    if a == [] {
      assert a + b == b;
    } else {
      assert (a + b)[1..] == a[1..] + b;
      HasAppend(name, a[1..], b);
    }
  }

  lemma StanzaHas(s: Settings, rest: seq<string>)
    requires IsWritable(s)
    ensures Has(s.name, Stanza(s) + rest)
  {
    HeaderWords(s);
    var body := [Header(s)] + (AttributeLines(s.attributes) + rest);
    if s.automatic {
      assert (Stanza(s) + rest)[1..] == body;
    } else {
      assert Stanza(s) + rest == body;
    }
  }

  lemma {:induction false} RewriteHas(s: Settings, own: bool, lines: seq<string>)
    requires IsWritable(s)
    ensures Has(s.name, Rewrite(s, own, lines)) == Has(s.name, lines)
    decreases |lines|
  {
    if lines != [] {
      hide Words, Stanza, WithoutName, IsWritable;
      var line, rest := lines[0], lines[1..];
      var tail := Rewrite(s, StillOwn(s, own, line), rest);
      RewriteOne(s, own, lines);
      RewriteHas(s, StillOwn(s, own, line), rest);
      if Names(s.name, Words(line)) {
        StanzaHas(s, tail);
      } else {
        var e := Emitted(s, own, line);
        if StartsAutomatically(s.name, Words(line)) {
          ShortenedWords(s.name, line);
        }
        assert e + tail == if e == [] then tail else [e[0]] + tail;
        assert e != [] ==> (e + tail)[1..] == tail && !Names(s.name, Words(e[0]));
      }
    }
  }

  /** Writing the same settings a second time changes nothing, exactly when the old file exposes no line at all. */
  lemma IdempotentExactly(s: Settings, lines: seq<string>)
    requires IsWritable(s)
    ensures Written(s, Written(s, lines)) == Written(s, lines) <==> !Exposes(s.name, s.name, 1, Away, lines)
  {
    hide Words, Rewrite, Stanza;
    var once := Rewrite(s, false, lines);
    RewriteAgain(s, Away, lines);
    RewriteHas(s, false, lines);
    if Has(s.name, lines) {
      assert Written(s, lines) == once && Written(s, once) == Rewrite(s, false, once);
    } else {
      NothingExposed(s, 1, lines);
      RewriteAppend(s, once, Stanza(s));
      RewriteStanza(s, false, []);
      assert Stanza(s) + [] == Stanza(s) && Rewrite(s, true, []) == [] by { RewriteNothing(s, true); }
      HasAppend(s.name, once, Stanza(s));
      StanzaHas(s, []);
    }
  }

  lemma RewriteNothing(s: Settings, own: bool)
    ensures Rewrite(s, own, []) == []
  {
  }

  // ----- the other interfaces

  /** An attribute that the reader of another interface is given by the edited file; exposed when the old file did not
      give it. */
  datatype Assignment = Assignment(key: string, value: string, exposed: bool)

  function AssignedBy(p: Place, t: seq<string>): seq<Assignment> {
    if p != Away && IsPlainLine(t) && |t| >= 2 then [Assignment(t[0], t[1], p == Exposed)] else []
  }

  /** All of them, from the lines of the old file. */
  function Assignments(name: string, o: string, p: Place, lines: seq<string>): seq<Assignment>
    decreases |lines|
  {
    if lines == [] then []
    else AssignedBy(p, Words(lines[0])) + Assignments(name, o, Follow(name, o, p, lines[0]), lines[1..])
  }

  /** The log of a reader of all of them, or of those that are not exposed. */
  function LogOf(a: seq<Assignment>, all: bool): seq<(string, string)> {
    if a == [] then []
    else
      var last := a[|a| - 1];
      LogOf(a[..|a| - 1], all) + if all || !last.exposed then [(last.key, last.value)] else []
  }

  lemma {:induction false} LogOfAppend(a: seq<Assignment>, b: seq<Assignment>, all: bool)
    ensures LogOf(a + b, all) == LogOf(a, all) + LogOf(b, all)
    decreases |b|
  {
    if b == [] {
      assert a + b == a;
    } else {
      var n := |b| - 1;
      assert (a + b)[..|a + b| - 1] == a + b[..n];
      LogOfAppend(a, b[..n], all);
    }
  }

  lemma LogOfOne(p: Place, t: seq<string>)
    ensures LogOf(AssignedBy(p, t), true) == if p != Away && IsPlainLine(t) && |t| >= 2 then [(t[0], t[1])] else []
    ensures LogOf(AssignedBy(p, t), false) == if p == Own && IsPlainLine(t) && |t| >= 2 then [(t[0], t[1])] else []
  {
    assert LogOf([], true) == [] && LogOf([], false) == [];
    var a := AssignedBy(p, t);
    if a != [] {
      assert a[..0] == [];
    }
  }

  /** The reader r' of the edited file against the reader r of the old one, for another interface. */
  ghost predicate Tracks(p: Place, own: bool, r: Reader, r': Reader) {
    && r' == r.(inside := p != Away, log := r'.log)
    && r.inside == (p == Own)
    && (own ==> p == Away)
  }

  /** One line of the old file, and what replaces it. */
  ghost predicate StepTracks(s: Settings, o: string, p: Place, own: bool, line: string, r: Reader, r': Reader) {
    var r1, r1' := ReadLine(o, r, Words(line)), ReadLines(o, r', Emitted(s, own, line));
    && Tracks(Follow(s.name, o, p, line), StillOwn(s, own, line), r1, r1')
    && r1.log == r.log + LogOf(AssignedBy(p, Words(line)), false)
    && r1'.log == r'.log + LogOf(AssignedBy(p, Words(line)), true)
  }

  lemma ReadAlone(name: string, r: Reader, line: string)
    ensures ReadLines(name, r, [line]) == ReadLine(name, r, Words(line))
  {
    hide ReadLine, Words;
    assert [line][1..] == [];
  }

  lemma StanzaStep(s: Settings, o: string, p: Place, own: bool, line: string, r: Reader, r': Reader)
    requires IsWritable(s) && o != s.name && Tracks(p, own, r, r') && Names(s.name, Words(line))
    ensures StepTracks(s, o, p, own, line, r, r')
  {
    hide Words, Stanza, WithoutName, IsWritable;
    ReadStanza(s, o, r');
    LogOfOne(p, Words(line));
  }

  lemma AutoStep(s: Settings, o: string, p: Place, own: bool, line: string, r: Reader, r': Reader)
    requires o != s.name && Tracks(p, own, r, r') && StartsAutomatically(s.name, Words(line))
    ensures StepTracks(s, o, p, own, line, r, r')
  {
    hide Words, Stanza, WithoutName, Others;
    ShortenedWords(s.name, line);
    LogOfOne(p, Words(line));
    ReadAlone(o, r', WithoutName(s.name, line));
  }

  lemma PlainStep(s: Settings, o: string, p: Place, own: bool, line: string, r: Reader, r': Reader)
    requires o != s.name && Tracks(p, own, r, r') && !Names(s.name, Words(line)) && !StartsAutomatically(s.name, Words(line))
    ensures StepTracks(s, o, p, own, line, r, r')
  {
    hide Words, Stanza, WithoutName;
    LogOfOne(p, Words(line));
    ReadAlone(o, r', line);
    assert r.log + [] == r.log && r'.log + [] == r'.log;
  }

  lemma {:induction false} OtherReader(s: Settings, o: string, p: Place, own: bool, lines: seq<string>, r: Reader, r': Reader)
    requires IsWritable(s) && o != s.name && Tracks(p, own, r, r')
    ensures var q, q' := ReadLines(o, r, lines), ReadLines(o, r', Rewrite(s, own, lines));
      && q' == q.(inside := q'.inside, log := q'.log)
      && q.log == r.log + LogOf(Assignments(s.name, o, p, lines), false)
      && q'.log == r'.log + LogOf(Assignments(s.name, o, p, lines), true)
    decreases |lines|
  {
    hide Words, Rewrite, Emitted, Follow, IsWritable, StillOwn, Names, ReadLine, StartsAutomatically, LogOf, AssignedBy, ReadLines, Assignments;
    if lines == [] {
      RewriteNothing(s, own);
      ReadNothing(o, r);
      ReadNothing(o, r');
      NoAssignments(s.name, o, p);
      assert r.log + [] == r.log && r'.log + [] == r'.log;
    } else {
      var line, rest := lines[0], lines[1..];
      var p1, own1, e := Follow(s.name, o, p, line), StillOwn(s, own, line), Emitted(s, own, line);
      if Names(s.name, Words(line)) {
        StanzaStep(s, o, p, own, line, r, r');
      } else if StartsAutomatically(s.name, Words(line)) {
        AutoStep(s, o, p, own, line, r, r');
      } else {
        PlainStep(s, o, p, own, line, r, r');
      }
      RewriteOne(s, own, lines);
      ReadLinesAppend(o, r', e, Rewrite(s, own1, rest));
      OtherReader(s, o, p1, own1, rest, ReadLine(o, r, Words(line)), ReadLines(o, r', e));
      FirstAssignment(s.name, o, p, lines);
      ReadFirst(o, r, lines);
    }
  }

  lemma NoAssignments(name: string, o: string, p: Place)
    ensures forall all :: LogOf(Assignments(name, o, p, []), all) == []
  {
  }

  lemma ReadFirst(o: string, r: Reader, lines: seq<string>)
    requires lines != []
    ensures ReadLines(o, r, lines) == ReadLines(o, ReadLine(o, r, Words(lines[0])), lines[1..])
  {
  }

  lemma FirstAssignment(name: string, o: string, p: Place, lines: seq<string>)
    requires lines != []
    ensures var rest := Assignments(name, o, Follow(name, o, p, lines[0]), lines[1..]);
      forall all :: LogOf(Assignments(name, o, p, lines), all) == LogOf(AssignedBy(p, Words(lines[0])), all) + LogOf(rest, all)
  {
    hide Words, Follow, LogOf, AssignedBy;
    var rest := Assignments(name, o, Follow(name, o, p, lines[0]), lines[1..]);
    LogOfAppend(AssignedBy(p, Words(lines[0])), rest, true);
    LogOfAppend(AssignedBy(p, Words(lines[0])), rest, false);
  }

  // ----- which assignments count

  predicate Counts(a: Assignment, key: string, all: bool) { a.key == key && (all || !a.exposed) }

  /** The place of the last assignment to a key, among all of them or those that are not exposed; -1 if there is none. */
  function LastAt(a: seq<Assignment>, key: string, all: bool): (i: int)
    ensures -1 <= i < |a| && (i >= 0 ==> Counts(a[i], key, all))
    ensures forall j :: i < j < |a| ==> !Counts(a[j], key, all)
  {
    if a == [] then -1
    else if Counts(a[|a| - 1], key, all) then |a| - 1
    else LastAt(a[..|a| - 1], key, all)
  }

  lemma {:induction false} ToMapAt(a: seq<Assignment>, key: string, all: bool)
    ensures key in ToMap(LogOf(a, all)) <==> LastAt(a, key, all) >= 0
    ensures LastAt(a, key, all) >= 0 ==> ToMap(LogOf(a, all))[key] == a[LastAt(a, key, all)].value
  {
    if a != [] {
      var n := |a| - 1;
      ToMapAt(a[..n], key, all);
      ToMapSnoc(LogOf(a[..n], all), (a[n].key, a[n].value));
      assert LogOf(a[..n], all) + [] == LogOf(a[..n], all);
    }
  }

  /** Assignment i is exposed, no other of its key comes behind it, and the last of its key that is not exposed, if there
      is one, has another value. */
  predicate Intrudes(a: seq<Assignment>, i: int) {
    && 0 <= i < |a| && a[i].exposed
    && (forall j :: i < j < |a| ==> a[j].key != a[i].key)
    && forall h :: 0 <= h < i && a[h].key == a[i].key && !a[h].exposed && a[h].value == a[i].value ==>
         exists j :: h < j < i && a[j].key == a[i].key && !a[j].exposed
  }

  lemma LastDiffers(a: seq<Assignment>, i: int)
    requires Intrudes(a, i)
    ensures LastAt(a, a[i].key, true) == i
    ensures var h := LastAt(a, a[i].key, false); h < 0 || a[h].value != a[i].value
  {
    var k, h := LastAt(a, a[i].key, true), LastAt(a, a[i].key, false);
    assert Counts(a[i], a[i].key, true);
    assert k >= i;
    if h >= 0 {
      assert Counts(a[h], a[i].key, true) && h < i;
      assert forall j :: h < j < i && a[j].key == a[i].key && !a[j].exposed ==> Counts(a[j], a[i].key, false);
    }
  }

  lemma LastAgrees(a: seq<Assignment>, key: string)
    requires forall i :: 0 <= i < |a| ==> !Intrudes(a, i)
    ensures var k, h := LastAt(a, key, true), LastAt(a, key, false);
      (k < 0 && h < 0) || (k >= 0 && h >= 0 && a[k].value == a[h].value)
  {
    var k, h := LastAt(a, key, true), LastAt(a, key, false);
    if h >= 0 {
      assert Counts(a[h], key, true);
    }
    if k >= 0 && a[k].exposed {
      assert forall j :: k < j < |a| ==> !Counts(a[j], key, true) && a[j].key != key;
      assert !Intrudes(a, k);
      var g :| 0 <= g < k && a[g].key == key && !a[g].exposed && a[g].value == a[k].value
        && !(exists j :: g < j < k && a[j].key == key && !a[j].exposed);
      assert Counts(a[g], key, false);
    } else if k >= 0 {
      assert Counts(a[k], key, false);
    }
  }

  /** The two logs come to the same map exactly when nothing intrudes. */
  lemma SameMapExactly(a: seq<Assignment>)
    ensures ToMap(LogOf(a, true)) == ToMap(LogOf(a, false)) <==> forall i :: 0 <= i < |a| ==> !Intrudes(a, i)
  {
    hide Intrudes, ToMap, LogOf, LastAt;
    var m, m' := ToMap(LogOf(a, false)), ToMap(LogOf(a, true));
    if i :| 0 <= i < |a| && Intrudes(a, i) {
      LastDiffers(a, i);
      ToMapAt(a, a[i].key, true);
      ToMapAt(a, a[i].key, false);
    } else {
      forall key
        ensures key in m <==> key in m'
        ensures key in m ==> m[key] == m'[key]
      {
        LastAgrees(a, key);
        ToMapAt(a, key, true);
        ToMapAt(a, key, false);
      }
      assert m' == m;
    }
  }

  /** Writing one interface leaves what read_interface reports for another: start flag, family and method always, and the
      attributes exactly when none of the lines that get exposed behind a stanza of the other intrudes. */
  lemma FrameExactly(s: Settings, o: string, family0: string, methodName0: string, lines: seq<string>)
    requires IsWritable(s) && o != s.name
    ensures var a := Assignments(s.name, o, Away, lines);
      var q, q' := Read(o, family0, methodName0, lines), Read(o, family0, methodName0, Written(s, lines));
      && q'.automatic == q.automatic && q'.family == q.family && q'.methodName == q.methodName
      && (ToMap(q'.log) == ToMap(q.log) <==> forall i :: 0 <= i < |a| ==> !Intrudes(a, i))
  {
    hide Words, Rewrite, Stanza, Assignments, ReadLines, LogOf, ToMap, Intrudes;
    var r := Reader(false, false, family0, methodName0, []);
    var a := Assignments(s.name, o, Away, lines);
    OtherReader(s, o, Away, false, lines, r, r);
    SameMapExactly(a);
    var edited := Rewrite(s, false, lines);
    var tail := if Has(s.name, lines) then [] else Stanza(s);
    ReadLinesAppend(o, r, edited, tail);
    var q := ReadLines(o, r, edited);
    ReadStanza(s, o, q);
    ReadNothing(o, q);
    assert [] + LogOf(a, true) == LogOf(a, true) && [] + LogOf(a, false) == LogOf(a, false);
  }

  lemma ReadNothing(name: string, r: Reader)
    ensures ReadLines(name, r, []) == r
  {
  }

  // ----- lines that are kept

  /** The characters from 9 to 13, and the blank. */
  predicate White(c: char) { 9 <= c as int <= 13 || c == ' ' }

  /** The first character that is not white space. */
  function FirstVisible(line: string): (i: nat)
    ensures i <= |line| && (forall k :: 0 <= k < i ==> White(line[k])) && (i < |line| ==> !White(line[i]))
  {
    if line == "" || !White(line[0]) then 0 else 1 + FirstVisible(line[1..])
  }

  /** A blank line or a comment: nothing can be seen in it, or a hash is seen first. A NUL ends a line. */
  predicate IsNote(line: string) {
    var i := FirstVisible(line); i == |line| || line[i] == '#' || line[i] == '\0'
  }

  lemma {:induction false} FirstWordStarts(partial: string, s: string)
    requires partial != ""
    ensures WordsFrom(partial, s) != [] && partial <= WordsFrom(partial, s)[0]
    decreases |s|
  {
    if s != "" && s[0] != '\0' && !IsSpace(s[0]) {
      FirstWordStarts(partial + [s[0]], s[1..]);
    }
  }

  /** The words of a line tell whether it is one. */
  lemma {:induction false} NoteIsIgnored(line: string)
    ensures IsNote(line) <==> IsIgnored(Words(line))
  {
    if line != "" && line[0] != '\0' {
      if IsSpace(line[0]) {
        NoteIsIgnored(line[1..]);
      } else {
        assert "" + [line[0]] == [line[0]];
        FirstWordStarts([line[0]], line[1..]);
      }
    }
  }

  /** Lines of other interfaces and of mappings that open a stanza. */
  predicate IsOtherHeading(name: string, line: string) {
    var t := Words(line); t != [] && (t[0] == "mapping" || (t[0] == "iface" && !(|t| >= 2 && t[1] == name)))
  }

  function Filter(keep: string -> bool, lines: seq<string>): seq<string>
    decreases |lines|
  {
    if lines == [] then [] else (if keep(lines[0]) then [lines[0]] else []) + Filter(keep, lines[1..])
  }

  lemma FilterFirst(keep: string -> bool, line: string, rest: seq<string>)
    ensures Filter(keep, [line] + rest) == (if keep(line) then [line] else []) + Filter(keep, rest)
    ensures Filter(keep, []) == []
  {
    assert ([line] + rest)[1..] == rest;
  }

  lemma {:induction false} FilterAppend(keep: string -> bool, a: seq<string>, b: seq<string>)
    ensures Filter(keep, a + b) == Filter(keep, a) + Filter(keep, b)
    decreases |a|
  {
    hide Filter;
    if a == [] {
      assert a + b == b;
      FilterFirst(keep, "", []);
      assert [] + Filter(keep, b) == Filter(keep, b);
    } else {
      var line, rest := a[0], a[1..];
      assert a == [line] + rest && a + b == [line] + (rest + b);
      FilterFirst(keep, line, rest);
      FilterFirst(keep, line, rest + b);
      FilterAppend(keep, rest, b);
    }
  }

  lemma {:induction false} FilterNone(keep: string -> bool, lines: seq<string>)
    requires forall l :: l in lines ==> !keep(l)
    ensures Filter(keep, lines) == []
    decreases |lines|
  {
    if lines != [] {
      FilterNone(keep, lines[1..]);
    }
  }

  /** Lines that the settings have nothing to say about: they are emitted as they are, and nothing like them is. */
  ghost predicate Untouched(keep: string -> bool, s: Settings) {
    && (forall l, own :: keep(l) ==> Emitted(s, own, l) == [l])
    && (forall l, own, e :: !keep(l) && e in Emitted(s, own, l) ==> !keep(e))
    && (forall e :: e in Stanza(s) ==> !keep(e))
  }

  lemma {:induction false} RewriteKeeps(keep: string -> bool, s: Settings, own: bool, lines: seq<string>)
    requires Untouched(keep, s)
    ensures Filter(keep, Rewrite(s, own, lines)) == Filter(keep, lines)
    decreases |lines|
  {
    if lines == [] {
      RewriteNothing(s, own);
    } else {
      hide Words, Rewrite, Stanza, Emitted, StillOwn;
      var line, rest := lines[0], lines[1..];
      var e := Emitted(s, own, line);
      RewriteOne(s, own, lines);
      FilterAppend(keep, e, Rewrite(s, StillOwn(s, own, line), rest));
      if keep(line) {
        assert e == [line] && [line][1..] == [];
      } else {
        FilterNone(keep, e);
      }
      RewriteKeeps(keep, s, StillOwn(s, own, line), rest);
    }
  }

  lemma WrittenKeeps(keep: string -> bool, s: Settings, lines: seq<string>)
    requires Untouched(keep, s)
    ensures Filter(keep, Written(s, lines)) == Filter(keep, lines)
  {
    hide Words, Rewrite, Stanza, Emitted;
    RewriteKeeps(keep, s, false, lines);
    FilterNone(keep, Stanza(s));
    FilterAppend(keep, Rewrite(s, false, lines), if Has(s.name, lines) then [] else Stanza(s));
    assert Rewrite(s, false, lines) + [] == Rewrite(s, false, lines);
  }

  /** The words of what is written: a start line and a header of the name, and attributes. */
  predicate OwnWords(name: string, t: seq<string>) {
    t == ["auto", name] || Names(name, t) || (|t| == 2 && IsAttributeKey(t[0]))
  }

  lemma {:induction false} AttributesAreOwn(name: string, a: seq<(string, string)>)
    requires forall i :: 0 <= i < |a| ==> IsAttributeKey(a[i].0) && IsWord(a[i].1)
    ensures forall l :: l in AttributeLines(a) ==> OwnWords(name, Words(l))
  {
    if a != [] {
      AttributesAreOwn(name, a[..|a| - 1]);
      AttributeWords(a[|a| - 1]);
    }
  }

  lemma StanzaIsOwn(s: Settings)
    requires IsWritable(s)
    ensures forall l :: l in Stanza(s) ==> OwnWords(s.name, Words(l))
  {
    hide Words;
    AutoLineWords(s.name);
    HeaderWords(s);
    AttributesAreOwn(s.name, s.attributes);
  }

  lemma EmittedIs(s: Settings, own: bool, line: string, e: string)
    requires IsWritable(s) && e in Emitted(s, own, line)
    ensures e == line || OwnWords(s.name, Words(e)) || (Words(e) != [] && Words(e)[0] == "auto" && s.name !in Words(e)[1..])
  {
    hide Words, Stanza, WithoutName, Others, OwnWords;
    StanzaIsOwn(s);
    if StartsAutomatically(s.name, Words(line)) {
      ShortenedWords(s.name, line);
    }
  }

  lemma NotesUntouched(s: Settings)
    requires IsWritable(s)
    ensures Untouched(IsNote, s)
  {
    hide Words, Stanza, WithoutName, IsNote, IsWritable;
    StanzaIsOwn(s);
    forall l
      ensures IsNote(l) <==> IsIgnored(Words(l))
    {
      NoteIsIgnored(l);
    }
    forall l, own, e | !IsNote(l) && e in Emitted(s, own, l)
      ensures !IsNote(e)
    {
      EmittedIs(s, own, l, e);
    }
  }

  lemma HeadingsUntouched(s: Settings, keep: string -> bool)
    requires IsWritable(s) && forall l :: keep(l) <==> IsOtherHeading(s.name, l)
    ensures Untouched(keep, s)
  {
    hide Words, Stanza, WithoutName, IsWritable;
    StanzaIsOwn(s);
    forall l, own, e | !keep(l) && e in Emitted(s, own, l)
      ensures !keep(e)
    {
      EmittedIs(s, own, l, e);
    }
  }

  /** Every blank line and comment of the old file is kept, in order, and none is added. */
  lemma NotesKept(s: Settings, lines: seq<string>)
    requires IsWritable(s)
    ensures Filter(IsNote, Written(s, lines)) == Filter(IsNote, lines)
  {
    hide Untouched, IsNote, Written, IsWritable;
    NotesUntouched(s);
    WrittenKeeps(IsNote, s, lines);
  }

  /** And so is every line that opens a stanza of another interface or a mapping. */
  lemma HeadingsKept(s: Settings, lines: seq<string>)
    requires IsWritable(s)
    ensures var keep := l => IsOtherHeading(s.name, l); Filter(keep, Written(s, lines)) == Filter(keep, lines)
  {
    hide Untouched, IsOtherHeading, Written, IsWritable;
    var keep := l => IsOtherHeading(s.name, l);
    HeadingsUntouched(s, keep);
    WrittenKeeps(keep, s, lines);
  }

  lemma {:induction false} KeysLogged(name: string, r: Reader, lines: seq<string>)
    requires forall a :: a in r.log ==> IsAttributeKey(a.0)
    ensures forall a :: a in ReadLines(name, r, lines).log ==> IsAttributeKey(a.0)
    decreases |lines|
  {
    hide Words;
    if lines != [] {
      FirstIsWord(lines[0]);
      KeysLogged(name, ReadLine(name, r, Words(lines[0])), lines[1..]);
    }
  }

  lemma FirstIsWord(line: string)
    ensures Words(line) != [] ==> IsWord(Words(line)[0])
  {
    WordsAreWords("", line);
  }

  lemma {:induction false} KeysAreLogged(log: seq<(string, string)>, key: string)
    requires key in ToMap(log)
    ensures exists a :: a in log && a.0 == key
  {
    var last := log[|log| - 1];
    if key != last.0 {
      KeysAreLogged(log[..|log| - 1], key);
    }
  }

  /** What is reported as an attribute is neither a comment nor the start of a stanza. */
  lemma KeysReported(name: string, family0: string, methodName0: string, lines: seq<string>, key: string)
    requires key in ToMap(Read(name, family0, methodName0, lines).log)
    ensures key != "" && key[0] != '#' && !White(key[0]) && key != "iface" && key != "auto" && key != "mapping"
  {
    KeysLogged(name, Reader(false, false, family0, methodName0, []), lines);
    KeysAreLogged(Read(name, family0, methodName0, lines).log, key);
  }

  // ----- the text of a new file

  function AttributeText(attributes: seq<(string, string)>): string {
    if attributes == [] then ""
    else
      var last := attributes[|attributes| - 1];
      AttributeText(attributes[..|attributes| - 1]) + "\t" + last.0 + " " + last.1 + "\n"
  }

  /** An interface as interfaces(5) wants it. */
  function StanzaText(s: Settings): string {
    (if s.automatic then "auto " + s.name + "\n" else "")
    + "iface " + s.name + " " + s.family + " " + s.methodName + "\n"
    + AttributeText(s.attributes)
  }

  lemma {:induction false} TextAppend(a: seq<string>, b: seq<string>)
    ensures Text(a + b) == Text(a) + Text(b)
  {
    if a == [] {
      assert a + b == b;
    } else {
      assert (a + b)[1..] == a[1..] + b;
      TextAppend(a[1..], b);
    }
  }

  lemma {:induction false} AttributesText(attributes: seq<(string, string)>)
    ensures Text(AttributeLines(attributes)) == AttributeText(attributes)
  {
    if attributes != [] {
      var n := |attributes| - 1;
      var a := attributes[n];
      AttributesText(attributes[..n]);
      TextSnoc(AttributeLines(attributes[..n]), AttributeLine(a));
      var front := AttributeText(attributes[..n]);
      assert front + ("\t" + a.0 + " " + a.1) + "\n" == front + "\t" + a.0 + " " + a.1 + "\n";
    }
  }

  /** What is written for settings alone. */
  lemma NewFile(s: Settings)
    ensures Text(Written(s, [])) == StanzaText(s)
  {
    hide Text, AttributeLines, AttributeText;
    AttributesText(s.attributes);
    var a, h := if s.automatic then [AutoLine(s.name)] else [], [Header(s)];
    TextAppend(a + h, AttributeLines(s.attributes));
    TextAppend(a, h);
    TextOne(AutoLine(s.name));
    TextOne(Header(s));
    assert [] + Stanza(s) == Stanza(s);
    assert Text(a) + Text(h) + AttributeText(s.attributes) == StanzaText(s);
  }

  lemma TextOne(line: string)
    ensures Text([line]) == line + "\n" && Text([]) == ""
  {
    assert [line][1..] == [] && line + "\n" + "" == line + "\n";
  }

  // ----- a file for which reading back and repeating fail

  const DHCP := Settings("eth0", false, "inet", "dhcp", [])

  /** An attribute line directly behind an auto line: "iface eth0 inet dhcp", "auto eth0", "address 10.0.0.1". */
  function OrphanFile(): seq<string> { [Header(DHCP), AutoLine("eth0"), AttributeLine(("address", "10.0.0.1"))] }

  /** The same behind a header of another interface. */
  const OTHER := Settings("eth1", false, "inet", "dhcp", [])

  function NeighbourFile(): seq<string> { [Header(OTHER), AutoLine("eth0"), AttributeLine(("address", "10.0.0.1"))] }

  lemma AssignedBehindAuto(name: string, o: string, header: string, auto: string, attribute: string)
    requires Names(o, Words(header)) && !Names(name, Words(header)) && |Words(header)| >= 4
    requires StartsAutomatically(name, Words(auto)) && WithoutName(name, auto) == ""
    requires IsPlainLine(Words(attribute)) && |Words(attribute)| >= 2
    ensures Assignments(name, o, Away, [header, auto, attribute]) == [Assignment(Words(attribute)[0], Words(attribute)[1], true)]
  {
    hide Words, WithoutName;
    var rest := [auto, attribute];
    assert [header, auto, attribute][1..] == rest && rest[1..] == [attribute] && [attribute][1..] == [];
    assert Follow(name, o, Away, header) == Own && Follow(name, o, Own, auto) == Exposed;
    assert Assignments(name, o, Exposed, [attribute]) == AssignedBy(Exposed, Words(attribute)) + [];
    assert Assignments(name, o, Own, rest) == [] + AssignedBy(Exposed, Words(attribute));
  }

  lemma AddressIsAttribute()
    ensures IsAttributeKey("address") && IsWord("10.0.0.1")
  {
  }

  /** Writing any settings for one interface gives another the attribute behind an erased auto line. */
  lemma NeighbourChanges(s: Settings, o: Settings, a: (string, string))
    requires IsWritable(s) && IsWritable(o) && o.name != s.name && IsAttributeKey(a.0) && IsWord(a.1)
    ensures var lines := [Header(o), AutoLine(s.name), AttributeLine(a)];
      ToMap(Read(o.name, "", "", Written(s, lines)).log) != ToMap(Read(o.name, "", "", lines).log)
  {
    hide Words, Assignments, Read, ToMap, Written, IsWritable, Header, AutoLine, AttributeLine, IsAttributeKey, IsWord;
    assert IsWord(s.name) by { NameIsWord(s); }
    NeighbourGains(o, s.name, a);
    FrameExactly(s, o.name, "", "", [Header(o), AutoLine(s.name), AttributeLine(a)]);
    assert Intrudes([Assignment(a.0, a.1, true)], 0);
  }

  lemma NameIsWord(s: Settings)
    requires IsWritable(s)
    ensures IsWord(s.name)
  {
  }

  /** Writing plain DHCP settings for eth0 gives eth1 an address. */
  lemma NeighbourFails()
    ensures ToMap(Read("eth1", "", "", Written(DHCP, NeighbourFile())).log) != ToMap(Read("eth1", "", "", NeighbourFile()).log)
  {
    hide Read, ToMap, Written, IsWritable, Header, AutoLine, AttributeLine, IsAttributeKey;
    DhcpIsWritable("eth0");
    DhcpIsWritable("eth1");
    AddressIsAttribute();
    NeighbourChanges(DHCP, OTHER, ("address", "10.0.0.1"));
  }

  lemma NeighbourGains(o: Settings, name: string, a: (string, string))
    requires IsWritable(o) && IsWord(name) && o.name != name && IsAttributeKey(a.0) && IsWord(a.1)
    ensures Assignments(name, o.name, Away, [Header(o), AutoLine(name), AttributeLine(a)]) == [Assignment(a.0, a.1, true)]
  {
    hide Words, WithoutName, Header, AutoLine, AttributeLine, Assignments, IsWritable;
    HeaderWords(o);
    AutoLineWords(name);
    AttributeWords(a);
    AssignedBehindAuto(name, o.name, Header(o), AutoLine(name), AttributeLine(a));
  }

  lemma ExposedBehindAuto(name: string, n: nat, header: string, auto: string, attribute: string)
    requires Names(name, Words(header))
    requires StartsAutomatically(name, Words(auto)) && WithoutName(name, auto) == ""
    requires IsPlainLine(Words(attribute)) && |Words(attribute)| >= n
    ensures Exposes(name, name, n, Away, [header, auto, attribute])
  {
    hide Words, WithoutName;
    var rest := [auto, attribute];
    assert [header, auto, attribute][1..] == rest && rest[1..] == [attribute];
    assert Follow(name, name, Away, header) == Own && Follow(name, name, Own, auto) == Exposed;
    assert Exposes(name, name, n, Exposed, [attribute]);
  }

  lemma OrphanExposed(n: nat)
    requires n <= 2
    ensures Exposes("eth0", "eth0", n, Away, OrphanFile())
  {
    hide Words, WithoutName, Header, AutoLine, AttributeLine, Exposes, IsWritable, IsAttributeKey;
    DhcpIsWritable("eth0");
    AddressIsAttribute();
    HeaderWords(DHCP);
    AutoLineWords("eth0");
    AttributeWords(("address", "10.0.0.1"));
    AttributeIsPlain("address", "10.0.0.1");
    ExposedBehindAuto("eth0", n, OrphanFile()[0], OrphanFile()[1], OrphanFile()[2]);
  }

  lemma AttributeIsPlain(key: string, value: string)
    requires IsAttributeKey(key)
    ensures IsPlainLine([key, value])
  {
  }

  /** Writing plain DHCP settings into it leaves the address behind, and the second write erases it. */
  lemma OrphanFails()
    ensures !RoundTrips(DHCP, "", "", OrphanFile())
    ensures Written(DHCP, Written(DHCP, OrphanFile())) != Written(DHCP, OrphanFile())
  {
    hide RoundTrips, Written, OrphanFile, Exposes;
    DhcpIsWritable("eth0");
    OrphanExposed(1);
    OrphanExposed(2);
    NoRoundTrip(DHCP, "", "", OrphanFile());
    IdempotentExactly(DHCP, OrphanFile());
  }
}