/** Words of a line, as extraction from an istringstream made from its c_str() yields them. */
module Tokenizer {

  predicate IsSpace(c: char) { c in " \t\n\r\U{00000B}\U{00000C}" }

  /** A character that can be part of a word: neither white space nor the NUL that ends a C string. */
  predicate IsPlain(c: char) { !IsSpace(c) && c != '\0' }

  predicate IsWord(w: string) { w != "" && forall i :: 0 <= i < |w| ==> IsPlain(w[i]) }

  /** The words of s when the characters of partial have been read already. */
  function WordsFrom(partial: string, s: string): seq<string>
    decreases |s|
  {
    var done := if partial == "" then [] else [partial];
    if s == "" || s[0] == '\0' then done
    else if IsSpace(s[0]) then done + WordsFrom("", s[1..])
    else WordsFrom(partial + [s[0]], s[1..])
  }

  function Words(line: string): seq<string> { WordsFrom("", line) }

  /** A line of words with one blank between them. */
  function Spaced(words: seq<string>): string {
    if words == [] then "" else if |words| == 1 then words[0] else words[0] + " " + Spaced(words[1..])
  }

  lemma {:induction false} AbsorbWord(partial: string, w: string, s: string)
    requires forall i :: 0 <= i < |w| ==> IsPlain(w[i])
    ensures WordsFrom(partial, w + s) == WordsFrom(partial + w, s)
    decreases |w|
  {
    if w == "" {
      assert w + s == s && partial + w == partial;
    } else {
      assert (w + s)[1..] == w[1..] + s && partial + [w[0]] + w[1..] == partial + w;
      AbsorbWord(partial + [w[0]], w[1..], s);
    }
  }

  lemma {:induction false} WordsOfSpaced(words: seq<string>)
    requires forall i :: 0 <= i < |words| ==> IsWord(words[i])
    ensures Words(Spaced(words)) == words
  {
    if words == [] {
    } else if |words| == 1 {
      assert words[0] + "" == words[0] && "" + words[0] == words[0];
      AbsorbWord("", words[0], "");
    } else {
      var rest := " " + Spaced(words[1..]);
      assert Spaced(words) == words[0] + rest && "" + words[0] == words[0];
      AbsorbWord("", words[0], rest);
      assert rest[1..] == Spaced(words[1..]);
      WordsOfSpaced(words[1..]);
    }
  }

  lemma LeadingSpace(c: char, s: string)
    requires IsSpace(c)
    ensures Words([c] + s) == Words(s)
  {
    assert ([c] + s)[1..] == s;
  }

  lemma {:induction false} WordsAreWords(partial: string, s: string)
    requires forall i :: 0 <= i < |partial| ==> IsPlain(partial[i])
    ensures forall w :: w in WordsFrom(partial, s) ==> IsWord(w)
    decreases |s|
  {
    if s == "" || s[0] == '\0' {
    } else if IsSpace(s[0]) {
      WordsAreWords("", s[1..]);
    } else {
      WordsAreWords(partial + [s[0]], s[1..]);
    }
  }
}
