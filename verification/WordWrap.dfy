/**
  Greedy line breaking (`wrap` in docs/report/render_additional_report_evidence.py):
  split a text into words and pack them, one space apart, into lines of a given width.
*/
module WordWrap {

  // ---------- str.split() ----------

  /** The characters that Python's str.split() separates words at. */
  predicate IsSpace(c: char) {
    || '\U{09}' <= c <= '\U{0D}' || '\U{1C}' <= c <= '\U{20}' || c == '\U{85}' || c == '\U{A0}'
    || c == '\U{1680}' || '\U{2000}' <= c <= '\U{200A}' || c == '\U{2028}' || c == '\U{2029}'
    || c == '\U{202F}' || c == '\U{205F}' || c == '\U{3000}'
  }

  /** One by one. */
  lemma SpacesAre(c: char)
    ensures IsSpace(c) <==>
            c in {'\U{09}', '\U{0A}', '\U{0B}', '\U{0C}', '\U{0D}', '\U{1C}', '\U{1D}', '\U{1E}', '\U{1F}', ' ', '\U{85}', '\U{A0}',
                  '\U{1680}', '\U{2000}', '\U{2001}', '\U{2002}', '\U{2003}', '\U{2004}', '\U{2005}', '\U{2006}', '\U{2007}',
                  '\U{2008}', '\U{2009}', '\U{200A}', '\U{2028}', '\U{2029}', '\U{202F}', '\U{205F}', '\U{3000}'}
  {
  }

  /** How many leading characters of `s` are not whitespace. */
  function WordLength(s: string): (n: nat)
    ensures n <= |s|
    ensures forall i :: 0 <= i < n ==> !IsSpace(s[i])
    ensures n < |s| ==> IsSpace(s[n])
  {
    if s == [] || IsSpace(s[0]) then 0 else 1 + WordLength(s[1..])
  }

  predicate IsWord(w: string) {
    w != [] && forall i :: 0 <= i < |w| ==> !IsSpace(w[i])
  }

  function Split(s: string): (words: seq<string>)
    ensures forall w :: w in words ==> IsWord(w)
    decreases |s|
  {
    if s == [] then []
    else if IsSpace(s[0]) then Split(s[1..])
    else [s[..WordLength(s)]] + Split(s[WordLength(s)..])
  }

  function Join(words: seq<string>): string {
    if words == [] then ""
    else if |words| == 1 then words[0]
    else words[0] + " " + Join(words[1..])
  }

  function WordsOf(lines: seq<string>): seq<string> {
    if lines == [] then [] else Split(lines[0]) + WordsOf(lines[1..])
  }

  lemma {:induction false} SplitOneWord(w: string, rest: string)
    requires IsWord(w) && (rest == [] || IsSpace(rest[0]))
    ensures Split(w + rest) == [w] + Split(rest)
  {
    var s := w + rest;
    assert WordLength(s) == |w| by {
      assert forall i :: 0 <= i < |w| ==> s[i] == w[i];
      assert |w| < |s| ==> s[|w|] == rest[0];
    }
    assert s[..|w|] == w && s[|w|..] == rest;
  }

  /** Joining words and splitting the line again gives the words back. */
  lemma {:induction false} SplitJoin(words: seq<string>)
    requires forall w :: w in words ==> IsWord(w)
    ensures Split(Join(words)) == words
  {
    if words == [] {
    } else if |words| == 1 {
      SplitOneWord(words[0], "");
      assert words[0] + "" == words[0];
    } else {
      var tail := " " + Join(words[1..]);
      SplitOneWord(words[0], tail);
      assert words[0] + tail == words[0] + " " + Join(words[1..]);
      assert tail[1..] == Join(words[1..]);
      SplitJoin(words[1..]);
    }
  }

  /** A line is never shorter than its words joined by single spaces. */
  lemma {:induction false} JoinSplitNoLonger(s: string)
    ensures |Join(Split(s))| <= |s|
    decreases |s|
  {
    if s != [] {
      if IsSpace(s[0]) {
        JoinSplitNoLonger(s[1..]);
      } else {
        var n := WordLength(s);
        var rest := s[n..];
        if rest != [] {
          assert Split(rest) == Split(rest[1..]);
          JoinSplitNoLonger(rest[1..]);
        }
        assert Split(s)[1..] == Split(rest);
      }
    }
  }

  // ---------- The lines, as groups of words ----------

  predicate Fits(group: seq<string>, width: int) {
    |Join(group)| <= width
  }

  /** The lines to come when `line` is being filled and `rest` is still to be placed. */
  function Pack(line: seq<string>, rest: seq<string>, width: int): seq<seq<string>>
    decreases |rest|
  {
    if rest == [] then [line]
    else if Fits(line + [rest[0]], width) then Pack(line + [rest[0]], rest[1..], width)
    else [line] + Pack([rest[0]], rest[1..], width)
  }

  function Groups(words: seq<string>, width: int): seq<seq<string>> {
    if words == [] then [] else Pack([words[0]], words[1..], width)
  }

  function JoinAll(groups: seq<seq<string>>): (lines: seq<string>)
    ensures |lines| == |groups|
    ensures forall i :: 0 <= i < |groups| ==> lines[i] == Join(groups[i])
  {
    if groups == [] then [] else [Join(groups[0])] + JoinAll(groups[1..])
  }

  function Flatten(groups: seq<seq<string>>): seq<string> {
    if groups == [] then [] else groups[0] + Flatten(groups[1..])
  }

  /** The empty line that comes first when the very first word does not fit. */
  function Head(words: seq<string>, width: int): seq<string> {
    if words != [] && |words[0]| > width then [""] else []
  }

  /** What `wrap` returns. */
  function Wrapped(text: string, width: int): seq<string> {
    Head(Split(text), width) + JoinAll(Groups(Split(text), width))
  }

  lemma {:induction false} JoinConcat(x: seq<string>, y: seq<string>)
    requires x != [] && y != []
    ensures Join(x + y) == Join(x) + " " + Join(y)
  {
    if |x| > 1 {
      JoinConcat(x[1..], y);
      assert (x + y)[1..] == x[1..] + y;
    } else {
      assert (x + y)[1..] == y;
    }
  }

  /** One more word: what has been emitted and what is still to come keep their total. */
  lemma PlaceWord(lines: seq<string>, line: seq<string>, words: seq<string>, i: nat, width: int)
    requires i < |words|
    ensures var w, later := words[i], words[i + 1..];
            lines + JoinAll(Pack(line, words[i..], width)) ==
            if Fits(line + [w], width) then lines + JoinAll(Pack(line + [w], later, width))
            else lines + [Join(line)] + JoinAll(Pack([w], later, width))
  {
  }

  method Wrap(text: string, width: int) returns (lines: seq<string>)
    ensures lines == Wrapped(text, width)
  {
    var words := Split(text);
    lines := [];
    var current := "";
    ghost var line: seq<string> := [];  // the words on the current line
    for i := 0 to |words|
      invariant current == Join(line)
      invariant i == 0 ==> lines == [] && line == []
      invariant i > 0 ==> line != [] && IsWord(line[0])
      invariant i > 0 ==> Wrapped(text, width) == lines + JoinAll(Pack(line, words[i..], width))
    {
      var word := words[i];
      assert IsWord(word);
      if i > 0 {
        JoinConcat(line, [word]);
        PlaceWord(lines, line, words, i, width);
      } else {
        assert [] + [word] == [word];
      }
      var trial := if current == "" then word else current + " " + word;
      assert trial == Join(line + [word]);
      if |trial| <= width {
        current := trial;
        line := line + [word];
      } else {
        lines := lines + [current];
        current := word;
        line := [word];
      }
    }
    if current != "" {
      assert words[|words|..] == [];
      lines := lines + [current];
    }
  }

  // ---------- What the lines are ----------

  lemma {:induction false} PackKeepsWords(line: seq<string>, rest: seq<string>, width: int)
    ensures Flatten(Pack(line, rest, width)) == line + rest
    decreases |rest|
  {
    if rest != [] {
      PackKeepsWords(line + [rest[0]], rest[1..], width);
      PackKeepsWords([rest[0]], rest[1..], width);
      assert line + [rest[0]] + rest[1..] == line + rest;
      assert [rest[0]] + rest[1..] == rest;
    }
  }

  lemma {:induction false} WordsOfConcat(x: seq<string>, y: seq<string>)
    ensures WordsOf(x + y) == WordsOf(x) + WordsOf(y)
  {
    if x != [] {
      WordsOfConcat(x[1..], y);
      assert (x + y)[1..] == x[1..] + y;
    } else {
      assert x + y == y;
    }
  }

  lemma {:induction false} WordsOfJoinAll(groups: seq<seq<string>>)
    requires forall w :: w in Flatten(groups) ==> IsWord(w)
    ensures WordsOf(JoinAll(groups)) == Flatten(groups)
  {
    if groups != [] {
      assert forall w :: w in groups[0] ==> w in Flatten(groups);
      SplitJoin(groups[0]);
      assert forall w :: w in Flatten(groups[1..]) ==> w in Flatten(groups);
      WordsOfJoinAll(groups[1..]);
    }
  }

  /** No word is lost, added, split or moved: reading the lines back gives the text's words. */
  lemma WrapKeepsWords(text: string, width: int)
    ensures WordsOf(Wrapped(text, width)) == Split(text)
  {
    var words := Split(text);
    if words != [] {
      PackKeepsWords([words[0]], words[1..], width);
      assert [words[0]] + words[1..] == words;
    }
    WordsOfJoinAll(Groups(words, width));
    WordsOfConcat(Head(words, width), JoinAll(Groups(words, width)));
    assert WordsOf(Head(words, width)) == [];
  }

  predicate Narrow(words: seq<string>, width: int) {
    forall w :: w in words ==> |w| <= width
  }

  ghost predicate AllFit(groups: seq<seq<string>>, width: int) {
    forall g :: g in groups ==> Fits(g, width)
  }

  lemma {:induction false} PackFits(line: seq<string>, rest: seq<string>, width: int)
    requires Fits(line, width) && Narrow(rest, width)
    ensures AllFit(Pack(line, rest, width), width)
    decreases |rest|
  {
    if rest != [] {
      if Fits(line + [rest[0]], width) {
        PackFits(line + [rest[0]], rest[1..], width);
      } else {
        PackFits([rest[0]], rest[1..], width);
      }
    }
  }

  lemma {:induction false} WordNoLongerThanLine(words: seq<string>, w: string)
    requires w in words
    ensures |w| <= |Join(words)|
  {
    if |words| > 1 && w in words[1..] {
      WordNoLongerThanLine(words[1..], w);
    }
  }

  lemma {:induction false} WordOnSomeLine(groups: seq<seq<string>>, w: string) returns (i: nat)
    requires w in Flatten(groups)
    ensures i < |groups| && w in groups[i]
  {
    if w in groups[0] {
      i := 0;
    } else {
      i := WordOnSomeLine(groups[1..], w);
      i := i + 1;
    }
  }

  /** Every line is within the width exactly when every word is. */
  lemma WrapFitsIff(text: string, width: nat)
    ensures (forall line :: line in Wrapped(text, width) ==> |line| <= width) <==> Narrow(Split(text), width)
  {
    var words := Split(text);
    var groups := Groups(words, width);
    if words != [] {
      PackKeepsWords([words[0]], words[1..], width);
      assert [words[0]] + words[1..] == words;
      if Narrow(words, width) {
        PackFits([words[0]], words[1..], width);
        assert forall i :: 0 <= i < |groups| ==> Fits(groups[i], width);
      } else {
        var w :| w in words && |w| > width;
        var i := WordOnSomeLine(groups, w);
        WordNoLongerThanLine(groups[i], w);
        assert JoinAll(groups)[i] in Wrapped(text, width);
      }
    }
  }

  lemma {:induction false} PackGroupsNonempty(line: seq<string>, rest: seq<string>, width: int)
    requires line != [] && IsWord(line[0]) && forall w :: w in rest ==> IsWord(w)
    ensures forall g :: g in Pack(line, rest, width) ==> g != [] && IsWord(g[0])
    decreases |rest|
  {
    if rest != [] {
      PackGroupsNonempty(line + [rest[0]], rest[1..], width);
      PackGroupsNonempty([rest[0]], rest[1..], width);
    }
  }

  /** An empty line appears exactly when the first word is wider than the line. */
  lemma EmptyLineIff(text: string, width: int)
    ensures "" in Wrapped(text, width) <==> Split(text) != [] && |Split(text)[0]| > width
  {
    var words := Split(text);
    if words != [] {
      PackGroupsNonempty([words[0]], words[1..], width);
      var groups := Groups(words, width);
      forall i | 0 <= i < |groups|
        ensures JoinAll(groups)[i] != ""
      {
        assert groups[i] in groups;
        assert IsWord(groups[i][0]);
      }
    }
  }

  // ---------- Optimality ----------

  /** Prefixes and suffixes of a line that fits also fit. */
  lemma PartFits(x: seq<string>, y: seq<string>, width: int)
    requires Fits(x + y, width)
    ensures x != [] ==> Fits(x, width)
    ensures y != [] ==> Fits(y, width)
  {
    if x == [] {
      assert x + y == y;
    } else if y == [] {
      assert x + y == x;
    } else {
      JoinConcat(x, y);
    }
  }

  /** Starting a line with fewer words never costs a line. */
  lemma {:induction false} FewerWordsFirst(x: seq<string>, y: seq<string>, rest: seq<string>, width: int)
    requires y != []
    ensures |Pack(y, rest, width)| <= |Pack(x + y, rest, width)|
    decreases |rest|, 0
  {
    if rest != [] {
      var w := rest[0];
      assert x + y + [w] == x + (y + [w]);
      if Fits(x + y + [w], width) {
        PartFits(x, y + [w], width);
        FewerWordsFirst(x, y + [w], rest[1..], width);
      } else if Fits(y + [w], width) {
        OneLineEarlier(y, [w], rest[1..], width);
      }
    }
  }

  /** Starting a line with more words saves at most the line they would have needed. */
  lemma {:induction false} OneLineEarlier(x: seq<string>, y: seq<string>, rest: seq<string>, width: int)
    requires y != []
    ensures |Pack(x + y, rest, width)| <= 1 + |Pack(y, rest, width)|
    decreases |rest|, 1
  {
    if rest != [] {
      var w := rest[0];
      assert x + y + [w] == x + (y + [w]);
      if Fits(x + y + [w], width) {
        PartFits(x, y + [w], width);
        OneLineEarlier(x, y + [w], rest[1..], width);
      } else if Fits(y + [w], width) {
        FewerWordsFirst(y, [w], rest[1..], width);
      }
    }
  }

  /** Greedy keeps adding words as long as a line that fits extends the current one. */
  lemma {:induction false} PackThrough(line: seq<string>, more: seq<string>, rest: seq<string>, width: int)
    requires line != [] && Fits(line + more, width)
    ensures Pack(line, more + rest, width) == Pack(line + more, rest, width)
    decreases |more|
  {
    if more == [] {
      assert more + rest == rest && line + more == line;
    } else {
      assert line + more == (line + [more[0]]) + more[1..];
      PartFits(line + [more[0]], more[1..], width);
      assert (more + rest)[0] == more[0] && (more + rest)[1..] == more[1..] + rest;
      PackThrough(line + [more[0]], more[1..], rest, width);
    }
  }

  lemma {:induction false} GroupsOptimal(groups: seq<seq<string>>, width: int)
    requires AllFit(groups, width)
    ensures |Groups(Flatten(groups), width)| <= |groups|
    decreases |groups|
  {
    if groups != [] {
      var first, others := groups[0], Flatten(groups[1..]);
      GroupsOptimal(groups[1..], width);
      if first == [] {
        assert Flatten(groups) == others;
      } else {
        var words := Flatten(groups);
        assert [first[0]] + first[1..] == first && words[1..] == first[1..] + others;
        PackThrough([first[0]], first[1..], others, width);
        if others != [] {
          var w := others[0];
          if Fits(first + [w], width) {
            OneLineEarlier(first, [w], others[1..], width);
          }
        }
      }
    }
  }

  function SplitAll(lines: seq<string>): (groups: seq<seq<string>>)
    ensures |groups| == |lines|
    ensures forall i :: 0 <= i < |lines| ==> groups[i] == Split(lines[i])
  {
    if lines == [] then [] else [Split(lines[0])] + SplitAll(lines[1..])
  }

  lemma {:induction false} FlattenSplitAll(lines: seq<string>)
    ensures Flatten(SplitAll(lines)) == WordsOf(lines)
  {
    if lines != [] {
      FlattenSplitAll(lines[1..]);
    }
  }

  /** However the same words are laid out in lines within the width, with whatever
      spacing, there are at least as many lines as `wrap` uses. */
  lemma WrapIsOptimal(text: string, width: int, other: seq<string>)
    requires WordsOf(other) == Split(text)
    requires forall line :: line in other ==> |line| <= width
    ensures |Wrapped(text, width)| <= |other|
  {
    var groups := SplitAll(other);
    FlattenSplitAll(other);
    forall i | 0 <= i < |groups|
      ensures Fits(groups[i], width)
    {
      JoinSplitNoLonger(other[i]);
      assert other[i] in other;
    }
    GroupsOptimal(groups, width);
    var words := Split(text);
    if words != [] {
      var i := WordOnSomeLine(groups, words[0]);
      WordNoLongerThanLine(groups[i], words[0]);
    }
  }
}
