/**
 * A text file as seen by the script: `write` appends strings, `readlines()`
 * cuts the text after every newline, each line keeping its "\n" (the last
 * line may lack one). Each stage of the script writes a file that the next
 * stage reads back, so the handoff is `ReadLines(Concat(written))`.
 */
module Files {
  import opened Seqs

  /** The text of a file after writing these strings in order. */
  function Concat(chunks: seq<string>): string
  {
    if chunks == [] then "" else chunks[0] + Concat(chunks[1..])
  }

  /** Length of the first line of text: up to and including the first "\n",
      or all of the text when it holds no newline. */
  function LineLength(text: string): nat
  {
    if text == [] then 0
    else if text[0] == '\n' then 1
    else 1 + LineLength(text[1..])
  }

  /** `f.readlines()` on a file holding text. */
  function ReadLines(text: string): seq<string>
    decreases |text|
  {
    if text == [] then []
    else
      LineLengthBounds(text);
      var n := LineLength(text);
      [text[..n]] + ReadLines(text[n..])
  }

  /** A file written with these strings, closed and opened again for reading. */
  function Reread(written: seq<string>): seq<string>
  {
    ReadLines(Concat(written))
  }

  /** Non-empty, and no newline before the last character. */
  predicate IsLineText(l: string)
  {
    |l| > 0 && '\n' !in l[..|l| - 1]
  }

  predicate Terminated(l: string)
  {
    |l| > 0 && l[|l| - 1] == '\n'
  }

  /** What `readlines()` can return: proper lines, all but the last ending in "\n". */
  predicate LineSeq(ls: seq<string>)
  {
    && (forall i :: 0 <= i < |ls| ==> IsLineText(ls[i]))
    && (forall i :: 0 <= i < |ls| - 1 ==> Terminated(ls[i]))
  }

  lemma {:induction false} LineLengthBounds(text: string)
    requires text != []
    ensures 0 < LineLength(text) <= |text|
    ensures IsLineText(text[..LineLength(text)])
    ensures LineLength(text) < |text| ==> Terminated(text[..LineLength(text)])
  {
    if text[0] != '\n' && |text| > 1 {
      LineLengthBounds(text[1..]);
      var n := LineLength(text);
      assert text[..n] == [text[0]] + text[1..][..n - 1];
      assert text[..n][..n - 1] == [text[0]] + text[1..][..n - 1][..n - 2];
    }
  }

  /** The first line of a written file is the first string written, when that
      string is a proper line that ends in "\n" or is all there is. */
  lemma {:induction false} LineLengthOfLine(l: string, rest: string)
    requires IsLineText(l)
    requires Terminated(l) || rest == []
    ensures LineLength(l + rest) == |l|
  {
    if |l| > 1 {
      assert l[0] in l[..|l| - 1];
      assert (l + rest)[1..] == l[1..] + rest;
      assert l[1..][..|l| - 2] == l[..|l| - 1][1..];
      LineLengthOfLine(l[1..], rest);
    }
  }

  /** A proper first line survives writing and reading back, whatever follows
      it, when it ends in "\n" or nothing follows. */
  lemma RereadKeepsFirst(l: string, rest: seq<string>)
    requires IsLineText(l) && (Terminated(l) || rest == [])
    ensures Reread([l] + rest) == [l] + Reread(rest)
  {
    assert ([l] + rest)[1..] == rest;
    var tail := Concat(rest);
    assert Concat([l] + rest) == l + tail;
    LineLengthOfLine(l, tail);
    var text := l + tail;
    assert text[..|l|] == l && text[|l|..] == tail;
  }

  /** Reading back a file written as a sequence of lines gives those lines. */
  lemma {:induction false} RereadLines(ls: seq<string>)
    requires LineSeq(ls)
    ensures Reread(ls) == ls
  {
    if ls != [] {
      var rest := Concat(ls[1..]);
      assert LineSeq(ls[1..]) by {
        assert forall i :: 0 <= i < |ls| - 1 ==> ls[1..][i] == ls[i + 1];
      }
      RereadLines(ls[1..]);
      assert ls[1..] == [] ==> rest == [];
      LineLengthOfLine(ls[0], rest);
      var text := ls[0] + rest;
      assert text[..|ls[0]|] == ls[0];
      assert text[|ls[0]|..] == rest;
      assert ls == [ls[0]] + ls[1..];
    }
  }

  /** Writing back what `readlines()` returned reproduces the text. */
  lemma {:induction false} ConcatOfReadLines(text: string)
    ensures Concat(ReadLines(text)) == text
    decreases |text|
  {
    if text != [] {
      LineLengthBounds(text);
      var n := LineLength(text);
      var rest := ReadLines(text[n..]);
      ConcatOfReadLines(text[n..]);
      var ls := [text[..n]] + rest;
      assert ReadLines(text) == ls;
      assert ls[0] == text[..n] && ls[1..] == rest;
      assert Concat(ls) == text[..n] + Concat(rest);
      assert text == text[..n] + text[n..];
    }
  }

  /** `readlines()` always returns a LineSeq. */
  lemma {:induction false} ReadLinesAreLines(text: string)
    ensures LineSeq(ReadLines(text))
    decreases |text|
  {
    if text != [] {
      LineLengthBounds(text);
      var n := LineLength(text);
      ReadLinesAreLines(text[n..]);
      var ls := ReadLines(text);
      assert ls[1..] == ReadLines(text[n..]);
      assert forall i :: 1 <= i < |ls| ==> ls[i] == ls[1..][i - 1];
      assert |ls| > 1 ==> n < |text|;
    }
  }

  /** A proper line followed by lines is a LineSeq, when it ends in "\n" or nothing follows. */
  lemma LineSeqCons(l: string, ls: seq<string>)
    requires IsLineText(l) && LineSeq(ls)
    requires ls != [] ==> Terminated(l)
    ensures LineSeq([l] + ls)
  {
    var r := [l] + ls;
    assert forall i :: 1 <= i < |r| ==> r[i] == ls[i - 1];
  }

  /** Keeping some of the lines, in order, leaves a LineSeq. */
  lemma {:induction false} LineSeqFilter(ls: seq<string>, p: string -> bool)
    requires LineSeq(ls)
    ensures LineSeq(Filter(ls, p))
  {
    if ls != [] {
      var n := |ls| - 1;
      var ls' := ls[..n];
      assert LineSeq(ls') by {
        assert forall i :: 0 <= i < n ==> ls'[i] == ls[i];
      }
      LineSeqFilter(ls', p);
      var t' := Filter(ls', p);
      FilterMembers(ls', p);
      if p(ls[n]) {
        var t := t' + [ls[n]];
        forall i | 0 <= i < |t| - 1 ensures Terminated(t[i]) {
          assert t[i] == t'[i] && t'[i] in ls';
          var k :| 0 <= k < n && ls'[k] == t[i];
          assert ls[k] == t[i];
        }
        assert forall i :: 0 <= i < |t| ==> IsLineText(t[i]) by {
          assert forall i :: 0 <= i < |t'| ==> t[i] == t'[i];
        }
      }
    }
  }
}
