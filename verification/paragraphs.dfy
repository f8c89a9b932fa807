/** Post-processing of the text returned by the transcription service (main.py
    line 85) and the text stored in the session (line 106): split into lines on
    `'\n'`, strip each line, drop the blank ones, and join the survivors with a
    blank line between them. */
module Paragraphs {
  import opened PyStr

  /** A line the filter `if p.strip()` rejects. */
  predicate Blank(line: string) {
    AllSpace(line)
  }

  /** What a kept paragraph looks like: non-empty, no surrounding whitespace, one line. */
  predicate IsParagraph(p: string) {
    p != [] && Trimmed(p) && '\n' !in p
  }

  /** `[p.strip() for p in lines if p.strip()]`, left to right. */
  function KeepNonBlank(lines: seq<string>): seq<string>
  {
    if |lines| == 0 then []
    else if Blank(lines[0]) then KeepNonBlank(lines[1..])
    else [Strip(lines[0])] + KeepNonBlank(lines[1..])
  }

  /** The comprehension distributes over concatenation of its input. */
  lemma {:induction false} KeepNonBlankAppend(a: seq<string>, b: seq<string>)
    ensures KeepNonBlank(a + b) == KeepNonBlank(a) + KeepNonBlank(b)
  {
    if |a| > 0 {
      assert (a + b)[1..] == a[1..] + b;
      KeepNonBlankAppend(a[1..], b);
    } else {
      assert a + b == b;
    }
  }

  /** Stripping a non-blank line without newlines gives a paragraph. */
  lemma StrippedLineIsParagraph(line: string)
    requires !Blank(line) && '\n' !in line
    ensures IsParagraph(Strip(line))
  {
    StripKeepsOnlyOwnChars(line, '\n');
  }

  /** Every kept line is a paragraph: stripping a non-blank line leaves a non-empty
      trimmed string, and it never introduces a newline. */
  lemma {:induction false} KeepNonBlankGivesParagraphs(lines: seq<string>)
    requires forall k :: 0 <= k < |lines| ==> '\n' !in lines[k]
    ensures |KeepNonBlank(lines)| <= |lines|
    ensures forall m :: 0 <= m < |KeepNonBlank(lines)| ==> IsParagraph(KeepNonBlank(lines)[m])
  {
    if |lines| > 0 {
      KeepNonBlankGivesParagraphs(lines[1..]);
      var rest := KeepNonBlank(lines[1..]);
      if !Blank(lines[0]) {
        StrippedLineIsParagraph(lines[0]);
        var p := Strip(lines[0]);
        assert KeepNonBlank(lines) == [p] + rest;
        assert forall m :: 0 <= m < |rest| ==> ([p] + rest)[m + 1] == rest[m];
      }
    }
  }

  /** main.py line 85: the paragraphs of a raw transcript. */
  function Normalize(text: string): (ps: seq<string>)
    ensures forall m :: 0 <= m < |ps| ==> IsParagraph(ps[m])
  {
    var lines := Split(text, '\n');
    KeepNonBlankGivesParagraphs(lines);
    KeepNonBlank(lines)
  }

  /** main.py line 106: the text stored as the session's transcription. It carries
      the same paragraphs as the service's text, and it is empty (falsy) exactly when
      that text was whitespace only. */
  function Transcript(text: string): (r: string)
    ensures Normalize(r) == Normalize(text)
    ensures r == "" <==> AllSpace(text)
  {
    ParagraphsSurviveRejoin(Normalize(text));
    JoinedParagraphsEmptyIffBlank(text);
    Join(Normalize(text), "\n\n")
  }

  /** Positions of the non-blank lines, in increasing order: every non-blank line,
      and nothing else, is listed. */
  function NonBlankIndices(lines: seq<string>): (idx: seq<nat>)
    ensures forall m :: 0 <= m < |idx| ==> idx[m] < |lines| && !Blank(lines[idx[m]])
    ensures forall m, n :: 0 <= m < n < |idx| ==> idx[m] < idx[n]
    ensures forall k :: 0 <= k < |lines| && !Blank(lines[k]) ==> k in idx
  {
    if |lines| == 0 then []
    else
      var last := |lines| - 1;
      var front := NonBlankIndices(lines[..last]);
      assert forall m :: 0 <= m < |front| ==> lines[..last][front[m]] == lines[front[m]];
      assert forall k :: 0 <= k < last ==> lines[..last][k] == lines[k];
      front + (if Blank(lines[last]) then [] else [last])
  }

  /** The m-th paragraph is the stripped m-th non-blank line. */
  lemma {:induction false} KeepNonBlankFollowsIndices(lines: seq<string>)
    ensures |KeepNonBlank(lines)| == |NonBlankIndices(lines)|
    ensures forall m :: 0 <= m < |KeepNonBlank(lines)| ==>
      KeepNonBlank(lines)[m] == Strip(lines[NonBlankIndices(lines)[m]])
  {
    if |lines| > 0 {
      var last := |lines| - 1;
      var front, x := lines[..last], lines[last];
      assert lines == front + [x];
      KeepNonBlankAppend(front, [x]);
      KeepNonBlankFollowsIndices(front);
      var kept, idx := KeepNonBlank(lines), NonBlankIndices(lines);
      var keptFront, idxFront := KeepNonBlank(front), NonBlankIndices(front);
      assert KeepNonBlank([x]) == if Blank(x) then [] else [Strip(x)];
      assert kept == keptFront + (if Blank(x) then [] else [Strip(x)]);
      assert idx == idxFront + (if Blank(x) then [] else [last]);
      forall m | 0 <= m < |kept| ensures kept[m] == Strip(lines[idx[m]]) {
        if m < |keptFront| {
          assert kept[m] == keptFront[m] && idx[m] == idxFront[m];
          assert front[idxFront[m]] == lines[idxFront[m]];
        }
      }
    }
  }

  /** Normalisation keeps exactly the non-blank lines of the input, each stripped,
      in their original relative order. */
  lemma NormalizeKeepsNonBlankLines(text: string)
    ensures var lines := Split(text, '\n');
            var idx := NonBlankIndices(lines);
            && |Normalize(text)| == |idx|
            && (forall m :: 0 <= m < |idx| ==> Normalize(text)[m] == Strip(lines[idx[m]]))
  {
    KeepNonBlankFollowsIndices(Split(text, '\n'));
  }

  /** The lines of `Join(ps, "\n\n")`: each paragraph followed by an empty line,
      except the last. */
  function Spaced(ps: seq<string>): seq<string>
  {
    if |ps| <= 1 then ps else [ps[0], ""] + Spaced(ps[1..])
  }

  lemma {:induction false} JoinSpaced(ps: seq<string>)
    requires |ps| >= 1
    ensures |Spaced(ps)| >= 1
    ensures Join(Spaced(ps), "\n") == Join(ps, "\n\n")
  {
    if |ps| > 1 {
      JoinSpaced(ps[1..]);
      var rest := Spaced(ps[1..]);
      var lines := [ps[0], ""] + rest;
      assert lines[1..] == [""] + rest;
      assert ([""] + rest)[1..] == rest;
      assert Join(lines, "\n") == ps[0] + "\n" + ("" + "\n" + Join(rest, "\n"));
    }
  }

  /** A paragraph is a non-blank line that stripping leaves as it is. */
  lemma ParagraphIsKept(p: string)
    requires IsParagraph(p)
    ensures !Blank(p) && Strip(p) == p
  {
    assert !IsSpace(p[0]);
    StripOfTrimmed(p);
  }

  /** No line of `Spaced(ps)` contains a newline when no paragraph does. */
  lemma {:induction false} SpacedHasNoNewline(ps: seq<string>)
    requires forall m :: 0 <= m < |ps| ==> '\n' !in ps[m]
    ensures forall k :: 0 <= k < |Spaced(ps)| ==> '\n' !in Spaced(ps)[k]
  {
    if |ps| > 1 {
      SpacedHasNoNewline(ps[1..]);
      var rest := Spaced(ps[1..]);
      assert Spaced(ps) == [ps[0], ""] + rest;
      forall k | 2 <= k < |Spaced(ps)| ensures Spaced(ps)[k] == rest[k - 2] { }
    }
  }

  /** One step of the comprehension: the first line contributes its stripped self
      unless it is blank. */
  lemma KeepNonBlankCons(x: string, rest: seq<string>)
    ensures KeepNonBlank([x] + rest)
         == (if Blank(x) then [] else [Strip(x)]) + KeepNonBlank(rest)
  {
    assert ([x] + rest)[1..] == rest;
  }

  /** A paragraph at the head of the lines is kept unchanged; an empty line is dropped. */
  lemma KeepNonBlankHead(p: string, rest: seq<string>)
    requires IsParagraph(p)
    ensures KeepNonBlank([p] + rest) == [p] + KeepNonBlank(rest)
    ensures KeepNonBlank([""] + rest) == KeepNonBlank(rest)
  {
    ParagraphIsKept(p);
    KeepNonBlankCons(p, rest);
    KeepNonBlankCons("", rest);
  }

  /** One paragraph of `Spaced(ps)` and the empty line after it contribute exactly
      that paragraph. */
  lemma SpacedStep(ps: seq<string>)
    requires |ps| >= 1 && IsParagraph(ps[0])
    ensures KeepNonBlank(Spaced(ps)) == [ps[0]] + KeepNonBlank(Spaced(ps[1..]))
  {
    if |ps| == 1 {
      assert ps == [ps[0]] + [] && ps[1..] == [];
      KeepNonBlankHead(ps[0], []);
    } else {
      var rest := Spaced(ps[1..]);
      assert Spaced(ps) == [ps[0]] + ([""] + rest);
      KeepNonBlankHead(ps[0], [""] + rest);
    }
  }

  /** Dropping the blank separator lines of `Spaced(ps)` gives back the paragraphs. */
  lemma {:induction false} SpacedKeepsParagraphs(ps: seq<string>)
    requires forall m :: 0 <= m < |ps| ==> IsParagraph(ps[m])
    ensures KeepNonBlank(Spaced(ps)) == ps
  {
    if |ps| > 0 {
      SpacedKeepsParagraphs(ps[1..]);
      SpacedStep(ps);
      assert [ps[0]] + ps[1..] == ps;
    }
  }

  /** Paragraphs joined with a blank line split back into the same paragraphs. */
  lemma ParagraphsSurviveRejoin(ps: seq<string>)
    requires forall m :: 0 <= m < |ps| ==> IsParagraph(ps[m])
    ensures Normalize(Join(ps, "\n\n")) == ps
  {
    if |ps| == 0 {
      assert Split("", '\n') == [""];
    } else {
      JoinSpaced(ps);
      SpacedHasNoNewline(ps);
      SpacedKeepsParagraphs(ps);
      SplitOfJoin(Spaced(ps), '\n');
    }
  }

  /** Re-normalising the stored transcription gives back the same paragraphs. */
  lemma NormalizeIdempotent(text: string)
    ensures Normalize(Transcript(text)) == Normalize(text)
    ensures Transcript(Transcript(text)) == Transcript(text)
  {
    ParagraphsSurviveRejoin(Normalize(text));
  }

  /** No paragraphs exactly when every line is blank. */
  lemma {:induction false} KeepNonBlankEmpty(lines: seq<string>)
    ensures KeepNonBlank(lines) == [] <==> forall k :: 0 <= k < |lines| ==> Blank(lines[k])
  {
    if |lines| > 0 {
      KeepNonBlankEmpty(lines[1..]);
      assert forall k :: 1 <= k < |lines| ==> lines[1..][k - 1] == lines[k];
    }
  }

  /** Lines joined with `'\n'` are whitespace only exactly when every line is. */
  lemma {:induction false} AllSpaceJoinLines(lines: seq<string>)
    ensures AllSpace(Join(lines, "\n")) <==> forall k :: 0 <= k < |lines| ==> AllSpace(lines[k])
  {
    if |lines| > 1 {
      AllSpaceJoinLines(lines[1..]);
      AllSpaceConcat(lines[0] + "\n", Join(lines[1..], "\n"));
      AllSpaceConcat(lines[0], "\n");
      assert forall k :: 1 <= k < |lines| ==> lines[1..][k - 1] == lines[k];
    }
  }

  /** The paragraphs joined with a blank line are empty exactly when the text they
      come from is whitespace only. */
  lemma JoinedParagraphsEmptyIffBlank(text: string)
    ensures Join(Normalize(text), "\n\n") == "" <==> AllSpace(text)
  {
    var lines := Split(text, '\n');
    var ps := Normalize(text);
    KeepNonBlankEmpty(lines);
    AllSpaceJoinLines(lines);
    if |ps| > 1 {
      assert Join(ps, "\n\n") == ps[0] + "\n\n" + Join(ps[1..], "\n\n");
    }
  }

  /** A single clean line is stored exactly as the service returned it. */
  lemma SingleParagraphKept(p: string)
    requires IsParagraph(p)
    ensures Transcript(p) == p
  {
    ParagraphsSurviveRejoin([p]);
  }

  /** Lines that are whitespace only and newline free. */
  predicate BlankLines(ls: seq<string>) {
    forall k :: 0 <= k < |ls| ==> Blank(ls[k]) && '\n' !in ls[k]
  }

  /** Two paragraphs with blank lines between and after them keep just the two. */
  lemma KeepTwoParagraphs(a: string, blanks: seq<string>, b: string, tail: seq<string>)
    requires IsParagraph(a) && IsParagraph(b) && BlankLines(blanks) && BlankLines(tail)
    ensures KeepNonBlank([a] + blanks + [b] + tail) == [a, b]
  {
    var front := [a] + blanks;
    KeepNonBlankEmpty(blanks);
    KeepNonBlankEmpty(tail);
    KeepNonBlankAppend([a], blanks);
    KeepNonBlankHead(a, []);
    assert [a] + [] == [a];
    assert KeepNonBlank(front) == [a];
    KeepNonBlankAppend(front, [b]);
    KeepNonBlankHead(b, []);
    assert [b] + [] == [b];
    assert KeepNonBlank(front + [b]) == [a, b];
    KeepNonBlankAppend(front + [b], tail);
  }

  /** No line of `[a] + blanks + [b] + tail` holds a newline. */
  lemma LinesHaveNoNewline(a: string, blanks: seq<string>, b: string, tail: seq<string>)
    requires IsParagraph(a) && IsParagraph(b) && BlankLines(blanks) && BlankLines(tail)
    ensures forall k :: 0 <= k < |[a] + blanks + [b] + tail| ==> '\n' !in ([a] + blanks + [b] + tail)[k]
  {
    var lines := [a] + blanks + [b] + tail;
    forall k | 0 <= k < |lines| ensures '\n' !in lines[k] {
      if 0 < k <= |blanks| {
        assert lines[k] == blanks[k - 1];
      } else if k > |blanks| + 1 {
        assert lines[k] == tail[k - |blanks| - 2];
      }
    }
  }

  /** Any run of whitespace-only lines between two lines becomes one blank line, and
      whitespace-only lines after the last one disappear. */
  lemma BlankLinesCollapse(a: string, blanks: seq<string>, b: string, tail: seq<string>)
    requires IsParagraph(a) && IsParagraph(b) && BlankLines(blanks) && BlankLines(tail)
    ensures Transcript(Join([a] + blanks + [b] + tail, "\n")) == a + "\n\n" + b
  {
    var lines := [a] + blanks + [b] + tail;
    LinesHaveNoNewline(a, blanks, b, tail);
    SplitOfJoin(lines, '\n');
    KeepTwoParagraphs(a, blanks, b, tail);
    assert Normalize(Join(lines, "\n")) == [a, b];
    assert Join([a, b], "\n\n") == a + "\n\n" + b;
  }

  /** The lines `a`, two empty lines, `b` and a final empty line, joined with
      newlines. */
  lemma JoinTwoBlanksThenNewline(a: string, b: string)
    ensures Join([a] + ["", ""] + [b] + [""], "\n") == a + "\n\n\n" + b + "\n"
  {
    var l4 := [b, ""];
    var l3 := [""] + l4;
    var l2 := [""] + l3;
    var lines := [a] + l2;
    assert [a] + ["", ""] + [b] + [""] == lines;
    assert l4[1..] == [""] && l3[1..] == l4 && l2[1..] == l3 && lines[1..] == l2;
    assert Join(l4, "\n") == b + "\n";
    assert Join(l3, "\n") == "\n" + b + "\n";
    assert Join(l2, "\n") == "\n\n" + b + "\n";
  }

  /** The example of a service reply with a run of blank lines and a trailing newline. */
  lemma HelloWorldExample()
    ensures Transcript("Hello world." + "\n\n\n" + "This is a test." + "\n")
         == "Hello world." + "\n\n" + "This is a test."
  {
    var a, b := "Hello world.", "This is a test.";
    assert a[0] == 'H' && a[|a| - 1] == '.' && b[0] == 'T' && b[|b| - 1] == '.';
    assert '\n' !in a && '\n' !in b;
    JoinTwoBlanksThenNewline(a, b);
    assert BlankLines(["", ""]) && BlankLines([""]);
    BlankLinesCollapse(a, ["", ""], b, [""]);
  }
}
