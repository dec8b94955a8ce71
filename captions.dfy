/** Cleaning of the downloaded caption track (yt-video-summary.py:40-51): tag
    removal, cue-line removal, blank-line removal and the rebuild that writes
    every surviving line followed by a newline. Lines are the `\n`-separated
    pieces of the text; Python's `.` matches any character except `\n`. */
module Captions {
  import opened Seqs
  import opened Text

  /** The text before the first newline: the longest stretch `.*` can match. */
  function FirstLine(s: string): (r: string)
    ensures |r| <= |s| && r == s[..|r|] && '\n' !in r
    ensures |r| < |s| ==> s[|r|] == '\n'
  {
    if s == [] || s[0] == '\n' then [] else [s[0]] + FirstLine(s[1..])
  }

  lemma {:induction false} FirstLineOf(a: string, b: string)
    requires '\n' !in a
    ensures FirstLine(a) == a && FirstLine(a + "\n" + b) == a
  {
    if a != [] {
      FirstLineOf(a[1..], b);
      assert (a + "\n" + b)[1..] == a[1..] + "\n" + b;
      assert [a[0]] + a[1..] == a;
    } else {
      assert (a + "\n" + b)[0] == '\n';
    }
  }

  /** Where a tag opened by a `<` just before `s` closes: the index of the first
      `>` before the end of the line, if there is one. This is the lazy `.*?>`
      of the pattern `<.*?>`. */
  function TagClose(s: string): (r: Option<nat>)
    ensures r.Some? ==> r.value < |s|
  {
    if s == [] || s[0] == '\n' then None
    else if s[0] == '>' then Some(0)
    else match TagClose(s[1..])
      case None => None
      case Some(j) => Some(j + 1)
  }

  /** The tag closes exactly when its line has a `>`, and then at the first one. */
  lemma {:induction false} TagCloseFirst(s: string)
    ensures TagClose(s).None? <==> '>' !in FirstLine(s)
    ensures TagClose(s).Some? ==> var j := TagClose(s).value;
      j < |FirstLine(s)| && s[j] == '>' && '>' !in s[..j]
  {
    if s != [] && s[0] != '\n' && s[0] != '>' {
      TagCloseFirst(s[1..]);
      assert FirstLine(s) == [s[0]] + FirstLine(s[1..]);
      if TagClose(s[1..]).Some? {
        var j := TagClose(s[1..]).value;
        assert s[..j + 1] == [s[0]] + s[1..][..j];
      }
    }
  }

  lemma {:induction false} TagCloseInLine(a: string, b: string)
    requires '\n' !in a
    ensures TagClose(a + "\n" + b) == TagClose(a)
  {
    var s := a + "\n" + b;
    if a == [] {
      assert s[0] == '\n';
    } else {
      assert s[0] == a[0] && s[1..] == a[1..] + "\n" + b;
      TagCloseInLine(a[1..], b);
    }
  }

  /** `re.sub(r"<.*?>", "", s)`: each `<` that has a `>` later on its line starts
      a tag, which is deleted up to and including the first such `>`; any other
      character is kept. */
  function StripTags(s: string): string
    decreases |s|
  {
    if s == [] then []
    else if s[0] == '<' && TagClose(s[1..]).Some? then StripTags(s[TagClose(s[1..]).value + 2..])
    else [s[0]] + StripTags(s[1..])
  }

  /** No line holds a `<` followed later on the same line by a `>`: at no
      position does a tag begin. */
  ghost predicate TagFree(s: string)
    decreases |s|
  {
    s == [] || (!(s[0] == '<' && '>' in FirstLine(s[1..])) && TagFree(s[1..]))
  }

  lemma TagFreeCons(x: char, r: string)
    requires TagFree(r) && (x == '<' ==> '>' !in FirstLine(r))
    ensures TagFree([x] + r)
  {
    assert ([x] + r)[1..] == r;
  }

  /** A line with no `>` loses nothing to tag removal. */
  lemma {:induction false} StripTagsKeepsLine(t: string)
    requires '>' !in FirstLine(t)
    ensures FirstLine(StripTags(t)) == FirstLine(t)
  {
    if t != [] && t[0] != '\n' {
      assert FirstLine(t[1..]) == FirstLine(t)[1..];
      TagCloseFirst(t[1..]);
      StripTagsKeepsLine(t[1..]);
      assert StripTags(t) == [t[0]] + StripTags(t[1..]);
    }
  }

  /** After tag removal no line contains a `<` with a `>` after it. */
  lemma {:induction false} StripTagsTagFree(s: string)
    ensures TagFree(StripTags(s))
    decreases |s|
  {
    if s != [] {
      if s[0] == '<' && TagClose(s[1..]).Some? {
        StripTagsTagFree(s[TagClose(s[1..]).value + 2..]);
      } else {
        StripTagsTagFree(s[1..]);
        if s[0] == '<' {
          TagCloseFirst(s[1..]);
          StripTagsKeepsLine(s[1..]);
        }
        TagFreeCons(s[0], StripTags(s[1..]));
      }
    }
  }

  /** The first `>` of a line that has no earlier `>` closes the tag. */
  lemma {:induction false} TagCloseAt(m: string, t: string)
    requires '>' !in m && '\n' !in m
    ensures TagClose(m + ">" + t) == Some(|m|)
  {
    var s := m + ">" + t;
    if m == [] {
      assert s[0] == '>';
    } else {
      assert s[0] == m[0] && s[1..] == m[1..] + ">" + t;
      TagCloseAt(m[1..], t);
    }
  }

  /** A tag, from its `<` to the first `>` on its line, is deleted whole. */
  lemma TagDeleted(m: string, t: string)
    requires '>' !in m && '\n' !in m
    ensures StripTags("<" + m + ">" + t) == StripTags(t)
  {
    var s := "<" + m + ">" + t;
    assert s[0] == '<' && s[1..] == m + ">" + t;
    TagCloseAt(m, t);
    assert s[|m| + 2..] == t;
  }

  /** A `<` with no `>` later on its line is kept. */
  lemma TagKept(t: string)
    requires '>' !in FirstLine(t)
    ensures StripTags("<" + t) == "<" + StripTags(t)
  {
    var s := "<" + t;
    assert s[0] == '<' && s[1..] == t;
    TagCloseFirst(t);
  }

  /** Tag removal only deletes characters: the rest keep their order. */
  lemma {:induction false} StripTagsSublist(s: string)
    ensures Sublist(StripTags(s), s)
    decreases |s|
  {
    if s != [] {
      if s[0] == '<' && TagClose(s[1..]).Some? {
        var j := TagClose(s[1..]).value;
        StripTagsSublist(s[j + 2..]);
        SublistPrepend(StripTags(s[j + 2..]), s[..j + 2], s[j + 2..]);
        assert s[..j + 2] + s[j + 2..] == s;
      } else {
        StripTagsSublist(s[1..]);
        SublistCons(s[0], StripTags(s[1..]), s[1..]);
        assert [s[0]] + s[1..] == s;
      }
    }
  }

  /** Tag removal changes a text exactly when a tag is left in it, so applying it
      twice is the same as once. */
  lemma {:induction false} StripTagsFixpoint(s: string)
    ensures StripTags(s) == s <==> TagFree(s)
    decreases |s|
  {
    StripTagsTagFree(s);
    if s != [] && TagFree(s) {
      TagCloseFirst(s[1..]);
      assert s[0] == '<' ==> TagClose(s[1..]).None?;
      StripTagsFixpoint(s[1..]);
      assert [s[0]] + s[1..] == s;
    }
  }

  lemma StripTagsIdempotent(s: string)
    ensures StripTags(StripTags(s)) == StripTags(s)
  {
    StripTagsTagFree(s);
    StripTagsFixpoint(StripTags(s));
  }

  /** Tag removal never crosses a newline. */
  lemma {:induction false} StripTagsNewline(a: string, b: string)
    requires '\n' !in a
    ensures StripTags(a + "\n" + b) == StripTags(a) + "\n" + StripTags(b)
    decreases |a|, 1
  {
    var s := a + "\n" + b;
    if a == [] {
      assert s[0] == '\n' && s[1..] == b;
    } else if a[0] == '<' && TagClose(a[1..]).Some? {
      var rest := TagAcrossLine(a, b);
      StripTagsNewline(rest, b);
    } else {
      StripTagsNewlineChar(a, b);
    }
  }

  /** A tag that opens the line `a` closes inside it, whatever follows the
      newline; both texts continue after it with the same `rest`. */
  lemma TagAcrossLine(a: string, b: string) returns (rest: string)
    requires '\n' !in a && a != [] && a[0] == '<' && TagClose(a[1..]).Some?
    ensures |rest| < |a| && '\n' !in rest
    ensures StripTags(a) == StripTags(rest)
    ensures StripTags(a + "\n" + b) == StripTags(rest + "\n" + b)
  {
    var s := a + "\n" + b;
    var j := TagClose(a[1..]).value;
    rest := a[j + 2..];
    assert s[0] == '<' && s[1..] == a[1..] + "\n" + b;
    TagCloseInLine(a[1..], b);
    assert s[j + 2..] == rest + "\n" + b by {
      assert s == a + ("\n" + b);
      DropConcat(a, "\n" + b, j + 2);
    }
  }

  lemma {:induction false} StripTagsNewlineChar(a: string, b: string)
    requires '\n' !in a && a != [] && !(a[0] == '<' && TagClose(a[1..]).Some?)
    ensures StripTags(a + "\n" + b) == StripTags(a) + "\n" + StripTags(b)
    decreases |a|, 0
  {
    var s := a + "\n" + b;
    assert s[0] == a[0] && s[1..] == a[1..] + "\n" + b;
    if a[0] == '<' {
      TagCloseInLine(a[1..], b);
    }
    StripTagsKeepFirst(s);
    StripTagsKeepFirst(a);
    StripTagsNewline(a[1..], b);
  }

  /** A first character that opens no tag is kept. */
  lemma StripTagsKeepFirst(s: string)
    requires s != [] && !(s[0] == '<' && TagClose(s[1..]).Some?)
    ensures StripTags(s) == [s[0]] + StripTags(s[1..])
  {
  }

  /** Text without `<` passes through tag removal unchanged. */
  lemma {:induction false} StripTagsPlain(p: string, t: string)
    requires '<' !in p
    ensures StripTags(p + t) == p + StripTags(t)
  {
    if p != [] {
      assert (p + t)[0] == p[0] && (p + t)[1..] == p[1..] + t;
      StripTagsPlain(p[1..], t);
      assert [p[0]] + p[1..] == p;
    } else {
      assert p + t == t;
    }
  }

  lemma {:induction false} StripTagsNoNewline(a: string)
    requires '\n' !in a
    ensures '\n' !in StripTags(a)
  {
    if '\n' in StripTags(a) {
      StripTagsSublist(a);
      SublistMembers(StripTags(a), a, '\n');
    }
  }

  /** Tag removal works within single lines: the lines of the result are the
      lines of the input, each with its own tags removed. */
  lemma {:induction false} StripTagsByLine(s: string)
    ensures |Split(StripTags(s), '\n')| == |Split(s, '\n')|
    ensures forall i :: 0 <= i < |Split(s, '\n')| ==> Split(StripTags(s), '\n')[i] == StripTags(Split(s, '\n')[i])
    decreases |s|
  {
    var a := FirstLine(s);
    if |a| == |s| {
      assert a == s;
      SplitNone(s, '\n');
      StripTagsNoNewline(s);
      SplitNone(StripTags(s), '\n');
    } else {
      var rest := s[|a| + 1..];
      assert s == a + "\n" + rest;
      SplitFirst(a, '\n', rest);
      StripTagsNewline(a, rest);
      StripTagsNoNewline(a);
      SplitFirst(StripTags(a), '\n', StripTags(rest));
      StripTagsByLine(rest);
    }
  }

  /** The marker that the caption format puts on its cue-timing lines. */
  const CueMarker := "align:start position:"

  /** `pat` occurs somewhere in `s`. */
  predicate Contains(s: string, pat: string)
    decreases |s|
  {
    pat <= s || (s != [] && Contains(s[1..], pat))
  }

  /** A line that is not a cue-timing line. */
  predicate Spoken(line: string)
  {
    !Contains(line, CueMarker)
  }

  /** `re.sub(r".*align:start position:.*\n", "", s)`. Neither `.*` crosses a
      newline and the pattern ends with one, so every match is a whole line
      together with its terminating newline: this removes each newline-terminated
      line that holds the marker. A last line without a newline stays. */
  function DropCueLines(s: string): string
    decreases |s|
  {
    var line := FirstLine(s);
    if |line| == |s| then s
    else if Spoken(line) then line + "\n" + DropCueLines(s[|line| + 1..])
    else DropCueLines(s[|line| + 1..])
  }

  /** Cue removal takes the first line, with its newline, or drops both. */
  lemma DropCueLinesStep(line: string, rest: string)
    requires '\n' !in line
    ensures Spoken(line) ==> DropCueLines(line + "\n" + rest) == line + "\n" + DropCueLines(rest)
    ensures !Spoken(line) ==> DropCueLines(line + "\n" + rest) == DropCueLines(rest)
  {
    var s := line + "\n" + rest;
    FirstLineOf(line, rest);
    assert s[|line| + 1..] == rest;
  }

  /** The lines after cue removal: the newline-terminated lines that are not cue
      lines, in order, then the unterminated tail unchanged. */
  lemma {:induction false} DropCueLinesByLine(s: string)
    ensures var ls := Split(s, '\n');
      Split(DropCueLines(s), '\n') == Filter(Spoken, ls[..|ls| - 1]) + [ls[|ls| - 1]]
    decreases |s|
  {
    var line := FirstLine(s);
    if '\n' !in s {
      SplitNone(s, '\n');
      FirstLineOf(s, "");
    } else {
      var rest := LineAndRest(s);
      DropCueLinesByLine(rest);
      DropCueLinesByLineStep(line, rest);
    }
  }

  /** A text with a newline is its first line, the newline, and the rest. */
  lemma LineAndRest(s: string) returns (rest: string)
    requires '\n' in s
    ensures s == FirstLine(s) + "\n" + rest && |rest| < |s|
  {
    var line := FirstLine(s);
    rest := s[|line| + 1..];
    assert s == line + "\n" + rest;
  }

  /** One line more in front of a text whose cue lines are already accounted for. */
  lemma DropCueLinesByLineStep(line: string, rest: string)
    requires '\n' !in line
    requires var tail := Split(rest, '\n');
      Split(DropCueLines(rest), '\n') == Filter(Spoken, tail[..|tail| - 1]) + [tail[|tail| - 1]]
    ensures var ls := Split(line + "\n" + rest, '\n');
      Split(DropCueLines(line + "\n" + rest), '\n') == Filter(Spoken, ls[..|ls| - 1]) + [ls[|ls| - 1]]
  {
    var tail := Split(rest, '\n');
    var body := tail[..|tail| - 1];
    var last := tail[|tail| - 1];
    SplitInit(line, rest);
    DropCueLinesOneMore(line, rest, body, last);
  }

  lemma SplitInit(line: string, rest: string)
    requires '\n' !in line
    ensures var tail := Split(rest, '\n');
      var ls := Split(line + "\n" + rest, '\n');
      ls[..|ls| - 1] == [line] + tail[..|tail| - 1] && ls[|ls| - 1] == tail[|tail| - 1]
  {
    var tail := Split(rest, '\n');
    SplitFirst(line, '\n', rest);
    assert Split(line + "\n" + rest, '\n') == [line] + tail;
  }

  lemma DropCueLinesOneMore(line: string, rest: string, body: seq<string>, last: string)
    requires '\n' !in line
    requires Split(DropCueLines(rest), '\n') == Filter(Spoken, body) + [last]
    ensures Split(DropCueLines(line + "\n" + rest), '\n') == Filter(Spoken, [line] + body) + [last]
  {
    FilterCons(Spoken, line, body);
    DropCueLinesStep(line, rest);
    if Spoken(line) {
      SplitFirst(line, '\n', DropCueLines(rest));
      assert [line] + (Filter(Spoken, body) + [last]) == ([line] + Filter(Spoken, body)) + [last];
    }
  }

  /** A line that `line.strip()` leaves non-empty. */
  predicate NonBlank(line: string)
  {
    Strip(line) != []
  }

  /** The lines kept by the list comprehension at yt-video-summary.py:45, in order. */
  function KeptLines(raw: string): seq<string>
  {
    Filter(NonBlank, Split(DropCueLines(StripTags(raw)), '\n'))
  }

  /** Every line followed by a newline. */
  function Terminated(ls: seq<string>): string
  {
    if ls == [] then [] else ls[0] + "\n" + Terminated(ls[1..])
  }

  lemma {:induction false} TerminatedSnoc(ls: seq<string>, l: string)
    ensures Terminated(ls + [l]) == Terminated(ls) + l + "\n"
  {
    if ls == [] {
      assert ls + [l] == [l];
    } else {
      assert (ls + [l])[1..] == ls[1..] + [l];
      TerminatedSnoc(ls[1..], l);
    }
  }

  /** Terminating every line is joining them with one empty piece after the last. */
  lemma {:induction false} TerminatedIsJoin(ls: seq<string>)
    ensures Terminated(ls) == Join(ls + [""], "\n")
  {
    if ls != [] {
      assert (ls + [""])[1..] == ls[1..] + [""];
      TerminatedIsJoin(ls[1..]);
    }
  }

  /** The string download_youtube_subtitle returns beside the title: the lines of
      `"\n".join(kept)`, each followed by a newline. */
  function CleanedText(raw: string): string
  {
    Terminated(Split(Join(KeptLines(raw), "\n"), '\n'))
  }

  /** The steps at yt-video-summary.py:41-51: the three substitutions, then the
      loop writing each line and a newline to the buffer. */
  method CleanSubtitle(raw: string) returns (cleaned: string)
    ensures cleaned == CleanedText(raw)
  {
    var text := StripTags(raw);
    text := DropCueLines(text);
    text := Join(Filter(NonBlank, Split(text, '\n')), "\n");
    var lines := Split(text, '\n');
    cleaned := [];
    var i := 0;
    while i < |lines|
      invariant 0 <= i <= |lines|
      invariant cleaned == Terminated(lines[..i])
    {
      TerminatedSnoc(lines[..i], lines[i]);
      assert lines[..i + 1] == lines[..i] + [lines[i]];
      cleaned := cleaned + lines[i] + "\n";
      i := i + 1;
    }
    assert lines[..i] == lines;
  }

  /** The kept lines are exactly the non-blank lines left after tag and cue
      removal, in their original order, and none of them holds a newline. */
  lemma KeptLinesMembers(raw: string)
    ensures var source := Split(DropCueLines(StripTags(raw)), '\n');
      && (forall l :: l in KeptLines(raw) <==> l in source && NonBlank(l))
      && Sublist(KeptLines(raw), source)
    ensures forall l :: l in KeptLines(raw) ==> '\n' !in l
  {
    var source := Split(DropCueLines(StripTags(raw)), '\n');
    SplitPieces(DropCueLines(StripTags(raw)), '\n');
    FilterMembers(NonBlank, source);
    FilterSublist(NonBlank, source);
  }

  /** The cleaned text is the kept lines, each followed by a newline, or a single
      newline when no line is kept; its lines are the kept lines and nothing
      follows the final newline. */
  lemma CleanedTextShape(raw: string)
    ensures KeptLines(raw) == [] ==> CleanedText(raw) == "\n"
    ensures KeptLines(raw) != [] ==> CleanedText(raw) == Terminated(KeptLines(raw))
    ensures KeptLines(raw) != [] ==> Split(CleanedText(raw), '\n') == KeptLines(raw) + [""]
    ensures CleanedText(raw) == "\n" <==> KeptLines(raw) == []
  {
    var kept := KeptLines(raw);
    KeptLinesMembers(raw);
    if kept == [] {
      assert Join(kept, "\n") == [];
      assert Split([], '\n') == [[]];
      assert Terminated([[]]) == [] + "\n" + Terminated([]);
    } else {
      assert CleanedText(raw) == Terminated(kept) by {
        SplitJoin(kept, '\n');
      }
      assert Split(Terminated(kept), '\n') == kept + [""] by {
        TerminatedIsJoin(kept);
        assert forall i :: 0 <= i < |kept + [""]| ==> '\n' !in (kept + [""])[i];
        SplitJoin(kept + [""], '\n');
      }
      assert Terminated(kept) != "\n" by {
        assert kept[0] in kept;
        assert Strip([]) == [];
        assert Terminated(kept) == kept[0] + "\n" + Terminated(kept[1..]);
      }
    }
  }

  /** No line of the cleaned text, before the final newline, is whitespace only. */
  lemma CleanedTextNoBlank(raw: string, i: nat)
    requires KeptLines(raw) != [] && i < |Split(CleanedText(raw), '\n')| - 1
    ensures !AllSpace(Split(CleanedText(raw), '\n')[i])
  {
    CleanedTextShape(raw);
    KeptLinesMembers(raw);
    var line := KeptLines(raw)[i];
    assert Split(CleanedText(raw), '\n')[i] == line;
    assert line in KeptLines(raw);
    StripBlank(line);
  }
}
