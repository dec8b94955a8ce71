/** The clean-up at the start of summarize_file (yt-video-summary.py:105-108),
    which turns the caption lines into one paragraph. */
module Flattening {
  import opened Seqs
  import opened Text

  /** `re.sub("\n+", "\n", ·)`, then `re.sub("\n", ". ", ·)`, then
      `re.sub(" +", " ", ·)`, then `.strip()`. */
  function Flatten(text: string): string
  {
    Strip(Squeeze(Replace(Squeeze(text, '\n'), '\n', ". "), ' '))
  }

  /** One paragraph: no newline, no two spaces in a row, no whitespace at the ends. */
  predicate Flat(s: string)
  {
    '\n' !in s && NoRepeat(s, ' ') && Stripped(s)
  }

  /** The flattened text is one paragraph. */
  lemma FlattenIsFlat(text: string)
    ensures Flat(Flatten(text))
  {
    var b := Replace(Squeeze(text, '\n'), '\n', ". ");
    var c := Squeeze(b, ' ');
    var r := Strip(c);
    assert '\n' !in c by {
      SqueezeSublist(b, ' ');
      if '\n' in c {
        SublistMembers(c, b, '\n');
      }
    }
    var k := StripSlice(c);
    NoRepeatSlice(c, ' ', k, k + |r|);
  }

  /** The flattening leaves a text unchanged exactly when it is one paragraph. */
  lemma FlatFixpoint(s: string)
    ensures Flatten(s) == s <==> Flat(s)
  {
    FlattenIsFlat(s);
    if Flat(s) {
      SqueezeFixpoint(s, '\n');
      ReplaceAbsent(s, '\n', ". ");
      SqueezeFixpoint(s, ' ');
      StripFixpoint(s);
    }
  }

  /** Applying the four substitutions a second time changes nothing. */
  lemma FlattenIdempotent(text: string)
    ensures Flatten(Flatten(text)) == Flatten(text)
  {
    FlattenIsFlat(text);
    FlatFixpoint(Flatten(text));
  }

  /** A character of the spoken words: neither whitespace nor the `.` that the
      flattening inserts. */
  predicate IsWordChar(c: char)
  {
    !IsSpace(c) && c != '.'
  }

  /** The flattening only touches whitespace and full stops: the word characters
      of the text all survive, in their original order. */
  lemma FlattenKeepsWords(text: string)
    ensures Filter(IsWordChar, Flatten(text)) == Filter(IsWordChar, text)
  {
    var a := Squeeze(text, '\n');
    var b := Replace(a, '\n', ". ");
    var c := Squeeze(b, ' ');
    SqueezeKeeps(IsWordChar, text, '\n');
    ReplaceKeeps(IsWordChar, a, '\n', ". ");
    SqueezeKeeps(IsWordChar, b, ' ');
    StripKeeps(IsWordChar, c);
  }
}
