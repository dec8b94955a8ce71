/** The Python `str` operations that the script uses, over `string` (a `seq<char>`). */
module Text {
  import opened Seqs

  /** Python's `str.isspace()` for one character: exactly the characters that
      `str.strip()` with no argument removes. */
  predicate IsSpace(c: char)
  {
    c == ' ' || ('\t' <= c <= '\r') || ('\U{1C}' <= c <= '\U{1F}') || c == '\U{85}' || c == '\U{A0}'
    || c == '\U{1680}' || ('\U{2000}' <= c <= '\U{200A}') || c == '\U{2028}' || c == '\U{2029}'
    || c == '\U{202F}' || c == '\U{205F}' || c == '\U{3000}'
  }

  ghost predicate AllSpace(s: string)
  {
    forall i :: 0 <= i < |s| ==> IsSpace(s[i])
  }

  /** Neither end of `s` is whitespace. */
  predicate Stripped(s: string)
  {
    s == [] || (!IsSpace(s[0]) && !IsSpace(s[|s| - 1]))
  }

  /** Python's `str.lstrip()`. */
  function TrimLeft(s: string): (r: string)
    ensures |r| <= |s|
  {
    if s != [] && IsSpace(s[0]) then TrimLeft(s[1..]) else s
  }

  /** Python's `str.rstrip()`. */
  function TrimRight(s: string): (r: string)
    ensures |r| <= |s|
  {
    if s != [] && IsSpace(s[|s| - 1]) then TrimRight(s[..|s| - 1]) else s
  }

  /** `s.lstrip()` is what follows the whitespace at the start of `s`. */
  lemma {:induction false} TrimLeftSlice(s: string)
    ensures var r := TrimLeft(s);
      && r == s[|s| - |r|..] && (forall i :: 0 <= i < |s| - |r| ==> IsSpace(s[i]))
      && (r == [] || !IsSpace(r[0]))
  {
    if s != [] && IsSpace(s[0]) {
      TrimLeftSlice(s[1..]);
      var r := TrimLeft(s[1..]);
      assert forall i :: 0 < i < |s| - |r| ==> s[i] == s[1..][i - 1];
    }
  }

  /** `s.rstrip()` is what precedes the whitespace at the end of `s`. */
  lemma {:induction false} TrimRightSlice(s: string)
    ensures var r := TrimRight(s);
      && r == s[..|r|] && (forall i :: |r| <= i < |s| ==> IsSpace(s[i]))
      && (r == [] || !IsSpace(r[|r| - 1]))
  {
    if s != [] && IsSpace(s[|s| - 1]) {
      TrimRightSlice(s[..|s| - 1]);
      var r := TrimRight(s[..|s| - 1]);
      assert forall i :: |r| <= i < |s| - 1 ==> s[i] == s[..|s| - 1][i];
    }
  }

  /** Python's `str.strip()`. */
  function Strip(s: string): (r: string)
    ensures |r| <= |s| && Stripped(r)
  {
    TrimLeftSlice(s);
    TrimRightSlice(TrimLeft(s));
    TrimRight(TrimLeft(s))
  }

  /** `s.strip()` is the slice of `s` left after removing the whitespace at both ends. */
  lemma StripSlice(s: string) returns (k: nat)
    ensures k + |Strip(s)| <= |s| && Strip(s) == s[k..k + |Strip(s)|]
    ensures forall i :: 0 <= i < k ==> IsSpace(s[i])
    ensures forall i :: k + |Strip(s)| <= i < |s| ==> IsSpace(s[i])
  {
    var t := TrimLeft(s);
    k := |s| - |t|;
    assert t == s[k..] && forall i :: 0 <= i < k ==> IsSpace(s[i]) by {
      TrimLeftSlice(s);
    }
    var r := TrimRight(t);
    assert r == t[..|r|] && forall i :: |r| <= i < |t| ==> IsSpace(t[i]) by {
      TrimRightSlice(t);
    }
    assert r == Strip(s);
    assert r == s[k..k + |r|];
    assert forall i :: k + |r| <= i < |s| ==> s[i] == t[i - k];
  }

  /** `s.strip()` is empty exactly when `s` is all whitespace. */
  lemma StripBlank(s: string)
    ensures Strip(s) == [] <==> AllSpace(s)
  {
    var k := StripSlice(s);
    if Strip(s) != [] {
      assert s[k] == Strip(s)[0];
    }
  }

  /** `s.strip()` leaves `s` unchanged exactly when `s` has no whitespace at its ends. */
  lemma StripFixpoint(s: string)
    ensures Strip(s) == s <==> Stripped(s)
  {
    if Stripped(s) {
      assert TrimLeft(s) == s;
      assert TrimRight(s) == s;
    }
  }

  /** Occurrences of `c` in `s`. */
  function Count(s: string, c: char): nat
  {
    if s == [] then 0 else (if s[0] == c then 1 else 0) + Count(s[1..], c)
  }

  /** Python's `s.split(d)` for a one-character separator: the pieces between
      the separators, one more piece than there are separators. */
  function Split(s: string, d: char): (r: seq<string>)
    ensures |r| == Count(s, d) + 1
  {
    if s == [] then [[]]
    else
      var rest := Split(s[1..], d);
      if s[0] == d then [[]] + rest
      else [[s[0]] + rest[0]] + rest[1..]
  }

  /** No piece holds the separator. */
  lemma {:induction false} SplitPieces(s: string, d: char)
    ensures forall i :: 0 <= i < |Split(s, d)| ==> d !in Split(s, d)[i]
  {
    if s != [] {
      var rest := Split(s[1..], d);
      SplitPieces(s[1..], d);
      if s[0] != d {
        assert d !in [s[0]] + rest[0];
        var r := [[s[0]] + rest[0]] + rest[1..];
        assert forall i :: 1 <= i < |r| ==> r[i] == rest[i];
      }
    }
  }

  /** Python's `sep.join(ls)`. */
  function Join(ls: seq<string>, sep: string): string
  {
    if ls == [] then [] else if |ls| == 1 then ls[0] else ls[0] + sep + Join(ls[1..], sep)
  }

  /** A string without the separator is one piece. */
  lemma {:induction false} SplitNone(a: string, d: char)
    requires d !in a
    ensures Split(a, d) == [a]
  {
    if a != [] {
      SplitNone(a[1..], d);
      assert [a[0]] + a[1..] == a;
    }
  }

  /** Splitting at the first separator. */
  lemma {:induction false} SplitFirst(a: string, d: char, b: string)
    requires d !in a
    ensures Split(a + [d] + b, d) == [a] + Split(b, d)
  {
    var s := a + [d] + b;
    if a == [] {
      assert s[1..] == b;
    } else {
      assert s[1..] == a[1..] + [d] + b;
      SplitFirst(a[1..], d, b);
      assert [a[0]] + a[1..] == a;
    }
  }

  /** Putting a character in front of the first piece puts it in front of the join. */
  lemma JoinPrepend(x: char, ls: seq<string>, t: string)
    requires |ls| >= 1
    ensures Join([[x] + ls[0]] + ls[1..], t) == [x] + Join(ls, t)
  {
    var ms := [[x] + ls[0]] + ls[1..];
    assert ms[1..] == ls[1..];
    if |ls| > 1 {
      assert Join(ms, t) == ([x] + ls[0]) + t + Join(ls[1..], t);
      assert Join(ls, t) == ls[0] + t + Join(ls[1..], t);
    }
  }

  /** Joining the pieces with the separator gives back the string. */
  lemma {:induction false} JoinSplit(s: string, d: char)
    ensures Join(Split(s, d), [d]) == s
  {
    if s != [] {
      var rest := Split(s[1..], d);
      JoinSplit(s[1..], d);
      if s[0] == d {
        assert Join([[]] + rest, [d]) == [] + [d] + Join(rest, [d]);
      } else {
        JoinPrepend(s[0], rest, [d]);
      }
      assert [s[0]] + s[1..] == s;
    }
  }

  /** Splitting a join of separator-free pieces gives back the pieces. */
  lemma {:induction false} SplitJoin(ls: seq<string>, d: char)
    requires |ls| >= 1
    requires forall i :: 0 <= i < |ls| ==> d !in ls[i]
    ensures Split(Join(ls, [d]), d) == ls
  {
    if |ls| == 1 {
      SplitNone(ls[0], d);
    } else {
      SplitJoin(ls[1..], d);
      SplitFirst(ls[0], d, Join(ls[1..], [d]));
    }
  }

  /** `s.replace(c, t)` for one character `c` (also `re.sub` with a one-character pattern). */
  function Replace(s: string, c: char, t: string): (r: string)
    ensures c !in t ==> c !in r
  {
    if s == [] then [] else (if s[0] == c then t else [s[0]]) + Replace(s[1..], c, t)
  }

  /** Replacing `c` by `t` is the same as `t.join(s.split(c))`. */
  lemma {:induction false} ReplaceIsJoinSplit(s: string, c: char, t: string)
    ensures Replace(s, c, t) == Join(Split(s, c), t)
  {
    if s != [] {
      var rest := Split(s[1..], c);
      ReplaceIsJoinSplit(s[1..], c, t);
      if s[0] == c {
        assert Join([[]] + rest, t) == [] + t + Join(rest, t);
      } else {
        JoinPrepend(s[0], rest, t);
      }
    }
  }

  lemma {:induction false} ReplaceAbsent(s: string, c: char, t: string)
    requires c !in s
    ensures Replace(s, c, t) == s
  {
    if s != [] {
      ReplaceAbsent(s[1..], c, t);
      assert [s[0]] + s[1..] == s;
    }
  }

  /** No two adjacent copies of `c` in `s`. */
  predicate NoRepeat(s: string, c: char)
  {
    forall i :: 0 <= i < |s| - 1 ==> s[i] != c || s[i + 1] != c
  }

  /** `re.sub(c + "+", c, s)`: every run of `c` becomes one `c`. */
  function Squeeze(s: string, c: char): (r: string)
    ensures |s| > 0 ==> |r| > 0 && r[0] == s[0]
    ensures NoRepeat(r, c)
  {
    if |s| <= 1 then s
    else if s[0] == c && s[1] == c then Squeeze(s[1..], c)
    else [s[0]] + Squeeze(s[1..], c)
  }

  /** A run of `c` squeezes as one `c`: removing one copy from a run of two
      or more does not change the result. */
  lemma {:induction false} SqueezeRun(a: string, b: string, c: char)
    ensures Squeeze(a + [c, c] + b, c) == Squeeze(a + [c] + b, c)
    decreases |a|
  {
    var s := a + [c, c] + b;
    var s' := a + [c] + b;
    if a == [] {
      assert s[1..] == s';
    } else {
      assert s[0] == s'[0] && s[1] == s'[1];
      assert s[1..] == a[1..] + [c, c] + b;
      assert s'[1..] == a[1..] + [c] + b;
      SqueezeRun(a[1..], b, c);
    }
  }

  /** Squeezing only deletes characters. */
  lemma {:induction false} SqueezeSublist(s: string, c: char)
    ensures Sublist(Squeeze(s, c), s)
  {
    if |s| <= 1 {
      SublistRefl(s);
    } else {
      SqueezeSublist(s[1..], c);
      assert [s[0]] + s[1..] == s;
      if s[0] == c && s[1] == c {
        SublistPrepend(Squeeze(s[1..], c), [s[0]], s[1..]);
      } else {
        SublistCons(s[0], Squeeze(s[1..], c), s[1..]);
      }
    }
  }

  /** Squeezing `c` keeps every character other than `c`, in order. */
  lemma {:induction false} SqueezeKeeps(p: char -> bool, s: string, c: char)
    requires !p(c)
    ensures Filter(p, Squeeze(s, c)) == Filter(p, s)
  {
    if |s| > 1 {
      SqueezeKeeps(p, s[1..], c);
      if !(s[0] == c && s[1] == c) {
        FilterConcat(p, [s[0]], Squeeze(s[1..], c));
      }
    }
  }

  /** Squeezing leaves `s` unchanged exactly when `s` has no repeated `c`. */
  lemma {:induction false} SqueezeFixpoint(s: string, c: char)
    ensures Squeeze(s, c) == s <==> NoRepeat(s, c)
  {
    if |s| > 1 && NoRepeat(s, c) {
      assert NoRepeat(s[1..], c) by {
        forall i | 0 <= i < |s[1..]| - 1
          ensures s[1..][i] != c || s[1..][i + 1] != c
        {
          assert s[1..][i] == s[i + 1] && s[1..][i + 1] == s[i + 2];
        }
      }
      SqueezeFixpoint(s[1..], c);
      assert [s[0]] + s[1..] == s;
    }
  }

  lemma NoRepeatSlice(s: string, c: char, i: nat, j: nat)
    requires NoRepeat(s, c) && i <= j <= |s|
    ensures NoRepeat(s[i..j], c)
  {
    forall k | 0 <= k < |s[i..j]| - 1
      ensures s[i..j][k] != c || s[i..j][k + 1] != c
    {
      assert s[i..j][k] == s[i + k] && s[i..j][k + 1] == s[i + k + 1];
    }
  }

  lemma {:induction false} TrimLeftKeeps(p: char -> bool, s: string)
    requires forall c :: IsSpace(c) ==> !p(c)
    ensures Filter(p, TrimLeft(s)) == Filter(p, s)
  {
    if s != [] && IsSpace(s[0]) {
      TrimLeftKeeps(p, s[1..]);
    }
  }

  lemma {:induction false} TrimRightKeeps(p: char -> bool, s: string)
    requires forall c :: IsSpace(c) ==> !p(c)
    ensures Filter(p, TrimRight(s)) == Filter(p, s)
  {
    if s != [] && IsSpace(s[|s| - 1]) {
      var init := s[..|s| - 1];
      TrimRightKeeps(p, init);
      assert s == init + [s[|s| - 1]];
      FilterConcat(p, init, [s[|s| - 1]]);
    }
  }

  /** Stripping keeps every character that is not whitespace, in order. */
  lemma StripKeeps(p: char -> bool, s: string)
    requires forall c :: IsSpace(c) ==> !p(c)
    ensures Filter(p, Strip(s)) == Filter(p, s)
  {
    TrimLeftKeeps(p, s);
    TrimRightKeeps(p, TrimLeft(s));
  }

  /** Replacing `c` by text that `p` rejects keeps every character `p` accepts, in order. */
  lemma {:induction false} ReplaceKeeps(p: char -> bool, s: string, c: char, t: string)
    requires !p(c) && forall i :: 0 <= i < |t| ==> !p(t[i])
    ensures Filter(p, Replace(s, c, t)) == Filter(p, s)
  {
    if s != [] {
      ReplaceKeeps(p, s[1..], c, t);
      FilterConcat(p, if s[0] == c then t else [s[0]], Replace(s[1..], c, t));
      if s[0] == c {
        FilterNone(p, t);
      }
    }
  }
}
