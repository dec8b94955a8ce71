/** chunk_text (yt-video-summary.py:59-64): the text cut into windows of
    `chunk_size` characters at the offsets `range(0, len(text), chunk_size)`. */
module Chunking {
  import opened Seqs

  /** What chunk_text produces; `range` raises a ValueError when its step is zero. */
  datatype Result<T> = Ok(value: T) | RangeStepZero

  function Min(a: int, b: int): int
  {
    if a <= b then a else b
  }

  /** The chunks of `text` for a positive size: the first `size` characters (all
      of them when fewer are left), then the chunks of the rest. */
  function Chunks(text: string, size: nat): seq<string>
    requires size > 0
    decreases |text|
  {
    if text == [] then [] else [text[..Min(size, |text|)]] + Chunks(text[Min(size, |text|)..], size)
  }

  /** The chunks, concatenated in order, give back the text exactly. */
  lemma {:induction false} ChunksConcat(text: string, size: nat)
    requires size > 0
    ensures Concat(Chunks(text, size)) == text
    decreases |text|
  {
    if text != [] {
      var m := Min(size, |text|);
      ChunksConcat(text[m..], size);
      assert text[..m] + text[m..] == text;
    }
  }

  /** Every chunk is non-empty and at most `size` long; all but the last are exactly `size` long. */
  lemma {:induction false} ChunkLength(text: string, size: nat, k: nat)
    requires size > 0 && k < |Chunks(text, size)|
    ensures 0 < |Chunks(text, size)[k]| <= size
    ensures k < |Chunks(text, size)| - 1 ==> |Chunks(text, size)[k]| == size
    decreases |text|
  {
    var m := Min(size, |text|);
    var rest := Chunks(text[m..], size);
    assert Chunks(text, size) == [text[..m]] + rest;
    if m < size {
      assert text[m..] == [];
      assert rest == [];
    }
    if k > 0 {
      ChunkLength(text[m..], size, k - 1);
    }
  }

  lemma ChunksSizes(text: string, size: nat)
    requires size > 0
    ensures var cs := Chunks(text, size);
      forall i :: 0 <= i < |cs| ==> 0 < |cs[i]| <= size && (i < |cs| - 1 ==> |cs[i]| == size)
  {
    forall i | 0 <= i < |Chunks(text, size)|
      ensures 0 < |Chunks(text, size)[i]| <= size
      ensures i < |Chunks(text, size)| - 1 ==> |Chunks(text, size)[i]| == size
    {
      ChunkLength(text, size, i);
    }
  }

  lemma {:induction false} MulAtLeast(a: nat, n: nat)
    requires a >= 1
    ensures a * n >= n
  {
    if a > 1 {
      MulAtLeast(a - 1, n);
      assert a * n == (a - 1) * n + n;
    }
  }

  lemma DivUnique(a: int, n: int, q: int, r: int)
    requires n > 0 && 0 <= r < n && a == q * n + r
    ensures a / n == q
  {
    var qq, rr := a / n, a % n;
    assert a == qq * n + rr && 0 <= rr < n;
    if qq > q {
      assert qq * n == (qq - q) * n + q * n;
      MulAtLeast(qq - q, n);
    }
    if qq < q {
      assert q * n == (q - qq) * n + qq * n;
      MulAtLeast(q - qq, n);
    }
  }

  lemma DivStep(x: nat, n: nat)
    requires n > 0
    ensures (x + n) / n == x / n + 1
  {
    var q, r := x / n, x % n;
    assert x == q * n + r;
    assert x + n == (q + 1) * n + r;
    DivUnique(x + n, n, q + 1, r);
  }

  /** There are ceil(len(text) / size) chunks; in particular none for an empty text. */
  lemma {:induction false} ChunksCount(text: string, size: nat)
    requires size > 0
    ensures |Chunks(text, size)| == (|text| + size - 1) / size
    decreases |text|
  {
    if text == [] {
      DivUnique(size - 1, size, 0, size - 1);
    } else {
      var m := Min(size, |text|);
      var rest := text[m..];
      assert |Chunks(text, size)| == 1 + |Chunks(rest, size)|;
      ChunksCount(rest, size);
      if |text| > size {
        assert |rest| + size - 1 == |text| - 1;
        DivStep(|text| - 1, size);
      } else {
        assert |rest| == 0;
        DivUnique(size - 1, size, 0, size - 1);
        DivUnique(|text| + size - 1, size, 1, |text| - 1);
      }
    }
  }

  /** The `k`-th chunk is the slice `text[k*size:k*size+size]`, as Python's
      loop over `range(0, len(text), size)` takes it. */
  lemma {:induction false} ChunksAt(text: string, size: nat, k: nat)
    requires size > 0 && k < |Chunks(text, size)|
    ensures k * size < |text|
    ensures Chunks(text, size)[k] == text[k * size..Min(k * size + size, |text|)]
    decreases |text|
  {
    var m := Min(size, |text|);
    var rest := Chunks(text[m..], size);
    assert Chunks(text, size) == [text[..m]] + rest;
    if k == 0 {
      assert Chunks(text, size)[0] == text[..m];
    } else {
      assert Chunks(text, size)[k] == rest[k - 1];
      assert m == size;
      ChunksAt(text[m..], size, k - 1);
      DropWindow(text, size, (k - 1) * size, size);
      MulStep(k, size);
    }
  }

  lemma MulStep(k: nat, size: nat)
    requires k > 0
    ensures k * size == size + (k - 1) * size
  {
  }

  lemma DropWindow(text: string, m: nat, off: nat, size: nat)
    requires m <= |text| && off < |text| - m
    ensures text[m..][off..Min(off + size, |text| - m)] == text[m + off..Min(m + off + size, |text|)]
  {
  }

  /** A 25-character text cut at 10 gives chunks of 10, 10 and 5 characters. */
  lemma TwentyFiveByTen(text: string)
    requires |text| == 25
    ensures var cs := Chunks(text, 10);
      |cs| == 3 && cs == [text[..10], text[10..20], text[20..]]
  {
    ChunksCount(text, 10);
    ChunksAt(text, 10, 0);
    ChunksAt(text, 10, 1);
    ChunksAt(text, 10, 2);
    var cs := Chunks(text, 10);
    assert cs[0] == text[..10] && cs[1] == text[10..20] && cs[2] == text[20..];
  }

  lemma ChunksStep(text: string, size: nat, i: nat)
    requires size > 0 && i < |text|
    ensures Chunks(text[i..], size) == [text[i..Min(i + size, |text|)]] + Chunks(text[Min(i + size, |text|)..], size)
  {
    var t := text[i..];
    var m := Min(size, |t|);
    assert t[..m] == text[i..Min(i + size, |text|)];
    assert t[m..] == text[Min(i + size, |text|)..];
  }

  /** chunk_text: the loop that appends `text[i:i+chunk_size]` for every offset `i`
      in `range(0, len(text), chunk_size)`. */
  method ChunkText(text: string, size: int) returns (r: Result<seq<string>>)
    ensures size == 0 ==> r == RangeStepZero
    ensures size < 0 ==> r == Ok([])
    ensures size > 0 ==> r == Ok(Chunks(text, size))
  {
    if size == 0 {
      return RangeStepZero;
    }
    var chunks: seq<string> := [];
    if size > 0 {
      var i := 0;
      while i < |text|
        invariant 0 <= i
        invariant chunks + Chunks(text[Min(i, |text|)..], size) == Chunks(text, size)
      {
        ChunksStep(text, size, i);
        assert Min(i, |text|) == i;
        chunks := chunks + [text[i..Min(i + size, |text|)]];
        i := i + size;
      }
      assert text[Min(i, |text|)..] == [];
      assert Chunks(text[Min(i, |text|)..], size) == [];
      assert chunks + [] == chunks;
    }
    r := Ok(chunks);
  }
}
