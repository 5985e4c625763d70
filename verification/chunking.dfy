/** The sliding-window chunker: each row document is cut into windows of
    `size` characters whose starts are `size - overlap` apart, and the windows
    of all documents are concatenated in document order. */
module Chunking {
  import opened Outcomes

  /** Python's `text[start:start + size]` for `0 <= start <= |text|`. */
  function Window(text: string, start: nat, size: nat): string
    requires start <= |text|
  {
    text[start .. Min(start + size, |text|)]
  }

  /** The windows at `start`, `start + step`, ... below `|text|`. */
  function WindowsFrom(text: string, size: nat, step: nat, start: nat): seq<string>
    requires step > 0
    decreases |text| - start
  {
    if start >= |text| then []
    else [Window(text, start, size)] + WindowsFrom(text, size, step, start + step)
  }

  /** The inner loop over `range(0, len(text), step)`; a negative step makes
      the range empty. */
  function ChunkOne(text: string, size: nat, step: int): seq<string>
    requires step != 0
  {
    if step < 0 then [] else WindowsFrom(text, size, step, 0)
  }

  /** The outer loop: the chunks of every text, in text order. */
  function ChunkAll(texts: seq<string>, size: nat, step: int): seq<string>
    requires step != 0
  {
    if |texts| == 0 then []
    else ChunkOne(texts[0], size, step) + ChunkAll(texts[1..], size, step)
  }

  /** `chunk_text(text_list, chunk_size, overlap)`. A zero step raises from
      `range` once the first text is reached, so only for a non-empty list. */
  function ChunkText(texts: seq<string>, size: nat, overlap: int): (r: Result<seq<string>>)
    ensures r.Err? <==> |texts| > 0 && overlap == size
    ensures r.Err? ==> r.failure == ZeroStep
  {
    if |texts| == 0 then Ok([])
    else if size - overlap == 0 then Err(ZeroStep)
    else Ok(ChunkAll(texts, size, size - overlap))
  }

  lemma MulMonotone(a: int, b: int, c: nat)
    requires a <= b
    ensures a * c <= b * c
  {
  }

  /** Windows from `start`: as many as it takes for their starts, `step`
      apart, to pass the end of the text. */
  lemma {:induction false} WindowsFromCount(text: string, size: nat, step: nat, start: nat)
    requires step > 0
    ensures var w := WindowsFrom(text, size, step, start);
      && (start >= |text| ==> |w| == 0)
      && (start < |text| ==> (|w| - 1) * step < |text| - start <= |w| * step)
    decreases |text| - start
  {
    if start < |text| {
      var w := WindowsFrom(text, size, step, start);
      var rest := WindowsFrom(text, size, step, start + step);
      WindowsFromCount(text, size, step, start + step);
      assert |w| == |rest| + 1;
      assert |w| * step == |rest| * step + step;
    }
  }

  /** Window `j` from `start` starts at `start + j * step`. */
  lemma {:induction false} WindowsFromAt(text: string, size: nat, step: nat, start: nat, j: nat)
    requires step > 0
    requires j < |WindowsFrom(text, size, step, start)|
    ensures start + j * step < |text|
    ensures WindowsFrom(text, size, step, start)[j] == Window(text, start + j * step, size)
    decreases j
  {
    if j > 0 {
      WindowsFromAt(text, size, step, start + step, j - 1);
      assert start + step + (j - 1) * step == start + j * step;
    }
  }

  /** Given `overlap < size`, a text of length n yields exactly ceil(n / step)
      chunks, step being `size - overlap`: the least count whose windows reach
      past the end. An empty text yields none. */
  lemma ChunkCount(text: string, size: nat, overlap: int)
    requires overlap < size
    ensures var step := size - overlap;
      var r := ChunkOne(text, size, step);
      && (|text| == 0 ==> |r| == 0)
      && (|text| > 0 ==> (|r| - 1) * step < |text| <= |r| * step)
      && |r| == (|text| + step - 1) / step
  {
    var step := size - overlap;
    var r := ChunkOne(text, size, step);
    WindowsFromCount(text, size, step, 0);
    var n := |text|;
    if n > 0 {
      var q := |r|;
      var rem := n - 1 - (q - 1) * step;
      assert 0 <= rem < step;
      assert n + step - 1 == q * step + rem;
      DivUnique(n + step - 1, step, q, rem);
    }
  }

  lemma DivUnique(a: int, d: int, q: int, rem: int)
    requires d > 0 && 0 <= rem < d && a == q * d + rem
    ensures a / d == q
  {
    var q' := a / d;
    var r' := a % d;
    assert a == q' * d + r';
    if q' < q {
      MulMonotone(q' + 1, q, d);
    } else if q' > q {
      MulMonotone(q + 1, q', d);
    }
  }

  /** The chunks of a text are exactly the windows whose start `j * step` is
      inside the text: chunk `j` exists iff its start is below the length,
      and it is the text from there on, at most `size` characters of it. */
  lemma ChunkContents(text: string, size: nat, overlap: int, j: nat)
    requires overlap < size
    ensures j < |ChunkOne(text, size, size - overlap)| <==> j * (size - overlap) < |text|
    ensures j < |ChunkOne(text, size, size - overlap)| ==>
      ChunkOne(text, size, size - overlap)[j] == text[j * (size - overlap) .. Min(j * (size - overlap) + size, |text|)]
    ensures j < |ChunkOne(text, size, size - overlap)| ==> |ChunkOne(text, size, size - overlap)[j]| <= size
  {
    var step := size - overlap;
    var r := ChunkOne(text, size, step);
    assert r == WindowsFrom(text, size, step, 0);
    WindowsFromCount(text, size, step, 0);
    var a := j * step;
    if j < |r| {
      WindowsFromAt(text, size, step, 0, j);
      assert a < |text|;
      assert r[j] == Window(text, a, size);
      assert r[j] == text[a .. Min(a + size, |text|)];
    } else if a < |text| {
      FactorBelow(j, |r|, step, a, |text|);
    }
  }

  /** Two consecutive chunks of one text, the first of full length, share
      exactly `overlap` characters: the tail of the first is the head of the
      second. */
  lemma ChunkOverlap(text: string, size: nat, overlap: int, j: nat)
    requires 0 <= overlap < size
    requires j + 1 < |ChunkOne(text, size, size - overlap)|
    requires |ChunkOne(text, size, size - overlap)[j]| == size
    ensures var r := ChunkOne(text, size, size - overlap);
      |r[j + 1]| >= overlap && r[j][size - overlap..] == r[j + 1][..overlap]
  {
    var step := size - overlap;
    var r := ChunkOne(text, size, step);
    assert r == WindowsFrom(text, size, step, 0);
    WindowsFromAt(text, size, step, 0, j);
    WindowsFromAt(text, size, step, 0, j + 1);
    var a := j * step;
    var b := (j + 1) * step;
    NextStart(j, step);
    assert r[j] == Window(text, a, size);
    assert r[j + 1] == Window(text, b, size);
    assert a + size <= |text|;
    WindowsOverlap(text, a, size, step);
  }

  /** Window `j + 1` starts one step after window `j`. */
  lemma NextStart(j: nat, step: nat)
    ensures (j + 1) * step == j * step + step
  {
  }

  /** Full window at `a` and the window one step later overlap in
      `size - step` characters. */
  lemma WindowsOverlap(text: string, a: nat, size: nat, step: nat)
    requires 0 < step <= size
    requires a + size <= |text|
    ensures |Window(text, a + step, size)| >= size - step
    ensures Window(text, a, size)[step..] == Window(text, a + step, size)[..size - step]
  {
    assert Window(text, a, size) == text[a .. a + size];
    assert Window(text, a, size)[step..] == text[a + step .. a + size];
  }

  /** With a non-negative overlap every character of a text lies in some
      chunk of it, at the offset its position says. */
  lemma ChunkCoverage(text: string, size: nat, overlap: int, p: nat) returns (j: nat)
    requires 0 <= overlap < size
    requires p < |text|
    ensures j < |ChunkOne(text, size, size - overlap)|
    ensures j * (size - overlap) <= p < j * (size - overlap) + |ChunkOne(text, size, size - overlap)[j]|
    ensures ChunkOne(text, size, size - overlap)[j][p - j * (size - overlap)] == text[p]
  {
    var step := size - overlap;
    var r := ChunkOne(text, size, step);
    WindowsFromCount(text, size, step, 0);
    j := StartBefore(p, step);
    var a := j * step;
    assert |text| <= |r| * step;
    FactorBelow(j, |r|, step, p, |text|);
    WindowsFromAt(text, size, step, 0, j);
    assert r[j] == text[a .. Min(a + size, |text|)];
    assert p - a < step <= size;
  }

  lemma FactorBelow(j: nat, m: nat, step: nat, p: nat, n: nat)
    requires step > 0 && j * step <= p < n <= m * step
    ensures j < m
  {
    if j >= m {
      MulMonotone(m, j, step);
    }
  }

  /** The window start at or below position `p`: the largest multiple of
      `step` not above `p`. */
  lemma {:induction false} StartBefore(p: nat, step: nat) returns (j: nat)
    requires step > 0
    ensures j * step <= p < j * step + step
    decreases p
  {
    if p < step {
      j := 0;
    } else {
      var j' := StartBefore(p - step, step);
      j := j' + 1;
      assert j * step == j' * step + step;
    }
  }

  /** The output is the in-order concatenation of the per-text chunk lists. */
  lemma {:induction false} ChunkAllAppend(a: seq<string>, b: seq<string>, size: nat, step: int)
    requires step != 0
    ensures ChunkAll(a + b, size, step) == ChunkAll(a, size, step) + ChunkAll(b, size, step)
  {
    if |a| > 0 {
      assert (a + b)[1..] == a[1..] + b;
      ChunkAllAppend(a[1..], b, size, step);
    } else {
      assert a + b == b;
    }
  }

  /** A chunk index determines the text it came from and its window there:
      chunk `c` is window `j` of text `i`, preceded by all chunks of the
      earlier texts. */
  lemma {:induction false} ChunkSource(texts: seq<string>, size: nat, step: int, c: nat) returns (i: nat, j: nat)
    requires step > 0
    requires c < |ChunkAll(texts, size, step)|
    ensures i < |texts| && j < |ChunkOne(texts[i], size, step)|
    ensures c == |ChunkAll(texts[..i], size, step)| + j
    ensures ChunkAll(texts, size, step)[c] == ChunkOne(texts[i], size, step)[j]
    ensures j * step < |texts[i]| && ChunkAll(texts, size, step)[c] == Window(texts[i], j * step, size)
  {
    var first := ChunkOne(texts[0], size, step);
    if c < |first| {
      i, j := 0, c;
      assert texts[..0] == [];
    } else {
      var i', j' := ChunkSource(texts[1..], size, step, c - |first|);
      i, j := i' + 1, j';
      assert texts[..i][1..] == texts[1..][..i'];
    }
    WindowsFromAt(texts[i], size, step, 0, j);
  }

  /** When every text is non-empty and at most one step long, each
      text gives exactly one chunk, so that chunk index and row index agree. */
  lemma {:induction false} OneChunkPerText(texts: seq<string>, size: nat, step: int)
    requires step > 0
    requires forall i :: 0 <= i < |texts| ==> 0 < |texts[i]| <= step
    ensures |ChunkAll(texts, size, step)| == |texts|
    ensures forall i :: 0 <= i < |texts| ==> ChunkAll(texts, size, step)[i] == Window(texts[i], 0, size)
  {
    if |texts| > 0 {
      OneChunkPerText(texts[1..], size, step);
      WindowsFromCount(texts[0], size, step, 0);
      assert |ChunkOne(texts[0], size, step)| == 1;
    }
  }

  /** A text longer than one step shifts the chunk indices of every later
      text: here chunk 1 still belongs to text 0, and chunk 2 is text 1's. */
  lemma ChunkIndexShift()
    ensures ChunkText(["ab", "c"], 2, 1) == Ok(["ab", "b", "c"])
  {
    assert WindowsFrom("ab", 2, 1, 2) == [];
    assert Window("ab", 1, 2) == "b";
    assert WindowsFrom("ab", 2, 1, 1) == ["b"];
    assert Window("ab", 0, 2) == "ab";
    assert ChunkOne("ab", 2, 1) == ["ab", "b"];
    assert WindowsFrom("c", 2, 1, 1) == [];
    assert Window("c", 0, 2) == "c";
    assert ChunkOne("c", 2, 1) == ["c"];
    assert ChunkAll(["c"], 2, 1) == ["c"];
    assert ["ab", "c"][1..] == ["c"];
    assert ChunkAll(["ab", "c"], 2, 1) == ["ab", "b"] + ["c"];
    assert ["ab", "b"] + ["c"] == ["ab", "b", "c"];
  }

  /** An overlap larger than the chunk size makes every range empty: no
      chunks and no error. */
  lemma {:induction false} OverlapBeyondSize(texts: seq<string>, size: nat, overlap: int)
    requires overlap > size
    ensures ChunkText(texts, size, overlap) == Ok([])
  {
    if |texts| > 0 {
      OverlapBeyondSize(texts[1..], size, overlap);
      assert ChunkAll(texts, size, size - overlap) == ChunkAll(texts[1..], size, size - overlap);
    }
  }
}
