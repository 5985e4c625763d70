/** The diversity-aware selection over a ranked candidate list: a greedy
    phase that keeps a candidate only when it is far from every candidate kept
    so far, then a positional backfill up to `k` results. The vector search
    that ranks the candidates and the embedding similarity are given: the
    candidates as the search's labels in rank order, the similarity as a
    predicate `far(a, b)` standing for "the cosine similarity of the
    embeddings of chunk a and chunk b is below the diversity threshold". */
module Retrieval {
  import opened Outcomes

  /** The two parallel lists `search_faiss_index` returns. */
  datatype Selection = Selection(chunks: seq<string>, indices: seq<int>)

  const Nothing := Selection([], [])

  /** Every selected chunk is what the corpus holds at its selected index. */
  predicate Paired(sel: Selection, corpus: seq<string>)
  {
    && |sel.chunks| == |sel.indices|
    && forall j :: 0 <= j < |sel.indices| ==> PyIndex(corpus, sel.indices[j]) == Some(sel.chunks[j])
  }

  /** Each chunk is far from every chunk before it. */
  predicate Diverse(chunks: seq<string>, far: (string, string) -> bool)
  {
    forall i, j :: 0 <= i < j < |chunks| ==> far(chunks[j], chunks[i])
  }

  /** `a` keeps some of the elements of `b`, in their order in `b`. */
  ghost predicate IsSubsequence(a: seq<int>, b: seq<int>)
    decreases |b|
  {
    || |a| == 0
    || (|b| > 0 && ((a[0] == b[0] && IsSubsequence(a[1..], b[1..])) || IsSubsequence(a, b[1..])))
  }

  /** The acceptance test of the greedy loop; it holds vacuously while
      nothing has been accepted. */
  predicate FarFromAll(chunk: string, accepted: seq<string>, far: (string, string) -> bool)
  {
    forall e :: 0 <= e < |accepted| ==> far(chunk, accepted[e])
  }

  function Accept(sel: Selection, chunk: string, index: int): Selection
  {
    Selection(sel.chunks + [chunk], sel.indices + [index])
  }

  /** The greedy loop over the remaining candidates, `acc` accepted so far.
      It stops once `k` are accepted; looking up a candidate's chunk fails
      like Python's list indexing. */
  function Greedy(cands: seq<int>, corpus: seq<string>, k: nat, far: (string, string) -> bool, acc: Selection): Result<Selection>
    decreases |cands|
  {
    if |acc.chunks| >= k || |cands| == 0 then Ok(acc)
    else
      match PyIndex(corpus, cands[0])
      case None => Err(IndexOutOfRange(cands[0]))
      case Some(c) =>
        var next := if FarFromAll(c, acc.chunks, far) then Accept(acc, c, cands[0]) else acc;
        Greedy(cands[1..], corpus, k, far, next)
  }

  /** Appends the chunk at each given index, without any similarity test. */
  function Fill(indices: seq<int>, corpus: seq<string>, acc: Selection): Result<Selection>
    decreases |indices|
  {
    if |indices| == 0 then Ok(acc)
    else
      match PyIndex(corpus, indices[0])
      case None => Err(IndexOutOfRange(indices[0]))
      case Some(c) => Fill(indices[1..], corpus, Accept(acc, c, indices[0]))
  }

  /** With `s < k` accepted, append the candidates at positions `s .. k-1`
      of the candidate list, whether or not they were accepted already. */
  function Backfill(cands: seq<int>, corpus: seq<string>, k: nat, g: Selection): Result<Selection>
  {
    if |g.chunks| < k then Fill(PySlice(cands, |g.chunks|, k), corpus, g) else Ok(g)
  }

  /** The selection and backfill of `search_faiss_index`. */
  function Select(cands: seq<int>, corpus: seq<string>, k: nat, far: (string, string) -> bool): Result<Selection>
  {
    match Greedy(cands, corpus, k, far, Nothing)
    case Err(f) => Err(f)
    case Ok(g) => Backfill(cands, corpus, k, g)
  }

  /** `search_faiss_index` after the vector search: the greedy loop with its
      early exit, then the backfill loop. */
  method SearchIndex(cands: seq<int>, corpus: seq<string>, k: nat, far: (string, string) -> bool) returns (r: Result<Selection>)
    ensures r == Select(cands, corpus, k, far)
    ensures k == 0 ==> r == Ok(Nothing)
    ensures r.Ok? ==> Paired(r.value, corpus) && |r.value.indices| == Min(k, |cands|)
    ensures r.Err? ==> r.failure.IndexOutOfRange? && r.failure.index in cands && PyIndex(corpus, r.failure.index).None?
  {
    var sel := Nothing;
    var p := 0;
    while p < |cands|
      invariant p <= |cands|
      invariant Greedy(cands, corpus, k, far, Nothing) == Greedy(cands[p..], corpus, k, far, sel)
    {
      if |sel.chunks| >= k {
        break;
      }
      var idx := cands[p];
      assert cands[p..][1..] == cands[p + 1..];
      match PyIndex(corpus, idx) {
        case None =>
          r := Err(IndexOutOfRange(idx));
          SelectFacts(cands, corpus, k, far);
          return;
        case Some(c) =>
          if FarFromAll(c, sel.chunks, far) {
            sel := Accept(sel, c, idx);
          }
      }
      p := p + 1;
    }
    assert Greedy(cands, corpus, k, far, Nothing) == Ok(sel);
    if |sel.chunks| < k {
      var back := PySlice(cands, |sel.chunks|, k);
      var g := sel;
      var q := 0;
      while q < |back|
        invariant q <= |back|
        invariant Fill(back, corpus, g) == Fill(back[q..], corpus, sel)
      {
        var idx := back[q];
        assert back[q..][1..] == back[q + 1..];
        match PyIndex(corpus, idx) {
          case None =>
            r := Err(IndexOutOfRange(idx));
            SelectFacts(cands, corpus, k, far);
            return;
          case Some(c) =>
            sel := Accept(sel, c, idx);
        }
        q := q + 1;
      }
    }
    r := Ok(sel);
    SelectFacts(cands, corpus, k, far);
  }

  /** The facts `SearchIndex` promises, gathered from the lemmas below. */
  lemma SelectFacts(cands: seq<int>, corpus: seq<string>, k: nat, far: (string, string) -> bool)
    ensures var r := Select(cands, corpus, k, far);
      && (k == 0 ==> r == Ok(Nothing))
      && (r.Ok? ==> Paired(r.value, corpus) && |r.value.indices| == Min(k, |cands|))
      && (r.Err? ==> r.failure.IndexOutOfRange? && r.failure.index in cands && PyIndex(corpus, r.failure.index).None?)
  {
    SelectPaired(cands, corpus, k, far);
    SelectLength(cands, corpus, k, far);
    SelectError(cands, corpus, k, far);
  }

  // ---------------------------------------------------------------------
  // The greedy phase

  /** Accepted chunks stay paired with their indices. */
  lemma {:induction false} GreedyPaired(cands: seq<int>, corpus: seq<string>, k: nat, far: (string, string) -> bool, acc: Selection)
    requires Paired(acc, corpus)
    ensures Greedy(cands, corpus, k, far, acc).Ok? ==> Paired(Greedy(cands, corpus, k, far, acc).value, corpus)
    decreases |cands|
  {
    if |acc.chunks| < k && |cands| > 0 && PyIndex(corpus, cands[0]).Some? {
      var c := PyIndex(corpus, cands[0]).value;
      var next := if FarFromAll(c, acc.chunks, far) then Accept(acc, c, cands[0]) else acc;
      GreedyPaired(cands[1..], corpus, k, far, next);
    }
  }

  /** Every accepted chunk is far from each chunk accepted before it. */
  lemma {:induction false} GreedyDiverse(cands: seq<int>, corpus: seq<string>, k: nat, far: (string, string) -> bool, acc: Selection)
    requires Diverse(acc.chunks, far)
    ensures Greedy(cands, corpus, k, far, acc).Ok? ==> Diverse(Greedy(cands, corpus, k, far, acc).value.chunks, far)
    decreases |cands|
  {
    if |acc.chunks| < k && |cands| > 0 && PyIndex(corpus, cands[0]).Some? {
      var c := PyIndex(corpus, cands[0]).value;
      var next := if FarFromAll(c, acc.chunks, far) then Accept(acc, c, cands[0]) else acc;
      GreedyDiverse(cands[1..], corpus, k, far, next);
    }
  }

  /** At most `k` candidates are accepted. */
  lemma {:induction false} GreedyAtMostK(cands: seq<int>, corpus: seq<string>, k: nat, far: (string, string) -> bool, acc: Selection)
    requires |acc.chunks| <= k
    ensures Greedy(cands, corpus, k, far, acc).Ok? ==> |Greedy(cands, corpus, k, far, acc).value.chunks| <= k
    decreases |cands|
  {
    if |acc.chunks| < k && |cands| > 0 && PyIndex(corpus, cands[0]).Some? {
      var c := PyIndex(corpus, cands[0]).value;
      var next := if FarFromAll(c, acc.chunks, far) then Accept(acc, c, cands[0]) else acc;
      GreedyAtMostK(cands[1..], corpus, k, far, next);
    }
  }

  /** The greedy loop only appends, and what it appends is a subsequence of
      the candidates in candidate order. */
  lemma {:induction false} GreedySubsequence(cands: seq<int>, corpus: seq<string>, k: nat, far: (string, string) -> bool, acc: Selection)
    ensures var r := Greedy(cands, corpus, k, far, acc);
      r.Ok? ==>
        && |acc.indices| <= |r.value.indices| <= |acc.indices| + |cands|
        && |acc.chunks| <= |r.value.chunks|
        && r.value.indices[..|acc.indices|] == acc.indices
        && r.value.chunks[..|acc.chunks|] == acc.chunks
        && IsSubsequence(r.value.indices[|acc.indices|..], cands)
    decreases |cands|
  {
    var r := Greedy(cands, corpus, k, far, acc);
    if |acc.chunks| >= k || |cands| == 0 {
      assert r.value.indices[|acc.indices|..] == [];
    } else if PyIndex(corpus, cands[0]).Some? {
      var c := PyIndex(corpus, cands[0]).value;
      var next := if FarFromAll(c, acc.chunks, far) then Accept(acc, c, cands[0]) else acc;
      GreedySubsequence(cands[1..], corpus, k, far, next);
      if r.Ok? {
        var g := r.value;
        var tail := g.indices[|acc.indices|..];
        if FarFromAll(c, acc.chunks, far) {
          assert g.indices[..|next.indices|] == next.indices;
          assert tail[0] == cands[0];
          assert tail[1..] == g.indices[|next.indices|..];
        } else {
          assert tail == g.indices[|next.indices|..];
        }
      }
    }
  }

  /** The converse of the acceptance test: when the greedy loop ends with
      fewer than `k` accepted it has looked at every candidate, so each is a
      valid index, and each candidate it did not keep has a chunk that fails
      the test against the accepted chunks. */
  lemma {:induction false} GreedyMaximal(cands: seq<int>, corpus: seq<string>, k: nat, far: (string, string) -> bool, acc: Selection)
    ensures var r := Greedy(cands, corpus, k, far, acc);
      r.Ok? && |r.value.chunks| < k ==>
        forall p :: 0 <= p < |cands| ==> PyIndex(corpus, cands[p]).Some?
    ensures var r := Greedy(cands, corpus, k, far, acc);
      r.Ok? && |r.value.chunks| < k ==>
        forall p :: 0 <= p < |cands| && cands[p] !in r.value.indices ==>
          PyIndex(corpus, cands[p]).Some? && !FarFromAll(PyIndex(corpus, cands[p]).value, r.value.chunks, far)
    decreases |cands|
  {
    var r := Greedy(cands, corpus, k, far, acc);
    if |acc.chunks| < k && |cands| > 0 && PyIndex(corpus, cands[0]).Some? {
      var c := PyIndex(corpus, cands[0]).value;
      var next := if FarFromAll(c, acc.chunks, far) then Accept(acc, c, cands[0]) else acc;
      GreedyMaximal(cands[1..], corpus, k, far, next);
      GreedySubsequence(cands[1..], corpus, k, far, next);
      if r.Ok? && |r.value.chunks| < k {
        var g := r.value;
        assert forall p :: 1 <= p < |cands| ==> cands[p] == cands[1..][p - 1];
        if FarFromAll(c, acc.chunks, far) {
          assert g.indices[..|next.indices|][|acc.indices|] == cands[0];
        } else if cands[0] !in g.indices {
          var e :| 0 <= e < |acc.chunks| && !far(c, acc.chunks[e]);
          assert g.chunks[..|acc.chunks|][e] == g.chunks[e];
        }
      }
    }
  }

  /** One iteration of the greedy loop: the outcome over the candidates
      followed by `x` is the outcome over the candidates, then `x` looked up
      and accepted exactly when its chunk is far from every chunk accepted so
      far. A loop already holding `k` ignores `x`; a failure stays a failure. */
  lemma {:induction false} GreedySnoc(cands: seq<int>, x: int, corpus: seq<string>, k: nat, far: (string, string) -> bool, acc: Selection)
    ensures var before := Greedy(cands, corpus, k, far, acc);
      before.Err? || |before.value.chunks| >= k ==> Greedy(cands + [x], corpus, k, far, acc) == before
    ensures var before := Greedy(cands, corpus, k, far, acc);
      before.Ok? && |before.value.chunks| < k && PyIndex(corpus, x).None? ==>
        Greedy(cands + [x], corpus, k, far, acc) == Err(IndexOutOfRange(x))
    ensures var before := Greedy(cands, corpus, k, far, acc);
      before.Ok? && |before.value.chunks| < k && PyIndex(corpus, x).Some? ==>
        Greedy(cands + [x], corpus, k, far, acc)
        == Ok(if FarFromAll(PyIndex(corpus, x).value, before.value.chunks, far)
              then Accept(before.value, PyIndex(corpus, x).value, x)
              else before.value)
    decreases |cands|
  {
    if |acc.chunks| < k {
      if |cands| == 0 {
        assert cands + [x] == [x];
        assert [x][1..] == [];
      } else {
        assert (cands + [x])[0] == cands[0];
        assert (cands + [x])[1..] == cands[1..] + [x];
        if PyIndex(corpus, cands[0]).Some? {
          var c := PyIndex(corpus, cands[0]).value;
          var next := if FarFromAll(c, acc.chunks, far) then Accept(acc, c, cands[0]) else acc;
          GreedySnoc(cands[1..], x, corpus, k, far, next);
        }
      }
    }
  }

  /** Every member of a subsequence is a member of the whole. */
  lemma {:induction false} SubsequenceMembers(a: seq<int>, b: seq<int>)
    requires IsSubsequence(a, b)
    ensures forall x :: x in a ==> x in b
    decreases |b|
  {
    if |a| > 0 {
      if a[0] == b[0] && IsSubsequence(a[1..], b[1..]) {
        SubsequenceMembers(a[1..], b[1..]);
        assert forall x :: x in a ==> x == a[0] || x in a[1..];
      } else {
        SubsequenceMembers(a, b[1..]);
      }
    }
  }

  /** The first candidate is always accepted when `k > 0`: the similarity
      test over no accepted chunk holds. */
  lemma GreedyFirst(cands: seq<int>, corpus: seq<string>, k: nat, far: (string, string) -> bool)
    requires k > 0 && |cands| > 0
    ensures var r := Greedy(cands, corpus, k, far, Nothing);
      r.Ok? ==> |r.value.indices| > 0 && r.value.indices[0] == cands[0]
  {
    var c := PyIndex(corpus, cands[0]);
    if c.Some? {
      var next := Accept(Nothing, c.value, cands[0]);
      GreedySubsequence(cands[1..], corpus, k, far, next);
    }
  }

  /** Every candidate the greedy loop reaches is looked up; when all
      candidates are valid indices it does not fail. */
  lemma {:induction false} GreedyTotal(cands: seq<int>, corpus: seq<string>, k: nat, far: (string, string) -> bool, acc: Selection)
    requires forall j :: 0 <= j < |cands| ==> PyIndex(corpus, cands[j]).Some?
    ensures Greedy(cands, corpus, k, far, acc).Ok?
    decreases |cands|
  {
    if |acc.chunks| < k && |cands| > 0 {
      var c := PyIndex(corpus, cands[0]).value;
      var next := if FarFromAll(c, acc.chunks, far) then Accept(acc, c, cands[0]) else acc;
      GreedyTotal(cands[1..], corpus, k, far, next);
    }
  }

  /** A failure names a candidate that is not a valid index. */
  lemma {:induction false} GreedyError(cands: seq<int>, corpus: seq<string>, k: nat, far: (string, string) -> bool, acc: Selection)
    ensures var r := Greedy(cands, corpus, k, far, acc);
      r.Err? ==> r.failure.IndexOutOfRange? && r.failure.index in cands && PyIndex(corpus, r.failure.index).None?
    decreases |cands|
  {
    if |acc.chunks| < k && |cands| > 0 && PyIndex(corpus, cands[0]).Some? {
      var c := PyIndex(corpus, cands[0]).value;
      var next := if FarFromAll(c, acc.chunks, far) then Accept(acc, c, cands[0]) else acc;
      GreedyError(cands[1..], corpus, k, far, next);
    }
  }

  // ---------------------------------------------------------------------
  // The backfill

  /** Filling appends exactly the given indices, each with its chunk. */
  lemma {:induction false} FillAppends(indices: seq<int>, corpus: seq<string>, acc: Selection)
    ensures var r := Fill(indices, corpus, acc);
      r.Ok? ==>
        && r.value.indices == acc.indices + indices
        && |r.value.chunks| == |acc.chunks| + |indices|
        && r.value.chunks[..|acc.chunks|] == acc.chunks
        && (Paired(acc, corpus) ==> Paired(r.value, corpus))
    ensures var r := Fill(indices, corpus, acc);
      r.Err? <==> exists j :: 0 <= j < |indices| && PyIndex(corpus, indices[j]).None?
    ensures var r := Fill(indices, corpus, acc);
      r.Err? ==> r.failure.IndexOutOfRange? && r.failure.index in indices && PyIndex(corpus, r.failure.index).None?
    decreases |indices|
  {
    if |indices| > 0 {
      var c := PyIndex(corpus, indices[0]);
      if c.Some? {
        var next := Accept(acc, c.value, indices[0]);
        FillAppends(indices[1..], corpus, next);
        var r := Fill(indices, corpus, acc);
        if r.Ok? {
          assert acc.indices + indices == next.indices + indices[1..];
          assert r.value.chunks[..|next.chunks|][..|acc.chunks|] == r.value.chunks[..|acc.chunks|];
        }
        if exists j :: 0 <= j < |indices| && PyIndex(corpus, indices[j]).None? {
          var j :| 0 <= j < |indices| && PyIndex(corpus, indices[j]).None?;
          assert indices[1..][j - 1] == indices[j];
        }
      }
    }
  }

  /** When fewer than `k` were accepted, the result is the accepted
      candidates followed by the candidates at positions `s .. k-1`, `s` being
      the number accepted, with no similarity re-check; otherwise it is the
      accepted ones alone. */
  lemma SelectBackfill(cands: seq<int>, corpus: seq<string>, k: nat, far: (string, string) -> bool)
    ensures var r := Select(cands, corpus, k, far);
      var g := Greedy(cands, corpus, k, far, Nothing);
      r.Ok? ==>
        && g.Ok?
        && |g.value.chunks| <= |r.value.chunks|
        && (|g.value.indices| < k ==>
              r.value.indices == g.value.indices + PySlice(cands, |g.value.indices|, k)
              && r.value.chunks[..|g.value.chunks|] == g.value.chunks)
        && (|g.value.indices| >= k ==> r.value == g.value)
  {
    GreedyPaired(cands, corpus, k, far, Nothing);
    var g := Greedy(cands, corpus, k, far, Nothing);
    if g.Ok? {
      FillAppends(PySlice(cands, |g.value.chunks|, k), corpus, g.value);
    }
  }

  /** The two returned lists have equal length and pair each index with its chunk. */
  lemma SelectPaired(cands: seq<int>, corpus: seq<string>, k: nat, far: (string, string) -> bool)
    ensures var r := Select(cands, corpus, k, far);
      r.Ok? ==> Paired(r.value, corpus)
  {
    GreedyPaired(cands, corpus, k, far, Nothing);
    var g := Greedy(cands, corpus, k, far, Nothing);
    if g.Ok? {
      FillAppends(PySlice(cands, |g.value.chunks|, k), corpus, g.value);
    }
  }

  /** The result has `min(k, |cands|)` entries; so exactly `k` whenever the
      search returned at least `k` candidates. */
  lemma SelectLength(cands: seq<int>, corpus: seq<string>, k: nat, far: (string, string) -> bool)
    ensures var r := Select(cands, corpus, k, far);
      r.Ok? ==> |r.value.indices| == Min(k, |cands|)
  {
    GreedyPaired(cands, corpus, k, far, Nothing);
    GreedyAtMostK(cands, corpus, k, far, Nothing);
    GreedySubsequence(cands, corpus, k, far, Nothing);
    var g := Greedy(cands, corpus, k, far, Nothing);
    if g.Ok? {
      FillAppends(PySlice(cands, |g.value.chunks|, k), corpus, g.value);
    }
  }

  /** The result starts with the best-ranked candidate when `k > 0`. */
  lemma SelectFirst(cands: seq<int>, corpus: seq<string>, k: nat, far: (string, string) -> bool)
    requires k > 0 && |cands| > 0
    ensures var r := Select(cands, corpus, k, far);
      r.Ok? ==> |r.value.indices| > 0 && r.value.indices[0] == cands[0]
  {
    GreedyFirst(cands, corpus, k, far);
    GreedyPaired(cands, corpus, k, far, Nothing);
    var g := Greedy(cands, corpus, k, far, Nothing);
    if g.Ok? {
      FillAppends(PySlice(cands, |g.value.chunks|, k), corpus, g.value);
    }
  }

  /** Selection fails only on a candidate that is no valid index into the
      corpus, and never when all candidates are valid. */
  lemma SelectError(cands: seq<int>, corpus: seq<string>, k: nat, far: (string, string) -> bool)
    ensures var r := Select(cands, corpus, k, far);
      r.Err? ==> r.failure.IndexOutOfRange? && r.failure.index in cands && PyIndex(corpus, r.failure.index).None?
    ensures (forall j :: 0 <= j < |cands| ==> PyIndex(corpus, cands[j]).Some?) ==> Select(cands, corpus, k, far).Ok?
  {
    GreedyError(cands, corpus, k, far, Nothing);
    var g := Greedy(cands, corpus, k, far, Nothing);
    if g.Ok? {
      var back := PySlice(cands, |g.value.chunks|, k);
      FillAppends(back, corpus, g.value);
      assert forall x :: x in back ==> x in cands;
    }
    if forall j :: 0 <= j < |cands| ==> PyIndex(corpus, cands[j]).Some? {
      GreedyTotal(cands, corpus, k, far, Nothing);
    }
  }

  /** Every selected index is one of the candidates: the greedy phase keeps
      some of them and the backfill copies others. */
  lemma SelectDrawsFromCandidates(cands: seq<int>, corpus: seq<string>, k: nat, far: (string, string) -> bool)
    ensures var r := Select(cands, corpus, k, far);
      r.Ok? ==> forall j :: 0 <= j < |r.value.indices| ==> r.value.indices[j] in cands
  {
    var r := Select(cands, corpus, k, far);
    if r.Ok? {
      SelectBackfill(cands, corpus, k, far);
      GreedySubsequence(cands, corpus, k, far, Nothing);
      var g := Greedy(cands, corpus, k, far, Nothing).value;
      assert g.indices[|Nothing.indices|..] == g.indices;
      SubsequenceMembers(g.indices, cands);
      assert forall x :: x in g.indices ==> x in cands;
      if |g.indices| < k {
        var back := PySlice(cands, |g.indices|, k);
        assert forall x :: x in back ==> x in cands;
        var n := |g.indices|;
        forall j | 0 <= j < |r.value.indices|
          ensures r.value.indices[j] in cands
        {
          if j < n {
            assert r.value.indices[j] == g.indices[j];
          } else {
            assert r.value.indices[j] == back[j - n];
          }
        }
      } else {
        assert r.value.indices == g.indices;
        forall j | 0 <= j < |r.value.indices|
          ensures r.value.indices[j] in cands
        {
          assert g.indices[j] in g.indices;
        }
      }
    }
  }

  /** The backfill can repeat an accepted candidate: with k = 3, candidate 1
      rejected and candidate 2 accepted second, the backfill takes position 2
      again. */
  lemma BackfillRepeats()
    ensures Select([0, 1, 2], ["a", "b", "c"], 3, (x: string, y: string) => x == "c")
         == Ok(Selection(["a", "c", "c"], [0, 2, 2]))
  {
    var far := (x: string, y: string) => x == "c";
    var corpus := ["a", "b", "c"];
    var s1 := Selection(["a"], [0]);
    var s2 := Selection(["a", "c"], [0, 2]);
    assert Greedy([], corpus, 3, far, s2) == Ok(s2);
    assert PyIndex(corpus, 2) == Some("c");
    assert FarFromAll("c", s1.chunks, far);
    assert Accept(s1, "c", 2) == s2;
    assert [2][1..] == [];
    assert Greedy([2], corpus, 3, far, s1) == Ok(s2);
    assert !far("b", s1.chunks[0]);
    assert [1, 2][1..] == [2];
    assert Greedy([1, 2], corpus, 3, far, s1) == Ok(s2);
    assert PyIndex(corpus, 0) == Some("a");
    assert FarFromAll("a", Nothing.chunks, far);
    assert Accept(Nothing, "a", 0) == s1;
    assert [0, 1, 2][1..] == [1, 2];
    assert Greedy([0, 1, 2], corpus, 3, far, Nothing) == Ok(s2);
    assert PySlice([0, 1, 2], 2, 3) == [2];
    assert ["a", "c"] + ["c"] == ["a", "c", "c"];
    assert [0, 2] + [2] == [0, 2, 2];
    assert Accept(s2, "c", 2) == Selection(["a", "c", "c"], [0, 2, 2]);
    assert Fill([2], corpus, s2) == Ok(Selection(["a", "c", "c"], [0, 2, 2]));
  }
}
