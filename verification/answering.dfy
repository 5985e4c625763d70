/** The control logic of `answer_question`: history truncation, dispatch on
    the mode string, retrieval of three recommendations from the chosen
    dataset, field projection, and the single reply every failure collapses
    into. The vector search, the paragraph template and the language model
    are collaborators given as functions in `Services`. */
module Answering {
  import opened Outcomes
  import opened Documents
  import opened Retrieval

  const MaxHistory: nat := 10
  /** `k` of the search call. */
  const TopK: nat := 5
  /** Recommendations described in the reply: `relevant_indices[:3]`. */
  const Described: nat := 3

  datatype Turn = Turn(speaker: string, message: string)

  datatype Domain = Career | Skill

  /** A dataset with the chunks built from it; chunk indices are used as row
      indices, with no record of which row a chunk came from. */
  datatype Corpus = Corpus(data: Table, chunks: seq<string>)

  /** The hyperlink title of a recommendation: its link (default "#") and its
      caption, which is Python's `None` when the looked-up field is absent. */
  datatype Title = Title(link: Cell, caption: Option<Cell>)

  datatype Recommendation = Recommendation(details: map<string, Cell>, title: Title)

  /** The collaborators: the ranked labels the vector search returns for the
      domain and the combined résumé/query text; the similarity test of the
      diversity filter; the first-paragraph template; and the language model
      applied to the prompt built from the recommendations, résumé and query. */
  datatype Services = Services(
    rank: (Domain, string, string) -> seq<int>,
    far: (string, string) -> bool,
    paragraph: (Domain, seq<Recommendation>) -> string,
    insights: (Domain, string, string, seq<Recommendation>) -> string)

  /** The reply string: the combined response, or "Error: " and the text of
      the exception that ended the attempt. */
  datatype Reply = Response(text: string) | Error(cause: Failure)

  datatype Exchange = Exchange(history: seq<Turn>, reply: Reply)

  /** Keeps the last `MaxHistory` turns. */
  function LastTurns(h: seq<Turn>): (r: seq<Turn>)
    ensures |r| == Min(|h|, MaxHistory)
    ensures r == h[|h| - |r|..]
  {
    if |h| > MaxHistory then h[|h| - MaxHistory..] else h
  }

  /** Python's `sub in s` on strings. */
  predicate Contains(s: string, sub: string)
    decreases |s|
  {
    if |s| < |sub| then false
    else s[..|sub|] == sub || Contains(s[1..], sub)
  }

  /** The `if "career" in mode ... elif "skill" in mode` chain; no branch
      matches any other mode. */
  function Dispatch(mode: string): Option<Domain>
  {
    if Contains(mode, "career") then Some(Career)
    else if Contains(mode, "skill") then Some(Skill)
    else None
  }

  function Fields(d: Domain): seq<string>
  {
    match d
    case Career => ["Job Title", "Company", "Location", "Salary", "Link"]
    case Skill => ["Course Title", "Institution", "Duration", "Link"]
  }

  /** The title label is looked up by a second, separate substring test. */
  function TitleKey(mode: string): string
  {
    if Contains(mode, "skill") then "Course Title" else "Job Title"
  }

  /** `{field: row.get(field, "N/A") for field in fields}`: a field the table
      has no column for reads "N/A"; a missing cell stays missing. */
  function Project(data: Table, row: Row, fields: seq<string>): map<string, Cell>
  {
    map f | f in fields :: if f in data.columns then CellAt(row, f) else Text("N/A")
  }

  function Describe(data: Table, row: Row, fields: seq<string>, titleKey: string): Recommendation
  {
    var details := Project(data, row, fields);
    var link := if "Link" in details then details["Link"] else Text("#");
    var caption := if titleKey in details then Some(details[titleKey]) else None;
    Recommendation(details, Title(link, caption))
  }

  /** One recommendation per index, the row found by `data.iloc[idx]`. */
  function Recommend(data: Table, indices: seq<int>, fields: seq<string>, titleKey: string): (r: Result<seq<Recommendation>>)
    ensures r.Ok? <==> forall j :: 0 <= j < |indices| ==> PyIndex(data.rows, indices[j]).Some?
    ensures r.Ok? ==> |r.value| == |indices|
    ensures r.Ok? ==> forall j :: 0 <= j < |indices| ==>
      r.value[j] == Describe(data, PyIndex(data.rows, indices[j]).value, fields, titleKey)
    ensures r.Err? ==>
      r.failure.IndexOutOfRange? && r.failure.index in indices && PyIndex(data.rows, r.failure.index).None?
    decreases |indices|
  {
    if |indices| == 0 then Ok([])
    else
      match PyIndex(data.rows, indices[0])
      case None => Err(IndexOutOfRange(indices[0]))
      case Some(row) =>
        var rest := Recommend(data, indices[1..], fields, titleKey);
        assert forall j :: 1 <= j < |indices| ==> indices[1..][j - 1] == indices[j];
        match rest
        case Err(f) => Err(f)
        case Ok(more) => Ok([Describe(data, row, fields, titleKey)] + more)
  }

  function CorpusOf(d: Domain, careers: Corpus, skills: Corpus): Corpus
  {
    match d
    case Career => careers
    case Skill => skills
  }

  /** The part of `answer_question` from dispatch to the recommendation
      details: the chosen domain and the details of its first three results. */
  function Retrieve(query: string, cvText: string, mode: string, careers: Corpus, skills: Corpus, svc: Services)
    : Result<(Domain, seq<Recommendation>)>
  {
    match Dispatch(mode)
    case None => Err(UnboundDataset)
    case Some(d) =>
      var corpus := CorpusOf(d, careers, skills);
      match Select(svc.rank(d, cvText, query), corpus.chunks, TopK, svc.far)
      case Err(f) => Err(f)
      case Ok(sel) =>
        match Recommend(corpus.data, PySlice(sel.indices, 0, Described), Fields(d), TitleKey(mode))
        case Err(f) => Err(f)
        case Ok(recs) => Ok((d, recs))
  }

  /** `answer_question`: the history is cut to its last ten turns first; on
      success one ("Chatbot", response) turn is appended, and on any failure
      the reply is the error and the cut history is returned unchanged. */
  function AnswerQuestion(query: string, cvText: string, mode: string, history: seq<Turn>,
                          careers: Corpus, skills: Corpus, svc: Services): (ex: Exchange)
    ensures ex.reply.Response? ==> ex.history == LastTurns(history) + [Turn("Chatbot", ex.reply.text)]
    ensures ex.reply.Error? ==> ex.history == LastTurns(history)
    ensures Dispatch(mode).None? ==> ex.reply == Error(UnboundDataset)
    ensures |ex.history| <= MaxHistory + 1
  {
    var kept := LastTurns(history);
    match Retrieve(query, cvText, mode, careers, skills, svc)
    case Err(f) => Exchange(kept, Error(f))
    case Ok((d, recs)) =>
      if |recs| < Described then Exchange(kept, Error(TooFewResults))
      else
        var text := svc.paragraph(d, recs) + "<br><br>" + svc.insights(d, cvText, query, recs);
        Exchange(kept + [Turn("Chatbot", text)], Response(text))
  }

  // ---------------------------------------------------------------------
  // Properties

  /** `sub` occurs in `s` starting at position `i`. */
  predicate OccursAt(s: string, sub: string, i: int)
  {
    0 <= i && i + |sub| <= |s| && s[i..i + |sub|] == sub
  }

  /** The recursive substring test is Python's `in`: it holds exactly when
      `sub` occurs at some position of `s`. */
  lemma {:induction false} ContainsIffOccurs(s: string, sub: string)
    ensures Contains(s, sub) <==> exists i :: OccursAt(s, sub, i)
    decreases |s|
  {
    if |s| >= |sub| {
      if s[..|sub|] == sub {
        assert OccursAt(s, sub, 0);
      } else {
        ContainsIffOccurs(s[1..], sub);
        if Contains(s[1..], sub) {
          var i :| OccursAt(s[1..], sub, i);
          assert s[1..][i..i + |sub|] == s[i + 1..i + 1 + |sub|];
          assert OccursAt(s, sub, i + 1);
        }
        if exists i :: OccursAt(s, sub, i) {
          var i :| OccursAt(s, sub, i);
          assert s[i..i + |sub|] == s[1..][i - 1..i - 1 + |sub|];
          assert OccursAt(s[1..], sub, i - 1);
        }
      }
    }
  }

  /** The substring tests behind the dispatch: "careers" and "career skill"
      choose careers, "skills" chooses skills, "jobs" chooses nothing. */
  lemma DispatchExamples()
    ensures Dispatch("careers") == Some(Career)
    ensures Dispatch("career skill") == Some(Career)
    ensures Dispatch("skills") == Some(Skill)
    ensures Dispatch("jobs") == None
  {
    assert "careers"[..6] == "career";
    assert "career skill"[..6] == "career";
    assert "skills"[..5] == "skill";
    assert "skills"[..6] != "career" by {
      assert "skills"[0] != "career"[0];
    }
    assert !Contains("skills", "career");
  }

  /** A mode containing "career" uses the careers dataset whatever else it
      contains: the skills corpus has no influence on the exchange. */
  lemma CareerModeIgnoresSkills(query: string, cvText: string, mode: string, history: seq<Turn>,
                                careers: Corpus, skills: Corpus, otherSkills: Corpus, svc: Services)
    requires Contains(mode, "career")
    ensures AnswerQuestion(query, cvText, mode, history, careers, skills, svc)
         == AnswerQuestion(query, cvText, mode, history, careers, otherSkills, svc)
    ensures var r := Retrieve(query, cvText, mode, careers, skills, svc);
      r.Ok? ==> r.value.0 == Career
  {
  }

  /** A mode containing "skill" but not "career" uses the skills dataset: the
      careers corpus has no influence on the exchange. */
  lemma SkillModeIgnoresCareers(query: string, cvText: string, mode: string, history: seq<Turn>,
                                careers: Corpus, otherCareers: Corpus, skills: Corpus, svc: Services)
    requires !Contains(mode, "career") && Contains(mode, "skill")
    ensures AnswerQuestion(query, cvText, mode, history, careers, skills, svc)
         == AnswerQuestion(query, cvText, mode, history, otherCareers, skills, svc)
    ensures var r := Retrieve(query, cvText, mode, careers, skills, svc);
      r.Ok? ==> r.value.0 == Skill
  {
  }

  /** Any other mode yields the error reply, never recommendations, and
      leaves the (cut) history without a new turn. */
  lemma UnknownModeIsError(query: string, cvText: string, mode: string, history: seq<Turn>,
                           careers: Corpus, skills: Corpus, svc: Services)
    requires !Contains(mode, "career") && !Contains(mode, "skill")
    ensures AnswerQuestion(query, cvText, mode, history, careers, skills, svc)
         == Exchange(LastTurns(history), Error(UnboundDataset))
  {
  }

  /** An answer succeeds exactly when the mode names a domain, the selection
      over its candidates succeeds with at least three results, and the first
      three selected indices are rows of its table. */
  lemma AnswerSucceedsIff(query: string, cvText: string, mode: string, history: seq<Turn>,
                          careers: Corpus, skills: Corpus, svc: Services)
    ensures AnswerQuestion(query, cvText, mode, history, careers, skills, svc).reply.Response?
      <==>
        && Dispatch(mode).Some?
        && var d := Dispatch(mode).value;
           var corpus := CorpusOf(d, careers, skills);
           var sel := Select(svc.rank(d, cvText, query), corpus.chunks, TopK, svc.far);
           && sel.Ok?
           && |sel.value.indices| >= Described
           && forall j :: 0 <= j < Described ==> PyIndex(corpus.data.rows, sel.value.indices[j]).Some?
  {
    if Dispatch(mode).Some? {
      var d := Dispatch(mode).value;
      var corpus := CorpusOf(d, careers, skills);
      var sel := Select(svc.rank(d, cvText, query), corpus.chunks, TopK, svc.far);
      if sel.Ok? {
        var firsts := PySlice(sel.value.indices, 0, Described);
        if |sel.value.indices| >= Described {
          assert forall j :: 0 <= j < Described ==> firsts[j] == sel.value.indices[j];
        }
      }
    }
  }

  /** Every label the search returned is a valid index both into the
      corpus's chunks and into the rows of its table. */
  predicate LabelsValid(labels: seq<int>, corpus: Corpus)
  {
    forall j :: 0 <= j < |labels| ==>
      PyIndex(corpus.chunks, labels[j]).Some? && PyIndex(corpus.data.rows, labels[j]).Some?
  }

  /** The search asks for twice `k` labels and always returns that many, so a
      successful selection has exactly `k` results and the three to describe
      always exist: the too-few-results failure cannot occur. */
  lemma FullSearchNeverTooFew(query: string, cvText: string, mode: string, history: seq<Turn>,
                              careers: Corpus, skills: Corpus, svc: Services)
    requires Dispatch(mode).Some? ==> |svc.rank(Dispatch(mode).value, cvText, query)| == 2 * TopK
    ensures AnswerQuestion(query, cvText, mode, history, careers, skills, svc).reply != Error(TooFewResults)
  {
    if Dispatch(mode).Some? {
      var d := Dispatch(mode).value;
      var corpus := CorpusOf(d, careers, skills);
      var labels := svc.rank(d, cvText, query);
      SelectLength(labels, corpus.chunks, TopK, svc.far);
      SelectError(labels, corpus.chunks, TopK, svc.far);
    }
  }

  /** With a full list of labels that are all valid indices, the answer
      succeeds. The search pads a short result with the label -1, which
      Python reads as the last element, so a corpus smaller than the request
      still answers. */
  lemma ValidLabelsAnswer(query: string, cvText: string, mode: string, history: seq<Turn>,
                          careers: Corpus, skills: Corpus, svc: Services)
    requires Dispatch(mode).Some?
    requires |svc.rank(Dispatch(mode).value, cvText, query)| == 2 * TopK
    requires LabelsValid(svc.rank(Dispatch(mode).value, cvText, query), CorpusOf(Dispatch(mode).value, careers, skills))
    ensures AnswerQuestion(query, cvText, mode, history, careers, skills, svc).reply.Response?
  {
    var d := Dispatch(mode).value;
    var corpus := CorpusOf(d, careers, skills);
    var labels := svc.rank(d, cvText, query);
    SelectError(labels, corpus.chunks, TopK, svc.far);
    SelectLength(labels, corpus.chunks, TopK, svc.far);
    SelectDrawsFromCandidates(labels, corpus.chunks, TopK, svc.far);
    var sel := Select(labels, corpus.chunks, TopK, svc.far).value;
    forall j | 0 <= j < Described
      ensures PyIndex(corpus.data.rows, sel.indices[j]).Some?
    {
      var p :| 0 <= p < |labels| && labels[p] == sel.indices[j];
    }
    AnswerSucceedsIff(query, cvText, mode, history, careers, skills, svc);
  }

  /** A one-row, one-chunk career corpus answers although the search finds a
      single neighbour: its nine -1 padding labels all name that chunk. */
  lemma PaddedSearchAnswers(query: string, cvText: string, history: seq<Turn>, row: Row,
                            chunk: string, data: Table, skills: Corpus, svc: Services)
    requires data.rows == [row]
    requires svc.rank(Career, cvText, query) == [0, -1, -1, -1, -1, -1, -1, -1, -1, -1]
    ensures AnswerQuestion(query, cvText, "career", history, Corpus(data, [chunk]), skills, svc).reply.Response?
  {
    assert "career"[..6] == "career";
    ValidLabelsAnswer(query, cvText, "career", history, Corpus(data, [chunk]), skills, svc);
  }

  /** Each recommendation shows the configured fields of the row at the
      matching selected index: the row's cell where the table has the column,
      "N/A" where it does not. Its link is the row's "Link" field. */
  lemma RecommendationFields(query: string, cvText: string, mode: string, careers: Corpus, skills: Corpus, svc: Services)
    ensures var r := Retrieve(query, cvText, mode, careers, skills, svc);
      r.Ok? ==>
        var d := r.value.0;
        var recs := r.value.1;
        var corpus := CorpusOf(d, careers, skills);
        var sel := Select(svc.rank(d, cvText, query), corpus.chunks, TopK, svc.far);
        && sel.Ok?
        && |recs| == Min(Described, |sel.value.indices|)
        && forall j, f :: 0 <= j < |recs| && f in Fields(d) ==>
             && PyIndex(corpus.data.rows, sel.value.indices[j]).Some?
             && f in recs[j].details
             && recs[j].details[f]
                == (if f in corpus.data.columns then CellAt(PyIndex(corpus.data.rows, sel.value.indices[j]).value, f)
                    else Text("N/A"))
             && recs[j].title.link == recs[j].details["Link"]
  {
    var r := Retrieve(query, cvText, mode, careers, skills, svc);
    if r.Ok? {
      var d := r.value.0;
      var corpus := CorpusOf(d, careers, skills);
      var sel := Select(svc.rank(d, cvText, query), corpus.chunks, TopK, svc.far);
      var firsts := PySlice(sel.value.indices, 0, Described);
      assert forall j :: 0 <= j < |firsts| ==> firsts[j] == sel.value.indices[j];
    }
  }

  /** A mode containing both "career" and "skill" reads career fields but
      looks the title up under "Course Title", which career fields lack: every
      title label is `None`. */
  lemma MixedModeTitle(query: string, cvText: string, mode: string, careers: Corpus, skills: Corpus, svc: Services)
    requires Contains(mode, "career") && Contains(mode, "skill")
    ensures var r := Retrieve(query, cvText, mode, careers, skills, svc);
      r.Ok? ==> r.value.0 == Career && forall j :: 0 <= j < |r.value.1| ==> r.value.1[j].title.caption.None?
  {
    assert "Course Title" !in Fields(Career);
  }

  /** Since truncation comes before the append, a successful answer to a
      history of ten or more turns leaves eleven. */
  lemma HistoryGrowsToEleven(query: string, cvText: string, mode: string, history: seq<Turn>,
                             careers: Corpus, skills: Corpus, svc: Services)
    requires |history| >= MaxHistory
    requires AnswerQuestion(query, cvText, mode, history, careers, skills, svc).reply.Response?
    ensures |AnswerQuestion(query, cvText, mode, history, careers, skills, svc).history| == MaxHistory + 1
  {
  }
}
