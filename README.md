# CBR expert system: retrieve and retain

This project models the case-based-reasoning engine of `app.py`, a diagnosis
assistant with two knowledge bases (laptop faults and chilli-plant diseases).
Each base has three tables:

- a symptom table, where each row is a symptom id and an integer weight;
- a solution table, where each row is a solution id and a display name;
- a case base, where each row is a case id, a comma-joined symptom signature
  and the id of the case's final solution.

The model covers five parts of the engine:

- **Retrieve** (`hitung_similarity`) sums the weights of the observed symptoms.
  It then scores every stored case by the matched weight over the mean of the
  case total and the user total, times 100, and sorts the entries by similarity,
  largest first, with a stable sort.
- **Retain** (`simpan_kasus_baru`) mints the id of a confirmed new case from the
  id of the last loaded case and appends one row to the case base.
- **Load-time filter**: rows without a case id or a solution are dropped.
- **Diagnosis**: the top entry of a ranking, its solution text and its
  confidence band.
- **Self-test**: every case is queried with its own signature, and the
  agreeing predictions are counted and turned into an accuracy.

The files and their modules:

- `tables.dfy`, module `Tables`:
  - the `Option` and `Result` types;
  - the first-match lookup used for weights and solution names;
  - case rows and the load-time filter;
  - the comma split and join of signatures.
- `retrieve.dfy`, module `Retrieval`:
  - weights, totals, matched weight and the similarity formula;
  - the score of one case and of all cases;
  - the stable descending sort;
  - the imperative `Retrieve` and `ScoreCase` methods, proved against these
    functions;
  - the properties of the score and of the ranking.
- `retain.dfy`, module `Retain`:
  - id minting (digit filter, decimal parse, increment, two-digit padding);
  - the `CaseBase` class, whose `rows` field is the case-base file, with the
    `Retain` method that appends to it.
- `evaluation.dfy`, module `Evaluation`:
  - the score bands;
  - the solution text;
  - one diagnosis request;
  - the `SelfTest` method with its log and accuracy.

Conventions:

- Similarities are Dafny `real`s. The Python float is replaced by the exact
  quotient. The integer form `sim * (caseTotal + userTotal) == 200 * matched`
  is part of the contract of `Similarity`.
- A row of the case-base file is three strings. The empty string stands for
  an empty cell, which pandas reads as NaN.
- The sort `results.sort(key=..., reverse=True)` is a library call. It is
  modelled by the function `StableSortDesc`, an insertion sort.
- Three properties are proved of `StableSortDesc`:
  - its result is ordered;
  - its result is a permutation of its input;
  - for every similarity value, the entries with that value keep their
    input order.

## Model

| member | source | states |
|---|---|---|
| Tables.Lookup | app.py:82-84 | `None` exactly when no row has the key; otherwise the value of a row with the key such that no earlier row has it (first match) |
| Tables.Clean | app.py:57-65 | the loaded cases are no more than the rows; every complete row (id and solution present) yields a case; every case comes from a complete row |
| Tables.CleanConcat | app.py:57-65 | the filter keeps rows in file order: loading `a + b` gives the load of `a` followed by the load of `b` |
| Tables.AppendVisibleOnReload | app.py:57-65 | a complete row appended to the file becomes the last loaded case, and the cases before it are unchanged |
| Tables.Complete | app.py:57 | a row is kept when both its case id and its solution are present |
| Tables.ToCase | app.py:57-62 | a kept row becomes a case with the same id and solution; a missing signature becomes "nan", as `str` of NaN (used at app.py:88) gives |
| Tables.Join | app.py:142 | `",".join(parts)`; JoinSplit and SplitJoin relate it to the split |
| Tables.Split | app.py:88 | a split always yields at least one piece, as `''.split(',')` gives `['']` |
| Tables.SplitPieces | app.py:88 | `split(',')` gives one more piece than there are commas, and no piece contains a comma |
| Tables.JoinSplit | app.py:88 | joining the pieces of a split with ',' gives back the original text, for every text |
| Tables.SplitCommaFree | app.py:88 | a comma-free text splits into exactly itself |
| Tables.SplitAfterPiece | app.py:88 | a comma-free piece followed by ',' contributes exactly that piece to the split |
| Tables.SplitJoin | app.py:142 | for a non-empty list of comma-free ids, splitting the joined signature gives back the list |
| Tables.SplitJoinEmpty | app.py:142 | the empty id list joins to "", which reads back as one empty id |
| Retrieval.Weight | app.py:82-84 | an id absent from the symptom table weighs 0; with non-negative table weights every weight is non-negative |
| Retrieval.WeightFirstMatch | app.py:82-84 | the weight of an id is the weight in the first table row carrying that id |
| Retrieval.Total | app.py:80-84 | the sum of the weights of a list of ids, once per occurrence, over the user list (80-84) and a case signature (92-96); see TotalConcat and TotalNonNegative |
| Retrieval.Matched | app.py:92-100 | the sum of the weights of the signature ids that occur in the observed list; see the Matched lemmas |
| Retrieval.TotalConcat | app.py:81-84 | totals add over concatenation, so a repeated id counts once per occurrence |
| Retrieval.TotalNonNegative | app.py:80-84 | with non-negative weights a total is non-negative |
| Retrieval.Similarity | app.py:106-111 | the score is 0 when `(caseTotal + userTotal)/2` is not positive; otherwise score times `(caseTotal + userTotal)` equals 200 times the matched weight |
| Retrieval.SimilarityBounds | app.py:106-111 | with `0 <= matched <= caseTotal` and a non-negative user total, the score is in [0, 200]; it is at most 100 when the matched weight is also within the user total; it is exactly 100 when all three are equal and positive |
| Retrieval.SimilarityAntitone | app.py:102-109 | with `0 <= matched <= caseTotal` and `0 <= u <= u2`, a larger user total never raises the score |
| Retrieval.Score | app.py:87-118 | one result entry: the case id, the similarity of the case, its solution id and its signature split on ','; ScoreCase is proved equal to it |
| Retrieval.Ranked | app.py:76-121 | the result of the engine: the stable descending sort of the per-case entries; Retrieve is proved equal to it |
| Retrieval.ScoreAll | app.py:86-118 | one entry per case, in case-base order; entry `i` is the score of case `i` |
| Retrieval.ScoreCase | app.py:87-118 | the inner loop's case total, matched weight and division give exactly the score of the case: its id, its similarity, its solution id and its signature split on ',' |
| Retrieval.Retrieve | app.py:76-121 | the result is the stable descending sort of the per-case scores. It has one entry per case, is ordered by similarity (largest first), is a permutation of the unsorted entries, and lists entries of equal similarity in case-base order |
| Retrieval.Insert | app.py:120 | inserting an entry lengthens the list by one and adds exactly that entry to its multiset |
| Retrieval.StableSortDesc | app.py:120 | the sort keeps the length and the multiset of the entries |
| Retrieval.InsertBounded | app.py:120 | inserting an entry bounded by `b` into entries bounded by `b` keeps every entry bounded by `b` |
| Retrieval.InsertSorted | app.py:120 | inserting into an ordered list keeps it ordered |
| Retrieval.StableSortDescSorted | app.py:120 | the sorted entries are ordered by similarity, largest first |
| Retrieval.WithScoreConcat | app.py:120 | selecting the entries of one similarity distributes over concatenation |
| Retrieval.InsertStable | app.py:120 | inserting an entry keeps, for every similarity value, the order those entries had with the new entry placed in front |
| Retrieval.InsertKeepsOrder | app.py:120 | one step of the stability proof: insertion into a list that keeps the order of `rest` keeps the order of `[x] + rest` |
| Retrieval.StableSortDescStable | app.py:120 | stability: for every similarity value, the sorted entries with that value appear in the same order as in the input |
| Retrieval.MatchedWithinCaseTotal | app.py:92-100 | with non-negative weights, `0 <= matched <= caseTotal` |
| Retrieval.MatchedNothingObserved | app.py:92-100 | with nothing observed, nothing matches |
| Retrieval.MatchedAllObserved | app.py:92-100 | when every signature id was observed, the matched weight is the whole case total |
| Retrieval.MatchedIgnoresUnrelated | app.py:92-100 | observing one more id that is not in the signature leaves the matched weight unchanged |
| Retrieval.MatchedGainsNew | app.py:92-100 | for a duplicate-free signature, a newly observed id adds its weight to the matched weight exactly when it is in the signature |
| Retrieval.MatchedWithinUserTotal | app.py:81-100 | with duplicate-free lists and non-negative weights, the matched weight is at most the user total |
| Retrieval.ScoreInRange | app.py:92-111 | with non-negative weights every similarity lies in [0, 200] |
| Retrieval.ScoreAtMost100 | app.py:92-111 | with non-negative weights and duplicate-free observed and signature lists it lies in [0, 100] |
| Retrieval.ExactMatchScores100 | app.py:92-111 | observing exactly a case's split signature scores 100 when that signature has positive total weight |
| Retrieval.EmptyObservationScoresZero | app.py:80-111 | an empty observation scores 0 against every case |
| Retrieval.NoiseNeverRaises | app.py:102-109 | observing one more symptom that is absent from a case's signature, with non-negative weights, never raises that case's similarity |
| Retrieval.TopIsBest | app.py:120 | the first entry of the ranking has a similarity at least that of every case |
| Retrieval.WithScoreFirst | app.py:120 | the earliest entry with a given similarity heads the selection of that similarity |
| Retrieval.EarliestWithScore | app.py:120 | among the entries with a given similarity there is an earliest one |
| Retrieval.SortTopIsEarliestBest | app.py:120 | the sort puts first the earliest entry of largest similarity |
| Retrieval.RankedTopIsEarliestBest | app.py:120-121 | ties go to case-base order: when case `j` scores highest and every earlier case scores strictly less, case `j` heads the ranking |
| Retrieval.SortTopBounds | app.py:120 | the first sorted entry is one of the input entries and scores at least every one of them |
| Retrieval.SortTopKeptByNoLargerLater | app.py:120 | an entry appended last that scores no more than the current first one does not displace it |
| Retrieval.RankedTopKeptByNoLargerCase | app.py:120-121 | a case appended to the base that scores no more than the current top leaves the top entry unchanged |
| Retrieval.WorkedExample | app.py:76-111 | weights G01=5, G02=3, G03=2, case signature "G01,G02", observed G01: similarity 5/((8+5)/2)*100 = 1000/13 |
| Retain.Prefix | app.py:125-130 | "K" for the Laptop domain, "KC" for any other |
| Retain.ParseDecimal | app.py:136 | `int` of a digit string, leading zeros allowed; see ParseDecimalOfDecimal and ParseLeadingZero |
| Retain.NextId | app.py:134-139 | the id after the last one: prefix and padded successor, or prefix and 99; see NextIdIncrements and NextIdFallback |
| Retain.Digits | app.py:136 | the filtered text holds only digits, is no longer than the id, and is empty exactly when the id has no digit character |
| Retain.Decimal | app.py:137 | the decimal text of a number is a non-empty digit string that starts with '0' exactly when the number is 0 (no leading zeros) |
| Retain.Pad2 | app.py:137 | the `02d` text is a digit string of length at least 2, and longer only when it has no leading zero |
| Retain.ParseDecimalOfDecimal | app.py:136-137 | reading back the decimal text of `n` gives `n` |
| Retain.ParseLeadingZero | app.py:136-137 | a leading zero does not change the parsed number |
| Retain.DigitsConcat | app.py:136 | the digit filter distributes over concatenation |
| Retain.DigitsOfDigitString | app.py:136 | filtering a digit string keeps all of it |
| Retain.Pad2RoundTrip | app.py:137 | the padded text of `n` parses back as `n` |
| Retain.MintId | app.py:125-139 | minting fails exactly when the case base is empty (`iloc[-1]` outside the `try`); otherwise the id starts with the domain prefix and has at least two characters after it |
| Retain.DigitsBehindPrefix | app.py:136 | behind a prefix without digits, the digit filter of a digit string gives that string |
| Retain.NextIdIncrements | app.py:134-137 | for a prefix without digits and a last id with digits, the new id is the prefix followed by at least two digits, with no leading zero beyond width two, which read as one more than the number formed by all the digits of the last id |
| Retain.NextIdAfterK07 | app.py:134-137 | K07 and K7 both give K08 |
| Retain.NextIdAfterK99 | app.py:134-137 | K99 gives K100 |
| Retain.NextIdAfterKC14 | app.py:125-137 | in the chilli domain KC14 gives KC15 |
| Retain.NoDigitsInCaseX | app.py:136 | "CASE-X" has no digit characters |
| Retain.NextIdFallback | app.py:138-139 | a last id without digits gives the prefix followed by 99 |
| Retain.NextIdAfterCaseX | app.py:138-139 | the Laptop prefix and the last id CASE-X give K99 |
| Retain.MintIdSuccessor | app.py:125-139 | on a non-empty case base the id is the domain prefix, then 99 when the last case's id has no digit, or else exactly the `02d` text of one more than the number that id's digits form: at least two digits, no leading zero beyond width two |
| Retain.MintIdMayCollide | app.py:132-139 | the id policy does not check existing ids: with cases K99 and CASE-X the minted id is K99 again |
| Retain.CaseBase.constructor | app.py:123 | the case base starts with the given rows |
| Retain.CaseBase.Loaded | app.py:57-65 | the cases a load of the file yields: the load-time filter of its rows |
| Retain.CaseBase.Retain | app.py:123-155 | the result is the id minted from the loaded cases. On failure the rows are unchanged. On success exactly one row (new id, ids joined with ',', solution) is appended after the old rows |
| Retain.JoinNonEmpty | app.py:142 | joining a list whose first id is non-empty gives a non-empty signature |
| Retain.RetainThenQuery | app.py:142-155 | for a non-empty loaded base, a non-empty solution id, and a non-empty list of non-empty comma-free ids whose total weight is positive: after the retain, the next load ends with the new case and keeps the earlier ones. Querying with those ids scores the new case 100, and the top of the ranking scores at least 100 |
| Evaluation.Band | app.py:262-270 | 80 and above: solution found; 50 and above: possible solution; below: unknown case |
| Evaluation.BandMonotone | app.py:262-270 | a higher score never gets a weaker band |
| Evaluation.SolutionTextFor | app.py:246-254 | the solution text is the name in the first solution row with the id. It is the data-error text naming the id exactly when no row has the id |
| Evaluation.Diagnose | app.py:217-257 | the request is refused exactly when nothing is observed or the ranking is empty, with the matching error. Otherwise the reported top entry is one of the per-case scores |
| Evaluation.DiagnoseTopIsBest | app.py:225-242 | a diagnosis with observed symptoms and a non-empty base succeeds and reports a score no case exceeds |
| Evaluation.DiagnoseReportsEarliestBest | app.py:225-242 | on ties the diagnosis reports the earliest case in case-base order: when case `j` scores highest and every earlier case scores strictly less, the reported entry is case `j`'s |
| Evaluation.AppendedTieKeepsDiagnosis | app.py:120-155 | appending a case that scores no more than the reported one (such as a retained correction with the same signature) leaves the whole diagnosis unchanged |
| Evaluation.OwnSignatureIsFound | app.py:225-270 | querying with a stored case's own signature, of positive weight, is banded as a solution found |
| Evaluation.Prediction | app.py:317-321 | the top entry when case `k` is queried with its own split signature |
| Evaluation.LogOf | app.py:317-324 | log row `k`: case `k`'s id and solution, and the predicted solution and score |
| Evaluation.Logs | app.py:316-324 | the log of the first `n` queries has `n` rows |
| Evaluation.LogsAt | app.py:316-324 | log row `k` records case `k`'s id, its solution, and the solution and score of the top entry for its own split signature |
| Evaluation.Agreeing | app.py:323 | the number of agreeing rows is at most the number of rows |
| Evaluation.AgreeingAppend | app.py:323 | a new row adds one agreement exactly when its prediction equals its expected solution |
| Evaluation.Accuracy | app.py:328 | with no cases the division fails. Otherwise accuracy times total equals 100 times the correct count, and the accuracy lies in [0, 100] |
| Evaluation.QueryOwnSignature | app.py:317-324 | one loop body: the log row of querying case `k` with its own split signature |
| Evaluation.SelfTest | app.py:310-329 | the counter equals the number of agreeing log rows and is at most the number of cases. The log has one row per case, in order, each the query of that case with its own signature. The accuracy fails exactly when there are no cases |
| Evaluation.SelfTestTopScore | app.py:316-324 | a case whose own signature has positive weight is predicted with a score of at least 100 |

## Left out

- Streamlit page layout is not modelled: the sidebar, banners, CSS, base64
  images, multiselect and selectbox label mappings, session state, balloons,
  progress bars and `st.rerun`. All of it is user interface.
- Reading the CSV files and the `@st.cache_data` cache are not modelled.
  Tables are sequences. A load is `Clean` of the rows. A retain reads the
  current rows, so the staleness of the cached case base after an append is
  not modelled.
- Writing the appended row to disk is not modelled, and neither are its
  failure modes such as a locked or open file. The caller's exception handler
  (app.py:298-299) is modelled only for the empty case base: the retain then
  returns a failure and leaves the rows unchanged. Concurrent writers are not
  modelled either; the model is sequential.
- Weights are integers in the model. `int(bobot_data[0])` (app.py:84, 95)
  truncates a fractional weight and raises an uncaught error on an empty
  weight cell (NaN); neither behaviour is modelled.
- `time.sleep` pauses are left out, since they only delay the interface.
- Float formatting (`:.1f`) is left out. IEEE rounding of similarity and
  accuracy is replaced by exact reals.
- pandas type inference is not modelled. All ids are strings, and an empty
  cell is the empty string. A missing signature becomes "nan", as `str` of
  NaN does. Cells holding the literal text "NA" or "nan", which pandas also
  reads as missing, are not treated specially.
- Digits: only the ASCII digits 0-9 are digits. Python's `str.isdigit` also
  accepts other Unicode digits, on which `int` can fail and so reach the
  fallback id; that path is not modelled.
- Retain.NextId: Python limits int/str conversion to 4300 digits by default.
  On a last id with more than 4300 digits, `int(...)` (app.py:136) raises
  ValueError; on a successor of more than 4300 digits, the `:02d` formatting
  (app.py:137) raises. Both sit inside the bare `try` (app.py:135-139), so the
  source then mints prefix + "99". The model parses and pads without a limit
  and mints the successor, so NextIdIncrements and MintIdSuccessor do not
  describe the source for such ids.
- Evaluation.SolutionTextFor: the generic `except` around the solution lookup
  (app.py:255-256) has no counterpart, since the modelled lookup cannot fail.
- Retrieval.StableSortDesc: Python's `list.sort` is a library call. It is
  specified by this insertion sort, so the model states what the sort
  guarantees, not how the library performs it.
- The self-test builds its log with the raw similarity. The percentage text
  `f"{...:.1f}%"` is not modelled.
