/** What the caller does with a ranking: the top entry with its solution text
    and confidence band, and the self-test that queries every case with its
    own signature. */
module Evaluation {
  import opened Tables
  import opened Retrieval

  /** The three confidence bands of the top score. */
  datatype Verdict = SolutionFound | PossibleSolution | UnknownCase

  /** 80 and above: a solution was found; 50 and above: a possible solution;
      below 50: an unknown case. */
  function Band(score: real): Verdict
  {
    if score >= 80.0 then SolutionFound
    else if score >= 50.0 then PossibleSolution
    else UnknownCase
  }

  function Strength(v: Verdict): nat
  {
    match v
    case UnknownCase => 0
    case PossibleSolution => 1
    case SolutionFound => 2
  }

  /** A higher score never gets a weaker band. */
  lemma BandMonotone(a: real, b: real)
    requires a <= b
    ensures Strength(Band(a)) <= Strength(Band(b))
  {
  }

  /** The text shown for a solution id: the name of the first solution row
      with that id, or a data-error message naming the id. */
  datatype SolutionText = Named(name: string) | MissingSolution(id: string)

  function SolutionTextFor(solutions: seq<(string, string)>, id: string): (t: SolutionText)
    ensures t.MissingSolution? <==> forall i :: 0 <= i < |solutions| ==> solutions[i].0 != id
    ensures t.MissingSolution? ==> t.id == id
    ensures t.Named? ==> exists i :: 0 <= i < |solutions| && solutions[i] == (id, t.name) &&
                                     forall j :: 0 <= j < i ==> solutions[j].0 != id
  {
    match Lookup(solutions, id)
    case None => MissingSolution(id)
    case Some(name) => Named(name)
  }

  datatype Diagnosis = Diagnosis(top: Scored, text: SolutionText, verdict: Verdict)

  datatype DiagnoseError = NoSymptomsSelected | EmptyDatabase

  /** One diagnosis request: refused without symptoms; otherwise the ranking's
      first entry, unless the ranking is empty. */
  function Diagnose(table: SymptomTable, solutions: seq<(string, string)>, user: seq<string>, cases: seq<Case>)
    : (r: Result<Diagnosis, DiagnoseError>)
    ensures r.Failure? <==> user == [] || cases == []
    ensures r.Failure? ==> r.error == if user == [] then NoSymptomsSelected else EmptyDatabase
    ensures r.Success? ==> r.value.top in ScoreAll(table, user, cases)
  {
    if user == [] then Failure(NoSymptomsSelected)
    else
      var hasil := Ranked(table, user, cases);
      if |hasil| == 0 then Failure(EmptyDatabase)
      else
        var top := hasil[0];
        assert top in multiset(ScoreAll(table, user, cases));
        Success(Diagnosis(top, SolutionTextFor(solutions, top.solution), Band(top.similarity)))
  }

  /** The diagnosis reports a case whose score no other case exceeds. */
  lemma DiagnoseTopIsBest(table: SymptomTable, solutions: seq<(string, string)>, user: seq<string>, cases: seq<Case>, k: nat)
    requires user != [] && k < |cases|
    ensures Diagnose(table, solutions, user, cases).Success?
    ensures Diagnose(table, solutions, user, cases).value.top.similarity >= Score(table, user, cases[k]).similarity
  {
    TopIsBest(table, user, cases, k);
  }

  /** On a tie the diagnosis reports the earliest case in case-base order:
      when case `j` has the largest score and every earlier case scores
      strictly less, the reported entry is case `j`'s. */
  lemma DiagnoseReportsEarliestBest(table: SymptomTable, solutions: seq<(string, string)>, user: seq<string>, cases: seq<Case>, j: nat)
    requires user != [] && j < |cases|
    requires forall k :: 0 <= k < |cases| ==> Score(table, user, cases[k]).similarity <= Score(table, user, cases[j]).similarity
    requires forall k :: 0 <= k < j ==> Score(table, user, cases[k]).similarity < Score(table, user, cases[j]).similarity
    ensures Diagnose(table, solutions, user, cases).Success?
    ensures Diagnose(table, solutions, user, cases).value.top == Score(table, user, cases[j])
  {
    RankedTopIsEarliestBest(table, user, cases, j);
  }

  /** Appending a case that scores no more than the reported one, such as a
      retained correction with the same signature, leaves the whole diagnosis
      unchanged: the earlier case keeps winning the tie. */
  lemma AppendedTieKeepsDiagnosis(table: SymptomTable, solutions: seq<(string, string)>, user: seq<string>, cases: seq<Case>, c: Case)
    requires user != [] && cases != []
    requires Score(table, user, c).similarity <= Diagnose(table, solutions, user, cases).value.top.similarity
    ensures Diagnose(table, solutions, user, cases + [c]) == Diagnose(table, solutions, user, cases)
  {
    RankedTopKeptByNoLargerCase(table, user, cases, c);
  }

  /** Querying with a stored case's own signature, when that signature has
      positive weight, reports a solution as found. */
  lemma OwnSignatureIsFound(table: SymptomTable, solutions: seq<(string, string)>, cases: seq<Case>, k: nat)
    requires k < |cases|
    requires Total(table, Split(cases[k].signature)) > 0
    ensures Diagnose(table, solutions, Split(cases[k].signature), cases).Success?
    ensures Diagnose(table, solutions, Split(cases[k].signature), cases).value.verdict == SolutionFound
  {
    var user := Split(cases[k].signature);
    ExactMatchScores100(table, cases[k]);
    TopIsBest(table, user, cases, k);
  }

  // ---------------------------------------------------------------------
  // Self-test
  // ---------------------------------------------------------------------

  /** One row of the self-test log. */
  datatype LogEntry = LogEntry(id: string, expected: string, predicted: string, score: real)

  datatype EvalError = DivisionByZero

  /** The top entry when case `k` is queried with its own split signature. */
  function Prediction(table: SymptomTable, cases: seq<Case>, k: nat): Scored
    requires k < |cases|
  {
    Ranked(table, Split(cases[k].signature), cases)[0]
  }

  /** The log row of the query with case `k`'s own signature. */
  function LogOf(table: SymptomTable, cases: seq<Case>, k: nat): LogEntry
    requires k < |cases|
  {
    var p := Prediction(table, cases, k);
    LogEntry(cases[k].id, cases[k].solution, p.solution, p.similarity)
  }

  /** The log of the first `n` self-test queries: one row per case, in order. */
  function Logs(table: SymptomTable, cases: seq<Case>, n: nat): (r: seq<LogEntry>)
    requires n <= |cases|
    ensures |r| == n
  {
    if n == 0 then [] else Logs(table, cases, n - 1) + [LogOf(table, cases, n - 1)]
  }

  /** The log of the first `n + 1` queries extends that of the first `n`
      by the row of query `n`. */
  lemma LogsAppend(table: SymptomTable, cases: seq<Case>, n: nat, e: LogEntry)
    requires n < |cases| && e == LogOf(table, cases, n)
    ensures Logs(table, cases, n + 1) == Logs(table, cases, n) + [e]
  {
  }

  /** Row `k` of the log is the query with case `k`'s own signature. */
  lemma {:induction false} LogsAt(table: SymptomTable, cases: seq<Case>, n: nat, k: nat)
    requires k < n <= |cases|
    ensures Logs(table, cases, n)[k] == LogOf(table, cases, k)
  {
    LogsAppend(table, cases, n - 1, LogOf(table, cases, n - 1));
    if k < n - 1 {
      LogsAt(table, cases, n - 1, k);
    }
  }

  /** How many log rows predict the case's own solution. */
  function Agreeing(logs: seq<LogEntry>): (k: nat)
    ensures k <= |logs|
  {
    if logs == [] then 0
    else
      var last := logs[|logs| - 1];
      Agreeing(logs[..|logs| - 1]) + (if last.expected == last.predicted then 1 else 0)
  }

  /** Appending a row adds one agreement exactly when the row predicts its
      own solution. */
  lemma AgreeingAppend(logs: seq<LogEntry>, e: LogEntry)
    ensures Agreeing(logs + [e]) == Agreeing(logs) + (if e.expected == e.predicted then 1 else 0)
  {
    assert (logs + [e])[..|logs|] == logs;
  }

  /** The percentage of correct predictions; with no cases the division by
      zero fails. */
  function Accuracy(correct: nat, total: nat): (r: Result<real, EvalError>)
    requires correct <= total
    ensures r.Failure? <==> total == 0
    ensures r.Success? ==> r.value * total as real == correct as real * 100.0
    ensures r.Success? ==> 0.0 <= r.value <= 100.0
  {
    if total == 0 then Failure(DivisionByZero)
    else
      var ratio := correct as real / total as real;
      assert ratio * total as real == correct as real;
      QuotientAtMost(correct as real, total as real, 1.0);
      Success(ratio * 100.0)
  }

  /** Queries every case with its own signature, counts the queries whose top
      solution is the case's own, logs each query, and divides at the end;
      with no cases the division fails. */
  method SelfTest(cases: seq<Case>, table: SymptomTable) returns (correct: nat, logs: seq<LogEntry>, accuracy: Result<real, EvalError>)
    ensures correct == Agreeing(logs)
    ensures correct <= |cases|
    ensures |logs| == |cases|
    ensures logs == Logs(table, cases, |cases|)
    ensures accuracy == Accuracy(correct, |cases|)
    ensures accuracy.Failure? <==> cases == []
  {
    correct := 0;
    var total := |cases|;
    logs := [];
    var i := 0;
    while i < total
      invariant 0 <= i <= total
      invariant correct == Agreeing(logs)
      invariant |logs| == i
      invariant logs == Logs(table, cases, i)
    {
      var entry := QueryOwnSignature(cases, i, table);
      if entry.expected == entry.predicted {
        correct := correct + 1;
      }
      AgreeingAppend(logs, entry);
      LogsAppend(table, cases, i, entry);
      logs := logs + [entry];
      i := i + 1;
    }
    accuracy := Accuracy(correct, total);
  }

  /** The body of the self-test loop: query with the case's own split
      signature, take the first entry of the ranking and form the log row. */
  method QueryOwnSignature(cases: seq<Case>, k: nat, table: SymptomTable) returns (entry: LogEntry)
    requires k < |cases|
    ensures entry == LogOf(table, cases, k)
  {
    var hasil := Retrieve(Split(cases[k].signature), cases, table);
    var top := hasil[0];
    entry := LogEntry(cases[k].id, cases[k].solution, top.solution, top.similarity);
  }

  /** In the self-test, a case whose own signature has positive weight is
      predicted with a score of at least 100. */
  lemma SelfTestTopScore(table: SymptomTable, cases: seq<Case>, k: nat)
    requires k < |cases|
    requires Total(table, Split(cases[k].signature)) > 0
    ensures Prediction(table, cases, k).similarity >= 100.0
  {
    ExactMatchScores100(table, cases[k]);
    TopIsBest(table, Split(cases[k].signature), cases, k);
  }
}
