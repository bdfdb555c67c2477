/** The tables the case-based reasoner works on: the symptom table (id, weight),
    the solution table (id, display name) and the case base, together with the
    comma-separated text form in which a case stores its symptom signature. */
module Tables {

  datatype Option<T> = None | Some(value: T)

  datatype Result<T, E> = Success(value: T) | Failure(error: E)

  /** A case as the engine sees it after loading: its id, its symptom
      signature as comma-joined text, and the id of its final solution. */
  datatype Case = Case(id: string, signature: string, solution: string)

  /** A row of the case-base file. An empty cell reads back as missing (NaN),
      so the empty string stands for a missing value. */
  datatype Row = Row(id: string, signature: string, solution: string)

  /** The first row whose key equals `key`, as a filter followed by taking
      element 0 does; `None` when no row has that key. */
  function Lookup<V>(rows: seq<(string, V)>, key: string): (r: Option<V>)
    ensures r.None? <==> forall i :: 0 <= i < |rows| ==> rows[i].0 != key
    ensures r.Some? ==> exists i :: 0 <= i < |rows| && rows[i] == (key, r.value) &&
                                     forall j :: 0 <= j < i ==> rows[j].0 != key
  {
    if rows == [] then None
    else if rows[0].0 == key then Some(rows[0].1)
    else
      var r := Lookup(rows[1..], key);
      assert r.Some? ==> exists i :: 0 <= i < |rows[1..]| && rows[1..][i] == (key, r.value) &&
                                     forall j :: 0 <= j < i ==> rows[1..][j].0 != key;
      assert forall i :: 0 <= i < |rows[1..]| ==> rows[1..][i] == rows[i + 1];
      r
  }

  // ---------------------------------------------------------------------
  // Load-time filter
  // ---------------------------------------------------------------------

  /** A row survives loading when both its case id and its solution are present. */
  predicate Complete(row: Row) {
    row.id != "" && row.solution != ""
  }

  /** The loaded case of a complete row; a missing signature is turned into
      text by `str`, which gives "nan". */
  function ToCase(row: Row): Case
    requires Complete(row)
  {
    Case(row.id, if row.signature == "" then "nan" else row.signature, row.solution)
  }

  /** The case base as loaded: the complete rows, in file order. */
  function Clean(rows: seq<Row>): (cases: seq<Case>)
    ensures |cases| <= |rows|
    ensures forall i :: 0 <= i < |rows| && Complete(rows[i]) ==> ToCase(rows[i]) in cases
    ensures forall c :: c in cases ==> exists i :: 0 <= i < |rows| && Complete(rows[i]) && ToCase(rows[i]) == c
  {
    if rows == [] then []
    else
      var rest := Clean(rows[1..]);
      assert forall i :: 1 <= i < |rows| ==> rows[i] == rows[1..][i - 1];
      (if Complete(rows[0]) then [ToCase(rows[0])] else []) + rest
  }

  /** Loading distributes over concatenation of files: the filter keeps
      the order of the rows it keeps. */
  lemma {:induction false} CleanConcat(a: seq<Row>, b: seq<Row>)
    ensures Clean(a + b) == Clean(a) + Clean(b)
  {
    if a == [] {
      assert a + b == b;
    } else {
      assert (a + b)[1..] == a[1..] + b;
      CleanConcat(a[1..], b);
    }
  }

  /** A complete row appended at the end of the file is the last case on the
      next load, and the cases before it are unchanged. */
  lemma AppendVisibleOnReload(rows: seq<Row>, row: Row)
    requires Complete(row)
    ensures Clean(rows + [row]) == Clean(rows) + [ToCase(row)]
  {
    CleanConcat(rows, [row]);
    assert Clean([row]) == [ToCase(row)] by {
      assert [row][1..] == [];
    }
  }

  // ---------------------------------------------------------------------
  // Signature text: split on ',' and join with ','
  // ---------------------------------------------------------------------

  /** Number of occurrences of character `c` in `s`. */
  function Occurrences(s: string, c: char): nat
  {
    if s == [] then 0 else (if s[0] == c then 1 else 0) + Occurrences(s[1..], c)
  }

  /** `s.split(',')`: the maximal comma-free pieces, empty pieces included, so
      the empty text gives one empty piece. */
  function Split(s: string): (parts: seq<string>)
    ensures |parts| >= 1
  {
    if s == [] then [""]
    else if s[0] == ',' then [""] + Split(s[1..])
    else
      var rest := Split(s[1..]);
      [[s[0]] + rest[0]] + rest[1..]
  }

  /** There is one piece more than there are commas, and no piece holds a comma. */
  lemma {:induction false} SplitPieces(s: string)
    ensures |Split(s)| == Occurrences(s, ',') + 1
    ensures forall i :: 0 <= i < |Split(s)| ==> ',' !in Split(s)[i]
  {
    if s != [] {
      SplitPieces(s[1..]);
      var rest := Split(s[1..]);
      if s[0] != ',' {
        assert ',' !in [s[0]] + rest[0];
        assert forall i :: 1 <= i < |Split(s)| ==> Split(s)[i] == rest[i];
      } else {
        assert forall i :: 1 <= i < |Split(s)| ==> Split(s)[i] == rest[i - 1];
      }
    }
  }

  /** `",".join(parts)`. */
  function Join(parts: seq<string>): string
  {
    if |parts| == 0 then ""
    else if |parts| == 1 then parts[0]
    else parts[0] + "," + Join(parts[1..])
  }

  /** Joining the pieces of a split gives back the text, for every text. */
  lemma {:induction false} JoinSplit(s: string)
    ensures Join(Split(s)) == s
  {
    if s == [] {
    } else if s[0] == ',' {
      JoinSplit(s[1..]);
      assert [""] + Split(s[1..]) == Split(s);
      assert s == [','] + s[1..];
    } else {
      var rest := Split(s[1..]);
      JoinSplit(s[1..]);
      var parts := [[s[0]] + rest[0]] + rest[1..];
      if |rest| == 1 {
        assert Join(parts) == [s[0]] + rest[0];
      } else {
        assert parts[1..] == rest[1..];
        assert Join(rest) == rest[0] + "," + Join(rest[1..]);
        assert Join(parts) == [s[0]] + rest[0] + "," + Join(rest[1..]);
      }
      assert s == [s[0]] + s[1..];
    }
  }

  /** A comma-free text is a single piece. */
  lemma {:induction false} SplitCommaFree(a: string)
    requires ',' !in a
    ensures Split(a) == [a]
  {
    if a != [] {
      assert a[0] != ',' && ',' !in a[1..];
      SplitCommaFree(a[1..]);
      assert a == [a[0]] + a[1..];
    }
  }

  /** A comma-free text followed by a comma contributes exactly one piece. */
  lemma {:induction false} SplitAfterPiece(a: string, rest: string)
    requires ',' !in a
    ensures Split(a + "," + rest) == [a] + Split(rest)
  {
    if a == [] {
      assert a + "," + rest == [','] + rest;
      assert (a + "," + rest)[1..] == rest;
    } else {
      var t := a + "," + rest;
      assert t[0] == a[0] && a[0] != ',';
      assert t[1..] == a[1..] + "," + rest;
      SplitAfterPiece(a[1..], rest);
      assert Split(t) == [[a[0]] + a[1..]] + Split(rest);
      assert a == [a[0]] + a[1..];
    }
  }

  /** A non-empty list of comma-free ids survives a join followed by a split. */
  lemma {:induction false} SplitJoin(ids: seq<string>)
    requires |ids| >= 1
    requires forall i :: 0 <= i < |ids| ==> ',' !in ids[i]
    ensures Split(Join(ids)) == ids
  {
    if |ids| == 1 {
      SplitCommaFree(ids[0]);
    } else {
      SplitJoin(ids[1..]);
      SplitAfterPiece(ids[0], Join(ids[1..]));
      assert ids == [ids[0]] + ids[1..];
    }
  }

  /** The empty list is the exception: its join reads back as one empty id. */
  lemma SplitJoinEmpty()
    ensures Split(Join([])) == [""]
  {
  }
}
