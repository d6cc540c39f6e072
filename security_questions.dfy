/** The fold of `getSecurityQuestions`: result rows are visited in order, and every row that has
    both a `question` and an `answer` column puts `question -> answer` into an insertion-ordered
    map. This module defines the fold on values and proves what it yields, independently of it:
    which keys, which answers, in which order, and how many. */
module SecurityQuestions {
  import opened Jdbc
  import opened LinkedHashMaps

  /** The row has both columns the fold needs: `containsKey("question")` and
      `containsKey("answer")`, which ignore case. */
  predicate Qualifies(row: Row) {
    Get(row, "question").Some? && Get(row, "answer").Some?
  }

  /** The question a qualifying row asks. */
  function Question(row: Row): string
    requires Qualifies(row)
  {
    Get(row, "question").value
  }

  /** The answer a qualifying row gives. */
  function Answer(row: Row): string
    requires Qualifies(row)
  {
    Get(row, "answer").value
  }

  /** One visit of the loop body: a qualifying row is put, any other row is skipped. */
  function PutRow(m: OrderedMap, row: Row): (r: OrderedMap)
    requires m.Valid()
    ensures r.Valid()
  {
    if Qualifies(row) then m.Put(Question(row), Answer(row)) else m
  }

  /** The loop over all of `rows`, starting from `m`. */
  function PutRows(m: OrderedMap, rows: seq<Row>): (r: OrderedMap)
    requires m.Valid()
    ensures r.Valid()
    ensures |r.order| <= |m.order| + |rows|
    decreases |rows|
  {
    if rows == [] then m
    else PutRow(PutRows(m, rows[..|rows| - 1]), rows[|rows| - 1])
  }

  /** The map `getSecurityQuestions` returns for the rows the store answered. */
  function Questions(rows: seq<Row>): OrderedMap {
    PutRows(Empty(), rows)
  }

  /** The questions of the qualifying rows. */
  ghost function QualifyingQuestions(rows: seq<Row>): set<string> {
    set i | 0 <= i < |rows| && Qualifies(rows[i]) :: Question(rows[i])
  }

  lemma QualifyingQuestionsSnoc(rows: seq<Row>, row: Row)
    ensures QualifyingQuestions(rows + [row])
         == QualifyingQuestions(rows) + (if Qualifies(row) then {Question(row)} else {})
  {
    var s := rows + [row];
    forall q | q in QualifyingQuestions(s)
      ensures q in QualifyingQuestions(rows) || (Qualifies(row) && q == Question(row))
    {
      var i :| 0 <= i < |s| && Qualifies(s[i]) && Question(s[i]) == q;
      if i < |rows| {
        assert rows[i] == s[i];
      }
    }
    forall q | q in QualifyingQuestions(rows)
      ensures q in QualifyingQuestions(s)
    {
      var i :| 0 <= i < |rows| && Qualifies(rows[i]) && Question(rows[i]) == q;
      assert s[i] == rows[i];
    }
    if Qualifies(row) {
      assert s[|rows|] == row;
    }
  }

  /** The position of the first qualifying row that asks `q`. */
  ghost function FirstRow(rows: seq<Row>, q: string): (i: nat)
    requires q in QualifyingQuestions(rows)
    ensures i < |rows| && Qualifies(rows[i]) && Question(rows[i]) == q
    ensures forall j :: 0 <= j < i && Qualifies(rows[j]) ==> Question(rows[j]) != q
    decreases |rows|
  {
    var n := |rows| - 1;
    assert rows == rows[..n] + [rows[n]];
    QualifyingQuestionsSnoc(rows[..n], rows[n]);
    if q in QualifyingQuestions(rows[..n]) then FirstRow(rows[..n], q) else n
  }

  /** Folding a concatenation is folding its two parts one after the other. */
  lemma {:induction false} PutRowsAppend(m: OrderedMap, a: seq<Row>, b: seq<Row>)
    requires m.Valid()
    ensures PutRows(m, a + b) == PutRows(PutRows(m, a), b)
    decreases |b|
  {
    if b == [] {
      assert a + b == a;
    } else {
      var n := |b| - 1;
      assert (a + b)[..|a + b| - 1] == a + b[..n];
      PutRowsAppend(m, a, b[..n]);
    }
  }

  /** A row missing the `question` or the `answer` column contributes nothing, wherever it is. */
  lemma SkippedRow(rows: seq<Row>, i: nat)
    requires i < |rows| && !Qualifies(rows[i])
    ensures Questions(rows) == Questions(rows[..i] + rows[i + 1..])
  {
    assert rows == rows[..i] + [rows[i]] + rows[i + 1..];
    PutRowsAppend(Empty(), rows[..i] + [rows[i]], rows[i + 1..]);
    PutRowsAppend(Empty(), rows[..i], [rows[i]]);
    PutRowsAppend(Empty(), rows[..i], rows[i + 1..]);
  }

  /** The keys are exactly the questions of the qualifying rows. */
  lemma {:induction false} QuestionsKeys(rows: seq<Row>)
    ensures Questions(rows).entries.Keys == QualifyingQuestions(rows)
    decreases |rows|
  {
    if rows == [] {
    } else {
      var n := |rows| - 1;
      QuestionsKeys(rows[..n]);
      assert rows == rows[..n] + [rows[n]];
      QualifyingQuestionsSnoc(rows[..n], rows[n]);
    }
  }

  /** With no qualifying row (in particular with no row at all) the map is empty. */
  lemma NoQualifyingRows(rows: seq<Row>)
    requires forall i :: 0 <= i < |rows| ==> !Qualifies(rows[i])
    ensures Questions(rows).entries == map[] && Questions(rows).order == []
  {
    QuestionsKeys(rows);
    assert QualifyingQuestions(rows) == {};
    SizeIsOrderLength(Questions(rows));
  }

  /** The answer of a question is that of the LAST qualifying row asking it. */
  lemma {:induction false} LastWins(rows: seq<Row>, i: nat)
    requires i < |rows| && Qualifies(rows[i])
    requires forall j :: i < j < |rows| && Qualifies(rows[j]) ==> Question(rows[j]) != Question(rows[i])
    ensures Question(rows[i]) in Questions(rows).entries
    ensures Questions(rows).entries[Question(rows[i])] == Answer(rows[i])
    decreases |rows|
  {
    var n := |rows| - 1;
    if i < n {
      LastWins(rows[..n], i);
    }
  }

  /** The map holds at most one entry per row. */
  lemma SizeBound(rows: seq<Row>)
    ensures |Questions(rows).entries| <= |rows|
  {
    SizeIsOrderLength(Questions(rows));
  }

  /** The iteration order lists the questions by their first qualifying row: a repeated
      question keeps the position of its first insertion. Together with QuestionsKeys and
      `Distinct`, this fixes the order completely. */
  lemma {:induction false} InsertionOrder(rows: seq<Row>)
    ensures forall p :: 0 <= p < |Questions(rows).order| ==>
              Questions(rows).order[p] in QualifyingQuestions(rows)
    ensures forall p, p' :: 0 <= p < p' < |Questions(rows).order| ==>
              FirstRow(rows, Questions(rows).order[p]) < FirstRow(rows, Questions(rows).order[p'])
    decreases |rows|
  {
    QuestionsKeys(rows);
    if rows != [] {
      var n := |rows| - 1;
      var prefix, last := rows[..n], rows[n];
      assert rows == prefix + [last];
      InsertionOrder(prefix);
      QuestionsKeys(prefix);
      QualifyingQuestionsSnoc(prefix, last);
      var before, after := Questions(prefix).order, Questions(rows).order;
      assert after[..|before|] == before;
      forall p | 0 <= p < |before|
        ensures FirstRow(rows, after[p]) == FirstRow(prefix, before[p]) < n
      {
        assert after[p] == before[p];
        FirstRowOfPrefix(prefix, last, before[p]);
      }
      if |after| > |before| {
        FirstRowOfNew(prefix, last);
        assert after == before + [Question(last)];
      }
      forall p' | 0 <= p' < |after|
        ensures after[p'] in QualifyingQuestions(rows) && FirstRow(rows, after[p']) <= n
      {
        if p' < |before| {
          assert after[p'] == before[p'];
        }
      }
      forall p, p' | 0 <= p < p' < |after|
        ensures FirstRow(rows, after[p]) < FirstRow(rows, after[p'])
      {
        assert after[p] == before[p];
        if p' < |before| {
          assert after[p'] == before[p'];
        } else {
          assert FirstRow(rows, after[p']) == n;
        }
      }
    }
  }

  /** Appending a row does not move the first row of a question already asked. */
  lemma FirstRowOfPrefix(rows: seq<Row>, row: Row, q: string)
    requires q in QualifyingQuestions(rows)
    ensures q in QualifyingQuestions(rows + [row])
    ensures FirstRow(rows + [row], q) == FirstRow(rows, q)
  {
    QualifyingQuestionsSnoc(rows, row);
    assert (rows + [row])[..|rows|] == rows;
  }

  /** A row asking a question no earlier row asked is that question's first row. */
  lemma FirstRowOfNew(rows: seq<Row>, row: Row)
    requires Qualifies(row) && Question(row) !in QualifyingQuestions(rows)
    ensures Question(row) in QualifyingQuestions(rows + [row])
    ensures FirstRow(rows + [row], Question(row)) == |rows|
  {
    QualifyingQuestionsSnoc(rows, row);
    assert (rows + [row])[..|rows|] == rows;
  }

  /** Two rows asking "Q1", then a row without an answer: the map is {"Q1": "A2"}. The first
      row's columns are reported in upper case, and they are found all the same. */
  lemma RepeatedQuestionExample()
    ensures Questions([[Column("QUESTION", "Q1"), Column("ANSWER", "A1")],
                       [Column("question", "Q1"), Column("answer", "A2")],
                       [Column("Question", "Q2")]])
         == OrderedMap(["Q1"], map["Q1" := "A2"])
  {
    var r1, r2, r3 := [Column("QUESTION", "Q1"), Column("ANSWER", "A1")],
                      [Column("question", "Q1"), Column("answer", "A2")],
                      [Column("Question", "Q2")];
    assert [r1, r2, r3][..2] == [r1, r2] && [r1, r2][..1] == [r1] && [r1][..0] == [];
    assert Questions([r1]) == OrderedMap(["Q1"], map["Q1" := "A1"]);
    assert Questions([r1, r2]) == OrderedMap(["Q1"], map["Q1" := "A2"]);
  }
}
