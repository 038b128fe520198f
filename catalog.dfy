/**
 * The catalog loader: validation and normalisation of the question rows of the
 * catalog CSV (read_csv without the file handling). A row is the list of string
 * fields the CSV reader yields: question, title, difficulty, score, url, and
 * possibly further columns.
 */
module Catalog {
  import opened Wrappers
  import opened Strings
  import opened Errors

  type Row = seq<string>

  /** A stored catalog entry: the first four fields exactly as read (not stripped) and
      the stripped URL, or None when the row has no fifth field. */
  datatype Question = Question(text: string, title: string, difficulty: string, score: string,
                               url: Option<string>)

  /** Index of the URL column, the only field allowed to be blank. */
  const UrlColumn: nat := 4

  const Levels: seq<string> := ["Hard", "Medium", "Easy"]

  /** Every field except the URL column, extra columns included, has a non-empty strip
      (Strip(s) == [] exactly when IsBlank(s)). */
  predicate FieldsFilled(row: Row) {
    forall i :: 0 <= i < |row| && i != UrlColumn ==> !IsBlank(row[i])
  }

  /** What an accepted row satisfies: the catalog invariant of a question. */
  predicate Acceptable(row: Row) {
    FieldsFilled(row) && |row| >= 4 && Strip(row[2]) in Levels
    && ParseInt(row[3]).Some? && 0 <= ParseInt(row[3]).value <= 100
  }

  /** The entry stored for a row. */
  function Normalized(row: Row): Question
    requires |row| >= 4
  {
    Question(row[0], row[1], row[2], row[3],
             if UrlColumn < |row| then Some(Strip(row[UrlColumn])) else None)
  }

  /** Validation of one row found on physical line `line`. The checks run in a fixed
      order: blank fields, then the difficulty, then the score format, then its range.
      A row too short to index reaches the generic handler (code 520). */
  function ValidateRow(row: Row, line: nat): (r: Result<Question, Error>)
    ensures r.Ok? <==> Acceptable(row)
    ensures r.Ok? ==> r.value == Normalized(row)
  {
    if !FieldsFilled(row) then Err(EmptyField)
    else if |row| < 3 then Err(Unexpected(IndexOutOfRange))
    else if Strip(row[2]) !in Levels then Err(InvalidDifficulty(line, Strip(row[2])))
    else if |row| < 4 then Err(Unexpected(IndexOutOfRange))
    else match ParseInt(row[3])
      case None => Err(InvalidScoreFormat(line, row[3]))
      case Some(score) =>
        if !(0 <= score <= 100) then Err(InvalidScoreRange(line, score))
        else Ok(Normalized(row))
  }

  /** The checks run in the order blank field, difficulty, score format, score range:
      each error is reported exactly when the earlier checks passed and its own failed. */
  lemma ValidateRowOrder(row: Row, line: nat)
    ensures var r := ValidateRow(row, line);
      && (r.Err? && r.error.EmptyField? <==> !FieldsFilled(row))
      && (r.Err? && r.error.InvalidDifficulty? <==>
            FieldsFilled(row) && |row| >= 3 && Strip(row[2]) !in Levels)
      && (r.Err? && r.error.InvalidScoreFormat? <==>
            FieldsFilled(row) && |row| >= 4 && Strip(row[2]) in Levels && ParseInt(row[3]).None?)
      && (r.Err? && r.error.InvalidScoreRange? <==>
            FieldsFilled(row) && |row| >= 4 && Strip(row[2]) in Levels && ParseInt(row[3]).Some?
            && !(0 <= ParseInt(row[3]).value <= 100))
      && (r.Err? && r.error.Unexpected? <==>
            FieldsFilled(row) && (|row| < 3 || (|row| == 3 && Strip(row[2]) in Levels)))
      && (r.Err? ==> r.error.Code() == 400 || r.error.Unexpected?)
  {
  }

  /** The row a stored entry is written back as. */
  function AsRow(q: Question): Row {
    [q.text, q.title, q.difficulty, q.score] + (if q.url.Some? then [q.url.value] else [])
  }

  /** Validation is idempotent: an accepted row, written back and validated again,
      gives the same entry. */
  lemma RevalidateRow(row: Row, line: nat, line': nat)
    requires ValidateRow(row, line).Ok?
    ensures ValidateRow(AsRow(ValidateRow(row, line).value), line') == ValidateRow(row, line)
  {
    var q := Normalized(row);
    var back := AsRow(q);
    assert |back| >= 4 && back[..4] == row[..4];
    assert back[2] == row[2] && back[3] == row[3];
    if q.url.Some? {
      StripIdempotent(row[UrlColumn]);
    }
    assert FieldsFilled(back) by {
      forall i | 0 <= i < |back| && i != UrlColumn ensures !IsBlank(back[i]) {
        assert back[i] == row[i];
      }
    }
    assert Acceptable(back);
    assert Normalized(back) == q;
  }

  /** read_csv over the rows of the file: the first row is a header and is skipped
      (a file without one makes the reader raise, code 520); each further row is
      validated in turn and the first bad row aborts the whole load. */
  method ReadCsv(rows: seq<Row>) returns (r: Result<seq<Question>, Error>)
    ensures rows == [] ==> r.Err? && r.error.Unexpected?
    ensures r.Ok? <==> rows != [] && forall k :: 1 <= k < |rows| ==> ValidateRow(rows[k], k + 1).Ok?
    ensures r.Ok? ==> |r.value| == |rows| - 1
                      && forall k :: 0 <= k < |r.value| ==> r.value[k] == Normalized(rows[k + 1])
    ensures r.Err? && rows != [] ==>
              exists k :: 1 <= k < |rows| && ValidateRow(rows[k], k + 1) == Err(r.error)
                          && forall j :: 1 <= j < k ==> ValidateRow(rows[j], j + 1).Ok?
  {
    if rows == [] {
      return Err(Unexpected(StopIteration));
    }
    var questions: seq<Question> := [];
    var k := 1;
    while k < |rows|
      invariant 1 <= k <= |rows|
      invariant |questions| == k - 1
      invariant forall j :: 1 <= j < k ==> ValidateRow(rows[j], j + 1).Ok?
      invariant forall j :: 0 <= j < |questions| ==> questions[j] == Normalized(rows[j + 1])
    {
      var v := ValidateRow(rows[k], k + 1);
      if v.Err? {
        return Err(v.error);
      }
      questions := questions + [v.value];
      k := k + 1;
    }
    r := Ok(questions);
  }
}
