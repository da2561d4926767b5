/**
 * write_to_csv without the file and the csv module's quoting: the header,
 * then one row per record, each row holding the record's fields in the
 * header's column order.
 */
module CsvOutput {
  import opened Wrappers
  import opened VacancyRecord

  /** One field as handed to csv.writer, before its text rendering. */
  datatype Cell = Text(text: string) | Amount(amount: Option<nat>) | Flag(flag: bool) | Words(words: seq<string>)

  const Header: seq<string> :=
    ["url", "experience", "salary_max", "salary_min", "is_remote", "is_part_time", "technologies", "tags"]

  /** The header as the first row of cells. */
  const HeaderRow: seq<Cell> := seq(|Header|, k requires 0 <= k < |Header| => Text(Header[k]))

  /** The row written for one record. */
  function Row(v: Vacancy): seq<Cell> {
    [Text(v.url), Text(v.experience), Amount(v.salaryMax), Amount(v.salaryMin),
     Flag(v.isRemote), Flag(v.isPartTime), Words(v.technologies), Words(v.tags)]
  }

  /** The record's attribute of the given name, as a cell; None for a name the record lacks. */
  function Attribute(v: Vacancy, name: string): Option<Cell> {
    if name == "url" then Some(Text(v.url))
    else if name == "is_remote" then Some(Flag(v.isRemote))
    else if name == "is_part_time" then Some(Flag(v.isPartTime))
    else if name == "experience" then Some(Text(v.experience))
    else if name == "salary_min" then Some(Amount(v.salaryMin))
    else if name == "salary_max" then Some(Amount(v.salaryMax))
    else if name == "technologies" then Some(Words(v.technologies))
    else if name == "tags" then Some(Words(v.tags))
    else None
  }

  /** Each cell of a row holds the attribute its header column names (salary_max before salary_min). */
  lemma RowFollowsHeader(v: Vacancy)
    ensures |Row(v)| == |Header| == |HeaderRow|
    ensures forall k | 0 <= k < |Header| :: HeaderRow[k] == Text(Header[k]) && Attribute(v, Header[k]) == Some(Row(v)[k])
  {
    assert Header[3] == "salary_min";
    assert "salary_max" != "salary_min" by {
      assert "salary_max"[8] != "salary_min"[8];
    }
    assert "is_remote" != "is_part_time";
    assert "technologies" != "tags";
  }

  /** Reading a record back from its row. */
  function FromRow(row: seq<Cell>): Option<Vacancy> {
    if |row| == 8 && row[0].Text? && row[1].Text? && row[2].Amount? && row[3].Amount? &&
       row[4].Flag? && row[5].Flag? && row[6].Words? && row[7].Words?
    then Some(Vacancy(row[0].text, row[4].flag, row[5].flag, row[1].text, row[3].amount, row[2].amount,
                      row[6].words, row[7].words))
    else None
  }

  /** No field is lost or swapped: the row reads back as the record. */
  lemma RowRoundTrip(v: Vacancy)
    ensures FromRow(Row(v)) == Some(v)
  {
  }

  /** The rows written, header first, one per record in input order. */
  method WriteToCsv(vacancies: seq<Vacancy>) returns (rows: seq<seq<Cell>>)
    ensures |rows| == |vacancies| + 1
    ensures rows[0] == HeaderRow
    ensures forall i | 0 <= i < |vacancies| :: rows[i + 1] == Row(vacancies[i])
  {
    rows := [HeaderRow];
    for i := 0 to |vacancies|
      invariant |rows| == i + 1
      invariant rows[0] == HeaderRow
      invariant forall j | 0 <= j < i :: rows[j + 1] == Row(vacancies[j])
    {
      rows := rows + [Row(vacancies[i])];
    }
  }
}
