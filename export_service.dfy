/** The CSV export of the currently shown employees: an emptiness guard,
    the flat projection, and the write, whose failure is re-raised. */
module EmployeeExportService {
  import opened Wrappers
  import opened Models
  import PandasService

  /** ValueError("No employees to export.") or IOError("Error writing CSV: ..."). */
  datatype ExportError = NoEmployees | WriteFailed(message: string)

  const NoEmployeesMessage := "No employees to export."
  const WriteFailurePrefix := "Error writing CSV: "

  /** `export_to_csv`; `writeFailure` is the text of the exception `to_csv`
      raises, if it raises. On success the result is the table written:
      the projection of exactly the given employees, in their order. */
  function ExportToCsv(employees: seq<Employee>, positions: seq<Position>,
                       municipalities: seq<Municipality>, today: Date,
                       toTimestamp: Date -> Option<Date>, writeFailure: Option<string>)
    : (r: Result<seq<PandasService.FlatRecord>, ExportError>)
    // the emptiness guard comes before the projection and the write
    ensures r == Err(NoEmployees) <==> |employees| == 0
    ensures (r.Err? && r.error.WriteFailed?) <==> |employees| > 0 && writeFailure.Some?
    ensures r.Err? && r.error.WriteFailed? ==>
              r.error.message == WriteFailurePrefix + writeFailure.value
    ensures r.Ok? ==>
              && |r.value| == |employees|
              && forall i :: 0 <= i < |employees| ==>
                   r.value[i] == PandasService.Record(positions, municipalities, today, toTimestamp, employees[i])
  {
    if |employees| == 0 then Err(NoEmployees)
    else
      var frame := PandasService.Frame(employees, positions, municipalities, today, toTimestamp);
      match writeFailure
      case Some(exc) => Err(WriteFailed(WriteFailurePrefix + exc))
      case None => Ok(frame.value)
  }

  /** A successful export writes exactly the DataFrame the pandas service
      builds, with no further filtering. */
  lemma ExportWritesTheFrame(employees: seq<Employee>, positions: seq<Position>,
                             municipalities: seq<Municipality>, today: Date,
                             toTimestamp: Date -> Option<Date>)
    requires |employees| > 0
    ensures ExportToCsv(employees, positions, municipalities, today, toTimestamp, None).Ok?
    ensures ExportToCsv(employees, positions, municipalities, today, toTimestamp, None).value
            == PandasService.Frame(employees, positions, municipalities, today, toTimestamp).value
  {
    var r := ExportToCsv(employees, positions, municipalities, today, toTimestamp, None);
    var f := PandasService.Frame(employees, positions, municipalities, today, toTimestamp);
    assert r.value == f.value;
  }
}
