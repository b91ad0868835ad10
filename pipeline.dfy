// The whole run of load_data.py on a list of already parsed files: extract
// the records, then build the table; a fault anywhere means no table at all.

module Pipeline {
  import opened Records
  import opened Extractor
  import opened Writer

  /** The table the run writes, or the fault that stopped it first. */
  function Output<C>(files: seq<seq<Event<C>>>): Result<seq<Row<C>>, Fault> {
    match ExtractFiles(files)
    case Failure(f) => Failure(f)
    case Success(shots) => Success(Table(shots))
  }

  method Run<C>(files: seq<seq<Event<C>>>) returns (out: Result<seq<Row<C>>, Fault>)
    ensures out == Output(files)
  {
    var extracted := Load(files);
    match extracted {
      case Failure(f) =>
        out := Failure(f);
      case Success(shots) =>
        var table := WriteTable(shots);
        out := Success(table);
    }
  }

  /** A table is written exactly when every event is readable; it has the
      header and one row per shot event over all files, and its rows read
      back as the records of the pass. No files give the header alone. */
  lemma OutputSpec<C>(files: seq<seq<Event<C>>>)
    ensures Output(files).Success? <==> WellFormed(files)
    ensures Output(files).Success? ==>
              var rows := Output(files).value;
              |rows| == ShotCount(files) + 1 && rows[0] == Header() &&
              ParseTable(rows) == Some(ExtractFiles(files).value)
    ensures files == [] ==> Output(files) == Success([Header()])
  {
    ExtractFilesCount(files);
    assert Table<C>([]) == [Header()];
    if ExtractFiles(files).Success? {
      TableRoundTrip(ExtractFiles(files).value);
    }
  }
}
