# Shot extraction from match-event files

This project models `load_data.py`, a script that reads match-event files and
writes a table of shots. It goes through the files in order, and through each
file's events in order. For every event whose `type.id` is 16 (a shot), it
appends the flat record `{goal, X, Y}` to the list `shots`:

- `X` and `Y` are `location[0]` and `location[1]`.
- `goal` is 1 when `shot.outcome.id` is 97, and 0 otherwise.

All other events are skipped. If a key is missing or `location` is too short,
Python raises, the run stops and nothing is written. After all files are read,
the script writes the header `goal, X, Y` and then one row per record.

Files:

- `records.dfy` (module `Records`): the event record with absent keys as
  `None`, the shot record, the faults, and what the loop body does with one
  event (`ExtractEvent`, `Project`).
- `extractor.dfy` (module `Extractor`): the nested file and event loops.
  - The method `Load` appends to a `seq` accumulator, as the script appends
    to its list.
  - `Load` is proved equal to the specification fold `ExtractFiles`.
  - The lemmas describe `ExtractFiles` through an independent reference: the
    positions of the shot events (`ShotIndices`) together with `Project`.
- `writer.dfy` (module `Writer`): the table handed to the CSV writer, as rows
  of cells. The loop `WriteTable` is proved equal to `Table`. `ParseTable` is
  an inverse that reads the records back.
- `pipeline.dfy` (module `Pipeline`): the whole run, extraction followed by
  the table.

Coordinates have a type parameter `C`. The script only copies them, and they
may be floats. Faults are raised in the order Python evaluates the keys:

1. `type.id`
2. `location` (missing key)
3. `location[0]`
4. `location[1]`
5. `shot.outcome.id`

`IndexError(n)` records the index that was out of range.

`goal` is the integer 1 or 0, as the code stores it, not a boolean.

## Model

| member | source | states |
|---|---|---|
| Records.ExtractEvent | load_data.py:21-28 | an event is read without a fault iff its type is present and, for a shot, it has two coordinates and an outcome; it yields a record iff its `type.id` is 16; each missing key or short `location` gives the fault Python raises first |
| Records.Project | load_data.py:22-28 | a shot's record has `X = location[0]`, `Y = location[1]`, `goal` in {0, 1}, and `goal = 1` iff `shot.outcome.id == 97` |
| Extractor.ShotIndices | load_data.py:20-21 | the positions of type-16 events, strictly increasing, each one a shot, and every shot position included |
| Extractor.ExtractEventsSpec | load_data.py:20-28 | the pass over one file succeeds iff every event is readable; the k-th record is the projection of the k-th shot event, so the count and the order are those of the shot events; a failure carries the fault of the first unreadable event |
| Extractor.ExtractEventsAppend | load_data.py:20-28 | the pass over `a + b` equals the pass over `a` followed by the pass over `b` |
| Extractor.SkipNonShot | load_data.py:21 | inserting a readable event whose type is not 16 anywhere in a file leaves the result unchanged |
| Extractor.ExtractFilesAppend | load_data.py:15-17 | no files give no records; processing `fs + gs` is processing `fs` and then `gs` |
| Extractor.ExtractFilesFlat | load_data.py:17-20 | processing the files one by one equals processing all their events as one stream, in file order and then event order |
| Extractor.ExtractFilesCount | load_data.py:17-28 | the run succeeds iff every event of every file is readable, and then the number of records equals the total number of type-16 events |
| Extractor.AppendOnly | load_data.py:17-28 | the records of the first `i` files are a prefix of the final records, so earlier records are never changed |
| Extractor.AbortIsFatal | load_data.py:17-24 | a fault at any event aborts the whole run with that fault, and no records are kept |
| Extractor.Load | load_data.py:15-28 | the nested loops over a `seq` accumulator return exactly `ExtractFiles(files)` |
| Writer.WriteTable | load_data.py:34-38 | the header row followed by one row per record, in order, returns exactly `Table(shots)` |
| Writer.TableRoundTrip | load_data.py:34-38 | the table has one row more than there are records, row 0 is the header `goal, X, Y`, and reading the data rows back (fields in the order goal, X, Y) gives the records unchanged and in order |
| Pipeline.Run | load_data.py:15-38 | the whole run returns `Output(files)`: the table of the extracted records, or the first fault |
| Pipeline.OutputSpec | load_data.py:15-38 | a table is produced iff every event is readable; it has the header plus one row per shot event over all files, and its rows read back as the extracted records; no files give the header alone |

## Left out

- Listing the directory (load_data.py:11-12): filesystem I/O with an order
  the platform decides. The files come in as a sequence, in the order the
  listing would give.
- Opening files and `json.load` (load_data.py:18-19): I/O and a library
  parser. Events come in already parsed. A file that fails to parse is not
  modelled.
- JSON value types: `type.id` and `shot.outcome.id` are integers in the model.
  Python's `==` on other JSON values, such as `16.0` or the string `"16"`, is
  not modelled. Neither is a `location` that is not a list.
- `csv.DictWriter` and writing `data.csv` (load_data.py:33-38): the model keeps
  the rows as cells. It does not render numbers as text, quote fields or end
  lines.
- The `print` progress messages (load_data.py:30-31, 40): console output with
  no logic.
