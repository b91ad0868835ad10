// The extraction pass of load_data.py: for every file, in the given order,
// and every event in it, in order, append the flat record of each shot event
// to the list `shots`; any unreadable event aborts the whole run.

module Extractor {
  import opened Records

  /** The accumulated records, or the fault that aborted the run. */
  type Extraction<C> = Result<seq<Shot<C>>, Fault>

  /** One pass of the event loop over the accumulator. */
  function Step<C>(acc: Extraction<C>, e: Event<C>): Extraction<C> {
    match acc
    case Failure(_) => acc
    case Success(shots) =>
      match ExtractEvent(e)
      case Failure(f) => Failure(f)
      case Success(None) => acc
      case Success(Some(s)) => Success(shots + [s])
  }

  /** Running the pass over `first`, then over `next`. */
  function Chain<C>(first: Extraction<C>, next: Extraction<C>): Extraction<C> {
    match first
    case Failure(_) => first
    case Success(a) =>
      match next
      case Failure(f) => Failure(f)
      case Success(b) => Success(a + b)
  }

  /** The event loop over one file, starting from an empty accumulator. */
  function ExtractEvents<C>(events: seq<Event<C>>): Extraction<C> {
    if |events| == 0 then Success([])
    else Step(ExtractEvents(events[..|events| - 1]), events[|events| - 1])
  }

  /** The file loop, starting from `shots = []`. */
  function ExtractFiles<C>(files: seq<seq<Event<C>>>): Extraction<C> {
    if |files| == 0 then Success([])
    else Chain(ExtractFiles(files[..|files| - 1]), ExtractEvents(files[|files| - 1]))
  }

  /** All events of all files, file by file. */
  function Flatten<C>(files: seq<seq<Event<C>>>): seq<Event<C>> {
    if |files| == 0 then [] else Flatten(files[..|files| - 1]) + files[|files| - 1]
  }

  predicate AllReadable<C>(events: seq<Event<C>>) {
    forall i :: 0 <= i < |events| ==> Readable(events[i])
  }

  predicate WellFormed<C>(files: seq<seq<Event<C>>>) {
    forall i, j :: 0 <= i < |files| && 0 <= j < |files[i]| ==> Readable(files[i][j])
  }

  /** The positions of the shot events, in increasing order: exactly the
      indices whose event has type 16. */
  function ShotIndices<C>(events: seq<Event<C>>): (r: seq<nat>)
    ensures forall k :: 0 <= k < |r| ==> r[k] < |events| && IsShot(events[r[k]])
    ensures forall k, l :: 0 <= k < l < |r| ==> r[k] < r[l]
    ensures forall i :: 0 <= i < |events| && IsShot(events[i]) ==> i in r
  {
    if |events| == 0 then []
    else
      var earlier := ShotIndices(events[..|events| - 1]);
      if IsShot(events[|events| - 1]) then earlier + [|events| - 1] else earlier
  }

  /** The number of shot events over all files. */
  function ShotCount<C>(files: seq<seq<Event<C>>>): nat {
    if |files| == 0 then 0
    else ShotCount(files[..|files| - 1]) + |ShotIndices(files[|files| - 1])|
  }

  /** The pass over one file succeeds exactly when every event is readable;
      it then yields one record per shot event, in event order, each the
      projection of its event; otherwise it fails with the fault of the
      first unreadable event. */
  lemma {:induction false} ExtractEventsSpec<C>(events: seq<Event<C>>)
    ensures ExtractEvents(events).Success? <==> AllReadable(events)
    ensures ExtractEvents(events).Success? ==>
              var shots, idx := ExtractEvents(events).value, ShotIndices(events);
              |shots| == |idx| &&
              forall k :: 0 <= k < |shots| ==> shots[k] == Project(events[idx[k]])
    ensures ExtractEvents(events).Failure? ==>
              exists i :: 0 <= i < |events| && !Readable(events[i]) &&
                (forall j :: 0 <= j < i ==> Readable(events[j])) &&
                ExtractEvents(events).error == ExtractEvent(events[i]).error
  {
    if |events| > 0 {
      var n := |events| - 1;
      var earlier, last := events[..n], events[n];
      ExtractEventsSpec(earlier);
      assert forall i :: 0 <= i < n ==> events[i] == earlier[i];
      match ExtractEvents(earlier)
      case Failure(f) =>
        var i :| 0 <= i < n && !Readable(earlier[i]) &&
                 (forall j :: 0 <= j < i ==> Readable(earlier[j])) && f == ExtractEvent(earlier[i]).error;
        assert !Readable(events[i]);
      case Success(shots) =>
        match ExtractEvent(last)
        case Failure(f) =>
          assert !Readable(events[n]);
        case Success(None) =>
        case Success(Some(s)) =>
          var idx := ShotIndices(events);
          assert idx == ShotIndices(earlier) + [n];
          assert ExtractEvents(events).value == shots + [s];
    }
  }

  /** Running the pass over `a + b` is running it over `a` and then over `b`. */
  lemma {:induction false} ExtractEventsAppend<C>(a: seq<Event<C>>, b: seq<Event<C>>)
    ensures ExtractEvents(a + b) == Chain(ExtractEvents(a), ExtractEvents(b))
    decreases |b|
  {
    if |b| == 0 {
      assert a + b == a;
      match ExtractEvents(a)
      case Failure(_) =>
      case Success(shots) => assert shots + [] == shots;
    } else {
      var n := |b| - 1;
      assert (a + b)[..|a + b| - 1] == a + b[..n];
      assert (a + b)[|a + b| - 1] == b[n];
      ExtractEventsAppend(a, b[..n]);
      match ExtractEvents(a)
      case Failure(_) =>
      case Success(x) =>
        match ExtractEvents(b[..n])
        case Failure(_) =>
        case Success(y) =>
          match ExtractEvent(b[n])
          case Failure(_) =>
          case Success(None) =>
          case Success(Some(s)) => assert x + y + [s] == x + (y + [s]);
    }
  }

  /** A readable event that is not a shot leaves the result unchanged,
      wherever it stands. */
  lemma SkipNonShot<C>(a: seq<Event<C>>, e: Event<C>, b: seq<Event<C>>)
    requires Readable(e) && !IsShot(e)
    ensures ExtractEvents(a + [e] + b) == ExtractEvents(a + b)
  {
    assert (a + [e])[..|a|] == a;
    assert ExtractEvents(a + [e]) == ExtractEvents(a);
    ExtractEventsAppend(a + [e], b);
    ExtractEventsAppend(a, b);
  }

  lemma ChainAssociative<C>(x: Extraction<C>, y: Extraction<C>, z: Extraction<C>)
    ensures Chain(Chain(x, y), z) == Chain(x, Chain(y, z))
  {
    match x
    case Failure(_) =>
    case Success(a) =>
      match y
      case Failure(_) =>
      case Success(b) =>
        match z
        case Failure(_) =>
        case Success(c) => assert a + b + c == a + (b + c);
  }

  /** Processing `fs + gs` is processing `fs` and then `gs`; no files give
      no records. */
  lemma {:induction false} ExtractFilesAppend<C>(fs: seq<seq<Event<C>>>, gs: seq<seq<Event<C>>>)
    ensures ExtractFiles<C>([]) == Success([])
    ensures ExtractFiles(fs + gs) == Chain(ExtractFiles(fs), ExtractFiles(gs))
    decreases |gs|
  {
    if |gs| == 0 {
      assert fs + gs == fs;
      match ExtractFiles(fs)
      case Failure(_) =>
      case Success(shots) => assert shots + [] == shots;
    } else {
      var n := |gs| - 1;
      assert (fs + gs)[..|fs + gs| - 1] == fs + gs[..n];
      assert (fs + gs)[|fs + gs| - 1] == gs[n];
      ExtractFilesAppend(fs, gs[..n]);
      ChainAssociative(ExtractFiles(fs), ExtractFiles(gs[..n]), ExtractEvents(gs[n]));
    }
  }

  /** Processing the files one by one is processing the single stream of
      their events, file order first and event order within a file. */
  lemma {:induction false} ExtractFilesFlat<C>(files: seq<seq<Event<C>>>)
    ensures ExtractFiles(files) == ExtractEvents(Flatten(files))
  {
    if |files| > 0 {
      var n := |files| - 1;
      ExtractFilesFlat(files[..n]);
      ExtractEventsAppend(Flatten(files[..n]), files[n]);
    }
  }

  /** The run succeeds exactly when every event of every file is readable,
      and then yields one record per shot event over all files. */
  lemma {:induction false} ExtractFilesCount<C>(files: seq<seq<Event<C>>>)
    ensures ExtractFiles(files).Success? <==> WellFormed(files)
    ensures ExtractFiles(files).Success? ==> |ExtractFiles(files).value| == ShotCount(files)
  {
    if |files| > 0 {
      var n := |files| - 1;
      ExtractFilesCount(files[..n]);
      ExtractEventsSpec(files[n]);
      assert forall i :: 0 <= i < n ==> files[..n][i] == files[i];
      if !WellFormed(files[..n]) {
        var i, j :| 0 <= i < n && 0 <= j < |files[..n][i]| && !Readable(files[..n][i][j]);
        assert !Readable(files[i][j]);
      } else if !AllReadable(files[n]) {
        var j :| 0 <= j < |files[n]| && !Readable(files[n][j]);
        assert !WellFormed(files);
      }
    }
  }

  /** Records already accumulated are never changed: the records of the
      first `i` files are a prefix of the records of all of them. */
  lemma {:induction false} AppendOnly<C>(files: seq<seq<Event<C>>>, i: nat)
    requires i <= |files| && ExtractFiles(files).Success?
    ensures ExtractFiles(files[..i]).Success?
    ensures ExtractFiles(files[..i]).value <= ExtractFiles(files).value
  {
    assert files[..i] + files[i..] == files;
    ExtractFilesAppend(files[..i], files[i..]);
  }

  /** A fault at event `j` of file `i`, reached after everything before it
      was read, aborts the whole run with that fault: no records survive. */
  lemma AbortIsFatal<C>(files: seq<seq<Event<C>>>, i: nat, j: nat, f: Fault)
    requires i < |files| && j < |files[i]|
    requires ExtractFiles(files[..i]).Success? && ExtractEvents(files[i][..j]).Success?
    requires ExtractEvent(files[i][j]) == Failure(f)
    ensures ExtractFiles(files) == Failure(f)
  {
    var events := files[i];
    assert events[..j + 1][..j] == events[..j];
    assert ExtractEvents(events[..j + 1]) == Failure(f);
    assert events[..j + 1] + events[j + 1..] == events;
    ExtractEventsAppend(events[..j + 1], events[j + 1..]);
    assert files[..i + 1][..i] == files[..i];
    assert ExtractFiles(files[..i + 1]) == Failure(f);
    assert files[..i + 1] + files[i + 1..] == files;
    ExtractFilesAppend(files[..i + 1], files[i + 1..]);
  }

  /** The nested loops of the pass, appending to `shots` in place of the
      Python list; a fault returns at once with no records. */
  method Load<C>(files: seq<seq<Event<C>>>) returns (r: Extraction<C>)
    ensures r == ExtractFiles(files)
  {
    var shots: seq<Shot<C>> := [];
    var i := 0;
    while i < |files|
      invariant 0 <= i <= |files|
      invariant ExtractFiles(files[..i]) == Success(shots)
    {
      var events := files[i];
      ghost var before := shots;
      var j := 0;
      while j < |events|
        invariant 0 <= j <= |events|
        invariant ExtractFiles(files[..i]) == Success(before)
        invariant ExtractEvents(events[..j]).Success?
        invariant shots == before + ExtractEvents(events[..j]).value
      {
        var event := events[j];
        assert events[..j + 1][..j] == events[..j];
        match event.typeId {
          case None =>
            AbortIsFatal(files, i, j, MissingField("type.id"));
            return Failure(MissingField("type.id"));
          case Some(t) =>
            if t == ShotType {
              if event.location.None? {
                AbortIsFatal(files, i, j, MissingField("location"));
                return Failure(MissingField("location"));
              }
              var location := event.location.value;
              if |location| < 1 {
                AbortIsFatal(files, i, j, IndexError(0));
                return Failure(IndexError(0));
              }
              var x := location[0];
              if |location| < 2 {
                AbortIsFatal(files, i, j, IndexError(1));
                return Failure(IndexError(1));
              }
              var y := location[1];
              if event.outcomeId.None? {
                AbortIsFatal(files, i, j, MissingField("shot.outcome.id"));
                return Failure(MissingField("shot.outcome.id"));
              }
              var goal;
              if event.outcomeId.value == GoalOutcome {
                goal := 1;
              } else {
                goal := 0;
              }
              shots := shots + [Shot(goal, x, y)];
            }
        }
        j := j + 1;
      }
      assert events[..j] == events;
      assert files[..i + 1][..i] == files[..i];
      i := i + 1;
    }
    assert files[..i] == files;
    return Success(shots);
  }
}
