// The data that the extraction pass of load_data.py reads and writes: one
// parsed event record, the flat shot record made from it, and the ways in
// which reading a shot event can fail.

module Records {

  datatype Option<+T> = None | Some(value: T)

  datatype Result<+T, +E> = Success(value: T) | Failure(error: E)

  /** `type.id` of a shot event. */
  const ShotType: int := 16

  /** `shot.outcome.id` of a shot that ended in a goal. */
  const GoalOutcome: int := 97

  /** Why reading an event aborts the whole run: a key that is absent
      (`path` names it) or a `location` list too short for the index read. */
  datatype Fault = MissingField(path: string) | IndexError(index: nat)

  /** One event of a match file, with only the keys the pass reads.
      `None` stands for a key that is absent anywhere along its path;
      `C` is the type of a coordinate, which is only ever copied. */
  datatype Event<C> = Event(typeId: Option<int>, location: Option<seq<C>>, outcomeId: Option<int>)

  /** The flat record `{goal, X, Y}`. */
  datatype Shot<C> = Shot(goal: int, x: C, y: C)

  predicate IsShot<C>(e: Event<C>) {
    e.typeId == Some(ShotType)
  }

  /** The pass reads this event without raising: its type is present and,
      if it is a shot, so are two coordinates and the outcome. */
  predicate Readable<C>(e: Event<C>) {
    e.typeId.Some? &&
    (IsShot(e) ==> e.location.Some? && |e.location.value| >= 2 && e.outcomeId.Some?)
  }

  /** What the body of the event loop does with one event: `Success(None)`
      skips it, `Success(Some(s))` appends `s`, `Failure(f)` aborts. Keys
      are read in the order the source reads them, so the fault is the
      first one Python would raise. */
  function ExtractEvent<C>(e: Event<C>): (r: Result<Option<Shot<C>>, Fault>)
    ensures r.Success? <==> Readable(e)
    ensures r.Success? ==> (r.value.Some? <==> IsShot(e))
    ensures e.typeId.None? ==> r == Failure(MissingField("type.id"))
    ensures IsShot(e) && e.location.None? ==> r == Failure(MissingField("location"))
    ensures IsShot(e) && e.location.Some? && |e.location.value| < 2 ==>
              r == Failure(IndexError(|e.location.value|))
    ensures IsShot(e) && e.location.Some? && |e.location.value| >= 2 && e.outcomeId.None? ==>
              r == Failure(MissingField("shot.outcome.id"))
  {
    match e.typeId
    case None => Failure(MissingField("type.id"))
    case Some(t) =>
      if t != ShotType then Success(None)
      else
        match e.location
        case None => Failure(MissingField("location"))
        case Some(location) =>
          if |location| < 1 then Failure(IndexError(0))
          else if |location| < 2 then Failure(IndexError(1))
          else
            match e.outcomeId
            case None => Failure(MissingField("shot.outcome.id"))
            case Some(outcome) =>
              Success(Some(Shot(if outcome == GoalOutcome then 1 else 0, location[0], location[1])))
  }

  /** The record a readable shot event turns into. */
  function Project<C>(e: Event<C>): (s: Shot<C>)
    requires Readable(e) && IsShot(e)
    ensures s.x == e.location.value[0] && s.y == e.location.value[1]
    ensures s.goal == 0 || s.goal == 1
    ensures s.goal == 1 <==> e.outcomeId.value == GoalOutcome
  {
    ExtractEvent(e).value.value
  }
}
