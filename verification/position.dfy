/** The position store: file name to byte offset, loaded from a JSON file at
    start-up and re-saved on a timer. Locking is abstracted away: every
    operation is a pure function of the map it acts on. */
module Position {
  import opened Common
  import Json

  type Positions = map<string, int64>

  const SecondNs: int := 1_000_000_000
  /** The fixed re-arm delay after every save, five seconds. */
  const ResaveDelayNs: nat := 5 * SecondNs

  /** The stored offset of `f`; Go's map lookup yields zero for a name
      never stored. */
  function GetPosition(p: Positions, f: string): int64 {
    GetOr(p, f, 0)
  }

  /** Stores `pos` for `f`, replacing any earlier value. */
  function UpdatePosition(p: Positions, f: string, pos: int64): (r: Positions)
    ensures GetPosition(r, f) == pos
    ensures forall g :: g != f ==> GetPosition(r, g) == GetPosition(p, g)
    ensures r.Keys == p.Keys + {f}
  {
    p[f := pos]
  }

  /** Deletes the entry of `f`, if any. */
  function RemovePosition(p: Positions, f: string): (r: Positions)
    ensures f !in r && GetPosition(r, f) == 0
    ensures forall g :: g != f ==> GetPosition(r, g) == GetPosition(p, g)
    ensures r.Keys == p.Keys - {f}
    ensures f !in p ==> r == p
  {
    p - {f}
  }

  lemma GetAbsent(p: Positions, f: string)
    requires f !in p
    ensures GetPosition(p, f) == 0
  {
  }

  /** A later update wins over an earlier one for the same name. */
  lemma UpdateOverwrites(p: Positions, f: string, a: int64, b: int64)
    ensures UpdatePosition(UpdatePosition(p, f, a), f, b) == UpdatePosition(p, f, b)
  {
  }

  /** Removing after an update forgets the update entirely. */
  lemma RemoveUndoesUpdate(p: Positions, f: string, a: int64)
    ensures RemovePosition(UpdatePosition(p, f, a), f) == RemovePosition(p, f)
  {
  }

  /** Updates of different names commute. */
  lemma UpdatesCommute(p: Positions, f: string, g: string, a: int64, b: int64)
    requires f != g
    ensures UpdatePosition(UpdatePosition(p, f, a), g, b) == UpdatePosition(UpdatePosition(p, g, b), f, a)
  {
  }

  // ---------------------------------------------------------------------
  // Persistence

  /** What reading the store file yielded. */
  datatype StoreRead = NotExist | ReadFailed(reason: string) | Contents(text: string)

  datatype ManagerError = ReadError(reason: string) | ParseError(cause: Json.DecodeError)

  /** A running store: its map and the delay before its first save. */
  datatype Manager = Manager(positions: Positions, firstDelayNs: nat)

  /** Reads the store file into a fresh, empty map. A missing file is not an
      error; an unreadable or malformed one is. */
  function Load(read: StoreRead): (r: Result<Positions, ManagerError>)
    ensures read.NotExist? ==> r == Ok(map[])
    ensures read.ReadFailed? ==> r == Err(ReadError(read.reason))
    ensures read.Contents? ==>
              match Json.Decode(read.text)
              case Ok(m) => r == Ok(m)
              case Err(e) => r == Err(ParseError(e))
  {
    match read
    case NotExist => Ok(map[])
    case ReadFailed(reason) => Err(ReadError(reason))
    case Contents(text) =>
      match Json.Decode(text)
      case Ok(m) => Ok(m)
      case Err(e) => Err(ParseError(e))
  }

  /** The timer delay for the first save: `updateInterval` seconds as a Go
      `time.Duration`, a 64-bit nanosecond count that wraps on overflow; a
      timer with a non-positive delay fires at once. */
  function FirstDelayNs(updateInterval: int64): (d: nat)
    ensures 0 <= updateInterval <= MaxInt64 / SecondNs ==> d == updateInterval * SecondNs
    ensures -(MaxInt64 / SecondNs) <= updateInterval <= 0 ==> d == 0
  {
    var dur := Wrap64(updateInterval * SecondNs);
    if dur < 0 then 0 else dur
  }

  /** Builds a store from the file: on any load error there is no store. */
  function NewManager(read: StoreRead, updateInterval: int64): (r: Result<Manager, ManagerError>)
    ensures r.Ok? <==> Load(read).Ok?
    ensures r.Ok? ==> r.value.positions == Load(read).value
    ensures r.Ok? ==> r.value.firstDelayNs == FirstDelayNs(updateInterval)
    ensures r.Err? ==> r.error == Load(read).error
    ensures read.NotExist? ==> r.Ok? && r.value.positions == map[]
  {
    match Load(read)
    case Err(e) => Err(e)
    case Ok(p) => Ok(Manager(p, FirstDelayNs(updateInterval)))
  }

  /** The text one save writes: the whole map, marshalled in one piece. */
  function Save(p: Positions): (text: string)
    ensures Load(Contents(text)) == Ok(p)
  {
    Json.EncodeDecodeRoundTrip(p);
    Json.Encode(p)
  }

  /** A store started from a file that a save wrote holds exactly the map
      that was saved. */
  lemma RestartRestores(p: Positions, updateInterval: int64)
    ensures NewManager(Contents(Save(p)), updateInterval).Ok?
    ensures NewManager(Contents(Save(p)), updateInterval).value.positions == p
  {
  }

  /** How the write of a save ended. `os.WriteFile` truncates the file
      before writing, so a failure during the write leaves a prefix. */
  datatype WriteOutcome = Written | OpenFailed | FailedAfter(bytesWritten: nat)

  /** The store file after one save attempt. A failed write is only logged:
      the map in memory is untouched either way. */
  function SaveToDisk(p: Positions, disk: StoreRead, w: WriteOutcome): (after: StoreRead)
    ensures w.Written? ==> after == Contents(Save(p))
    ensures w.OpenFailed? ==> after == disk
    ensures w.FailedAfter? ==> after.Contents? && |after.text| <= |Save(p)|
                               && after.text == Save(p)[..|after.text|]
  {
    match w
    case Written => Contents(Save(p))
    case OpenFailed => disk
    case FailedAfter(n) =>
      var text := Save(p);
      Contents(text[..if n < |text| then n else |text|])
  }

  // ---------------------------------------------------------------------
  // Save schedule

  /** The start times of successive saves, measured from store creation,
      when save `i` takes `durations[i]` nanoseconds: the timer is re-armed
      for five seconds only after each save has finished. */
  function SaveStarts(first: nat, durations: seq<nat>): (r: seq<nat>)
    ensures |r| == |durations| + 1
    ensures r[0] == first
    ensures forall i :: 0 <= i < |durations| ==> r[i + 1] == r[i] + durations[i] + ResaveDelayNs
  {
    if |durations| == 0 then [first]
    else
      var prev := SaveStarts(first, durations[..|durations| - 1]);
      prev + [prev[|prev| - 1] + durations[|durations| - 1] + ResaveDelayNs]
  }

  function Sum(s: seq<nat>): nat {
    if |s| == 0 then 0 else Sum(s[..|s| - 1]) + s[|s| - 1]
  }

  /** Save `i` starts after the first delay, `i` re-arm delays and the time
      spent in the `i` saves before it; the configured interval only
      affects the first save. */
  lemma {:induction false} SaveStartsClosedForm(first: nat, durations: seq<nat>, i: nat)
    requires i <= |durations|
    ensures SaveStarts(first, durations)[i] == first + i * ResaveDelayNs + Sum(durations[..i])
  {
    if i > 0 {
      SaveStartsClosedForm(first, durations, i - 1);
      assert durations[..i][..i - 1] == durations[..i - 1];
    }
  }
}
