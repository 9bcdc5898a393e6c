/**
 * The JSON file of tasks, as `save_tasks` writes it and `load_tasks` reads
 * it. The text layer (`json.dump`, `json.load`, `isoformat`,
 * `fromisoformat`) is not modelled: a file is its parsed JSON value, and a
 * deadline stored in it is the moment its ISO text stands for.
 */
module Persistence {
  import opened Options
  import opened Clock
  import opened Tasks

  /**
   * One element of the JSON array. An object's fields are `None` when the
   * key is missing; the `deadline` field holds `Some(None)` for `null`.
   * Any element that is not an object (a number, a string, a list, ...) is
   * `NonObject`.
   */
  datatype Entry =
    | Object(
        description: Option<string>,
        deadline: Option<Option<Time>>,
        completed: Option<bool>,
        notified: Option<bool>)
    | NonObject

  /** What opening and parsing the tasks file gives. */
  datatype File =
    | Missing                      // `FileNotFoundError`
    | Corrupt                      // `json.JSONDecodeError`
    | Array(entries: seq<Entry>)   // a JSON array

  /** `asdict(task)` with the deadline converted to its ISO text, or `null` when there is none. */
  function Record(v: TaskValue): (e: Entry)
    ensures e.Object? && Decode(e) == v
  {
    Object(Some(v.description), Some(v.deadline), Some(v.completed), Some(v.notified))
  }

  /** The array `save_tasks` writes: one record per task, in list order. */
  function Encode(vs: seq<TaskValue>): (es: seq<Entry>)
    ensures |es| == |vs|
    ensures forall i :: 0 <= i < |vs| ==> es[i] == Record(vs[i])
    ensures AllObjects(es) && forall i :: 0 <= i < |vs| ==> Decode(es[i]) == vs[i]
  {
    seq(|vs|, i requires 0 <= i < |vs| => Record(vs[i]))
  }

  /**
   * The task `load_tasks` builds from one object, missing fields taking
   * `''`, `None`, `False`, `False`. An object with every key present is
   * exactly the record of the task built from it.
   */
  function Decode(e: Entry): (v: TaskValue)
    requires e.Object?
    ensures v.description == (if e.description.Some? then e.description.value else "")
    ensures v.deadline.Some? <==> e.deadline.Some? && e.deadline.value.Some?
    ensures v.deadline.Some? ==> v.deadline.value == e.deadline.value.value
    ensures v.completed == (e.completed == Some(true))
    ensures v.notified == (e.notified == Some(true))
    ensures e.description.Some? && e.deadline.Some? && e.completed.Some? && e.notified.Some? ==>
      e == Object(Some(v.description), Some(v.deadline), Some(v.completed), Some(v.notified))
  {
    TaskValue(
      match e.description case Some(d) => d case None => "",
      match e.deadline case Some(Some(t)) => Some(t) case _ => None,
      match e.completed case Some(c) => c case None => false,
      match e.notified case Some(n) => n case None => false)
  }

  predicate AllObjects(es: seq<Entry>)
  {
    forall i :: 0 <= i < |es| ==> es[i].Object?
  }

  /**
   * The tasks the loading loop has appended when it stops: one per object up
   * to the first element that is not an object, where `.get` raises.
   */
  function DecodePrefix(es: seq<Entry>): (vs: seq<TaskValue>)
    ensures |vs| <= |es|
  {
    if es == [] || es[0].NonObject? then []
    else [Decode(es[0])] + DecodePrefix(es[1..])
  }

  /** `self.tasks` after `load_tasks`: nothing for a missing or corrupt file. */
  function Loaded(f: File): seq<TaskValue>
  {
    match f
    case Missing => []
    case Corrupt => []
    case Array(es) => DecodePrefix(es)
  }

  /** `load_tasks` lets an exception escape: an array element is not an object. */
  predicate LoadRaises(f: File)
  {
    f.Array? && !AllObjects(f.entries)
  }

  /** Loading all-object entries decodes each of them, in order. */
  lemma {:induction false} DecodePrefixAllObjects(es: seq<Entry>)
    requires AllObjects(es)
    ensures |DecodePrefix(es)| == |es|
    ensures forall i :: 0 <= i < |es| ==> DecodePrefix(es)[i] == Decode(es[i])
  {
    if es != [] {
      DecodePrefixAllObjects(es[1..]);
    }
  }

  /** Loading stops at the first element that is not an object and keeps what it had. */
  lemma {:induction false} DecodePrefixAppend(a: seq<Entry>, b: seq<Entry>)
    requires AllObjects(a)
    ensures DecodePrefix(a + b) == DecodePrefix(a) + DecodePrefix(b)
  {
    if a != [] {
      assert (a + b)[1..] == a[1..] + b;
      DecodePrefixAppend(a[1..], b);
    } else {
      assert a + b == b;
    }
  }

  /**
   * Where the loading loop stops: when the first `i` elements are objects
   * and the next one, if any, is not, the loop has appended exactly their
   * `i` decoded tasks.
   */
  lemma {:induction false} LoadedPrefix(es: seq<Entry>, i: nat)
    requires i <= |es|
    requires forall j :: 0 <= j < i ==> es[j].Object?
    requires i < |es| ==> es[i].NonObject?
    ensures |DecodePrefix(es)| == i
    ensures forall j :: 0 <= j < i ==> DecodePrefix(es)[j] == Decode(es[j])
  {
    if i > 0 {
      LoadedPrefix(es[1..], i - 1);
    }
  }

  /**
   * Saving then loading gives back the same list: every field of every task,
   * a task without a deadline included, and nothing raises.
   */
  lemma {:induction false} SaveLoadRoundTrip(vs: seq<TaskValue>)
    ensures !LoadRaises(Array(Encode(vs)))
    ensures Loaded(Array(Encode(vs))) == vs
  {
    var es := Encode(vs);
    DecodePrefixAllObjects(es);
  }
}
