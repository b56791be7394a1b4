/**
 * The message store: one JSON file mapping timestamp keys to message
 * records. The file itself is abstracted to what the store can observe of
 * it, and every failing file operation (the `except` branches, which only
 * log) leaves it as it was. Whether the file system lets the store open the
 * file for writing is a parameter, `writable`, of the operations that write.
 */
module Storage {
  import opened FormBody

  /** Timestamp key to message record: the top-level JSON object. */
  type Messages = map<string, Record>

  /** What is at the store's path. */
  datatype FileState =
    | Missing                        // no file at the path
    | Unreadable                     // a file that cannot be opened or loaded as a JSON object
    | Valid(messages: Messages)      // a file holding this JSON object

  /** The state after `init`: a missing file is created empty, anything else is left alone. */
  function Initialized(f: FileState, writable: bool): FileState
  {
    if f.Missing? && writable then Valid(map[]) else f
  }

  /** What `read_messages` returns: the stored object, or `{}` when loading fails. */
  function Contents(f: FileState): Messages
  {
    if f.Valid? then f.messages else map[]
  }

  /**
   * The state after `write_message(msg)` at time `ts`: the whole object is
   * loaded (an absent file counts as `{}`), `msg` is stored under `ts` and
   * the whole object is written back. A file that exists but cannot be
   * loaded makes the load raise before anything is written.
   */
  function Written(f: FileState, ts: string, msg: Record, writable: bool): FileState
  {
    match f
    case Unreadable => Unreadable
    case Missing => if writable then Valid(map[ts := msg]) else Missing
    case Valid(m) => if writable then Valid(m[ts := msg]) else f
  }

  /** The backing file of one store, and the three operations on it. */
  class MessageStore {
    var file: FileState

    /** `Storage(path)` only remembers the path; it does not touch the file. */
    constructor (file: FileState)
      ensures this.file == file
    {
      this.file := file;
    }

    method Init(writable: bool)
      modifies this
      ensures file == Initialized(old(file), writable)
    {
      if file.Missing? {
        var storage: Messages := map[];
        if writable {
          file := Valid(storage);
        }
      }
    }

    method ReadMessages() returns (messages: Messages)
      ensures messages == Contents(file)
    {
      messages := map[];
      if file.Valid? {
        messages := file.messages;
      }
    }

    method WriteMessage(newMessage: Record, timestamp: string, writable: bool)
      modifies this
      ensures file == Written(old(file), timestamp, newMessage, writable)
    {
      var storage: Messages := map[];
      if !file.Missing? {
        if file.Unreadable? {
          return;
        }
        storage := file.messages;
      }
      storage := storage[timestamp := newMessage];
      if writable {
        file := Valid(storage);
      }
    }
  }

  /** `init` on an existing file, readable or not, leaves it unchanged. */
  lemma InitKeepsExisting(f: FileState, writable: bool)
    requires !f.Missing?
    ensures Initialized(f, writable) == f
  {
  }

  /** `init` on a missing file creates an empty store, when the file can be written. */
  lemma InitCreatesEmpty(writable: bool)
    ensures Initialized(Missing, writable) == if writable then Valid(map[]) else Missing
    ensures writable ==> Contents(Initialized(Missing, writable)) == map[]
  {
  }

  /** Once `init` has created or found a file, calling it again changes nothing. */
  lemma InitIdempotent(f: FileState, w1: bool, w2: bool)
    requires !Initialized(f, w1).Missing?
    ensures Initialized(Initialized(f, w1), w2) == Initialized(f, w1)
  {
  }

  /**
   * `read_messages` gives the stored object of a loadable file and `{}`
   * otherwise, so a failed read looks exactly like an empty store.
   */
  lemma ReadCases(m: Messages)
    ensures Contents(Valid(m)) == m
    ensures Contents(Missing) == map[] && Contents(Unreadable) == map[]
    ensures Contents(Missing) == Contents(Valid(map[])) == Contents(Unreadable)
  {
  }

  /** `write_message` according to what is at the path. */
  lemma WriteCases(ts: string, msg: Record, m: Messages)
    ensures Written(Missing, ts, msg, true) == Valid(map[ts := msg])
    ensures Written(Valid(m), ts, msg, true) == Valid(m[ts := msg])
    ensures Written(Unreadable, ts, msg, true) == Unreadable
    ensures forall f :: Written(f, ts, msg, false) == f
  {
  }

  /** A write that goes through can be read back under its timestamp; a colliding key is overwritten. */
  lemma WriteThenRead(f: FileState, ts: string, msg: Record)
    requires !f.Unreadable?
    ensures ts in Contents(Written(f, ts, msg, true))
    ensures Contents(Written(f, ts, msg, true))[ts] == msg
  {
  }

  /** A write never changes what is stored under any other key, whatever the state. */
  lemma WriteFrame(f: FileState, ts: string, msg: Record, writable: bool, k: string)
    requires k != ts
    ensures k in Contents(Written(f, ts, msg, writable)) <==> k in Contents(f)
    ensures k in Contents(f) ==> Contents(Written(f, ts, msg, writable))[k] == Contents(f)[k]
  {
  }

  /** A write adds at most one key, and exactly one when it goes through under a fresh timestamp. */
  lemma WriteSize(f: FileState, ts: string, msg: Record, writable: bool)
    ensures |Contents(Written(f, ts, msg, writable))| <= |Contents(f)| + 1
    ensures !f.Unreadable? && writable && ts !in Contents(f) ==>
      |Contents(Written(f, ts, msg, writable))| == |Contents(f)| + 1
  {
    var m := Contents(f);
    if !f.Unreadable? && writable {
      if ts in m {
        assert m[ts := msg].Keys == m.Keys;
      } else {
        assert m[ts := msg].Keys == m.Keys + {ts};
      }
    }
  }

  /** Several writes in a row, each with its own timestamp. */
  function WrittenAll(f: FileState, entries: seq<(string, Record)>, writable: bool): FileState
  {
    if |entries| == 0 then f
    else
      var last := entries[|entries| - 1];
      Written(WrittenAll(f, entries[..|entries| - 1], writable), last.0, last.1, writable)
  }

  /** No two entries share a timestamp, and none is already a key of `m`. */
  ghost predicate FreshKeys(m: Messages, entries: seq<(string, Record)>)
  {
    && (forall i :: 0 <= i < |entries| ==> entries[i].0 !in m)
    && (forall i, j :: 0 <= i < j < |entries| ==> entries[i].0 != entries[j].0)
  }

  /**
   * Appends accumulate: starting from a file that loads (or none at all),
   * N writes under N fresh timestamps leave N more records, each readable
   * under its own timestamp, and every record stored before is still there.
   */
  lemma {:induction false} WritesAccumulate(f: FileState, entries: seq<(string, Record)>)
    requires !f.Unreadable?
    requires FreshKeys(Contents(f), entries)
    ensures !WrittenAll(f, entries, true).Unreadable?
    ensures |Contents(WrittenAll(f, entries, true))| == |Contents(f)| + |entries|
    ensures forall i :: 0 <= i < |entries| ==>
      entries[i].0 in Contents(WrittenAll(f, entries, true)) &&
      Contents(WrittenAll(f, entries, true))[entries[i].0] == entries[i].1
    ensures forall k :: k in Contents(f) ==>
      k in Contents(WrittenAll(f, entries, true)) && Contents(WrittenAll(f, entries, true))[k] == Contents(f)[k]
  {
    if |entries| > 0 {
      var n := |entries| - 1;
      var front := entries[..n];
      assert forall i :: 0 <= i < n ==> front[i] == entries[i];
      WritesAccumulate(f, front);
      var g := WrittenAll(f, front, true);
      assert entries[n].0 !in Contents(g) by {
        assert entries[n].0 !in Contents(f);
        forall i | 0 <= i < n ensures front[i].0 != entries[n].0 { }
        if entries[n].0 in Contents(g) {
          WrittenAllKeys(f, front, entries[n].0);
        }
      }
      var ts, msg := entries[n].0, entries[n].1;
      var m := Contents(g);
      assert WrittenAll(f, entries, true) == Written(g, ts, msg, true);
      assert Contents(WrittenAll(f, entries, true)) == m[ts := msg];
      WriteSize(g, ts, msg, true);
      forall i | 0 <= i < n
        ensures entries[i].0 in m[ts := msg] && m[ts := msg][entries[i].0] == entries[i].1
      {
        assert front[i] == entries[i];
      }
    }
  }

  /** Every key after a run of writes was there before or is one of the written timestamps. */
  lemma {:induction false} WrittenAllKeys(f: FileState, entries: seq<(string, Record)>, k: string)
    requires k in Contents(WrittenAll(f, entries, true))
    ensures k in Contents(f) || exists i :: 0 <= i < |entries| && entries[i].0 == k
  {
    if |entries| > 0 {
      var n := |entries| - 1;
      var front := entries[..n];
      if k != entries[n].0 {
        WriteFrame(WrittenAll(f, front, true), entries[n].0, entries[n].1, true, k);
        WrittenAllKeys(f, front, k);
        if !(k in Contents(f)) {
          var i :| 0 <= i < n && front[i].0 == k;
          assert entries[i].0 == k;
        }
      }
    }
  }

  /** An unreadable file swallows every write: nothing is ever stored. */
  lemma {:induction false} UnreadableLosesWrites(entries: seq<(string, Record)>, writable: bool)
    ensures WrittenAll(Unreadable, entries, writable) == Unreadable
  {
    if |entries| > 0 {
      UnreadableLosesWrites(entries[..|entries| - 1], writable);
    }
  }
}
