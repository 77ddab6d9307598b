/**
 * The seen-ledger: the `seen` table of monitor.py, keyed by fingerprint, with
 * the time each fingerprint was first recorded. The SQLite connection is not
 * modelled; the table is the map `rows` of a `SeenLedger` object, which
 * `already_seen` reads and `mark_seen` updates with `INSERT OR IGNORE`.
 */
module Ledger {

  /** An ISO-8601 UTC timestamp, as stored in `first_seen_utc`. */
  type Timestamp = string

  /** `INSERT OR IGNORE INTO seen (id, first_seen_utc) VALUES (id, now)` on the table `rows`. */
  function InsertIfAbsent(rows: map<string, Timestamp>, id: string, now: Timestamp): (r: map<string, Timestamp>)
    ensures r.Keys == rows.Keys + {id}
    ensures forall k :: k in rows ==> r[k] == rows[k]
    ensures id !in rows ==> r[id] == now
  {
    if id in rows then rows else rows[id := now]
  }

  /** Inserting the same id a second time changes nothing: the first timestamp stays. */
  lemma InsertIfAbsentIdempotent(rows: map<string, Timestamp>, id: string, t1: Timestamp, t2: Timestamp)
    ensures InsertIfAbsent(InsertIfAbsent(rows, id, t1), id, t2) == InsertIfAbsent(rows, id, t1)
  {
  }

  /** The ids of `ids`, as a set. */
  function IdSet(ids: seq<string>): set<string> {
    set k | k in ids
  }

  /** The table after `mark_seen(ids[0], now)`, ..., `mark_seen(ids[|ids| - 1], now)`. */
  function MarkAll(rows: map<string, Timestamp>, ids: seq<string>, now: Timestamp): (r: map<string, Timestamp>)
    ensures r.Keys == rows.Keys + IdSet(ids)
    ensures forall k :: k in rows ==> r[k] == rows[k]
    ensures forall k :: k in r && k !in rows ==> r[k] == now
  {
    if ids == [] then rows
    else
      var prefix := ids[..|ids| - 1];
      assert IdSet(ids) == IdSet(prefix) + {ids[|ids| - 1]} by {
        assert ids == prefix + [ids[|ids| - 1]];
      }
      InsertIfAbsent(MarkAll(rows, prefix, now), ids[|ids| - 1], now)
  }

  /** The `seen` table. Rows are only ever added; an existing row never changes. */
  class SeenLedger {
    var rows: map<string, Timestamp>

    /** `ensure_db()` on a fresh database: the table exists and is empty. */
    constructor ()
      ensures rows == map[]
    {
      rows := map[];
    }

    /** `already_seen(id)`: is there a row for `id`? */
    method AlreadySeen(id: string) returns (seen: bool)
      ensures seen <==> id in rows
    {
      seen := id in rows;
    }

    /** `mark_seen(id)` at time `now`: insert if absent, never overwrite. */
    method MarkSeen(id: string, now: Timestamp)
      modifies this
      ensures rows == InsertIfAbsent(old(rows), id, now)
      ensures id in rows
      ensures forall k :: k in old(rows) ==> k in rows && rows[k] == old(rows)[k]
      ensures forall k :: k in rows && k != id ==> k in old(rows)
    {
      if id !in rows {
        rows := rows[id := now];
      }
    }
  }
}
