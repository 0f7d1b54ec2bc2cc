/** The progress cursor of the Billboard pipeline: the `State(LastIndex INTEGER)` table, used
    as an append-only log in which the most recently inserted row is the authoritative value. */
module Cursor {

  /** The LastIndex column in ROWID order. */
  type Log = seq<nat>

  /** get_last_processed_index: the newest row's value (ORDER BY ROWID DESC LIMIT 1),
      or 0 when the table is empty. */
  function Read(log: Log): (r: nat)
    ensures log == [] ==> r == 0
    ensures log != [] ==> r == log[|log| - 1] && r in log
  {
    if log == [] then 0 else log[|log| - 1]
  }

  /** set_last_processed_index: insert one more row; earlier rows are kept untouched. */
  function Write(log: Log, index: nat): (r: Log)
    ensures log <= r && |r| == |log| + 1
    ensures Read(r) == index
  {
    log + [index]
  }

  /** However many values were written, the last one written is what a read returns,
      whatever the log held before. */
  lemma {:induction false} LatestWins(log: Log, writes: seq<nat>)
    requires writes != []
    ensures Read(WriteAll(log, writes)) == writes[|writes| - 1]
    decreases |writes|
  {
    if |writes| > 1 {
      LatestWins(Write(log, writes[0]), writes[1..]);
    }
  }

  /** A sequence of set_last_processed_index calls, in order. */
  function WriteAll(log: Log, writes: seq<nat>): (r: Log)
    ensures |r| == |log| + |writes|
    decreases |writes|
  {
    if writes == [] then log else WriteAll(Write(log, writes[0]), writes[1..])
  }
}
