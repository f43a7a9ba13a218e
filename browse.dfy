/** Class Bot of TikTokBot/bot.py as far as it keeps state: its output file, its data
    directory, its credentials, the text files it writes, and the _browse run that
    collects records, skips repeated ids and writes one CSV row per new video. The page
    is an oracle: one Cycle per turn of the run's loop. */
module Browsing {
  import opened Wrappers
  import opened VideoRecord
  import opened Decisions

  /** A Python set of video ids, shared by reference. */
  class IdSet {
    var ids: set<Value>

    constructor (initial: set<Value>)
      ensures ids == initial
    {
      ids := initial;
    }

    method Add(id: Value)
      modifies this
      ensures ids == old(ids) + {id}
    {
      ids := ids + {id};
    }
  }

  datatype Credentials = Credentials(email: string, password: string, platform: string)

  /** What one turn of the run's loop reads from the page: the record collected, and
      what next_video then answered (Ok) or raised (Err: the call stands outside the
      try, so its exception leaves _browse); or an exception inside the try. */
  datatype Cycle =
    | Observed(info: VideoInfo, moved: Result<bool>)
    | Raised

  /** How a run ends. */
  datatype Outcome =
    | BannerFailed(error: PyError) // close_cookie_banner raised (outside any try)
    | NoFirstPost                  // the first recommended post was not found
    | Finished                     // n new videos were collected
    | Stalled                      // next_video answered False
    | Crashed                      // collecting a record raised; the loop breaks
    | WriteFailed(error: PyError)  // to_csv raised while writing a row; the loop breaks
    | Escaped(error: PyError)      // next_video raised; the exception leaves _browse
    | FeedEnded                    // the oracle ran out (not a state of the program)

  /** The content of a file, or "" if it does not exist yet. */
  function Existing(files: map<string, string>, path: string): string
  {
    if path in files then files[path] else ""
  }

  /** The file's text after write_vidinfo, given what to_csv returned: mode "w" empties
      it first when `header` is set; then the header line (when `header`) and the row
      are written. When to_csv fails, the file is left as opening it made it. */
  function WrittenFile(before: string, csv: Result<(string, string)>, header: bool): (after: string)
    ensures csv.Ok? ==> after == (if header then "" else before) + (if header then csv.value.1 + "\n" else "") + (csv.value.0 + "\n")
    ensures csv.Err? ==> after == (if header then "" else before)
  {
    var start := if header then "" else before;
    if csv.Err? then start
    else start + (if header then csv.value.1 + "\n" else "") + (csv.value.0 + "\n")
  }

  /** The state of a run: the counter i, the ids in run_ids, the rows written to the
      output file, and the records accepted so far, in order. */
  datatype State = State(count: nat, seen: set<Value>, rows: seq<string>, accepted: seq<VideoInfo>)

  /** After one turn the loop either goes on from a new state or stops. */
  datatype Next = Continue(state: State) | Stop(outcome: Outcome, state: State)

  /** How a run ended, and its last state. */
  datatype Run = Run(outcome: Outcome, state: State)

  /** One turn of the loop of Bot._browse. An invalid record starts the turn over
      without moving on; a record whose id was seen is skipped; a new one is counted,
      its id remembered and its row written. Every turn that got a valid record then
      moves on, and the run stops if that fails. */
  function Turn(cycle: Cycle, s: State): Next
  {
    match cycle
    case Raised => Stop(Crashed, s)
    case Observed(info, moved) =>
      if !Valid(info) then Continue(s)
      else if info.vid in s.seen then MoveOn(moved, s)
      else
        var written := ToCsv(info);
        if written.Err? then Stop(WriteFailed(written.error), Accept(s, info, None))
        else MoveOn(moved, Accept(s, info, Some(written.value.0)))
  }

  /** The end of a turn: the run goes on when next_video answered True, returns when
      it answered False, and leaves with next_video's exception when it raised. */
  function MoveOn(moved: Result<bool>, s: State): (next: Next)
    ensures next.state == s
    ensures next.Continue? <==> moved == Ok(true)
    ensures moved == Ok(false) ==> next.outcome == Stalled
    ensures moved.Err? ==> next.outcome == Escaped(moved.error)
  {
    match moved
    case Err(e) => Stop(Escaped(e), s)
    case Ok(advanced) => if advanced then Continue(s) else Stop(Stalled, s)
  }

  /** The state after a new record: counted, its id added, its row (if to_csv gave
      one) written. */
  function Accept(s: State, info: VideoInfo, row: Option<string>): State
  {
    State(s.count + 1, s.seen + {info.vid}, if row.Some? then s.rows + [row.value] else s.rows, s.accepted + [info])
  }

  /** The loop of Bot._browse from a given state, while i < n. */
  function RunFeed(n: int, feed: seq<Cycle>, s: State): Run
    decreases |feed|
  {
    if s.count >= n then Run(Finished, s)
    else if feed == [] then Run(FeedEnded, s)
    else match Turn(feed[0], s)
      case Continue(s') => RunFeed(n, feed[1..], s')
      case Stop(outcome, s') => Run(outcome, s')
  }

  /** The files after a run from `files0`: untouched when no record was accepted;
      else the output file holds the header line and the rows, or nothing when the
      very first write failed after mode "w" had emptied the file. */
  function FilesAfter(files0: map<string, string>, path: string, r: Run): map<string, string>
  {
    if r.state.count == 0 then files0
    else if r.outcome.WriteFailed? && r.state.count == 1 then files0[path := ""]
    else files0[path := Header + "\n" + RowsText(r.state.rows)]
  }

  /** Rows, one per line. */
  function RowsText(rows: seq<string>): string
  {
    if rows == [] then [] else rows[0] + "\n" + RowsText(rows[1..])
  }

  lemma {:induction false} RowsTextAppend(rows: seq<string>, row: string)
    ensures RowsText(rows + [row]) == RowsText(rows) + row + "\n"
    decreases |rows|
  {
    if rows == [] {
      assert [] + [row] == [row];
      assert RowsText([row]) == row + "\n" + RowsText([]);
    } else {
      assert (rows + [row])[1..] == rows[1..] + [row];
      RowsTextAppend(rows[1..], row);
      assert (rows + [row])[0] == rows[0];
    }
  }

  /** The ids of a sequence of records. */
  function Ids(infos: seq<VideoInfo>): (ids: seq<Value>)
    ensures |ids| == |infos|
    ensures forall k :: 0 <= k < |infos| ==> ids[k] == infos[k].vid
  {
    if infos == [] then [] else [infos[0].vid] + Ids(infos[1..])
  }

  /** The row to_csv makes of a record, or None when it raises. */
  function RowOf(info: VideoInfo): Option<string>
  {
    if ToCsv(info).Ok? then Some(ToCsv(info).value.0) else None
  }

  /** What a run keeps true: i counts the accepted records, their ids are distinct,
      none was in the set the run started with, and run_ids is that set plus them.
      The rows written are the to_csv rows of the accepted records, in order, one
      each; when `failed`, the last record's to_csv raised and it has no row. */
  predicate Consistent(seen0: set<Value>, s: State, failed: bool)
  {
    AcceptedFresh(seen0, s) && RowsWritten(s.rows, s.accepted, failed)
  }

  predicate AcceptedFresh(seen0: set<Value>, s: State)
  {
    && s.count == |s.accepted|
    && Distinct(Ids(s.accepted))
    && (forall k :: 0 <= k < |s.accepted| ==> s.accepted[k].vid !in seen0)
    && s.seen == seen0 + (set k | 0 <= k < |s.accepted| :: s.accepted[k].vid)
  }

  predicate RowsWritten(rows: seq<string>, accepted: seq<VideoInfo>, failed: bool)
  {
    && |accepted| == |rows| + (if failed then 1 else 0)
    && (forall k :: 0 <= k < |rows| ==> RowOf(accepted[k]) == Some(rows[k]))
    && (failed ==> RowOf(accepted[|rows|]).None?)
  }

  /** Accepting a record with a new id, and writing its row when to_csv makes one. */
  lemma AcceptConsistent(seen0: set<Value>, s: State, info: VideoInfo, row: Option<string>)
    requires Consistent(seen0, s, false) && info.vid !in s.seen && row == RowOf(info)
    ensures Consistent(seen0, Accept(s, info, row), row.None?)
  {
    AcceptFresh(seen0, s, info, row);
    AcceptedRows(s.rows, s.accepted, info, row);
  }

  /** Accepting a record with a new id keeps the accepted ids fresh. */
  lemma AcceptFresh(seen0: set<Value>, s: State, info: VideoInfo, row: Option<string>)
    requires AcceptedFresh(seen0, s) && info.vid !in s.seen
    ensures AcceptedFresh(seen0, Accept(s, info, row))
  {
    var a := s.accepted + [info];
    assert Accept(s, info, row).accepted == a;
    AcceptedDistinct(seen0, s, info);
    AcceptedIdSet(s.accepted, info);
    assert forall k :: 0 <= k < |s.accepted| ==> a[k] == s.accepted[k];
  }

  /** A new record's row, when there is one, follows the rows of the earlier ones. */
  lemma AcceptedRows(rows: seq<string>, accepted: seq<VideoInfo>, info: VideoInfo, row: Option<string>)
    requires RowsWritten(rows, accepted, false) && row == RowOf(info)
    ensures RowsWritten(if row.Some? then rows + [row.value] else rows, accepted + [info], row.None?)
  {
    var a := accepted + [info];
    assert forall k :: 0 <= k < |accepted| ==> a[k] == accepted[k];
    assert a[|accepted|] == info;
  }

  /** A new id keeps the accepted ids distinct. */
  lemma AcceptedDistinct(seen0: set<Value>, s: State, info: VideoInfo)
    requires AcceptedFresh(seen0, s) && info.vid !in s.seen
    ensures Distinct(Ids(s.accepted + [info]))
  {
    var a := s.accepted + [info];
    assert forall k :: 0 <= k < |s.accepted| ==> s.accepted[k].vid in s.seen;
    forall j, k | 0 <= j < k < |a| ensures Ids(a)[j] != Ids(a)[k] {
      assert a[j] == s.accepted[j];
      if k < |s.accepted| {
        assert a[k] == s.accepted[k];
        assert Ids(s.accepted)[j] != Ids(s.accepted)[k];
      }
    }
  }

  /** The ids of the accepted records grow by the new one. */
  lemma AcceptedIdSet(accepted: seq<VideoInfo>, info: VideoInfo)
    ensures (set k | 0 <= k < |accepted + [info]| :: (accepted + [info])[k].vid) ==
            (set k | 0 <= k < |accepted| :: accepted[k].vid) + {info.vid}
  {
    var a := accepted + [info];
    assert a[|accepted|] == info;
    assert forall k :: 0 <= k < |accepted| ==> a[k] == accepted[k];
  }

  /** One turn keeps the state consistent; only a failed write leaves a record
      without its row. */
  lemma TurnConsistent(seen0: set<Value>, cycle: Cycle, s: State)
    requires Consistent(seen0, s, false)
    ensures var t := Turn(cycle, s);
            Consistent(seen0, t.state, t.Stop? && t.outcome.WriteFailed?)
  {
    if cycle.Observed? && Valid(cycle.info) && cycle.info.vid !in s.seen {
      var row := RowOf(cycle.info);
      var t := Turn(cycle, s);
      assert t.state == Accept(s, cycle.info, row) && (t.Stop? && t.outcome.WriteFailed? <==> row.None?) by {
        TurnOfNewRecord(cycle.info, cycle.moved, s, ToCsv(cycle.info));
      }
      AcceptConsistent(seen0, s, cycle.info, row);
    } else {
      assert Turn(cycle, s).state == s && !(Turn(cycle, s).Stop? && Turn(cycle, s).outcome.WriteFailed?);
    }
  }

  /** One turn counts at most one record. */
  lemma TurnCount(cycle: Cycle, s: State)
    ensures s.count <= Turn(cycle, s).state.count <= s.count + 1
  {
    if cycle.Observed? && Valid(cycle.info) && cycle.info.vid !in s.seen {
      assert Turn(cycle, s).state.count == s.count + 1 by {
        TurnOfNewRecord(cycle.info, cycle.moved, s, ToCsv(cycle.info));
      }
    }
  }

  /** Every run keeps its state consistent, and only a failed write leaves a record
      without its row. */
  lemma {:induction false} RunFeedConsistent(n: int, feed: seq<Cycle>, seen0: set<Value>, s: State)
    requires Consistent(seen0, s, false)
    ensures var r := RunFeed(n, feed, s);
            Consistent(seen0, r.state, r.outcome.WriteFailed?)
    decreases |feed|
  {
    if s.count < n && feed != [] {
      var next := Turn(feed[0], s);
      assert Consistent(seen0, next.state, next.Stop? && next.outcome.WriteFailed?) by {
        TurnConsistent(seen0, feed[0], s);
      }
      if next.Continue? {
        RunFeedConsistent(n, feed[1..], seen0, next.state);
      }
    }
  }

  /** A run's counter never decreases, never passes n, and a run that finishes has
      counted exactly n. */
  lemma {:induction false} RunFeedCount(n: int, feed: seq<Cycle>, s: State)
    ensures var r := RunFeed(n, feed, s);
            && s.count <= r.state.count
            && (s.count <= n ==> r.state.count <= n)
            && (r.outcome == Finished ==> r.state.count >= n && (s.count <= n ==> r.state.count == n))
    decreases |feed|
  {
    if s.count < n && feed != [] {
      var next := Turn(feed[0], s);
      assert s.count <= next.state.count <= s.count + 1 by {
        TurnCount(feed[0], s);
      }
      if next.Continue? {
        RunFeedCount(n, feed[1..], next.state);
      }
    }
  }

  /** A run from scratch writes, in order, the to_csv row of each new valid record,
      once each: no id is written twice and no id of the skip set is written. i counts
      the rows written, plus the record whose write failed when a write ended the run;
      it never passes n, and a finished run wrote exactly n rows. run_ids ends up
      holding the skip set and every accepted id. */
  lemma RunFromScratch(n: int, feed: seq<Cycle>, skip: set<Value>)
    ensures var r := RunFeed(n, feed, State(0, skip, [], []));
            && r.state.count == |r.state.accepted|
            && |r.state.rows| == (if r.outcome.WriteFailed? then r.state.count - 1 else r.state.count)
            && (forall k :: 0 <= k < |r.state.rows| ==> RowOf(r.state.accepted[k]) == Some(r.state.rows[k]))
            && (r.outcome.WriteFailed? ==> RowOf(r.state.accepted[|r.state.rows|]).None?)
            && (n >= 0 ==> r.state.count <= n)
            && (r.outcome == Finished ==> r.state.count == if n >= 0 then n else 0)
            && Distinct(Ids(r.state.accepted))
            && (forall k :: 0 <= k < |r.state.accepted| ==> r.state.accepted[k].vid !in skip)
            && r.state.seen == skip + set k | 0 <= k < |r.state.accepted| :: r.state.accepted[k].vid
  {
    var none: seq<VideoInfo> := [];
    assert (set k | 0 <= k < |none| :: none[k].vid) == {};
    RunFeedConsistent(n, feed, skip, State(0, skip, [], []));
    RunFeedCount(n, feed, State(0, skip, [], []));
  }

  /** An invalid record changes nothing: the turn is simply taken again. */
  lemma InvalidRecordIgnored(n: int, info: VideoInfo, moved: Result<bool>, rest: seq<Cycle>, s: State)
    requires !Valid(info) && s.count < n
    ensures RunFeed(n, [Observed(info, moved)] + rest, s) == RunFeed(n, rest, s)
  {
    assert ([Observed(info, moved)] + rest)[1..] == rest;
  }

  /** A record whose id was already seen is not counted, and the run moves on. */
  lemma SeenRecordSkipped(n: int, info: VideoInfo, rest: seq<Cycle>, s: State)
    requires Valid(info) && info.vid in s.seen && s.count < n
    ensures RunFeed(n, [Observed(info, Ok(true))] + rest, s) == RunFeed(n, rest, s)
  {
    assert ([Observed(info, Ok(true))] + rest)[1..] == rest;
  }

  /** An exception from next_video ends the run with the state of that turn, whatever
      the rest of the feed holds. */
  lemma NextVideoRaisedEscapes(n: int, info: VideoInfo, e: PyError, rest: seq<Cycle>, s: State)
    requires Valid(info) && s.count < n
    requires info.vid !in s.seen ==> ToCsv(info).Ok?
    ensures var r := RunFeed(n, [Observed(info, Err(e))] + rest, s);
            && r.outcome == Escaped(e)
            && r.state == (if info.vid in s.seen then s else Accept(s, info, RowOf(info)))
  {
  }

  /** The run from the k-th cycle on takes that cycle's turn first. */
  lemma RunFeedAt(n: int, feed: seq<Cycle>, k: nat, s: State)
    requires k < |feed| && s.count < n
    ensures var t := Turn(feed[k], s);
            RunFeed(n, feed[k..], s) == if t.Continue? then RunFeed(n, feed[k + 1..], t.state) else Run(t.outcome, t.state)
  {
    assert feed[k..][0] == feed[k] && feed[k..][1..] == feed[k + 1..];
  }

  /** The turn that meets a new valid record, given what to_csv makes of it. */
  lemma TurnOfNewRecord(info: VideoInfo, moved: Result<bool>, s: State, csv: Result<(string, string)>)
    requires Valid(info) && info.vid !in s.seen && csv == ToCsv(info)
    ensures csv.Err? ==> Turn(Observed(info, moved), s) == Stop(WriteFailed(csv.error), Accept(s, info, None))
    ensures csv.Ok? ==> Turn(Observed(info, moved), s) == MoveOn(moved, Accept(s, info, Some(csv.value.0)))
  {
  }

  /** The files once i records were accepted and the rows written: untouched while
      i is 0, else the output file holds the header line and the rows. */
  function Output(files0: map<string, string>, path: string, cols: string, i: nat, rows: seq<string>): map<string, string>
  {
    if i == 0 then files0 else files0[path := cols + "\n" + RowsText(rows)]
  }

  /** A run that did not end in a failed write leaves the files as its rows say. */
  lemma StopFiles(files0: map<string, string>, path: string, r: Run)
    requires !r.outcome.WriteFailed?
    ensures FilesAfter(files0, path, r) == Output(files0, path, Header, r.state.count, r.state.rows)
  {
  }

  /** A new valid record whose row is written is counted, and the run moves on. */
  lemma NewRecordTaken(n: int, info: VideoInfo, rest: seq<Cycle>, s: State)
    requires Valid(info) && info.vid !in s.seen && s.count < n && ToCsv(info).Ok?
    ensures RunFeed(n, [Observed(info, Ok(true))] + rest, s) == RunFeed(n, rest, Accept(s, info, Some(ToCsv(info).value.0)))
  {
    assert ([Observed(info, Ok(true))] + rest)[1..] == rest;
  }

  /** Writing the i-th accepted record keeps the output file equal to the header line
      `cols` and the rows, or leaves it as opening it made it when to_csv fails. */
  lemma WriteKeepsFile(files0: map<string, string>, prior: map<string, string>, path: string,
                       cols: string, rows: seq<string>, csv: Result<(string, string)>, i: nat)
    requires i >= 1 && |rows| == i - 1
    requires prior == Output(files0, path, cols, i - 1, rows)
    requires csv.Ok? ==> csv.value.1 == cols
    ensures var after := prior[path := WrittenFile(Existing(prior, path), csv, i == 1)];
            && (csv.Ok? ==> after == Output(files0, path, cols, i, rows + [csv.value.0]))
            && (csv.Err? ==> after == files0[path := if i == 1 then "" else cols + "\n" + RowsText(rows)])
  {
    if csv.Ok? {
      if i == 1 {
        FirstWrite(Existing(prior, path), cols, csv.value.0);
        assert rows + [csv.value.0] == [csv.value.0];
      } else {
        LaterWrite(cols, rows, csv);
      }
    }
  }

  lemma FirstWrite(before: string, cols: string, row: string)
    ensures WrittenFile(before, Ok((row, cols)), true) == cols + "\n" + RowsText([row])
  {
    assert RowsText([row]) == row + "\n" + RowsText([]);
    assert [] + (cols + "\n") + (row + "\n") == cols + "\n" + (row + "\n" + []);
  }

  lemma LaterWrite(cols: string, rows: seq<string>, csv: Result<(string, string)>)
    requires csv.Ok?
    ensures WrittenFile(cols + "\n" + RowsText(rows), csv, false) == cols + "\n" + RowsText(rows + [csv.value.0])
  {
    RowsTextAppend(rows, csv.value.0);
    var row := csv.value.0;
    assert cols + "\n" + RowsText(rows) + [] + (row + "\n") == cols + "\n" + (RowsText(rows) + row + "\n");
  }

  /** A set is truthy when it is not empty: `to_skip or set()` keeps only a non-empty
      skip set. */
  function InitialIds(toSkip: IdSet?): set<Value>
    reads toSkip
  {
    if toSkip != null then toSkip.ids else {}
  }

  class Bot {
    var outPath: string
    var dataDir: string
    var credentials: Option<Credentials>
    /** The text files the bot can write, by path. */
    var files: map<string, string>

    /** Bot.__init__: remembers the output path and writes the header line to it,
        replacing what the file held. */
    constructor (outputFile: string, disk: map<string, string>)
      ensures outPath == outputFile && dataDir == "" && credentials == None
      ensures files == disk[outputFile := Header + "\n"]
    {
      outPath := outputFile;
      dataDir := "";
      credentials := None;
      // The header is the second part of to_csv() of a dummy record (InitialHeader).
      files := disk[outputFile := Header + "\n"];
    }

    method SetOutputFile(fname: string)
      modifies this
      ensures outPath == fname
      ensures dataDir == old(dataDir) && credentials == old(credentials) && files == old(files)
    {
      outPath := fname;
    }

    method SetDataDir(ddir: string)
      modifies this
      ensures dataDir == ddir
      ensures outPath == old(outPath) && credentials == old(credentials) && files == old(files)
    {
      dataDir := ddir;
    }

    method SetCredentials(email: string, password: string, platform: string)
      modifies this
      ensures credentials == Some(Credentials(email, password, platform))
      ensures outPath == old(outPath) && dataDir == old(dataDir) && files == old(files)
    {
      credentials := Some(Credentials(email, password, platform));
    }

    /** Bot.write_vidinfo: appends the record's row to the output file, or with
        `header` replaces the file by the header line and the row. */
    method WriteVidInfo(vi: VideoInfo, header: bool) returns (r: Result<()>)
      modifies this
      ensures outPath == old(outPath) && dataDir == old(dataDir) && credentials == old(credentials)
      ensures files == old(files)[outPath := WrittenFile(Existing(old(files), outPath), ToCsv(vi), header)]
      ensures r.Ok? <==> ToCsv(vi).Ok?
      ensures r.Err? ==> r.error == ToCsv(vi).error
    {
      r := WriteCsv(ToCsv(vi), header);
    }

    /** The file writes of write_vidinfo once to_csv has answered: open the output file
        ("w" with `header`, else "a"), then write the header line and the row, unless
        to_csv raised. */
    method WriteCsv(csv: Result<(string, string)>, header: bool) returns (r: Result<()>)
      modifies this
      ensures outPath == old(outPath) && dataDir == old(dataDir) && credentials == old(credentials)
      ensures files == old(files)[outPath := WrittenFile(Existing(old(files), outPath), csv, header)]
      ensures r.Ok? <==> csv.Ok?
      ensures r.Err? ==> r.error == csv.error
    {
      var text := if header then "" else Existing(files, outPath);
      files := files[outPath := text];
      if csv.Err? {
        return Err(csv.error);
      }
      var (row, cols) := csv.value;
      if header {
        text := text + (cols + "\n");
      }
      text := text + (row + "\n");
      files := files[outPath := text];
      assert text == WrittenFile(Existing(old(files), outPath), csv, header);
      return Ok(());
    }

    /** Bot._browse: reject the cookie banner, open the first post, then collect until
        n new videos are written, next_video answers False or raises (Escaped), or an
        exception inside the loop's try breaks the loop.
        `toSkip` is the caller's set: used and updated in place when non-empty,
        replaced by a fresh set otherwise. */
    method Browse(n: int, toSkip: IdSet?, banner: Option<seq<string>>, firstPost: bool, feed: seq<Cycle>)
      returns (outcome: Outcome, count: nat, runIds: IdSet?)
      modifies this, toSkip
      ensures outPath == old(outPath) && dataDir == old(dataDir) && credentials == old(credentials)
      ensures CloseCookieBanner(banner, false).Err? ==>
                && outcome == BannerFailed(CloseCookieBanner(banner, false).error) && files == old(files)
                && (toSkip != null ==> toSkip.ids == old(toSkip.ids))
      ensures CloseCookieBanner(banner, false).Ok? && !firstPost ==>
                && outcome == NoFirstPost && files == old(files)
                && (toSkip != null ==> toSkip.ids == old(toSkip.ids))
      ensures CloseCookieBanner(banner, false).Ok? && firstPost ==>
                var r := RunFeed(n, feed, State(0, old(InitialIds(toSkip)), [], []));
                && outcome == r.outcome && count == r.state.count
                && runIds != null && runIds.ids == r.state.seen
                && files == FilesAfter(old(files), outPath, r)
                && (old(InitialIds(toSkip)) != {} ==> runIds == toSkip)
                && (old(InitialIds(toSkip)) == {} ==> fresh(runIds) && (toSkip != null ==> toSkip.ids == old(toSkip.ids)))
    {
      count := 0;
      runIds := null;
      var closed := CloseCookieBanner(banner, false);
      if closed.Err? {
        return BannerFailed(closed.error), 0, null;
      }
      if !firstPost {
        return NoFirstPost, 0, null;
      }
      if toSkip != null && toSkip.ids != {} {
        runIds := toSkip;
      } else {
        runIds := new IdSet({});
      }
      outcome, count := Collect(n, runIds, feed);
    }

    /** Writes the row of the i-th accepted record, with the header line when it is the
        first: the output file then holds the header line and the rows so far. */
    method WriteRow(info: VideoInfo, i: nat, ghost files0: map<string, string>, ghost rows: seq<string>)
      returns (written: Result<()>)
      requires i >= 1 && |rows| == i - 1 && files == Output(files0, outPath, Header, i - 1, rows)
      modifies this
      ensures outPath == old(outPath) && dataDir == old(dataDir) && credentials == old(credentials)
      ensures written.Ok? <==> ToCsv(info).Ok?
      ensures written.Ok? ==> files == Output(files0, outPath, Header, i, rows + [ToCsv(info).value.0])
      ensures written.Err? ==> written.error == ToCsv(info).error
      ensures written.Err? ==> files == files0[outPath := if i == 1 then "" else Header + "\n" + RowsText(rows)]
    {
      ghost var prior := files;
      written := WriteVidInfo(info, i == 1);
      WriteKeepsFile(files0, prior, outPath, Header, rows, ToCsv(info), i);
    }

    /** One turn of the loop of Bot._browse from counter i, the rows written so far and
        the records accepted: what it does to run_ids and the output file, and whether
        the loop goes on. */
    method TakeTurn(runIds: IdSet, cycle: Cycle, i: nat, ghost files0: map<string, string>,
                    ghost rows: seq<string>, ghost accepted: seq<VideoInfo>)
      returns (stop: Option<Outcome>, next: nat, ghost rowsAfter: seq<string>, ghost acceptedAfter: seq<VideoInfo>)
      requires |rows| == i && files == Output(files0, outPath, Header, i, rows)
      modifies this, runIds
      ensures outPath == old(outPath) && dataDir == old(dataDir) && credentials == old(credentials)
      ensures var t := Turn(cycle, State(i, old(runIds.ids), rows, accepted));
              && t.state == State(next, runIds.ids, rowsAfter, acceptedAfter)
              && (stop.None? <==> t.Continue?)
              && (stop.Some? ==> stop.value == t.outcome && files == FilesAfter(files0, outPath, Run(t.outcome, t.state)))
              && (stop.None? ==> |rowsAfter| == next && files == Output(files0, outPath, Header, next, rowsAfter))
    {
      ghost var s := State(i, runIds.ids, rows, accepted);
      next, rowsAfter, acceptedAfter := i, rows, accepted;
      match cycle {
        case Raised =>
          StopFiles(files0, outPath, Run(Crashed, s));
          return Some(Crashed), i, rows, accepted;
        case Observed(info, moved) =>
          if !Valid(info) {
            return None, i, rows, accepted;
          }
          if info.vid !in runIds.ids {
            next := i + 1;
            runIds.Add(info.vid);
            var written := WriteRow(info, next, files0, rows);
            ghost var csv := ToCsv(info);
            TurnOfNewRecord(info, moved, s, csv);
            acceptedAfter := accepted + [info];
            if written.Err? {
              return Some(WriteFailed(written.error)), next, rows, acceptedAfter;
            }
            rowsAfter := rows + [csv.value.0];
          }
          if moved != Ok(true) {
            var outcome := if moved.Err? then Escaped(moved.error) else Stalled;
            StopFiles(files0, outPath, Run(outcome, State(next, runIds.ids, rowsAfter, acceptedAfter)));
            return Some(outcome), next, rowsAfter, acceptedAfter;
          }
          stop := None;
      }
    }

    /** The loop of Bot._browse over the ids in `runIds`: a turn per cycle while fewer
        than n new videos are written. */
    method Collect(n: int, runIds: IdSet, feed: seq<Cycle>) returns (outcome: Outcome, count: nat)
      modifies this, runIds
      ensures outPath == old(outPath) && dataDir == old(dataDir) && credentials == old(credentials)
      ensures var r := RunFeed(n, feed, State(0, old(runIds.ids), [], []));
              && outcome == r.outcome && count == r.state.count && runIds.ids == r.state.seen
              && files == FilesAfter(old(files), outPath, r)
    {
      ghost var seen0 := runIds.ids;
      ghost var files0 := files;
      ghost var rows: seq<string> := [];
      ghost var accepted: seq<VideoInfo> := [];
      ghost var r := RunFeed(n, feed, State(0, seen0, [], []));
      var i := 0;
      var k := 0;
      while i < n
        invariant 0 <= k <= |feed|
        invariant outPath == old(outPath) && dataDir == old(dataDir) && credentials == old(credentials)
        invariant i >= 0 && |rows| == i
        invariant files == Output(files0, outPath, Header, i, rows)
        invariant RunFeed(n, feed[k..], State(i, runIds.ids, rows, accepted)) == r
        decreases |feed| - k
      {
        if k == |feed| {
          assert r == Run(FeedEnded, State(i, runIds.ids, rows, accepted));
          StopFiles(files0, outPath, r);
          return FeedEnded, i;
        }
        RunFeedAt(n, feed, k, State(i, runIds.ids, rows, accepted));
        var stop;
        stop, i, rows, accepted := TakeTurn(runIds, feed[k], i, files0, rows, accepted);
        if stop.Some? {
          return stop.value, i;
        }
        k := k + 1;
      }
      assert r == Run(Finished, State(i, runIds.ids, rows, accepted));
      StopFiles(files0, outPath, r);
      return Finished, i;
    }
  }
}
