/**
 * The control logic of the Streamlit front end: one update cycle
 * (`check_for_updates`), the thirty-second auto-check gate at the end of
 * each render, and the aggregation of uploaded sources.
 *
 * The Git watcher, the vector index, the clock and the fetchers are
 * oracles: their replies are inputs, and the calls made on them are an
 * output trace of `Effect`s. There is no lock or queue in the front end,
 * and none is modelled.
 */
module App {
  import opened Wrappers
  import opened Segmenter
  import opened Documents

  /** A call made on the watcher, the index or the session, in the order
      made. `ShowError` is the error banner an exception leads to. */
  datatype Effect =
    | CheckRemote
    | Pull
    | ListChanged
    | Remove(paths: seq<string>)
    | LoadRepository
    | Index(docs: seq<Document>)
    | SetLastUpdate(time: int)
    | ShowError

  /** What an oracle call did: returned a value, or raised. */
  datatype Outcome<T> = Returned(value: T) | Raised

  /** The replies of the calls of one update cycle, in call order. */
  datatype Replies = Replies(
    check: Outcome<bool>,
    pull: Outcome<bool>,
    changed: Outcome<seq<string>>,
    remove: Outcome<()>,
    load: Outcome<seq<Document>>,
    index: Outcome<()>)

  /** Whether the cycle re-indexed, and the calls it made. */
  datatype Cycle = Cycle(updated: bool, trace: seq<Effect>)

  // ---------------------------------------------------------------------
  // `check_for_updates`.

  /** The changed paths the cycle works with (empty when never listed). */
  function ChangedOf(r: Replies): seq<string> {
    if r.changed.Returned? then r.changed.value else []
  }

  /** The loaded documents (empty when never loaded). */
  function LoadedOf(r: Replies): seq<Document> {
    if r.load.Returned? then r.load.value else []
  }

  /** The complete sequence of calls of a successful cycle: the one list
      of changed paths is both removed and used to pick what is indexed. */
  function Protocol(changed: seq<string>, loaded: seq<Document>, now: int): (ps: seq<Effect>)
    ensures |ps| == 7 && ShowError !in ps
  {
    [CheckRemote, Pull, ListChanged, Remove(changed), LoadRepository,
     Index(FilterChanged(loaded, changed)), SetLastUpdate(now)]
  }

  /** `a` is an initial segment of `b`. */
  predicate IsPrefix<T(==)>(a: seq<T>, b: seq<T>) {
    |a| <= |b| && b[..|a|] == a
  }

  /** The calls of a trace other than a final error banner. */
  function Calls(trace: seq<Effect>): seq<Effect> {
    if trace != [] && trace[|trace| - 1] == ShowError then trace[..|trace| - 1] else trace
  }

  /** The trace of a cycle that stops after the first `k` calls of `p`,
      with the error banner when the last of them raised. */
  function StopAfter(p: seq<Effect>, k: nat, raised: bool): (t: seq<Effect>)
    requires k <= |p| && ShowError !in p
    ensures Calls(t) == p[..k]
    ensures ShowError in t <==> raised
  {
    if raised then
      assert (p[..k] + [ShowError])[..k] == p[..k];
      p[..k] + [ShowError]
    else
      assert ShowError !in p[..k] by {
        forall e | e in p[..k] ensures e in p { }
      }
      p[..k]
  }

  /** Every call of the cycle returned, and both the remote check and the
      pull reported `True`. */
  predicate AllSucceed(r: Replies) {
    && r.check == Returned(true) && r.pull == Returned(true)
    && r.changed.Returned? && r.remove.Returned? && r.load.Returned? && r.index.Returned?
  }

  /** Some call that the cycle reaches raises: the pull is reached only
      after the check reported `True`, and the calls after it only after
      the pull reported `True`. Among those four, the first that raises
      ends the cycle, so any of them raising is enough. */
  predicate RaisesOnPath(r: Replies) {
    || r.check.Raised?
    || (r.check == Returned(true) && r.pull.Raised?)
    || (&& r.check == Returned(true) && r.pull == Returned(true)
        && (r.changed.Raised? || r.remove.Raised? || r.load.Raised? || r.index.Raised?))
  }

  /** How many calls a cycle with a watcher makes: it stops right after the
      first call that raises or that reports `False`, and makes all seven
      calls when there is none. */
  function StopAt(r: Replies): nat {
    if r.check != Returned(true) then 1
    else if r.pull != Returned(true) then 2
    else if r.changed.Raised? then 3
    else if r.remove.Raised? then 4
    else if r.load.Raised? then 5
    else if r.index.Raised? then 6
    else 7
  }

  /** One update cycle. Without a watcher nothing happens. A `False` from
      the remote check or from the pull ends the cycle quietly; an
      exception from any call ends it with the error banner, and nothing
      done before it is undone. */
  function CheckForUpdates(hasWatcher: bool, r: Replies, now: int): (c: Cycle)
    ensures !hasWatcher ==> c == Cycle(false, [])
    ensures IsPrefix(Calls(c.trace), Protocol(ChangedOf(r), LoadedOf(r), now))
    ensures ShowError !in Calls(c.trace)
    ensures c.updated <==> c.trace == Protocol(ChangedOf(r), LoadedOf(r), now)
    ensures ShowError in c.trace ==> !c.updated
    ensures hasWatcher ==> (c.updated <==> AllSucceed(r))
    ensures ShowError in c.trace <==> hasWatcher && RaisesOnPath(r)
    ensures hasWatcher ==> |Calls(c.trace)| == StopAt(r)
  {
    var p := Protocol(ChangedOf(r), LoadedOf(r), now);
    if !hasWatcher then Cycle(false, [])
    else
      match r.check
      case Raised => Cycle(false, StopAfter(p, 1, true))
      case Returned(false) => Cycle(false, StopAfter(p, 1, false))
      case Returned(true) =>
        match r.pull
        case Raised => Cycle(false, StopAfter(p, 2, true))
        case Returned(false) => Cycle(false, StopAfter(p, 2, false))
        case Returned(true) =>
          match r.changed
          case Raised => Cycle(false, StopAfter(p, 3, true))
          case Returned(changed) =>
            match r.remove
            case Raised => Cycle(false, StopAfter(p, 4, true))
            case Returned(_) =>
              match r.load
              case Raised => Cycle(false, StopAfter(p, 5, true))
              case Returned(docs) =>
                match r.index
                case Raised => Cycle(false, StopAfter(p, 6, true))
                case Returned(_) => Cycle(true, p)
  }

  /** The watcher reports nothing new: one remote check and no mutation. */
  lemma NothingNew(r: Replies, now: int)
    requires r.check == Returned(false)
    ensures var c := CheckForUpdates(true, r, now);
      && !c.updated && c.trace == [CheckRemote]
      && Pull !in c.trace
      && forall e :: e in c.trace ==> !e.Remove? && !e.Index?
  {
  }

  /** A failed pull: neither removal nor indexing happens. */
  lemma PullFailed(r: Replies, now: int)
    requires r.check == Returned(true) && r.pull == Returned(false)
    ensures var c := CheckForUpdates(true, r, now);
      && !c.updated
      && forall e :: e in c.trace ==> !e.Remove? && !e.Index?
  {
    var c := CheckForUpdates(true, r, now);
    assert c.trace == [CheckRemote, Pull];
  }

  /** An exception from the remote check: the banner follows the check at
      once, and nothing is pulled, removed or indexed. */
  lemma CheckRaised(r: Replies, now: int)
    requires r.check.Raised?
    ensures CheckForUpdates(true, r, now) == Cycle(false, [CheckRemote, ShowError])
  {
    var p := Protocol(ChangedOf(r), LoadedOf(r), now);
    assert p[..1] + [ShowError] == [CheckRemote, ShowError];
  }

  /** An exception from the pull aborts the cycle before any mutation:
      the banner follows the pull at once. */
  lemma PullRaised(r: Replies, now: int)
    requires r.check == Returned(true) && r.pull.Raised?
    ensures CheckForUpdates(true, r, now) == Cycle(false, [CheckRemote, Pull, ShowError])
  {
    var p := Protocol(ChangedOf(r), LoadedOf(r), now);
    assert p[..2] + [ShowError] == [CheckRemote, Pull, ShowError];
  }

  /** A successful cycle removes the changed paths, reloads the
      repository, indexes exactly the loaded documents that mention a
      changed path, and records the time, in that order. */
  lemma SuccessfulCycle(r: Replies, changed: seq<string>, docs: seq<Document>, now: int)
    requires r.check == Returned(true) && r.pull == Returned(true)
    requires r.changed == Returned(changed) && r.remove.Returned?
    requires r.load == Returned(docs) && r.index.Returned?
    ensures var c := CheckForUpdates(true, r, now);
      && c.updated
      && c.trace[3] == Remove(changed)
      && c.trace[5] == Index(FilterChanged(docs, changed))
      && c.trace[|c.trace| - 1] == SetLastUpdate(now)
  {
  }

  /** An exception from the reload leaves the removal in place with
      nothing re-indexed: the cycle is not atomic. */
  lemma RemovedNotReindexed(r: Replies, changed: seq<string>, now: int)
    requires r.check == Returned(true) && r.pull == Returned(true)
    requires r.changed == Returned(changed) && r.remove.Returned? && r.load.Raised?
    ensures var c := CheckForUpdates(true, r, now);
      && !c.updated
      && Remove(changed) in c.trace
      && (forall e :: e in c.trace ==> !e.Index? && !e.SetLastUpdate?)
      && c.trace[|c.trace| - 1] == ShowError
  {
    var p := Protocol(ChangedOf(r), LoadedOf(r), now);
    assert p[..5] + [ShowError] == [CheckRemote, Pull, ListChanged, Remove(changed), LoadRepository, ShowError];
  }

  // ---------------------------------------------------------------------
  // The auto-check gate at the end of `main`.

  /** The three clock reads of one render: when `last_auto_check` is
      initialised, when the elapsed time is measured, and after the
      check. Time is in whole seconds. */
  datatype Tick = Tick(init: int, now: int, after: int)

  /** Whether a render ran the update cycle, and `last_auto_check` after
      it. */
  datatype Gate = Gate(runs: bool, last: int)

  /** The interval, in seconds, that must be exceeded between checks. */
  const AutoCheckInterval := 30

  /** One render's gate: an unset `last_auto_check` is first set to the
      current time; the cycle runs when strictly more than thirty seconds
      have passed since it, and `last_auto_check` is then reset. */
  function AutoCheck(last: Option<int>, t: Tick): (g: Gate)
    ensures last.None? && t.now - t.init <= AutoCheckInterval ==> g == Gate(false, t.init)
    ensures last.Some? && t.now - last.value <= AutoCheckInterval ==> g == Gate(false, last.value)
    ensures g.runs ==> g.last == t.after
    ensures last.None? ==> (g.runs <==> t.now - t.init > AutoCheckInterval)
    ensures last.Some? ==> (g.runs <==> t.now - last.value > AutoCheckInterval)
  {
    var since := if last.None? then t.init else last.value;
    if t.now - since > AutoCheckInterval then Gate(true, t.after) else Gate(false, since)
  }

  /** The gate over a run of renders. */
  function Renders(last: Option<int>, ticks: seq<Tick>): (gs: seq<Gate>)
    ensures |gs| == |ticks|
    ensures forall i :: 0 <= i < |gs| && gs[i].runs ==> gs[i].last == ticks[i].after
    decreases |ticks|
  {
    if ticks == [] then []
    else
      var g := AutoCheck(last, ticks[0]);
      [g] + Renders(Some(g.last), ticks[1..])
  }

  /** The clock never goes back, within a render or between renders. */
  predicate MonotoneClock(ticks: seq<Tick>) {
    && (forall i :: 0 <= i < |ticks| ==> ticks[i].init <= ticks[i].now <= ticks[i].after)
    && (forall i :: 0 <= i < |ticks| - 1 ==> ticks[i].after <= ticks[i + 1].init)
  }

  /** From a set `last_auto_check` no earlier than the clock's first read,
      every check runs more than thirty seconds after it. */
  lemma {:induction false} ChecksAfter(last: int, ticks: seq<Tick>)
    requires MonotoneClock(ticks)
    requires ticks != [] ==> last <= ticks[0].init
    ensures forall j :: 0 <= j < |ticks| && Renders(Some(last), ticks)[j].runs ==>
      ticks[j].now > last + AutoCheckInterval
    decreases |ticks|
  {
    if ticks != [] {
      var gs := Renders(Some(last), ticks);
      var g := AutoCheck(Some(last), ticks[0]);
      assert g.last >= last;
      assert MonotoneClock(ticks[1..]);
      ChecksAfter(g.last, ticks[1..]);
      forall j | 0 < j < |ticks| && gs[j].runs ensures ticks[j].now > last + AutoCheckInterval {
        assert gs[j] == Renders(Some(g.last), ticks[1..])[j - 1];
      }
    }
  }

  /** The renders after position `i` continue from the state render `i`
      left. */
  lemma {:induction false} RendersSuffix(last: Option<int>, ticks: seq<Tick>, i: nat)
    requires i < |ticks|
    ensures Renders(last, ticks)[i + 1..] == Renders(Some(Renders(last, ticks)[i].last), ticks[i + 1..])
    decreases i
  {
    if i > 0 {
      var g := AutoCheck(last, ticks[0]);
      RendersSuffix(Some(g.last), ticks[1..], i - 1);
      assert ticks[1..][i..] == ticks[i + 1..];
    }
  }

  /** With a clock that never goes back, two update cycles started by the
      gate are always more than thirty seconds apart. */
  lemma ChecksSpaced(last: Option<int>, ticks: seq<Tick>, i: nat, j: nat)
    requires MonotoneClock(ticks)
    requires i < j < |ticks|
    requires Renders(last, ticks)[i].runs && Renders(last, ticks)[j].runs
    ensures ticks[j].now - ticks[i].now > AutoCheckInterval
  {
    var gs := Renders(last, ticks);
    RendersSuffix(last, ticks, i);
    assert gs[i].last == ticks[i].after;
    var rest := ticks[i + 1..];
    assert MonotoneClock(rest);
    ChecksAfter(gs[i].last, rest);
    assert gs[j] == Renders(Some(gs[i].last), rest)[j - i - 1];
  }

  // ---------------------------------------------------------------------
  // `process_uploaded_sources`.

  /** A file uploaded in the browser: its name and extracted content. */
  datatype Upload = Upload(name: string, content: string)

  /** An optional remote source: not given, given but failing to fetch,
      or fetched. */
  datatype Fetch<T> = NotGiven | Failed | Fetched(value: T)

  /** The upload results: the number of chunks gathered, or the exception
      of the index call, which nothing catches; and the calls made. */
  datatype Uploaded = Uploaded(count: Outcome<int>, trace: seq<Effect>)

  /** The documents of the direct uploads, in upload order. */
  function UploadDocs(uploads: seq<Upload>, cfg: Config): seq<Document>
    requires cfg.chunkSize > 0
    decreases |uploads|
  {
    if uploads == [] then []
    else LoadUploadedFile(uploads[0].name, uploads[0].content, cfg) + UploadDocs(uploads[1..], cfg)
  }

  /** The number of chunks of the direct uploads, file by file. */
  function UploadChunks(uploads: seq<Upload>, cfg: Config): nat
    requires cfg.chunkSize > 0
    decreases |uploads|
  {
    if uploads == [] then 0
    else |LoadUploadedFile(uploads[0].name, uploads[0].content, cfg)| + UploadChunks(uploads[1..], cfg)
  }

  lemma {:induction false} UploadCount(uploads: seq<Upload>, cfg: Config)
    requires cfg.chunkSize > 0
    ensures |UploadDocs(uploads, cfg)| == UploadChunks(uploads, cfg)
    decreases |uploads|
  {
    if uploads != [] {
      UploadCount(uploads[1..], cfg);
    }
  }

  /** The documents of a cloned repository. */
  function RepoDocs(repo: Fetch<seq<SourceFile>>, cfg: Config): seq<Document>
    requires cfg.chunkSize > 0
  {
    if repo.Fetched? then LoadDirectory(repo.value, cfg) else []
  }

  /** The documents of a downloaded file. */
  function FileDocs(file: Fetch<SourceFile>, cfg: Config): seq<Document>
    requires cfg.chunkSize > 0
  {
    if file.Fetched? then LoadDocument(file.value.path, file.value.content, cfg) else []
  }

  /** The error banners of the sources given but not fetched. */
  function Failures(repo: Fetch<seq<SourceFile>>, drive: Fetch<SourceFile>, dropbox: Fetch<SourceFile>): (errors: seq<Effect>)
    ensures ShowError in errors <==> repo.Failed? || drive.Failed? || dropbox.Failed?
    ensures forall e :: e in errors ==> e == ShowError
    ensures IndexCalls(errors) == 0
  {
    var errors := (if repo.Failed? then [ShowError] else [])
      + (if drive.Failed? then [ShowError] else [])
      + (if dropbox.Failed? then [ShowError] else []);
    NoIndexCalls(errors);
    errors
  }

  /** How often the index was asked to add documents. */
  function IndexCalls(trace: seq<Effect>): nat
    decreases |trace|
  {
    if trace == [] then 0
    else (if trace[0].Index? then 1 else 0) + IndexCalls(trace[1..])
  }

  lemma {:induction false} IndexCallsConcat(a: seq<Effect>, b: seq<Effect>)
    ensures IndexCalls(a + b) == IndexCalls(a) + IndexCalls(b)
    decreases |a|
  {
    if a == [] {
      assert a + b == b;
    } else {
      assert (a + b)[1..] == a[1..] + b;
      IndexCallsConcat(a[1..], b);
    }
  }

  /** Everything gathered, in source order. */
  function Gathered(uploads: seq<Upload>, repo: Fetch<seq<SourceFile>>,
                    drive: Fetch<SourceFile>, dropbox: Fetch<SourceFile>, cfg: Config): (all: seq<Document>)
    requires cfg.chunkSize > 0
    ensures |all| == UploadChunks(uploads, cfg) + |RepoDocs(repo, cfg)| + |FileDocs(drive, cfg)| + |FileDocs(dropbox, cfg)|
  {
    UploadCount(uploads, cfg);
    UploadDocs(uploads, cfg) + RepoDocs(repo, cfg) + FileDocs(drive, cfg) + FileDocs(dropbox, cfg)
  }

  /** The closing calls: one `Index` of everything gathered, then the
      time stamp unless the index call raised; nothing when nothing was
      gathered. */
  function Indexing(all: seq<Document>, index: Outcome<()>, now: int): (trace: seq<Effect>)
    ensures IndexCalls(trace) == (if all == [] then 0 else 1)
    ensures SetLastUpdate(now) in trace <==> all != [] && index.Returned?
    ensures forall e :: e in trace && e.Index? ==> e.docs == all
  {
    if all == [] then []
    else if index.Raised? then
      var t := [Index(all)];
      assert t[1..] == [];
      t
    else
      var t := [Index(all), SetLastUpdate(now)];
      assert t[1..] == [SetLastUpdate(now)] && t[1..][1..] == [];
      assert IndexCalls(t[1..]) == 0;
      t
  }

  /** `process_uploaded_sources`: the direct uploads, then the repository,
      the Drive file and the Dropbox file are gathered in that order; a
      source that fails shows an error and adds nothing; everything
      gathered is indexed in one call, and only if there is something. The
      index call is not guarded, so its exception leaves the function with
      the time not stamped. */
  function ProcessUploads(uploads: seq<Upload>, repo: Fetch<seq<SourceFile>>,
                          drive: Fetch<SourceFile>, dropbox: Fetch<SourceFile>,
                          index: Outcome<()>, cfg: Config, now: int): (u: Uploaded)
    requires cfg.chunkSize > 0
    ensures var total := UploadChunks(uploads, cfg) + |RepoDocs(repo, cfg)| + |FileDocs(drive, cfg)| + |FileDocs(dropbox, cfg)|;
      && (u.count.Raised? <==> total > 0 && index.Raised?)
      && (u.count.Returned? ==> u.count.value == total)
      && (IndexCalls(u.trace) == 1 <==> total > 0)
      && (SetLastUpdate(now) in u.trace <==> total > 0 && index.Returned?)
    ensures IndexCalls(u.trace) <= 1
    ensures forall e :: e in u.trace && e.Index? ==> e.docs == Gathered(uploads, repo, drive, dropbox, cfg)
    ensures ShowError in u.trace <==> repo.Failed? || drive.Failed? || dropbox.Failed?
  {
    var all := Gathered(uploads, repo, drive, dropbox, cfg);
    var errors := Failures(repo, drive, dropbox);
    var closing := Indexing(all, index, now);
    IndexCallsConcat(errors, closing);
    Uploaded(if all != [] && index.Raised? then Raised else Returned(|all|), errors + closing)
  }

  /** A trace with no `Index` call counts none. */
  lemma {:induction false} NoIndexCalls(trace: seq<Effect>)
    requires forall e :: e in trace ==> !e.Index?
    ensures IndexCalls(trace) == 0
    decreases |trace|
  {
    if trace != [] {
      assert trace[0] in trace;
      forall e | e in trace[1..] ensures !e.Index? {
        assert e in trace;
      }
      NoIndexCalls(trace[1..]);
    }
  }

  /** With only direct uploads there is no error banner, and the count is
      the sum of the uploads' chunk counts. */
  lemma UploadsWithoutSources(uploads: seq<Upload>, cfg: Config, now: int)
    requires cfg.chunkSize > 0
    ensures var u := ProcessUploads(uploads, NotGiven, NotGiven, NotGiven, Returned(()), cfg, now);
      && u.count == Returned(UploadChunks(uploads, cfg))
      && ShowError !in u.trace
  {
  }
}
