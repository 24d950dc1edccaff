/** `GenericFileListOperation`: the batch engine behind the commands.  It checks that it
    runs in a directory, picks the children the selector accepts, lets an optional
    validator veto the whole batch, and then runs the processor once per entry, collecting
    the failures into a table that it reports at the end.  Entries are represented by
    their names (the children of one directory have different names); the selector is a
    predicate on names, and the processor is given by the outcome of each call: `None`
    when it returns normally, `Some(message)` when it throws an exception with that
    message. */
module GenericFileListOperation {
  import opened Text
  import opened NameConverter
  import opened Validation

  /** The working directory: a null path, a path that is not a directory, or a directory
      whose `listFiles` gives the children, or null. */
  datatype Cwd = NullPath | NotDirectory | Directory(listing: Option<seq<string>>)

  /** Why a batch stops before processing anything: one of the two assertions on the
      working directory, or the validator's verdict. */
  datatype Stop = NullCwd | NotADirectory | Rejected(repeated: set<string>)

  /** The message printed on the error stream when an assertion stops the batch. */
  const NullCwdMessage := "Please run the command on a non-null directory"
  const NotADirectoryMessage := "Please run the command on a directory"

  /** How a run ends: stopped before any work, or completed with the entries passed to
      the processor in order, the failure table, the number of entries that went through,
      and the text printed as the report, if any. */
  datatype Outcome =
    | Stopped(reason: Stop)
    | Completed(calls: seq<string>, errors: map<string, string>, succeeded: nat,
                report: Option<string>)

  /** The value `execute` returns. */
  function Ret(o: Outcome): (r: int)
    ensures r == -1 <==> o.Stopped?
    ensures r == 0 <==> o.Completed?
  {
    if o.Stopped? then -1 else 0
  }

  /** The elements of `s` that `select` accepts, in order. */
  function Filter(select: string -> bool, s: seq<string>): (es: seq<string>)
    ensures |es| <= |s|
    ensures forall x :: x in es <==> x in s && select(x)
    ensures Distinct(s) ==> Distinct(es)
  {
    if s == [] then []
    else
      var init := Filter(select, s[..|s| - 1]);
      var x := s[|s| - 1];
      assert forall y :: y in s <==> y in s[..|s| - 1] || y == x by {
        assert s == s[..|s| - 1] + [x];
      }
      if select(x) then init + [x] else init
  }

  /** Filtering a concatenation filters each part and keeps the parts in order, so the
      accepted elements come out in the order they stand in. */
  lemma {:induction false} FilterConcat(select: string -> bool, a: seq<string>, b: seq<string>)
    ensures Filter(select, a + b) == Filter(select, a) + Filter(select, b)
    decreases |b|
  {
    if b == [] {
      assert a + b == a;
    } else {
      var init, x := b[..|b| - 1], b[|b| - 1];
      FilterConcat(select, a, init);
      var t: seq<string> := if select(x) then [x] else [];
      assert (a + b)[..|a + b| - 1] == a + init;
      assert (a + b)[|a + b| - 1] == x;
      assert Filter(select, a + b) == Filter(select, a + init) + t;
      assert Filter(select, b) == Filter(select, init) + t;
      assert Filter(select, a) + Filter(select, init) + t == Filter(select, a) + (Filter(select, init) + t);
    }
  }

  /** A single element is kept exactly when the selector accepts it. */
  lemma FilterOne(select: string -> bool, x: string)
    ensures Filter(select, [x]) == if select(x) then [x] else []
  {
    assert [x][..0] == [];
  }

  /** The entries of a working directory: the selected children, none for a null
      listing. */
  function Selected(listing: Option<seq<string>>, select: string -> bool): seq<string>
  {
    if listing.None? then [] else Filter(select, listing.value)
  }

  /** The failure table after processing `es`: each failing entry mapped to the message of
      its exception. */
  function Failures(es: seq<string>, process: string -> Option<string>): map<string, string>
  {
    if es == [] then map[]
    else
      var init := Failures(es[..|es| - 1], process);
      var e := es[|es| - 1];
      if process(e).Some? then init[e := process(e).value] else init
  }

  /** How many of `es` the processor handles without an exception. */
  function Successes(es: seq<string>, process: string -> Option<string>): nat
  {
    if es == [] then 0
    else Successes(es[..|es| - 1], process) + (if process(es[|es| - 1]).None? then 1 else 0)
  }

  /** A line of the report: the entry's name and the message of its exception. */
  function Line(name: string, message: string): string
  {
    name + " - " + message
  }

  /** The report lines for the failing entries of `es`, in entry order. */
  function FailureLines(es: seq<string>, process: string -> Option<string>): seq<string>
  {
    if es == [] then []
    else
      var init := FailureLines(es[..|es| - 1], process);
      var e := es[|es| - 1];
      if process(e).Some? then init + [Line(e, process(e).value)] else init
  }

  /** The first line of the report. */
  const ReportHeader := "Could not process the following entries:"

  /** The report: the header, the platform line separator `eol`, and the lines joined by
      newlines. */
  function ReportText(lines: seq<string>, eol: string): string
  {
    ReportHeader + eol + Join("\n", lines)
  }

  /** What `execute` does.  `prior` is the validator's list of files before the call, or
      `None` when there is no validator. */
  function Run(cwd: Cwd, select: string -> bool, process: string -> Option<string>,
               prior: Option<seq<string>>, eol: string): Outcome
  {
    match cwd
    case NullPath => Stopped(NullCwd)
    case NotDirectory => Stopped(NotADirectory)
    case Directory(listing) =>
      var es := Selected(listing, select);
      var verdict := if prior.None? then Accepted else Check(prior.value + es);
      if verdict.Conflict? then Stopped(Rejected(verdict.repeated))
      else
        var errors := Failures(es, process);
        Completed(es, errors, Successes(es, process),
                  if errors == map[] then None else Some(ReportText(FailureLines(es, process), eol)))
  }

  /** `execute(selector, processor, validator)`; a null `validator` means none. */
  method Execute(cwd: Cwd, select: string -> bool, process: string -> Option<string>,
                 validator: RepeatedNamesValidator?, eol: string)
    returns (ret: int, outcome: Outcome)
    modifies validator
    ensures outcome == Run(cwd, select, process,
                           if validator == null then None else Some(old(validator.files)), eol)
    ensures ret == Ret(outcome)
    ensures validator != null ==>
      validator.files == old(validator.files) + (if cwd.Directory? then Selected(cwd.listing, select) else [])
  {
    if cwd.NullPath? {
      outcome := Stopped(NullCwd);
      ret := -1;
      return;
    }
    if cwd.NotDirectory? {
      outcome := Stopped(NotADirectory);
      ret := -1;
      return;
    }
    var entries := Selected(cwd.listing, select);
    if validator != null {
      ReadAll(validator, entries);
      var verdict := validator.Validate();
      if verdict.Conflict? {
        outcome := Stopped(Rejected(verdict.repeated));
        ret := -1;
        return;
      }
    }
    var calls, errors, succeeded, lines := ProcessAll(entries, process);
    var report := if errors == map[] then None else Some(ReportText(lines, eol));
    outcome := Completed(calls, errors, succeeded, report);
    ret := 0;
  }

  /** `entries.forEach(validator::readFile)`. */
  method ReadAll(validator: RepeatedNamesValidator, entries: seq<string>)
    modifies validator
    ensures validator.files == old(validator.files) + entries
  {
    for i := 0 to |entries|
      invariant validator.files == old(validator.files) + entries[..i]
    {
      validator.ReadFile(entries[i]);
      assert entries[..i + 1] == entries[..i] + [entries[i]];
    }
    assert entries[..|entries|] == entries;
  }

  /** The processing loop: one call per entry, in order, each failure recorded under its
      entry and as a report line, each success counted. */
  method ProcessAll(entries: seq<string>, process: string -> Option<string>)
    returns (calls: seq<string>, errors: map<string, string>, succeeded: nat, lines: seq<string>)
    ensures calls == entries
    ensures errors == Failures(entries, process)
    ensures succeeded == Successes(entries, process)
    ensures lines == FailureLines(entries, process)
  {
    calls, errors, succeeded, lines := [], map[], 0, [];
    for i := 0 to |entries|
      invariant calls == entries[..i]
      invariant errors == Failures(entries[..i], process)
      invariant succeeded == Successes(entries[..i], process)
      invariant lines == FailureLines(entries[..i], process)
    {
      var entry := entries[i];
      assert entries[..i + 1][..i] == entries[..i];
      calls := calls + [entry];
      match process(entry)
      case None =>
        succeeded := succeeded + 1;
      case Some(message) =>
        errors := errors[entry := message];
        lines := lines + [Line(entry, message)];
    }
    assert entries[..|entries|] == entries;
  }

  /** `execute(selector, processor)`: the same as with a null validator. */
  method ExecuteUnvalidated(cwd: Cwd, select: string -> bool, process: string -> Option<string>,
                            eol: string)
    returns (ret: int, outcome: Outcome)
    ensures outcome == Run(cwd, select, process, None, eol)
    ensures ret == Ret(outcome)
  {
    ret, outcome := Execute(cwd, select, process, null, eol);
  }

  // ---- properties of a run ----

  /** A run stops before processing anything exactly when the working directory fails its
      checks or the validator finds two entries (with the files it already held) that
      normalise to the same name. */
  lemma StopsExactlyWhen(cwd: Cwd, select: string -> bool, process: string -> Option<string>,
                         prior: Option<seq<string>>, eol: string)
    ensures Run(cwd, select, process, prior, eol).Stopped? <==>
      !cwd.Directory? ||
      (prior.Some? && !Distinct(Normalized(prior.value + Selected(cwd.listing, select))))
    ensures Run(cwd, select, process, prior, eol) == Stopped(NullCwd) <==> cwd.NullPath?
    ensures Run(cwd, select, process, prior, eol) == Stopped(NotADirectory) <==> cwd.NotDirectory?
    ensures Ret(Run(cwd, select, process, prior, eol)) == -1 <==>
      !cwd.Directory? ||
      (prior.Some? && !Distinct(Normalized(prior.value + Selected(cwd.listing, select))))
    ensures Ret(Run(cwd, select, process, prior, eol)) == 0 <==>
      cwd.Directory? &&
      (prior.None? || Distinct(Normalized(prior.value + Selected(cwd.listing, select))))
  {
  }

  /** The entries are exactly the children the selector accepts; a null listing gives
      none. */
  lemma EntriesAreSelectedChildren(listing: Option<seq<string>>, select: string -> bool)
    ensures forall x :: x in Selected(listing, select) <==>
      listing.Some? && x in listing.value && select(x)
    ensures listing.None? ==> Selected(listing, select) == []
  {
  }

  /** The failure table holds exactly the entries whose processing threw, each with the
      message of its own exception. */
  lemma {:induction false} FailuresAreFailingEntries(es: seq<string>, process: string -> Option<string>)
    ensures forall x :: x in Failures(es, process) <==> x in es && process(x).Some?
    ensures forall x :: x in Failures(es, process) ==> Failures(es, process)[x] == process(x).value
  {
    if es != [] {
      var init := es[..|es| - 1];
      FailuresAreFailingEntries(init, process);
      assert es == init + [es[|es| - 1]];
    }
  }

  /** Every entry either goes through or is in the failure table: for the distinct
      children of a directory, the successes and the failures add up to the entries. */
  lemma {:induction false} SuccessesAndFailuresAddUp(es: seq<string>, process: string -> Option<string>)
    requires Distinct(es)
    ensures Successes(es, process) + |Failures(es, process)| == |es|
    ensures |FailureLines(es, process)| == |Failures(es, process)|
  {
    if es != [] {
      var init := es[..|es| - 1];
      var e := es[|es| - 1];
      assert Distinct(init);
      SuccessesAndFailuresAddUp(init, process);
      FailuresAreFailingEntries(init, process);
      assert e !in init by {
        assert forall k :: 0 <= k < |init| ==> init[k] == es[k];
      }
    }
  }

  /** Each line of the report names a failing entry and its message, and each failing
      entry has its line. */
  lemma {:induction false} FailureLinesMember(es: seq<string>, process: string -> Option<string>,
                                              line: string)
    ensures line in FailureLines(es, process) <==>
      exists x :: x in es && process(x).Some? && line == Line(x, process(x).value)
    decreases |es|
  {
    if es != [] {
      var init := es[..|es| - 1];
      var e := es[|es| - 1];
      FailureLinesMember(init, process, line);
      assert es == init + [e];
      assert forall x :: x in es <==> x in init || x == e;
    }
  }

  /** In a completed run, the return value is 0 however many entries failed; a report is
      printed exactly when some entry failed; and, for the distinct children of a
      directory, the number of entries that went through is the number of entries less the
      number of failures. */
  lemma CompletedRunSummary(listing: seq<string>, select: string -> bool,
                            process: string -> Option<string>,
                            prior: Option<seq<string>>, eol: string)
    requires Distinct(listing)
    requires Run(Directory(Some(listing)), select, process, prior, eol).Completed?
    ensures var o := Run(Directory(Some(listing)), select, process, prior, eol);
      Ret(o) == 0 &&
      (o.report.Some? <==> exists x :: x in o.calls && process(x).Some?) &&
      o.succeeded == |o.calls| - |o.errors|
  {
    var es := Selected(Some(listing), select);
    FailuresAreFailingEntries(es, process);
    SuccessesAndFailuresAddUp(es, process);
    var errors := Failures(es, process);
    if exists x :: x in es && process(x).Some? {
      var x :| x in es && process(x).Some?;
      assert x in errors;
    }
  }

  /** The report lines are one per entry of the failure table, each naming the entry and
      the message of its exception; so the report of a completed run is the header, the
      separator, and those lines. */
  lemma ReportLines(es: seq<string>, process: string -> Option<string>)
    ensures forall line :: line in FailureLines(es, process) <==>
      exists x :: x in Failures(es, process) && line == Line(x, Failures(es, process)[x])
  {
    FailuresAreFailingEntries(es, process);
    forall line
      ensures line in FailureLines(es, process) <==>
        exists x :: x in Failures(es, process) && line == Line(x, Failures(es, process)[x])
    {
      FailureLinesMember(es, process, line);
    }
  }
}
