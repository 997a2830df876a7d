/**
 * The argument loop of `main`: every command-line argument names a file
 * that is checked, opened and scanned in turn. The filesystem is a map
 * from argument to what stands at that path.
 */
module Driver {
  import opened Metrics

  /** What the filesystem holds at a path that is present. */
  datatype Entry =
    | Special        // exists, but is not a regular file (a directory, a device)
    | Denied         // a regular file that `File::open` fails on
    | Text(content: string)  // a regular file whose bytes decode as UTF-8
    | Undecodable    // a regular file with invalid UTF-8 or a read error

  type FileSystem = map<string, Entry>

  /** The two ways `open_file` fails. */
  datatype OpenErrorKind = NotFound | OpenFailed

  datatype OpenResult = Opened(entry: Entry) | OpenError(kind: OpenErrorKind)

  /** What the program reports for one argument. */
  datatype Outcome =
    | Report(arg: string, metrics: Metrics)  // "File: ..." and the tallies on standard output
    | CouldNotOpen(arg: string, kind: OpenErrorKind)  // "Couldn't open file ..." on standard error
    | Panicked(arg: string)  // the `expect` on a line that could not be read

  /** How the process ends: `main` returns `Ok(())`, or a panic unwinds it. */
  datatype Exit = Success | Panic

  /** Everything one run of the program produces. */
  datatype Session = Session(usage: bool, outcomes: seq<Outcome>, exit: Exit)

  /** `file_exists`: the path exists and is a regular file. */
  predicate FileExists(fs: FileSystem, arg: string)
  {
    arg in fs && !fs[arg].Special?
  }

  /**
   * `open_file`: a path that does not name an existing regular file fails
   * with `NotFound` before any open is tried; otherwise the open itself may
   * still fail.
   */
  function OpenFile(fs: FileSystem, arg: string): (r: OpenResult)
    ensures r == OpenError(NotFound) <==> !FileExists(fs, arg)
    ensures r == OpenError(OpenFailed) <==> arg in fs && fs[arg] == Denied
    ensures r.Opened? ==> arg in fs && r.entry == fs[arg] && (r.entry.Text? || r.entry.Undecodable?)
  {
    if !FileExists(fs, arg) then OpenError(NotFound)
    else if fs[arg].Denied? then OpenError(OpenFailed)
    else Opened(fs[arg])
  }

  /** What processing one argument yields. */
  function OutcomeFor(fs: FileSystem, arg: string): (o: Outcome)
    ensures o.arg == arg
    ensures o.Report? <==> arg in fs && fs[arg].Text?
    ensures o.Report? ==> o.metrics == MetricsOf(fs[arg].content)
    ensures o.Panicked? <==> arg in fs && fs[arg].Undecodable?
    ensures o.CouldNotOpen? ==> o.kind == (if FileExists(fs, arg) then OpenFailed else NotFound)
  {
    match OpenFile(fs, arg)
    case OpenError(kind) => CouldNotOpen(arg, kind)
    case Opened(Text(content)) => Report(arg, MetricsOf(content))
    case Opened(_) => Panicked(arg)
  }

  /** The outcomes of processing `args` in order, stopping after the first panic. */
  function Outcomes(fs: FileSystem, args: seq<string>): seq<Outcome>
  {
    if |args| == 0 then []
    else
      var o := OutcomeFor(fs, args[0]);
      if o.Panicked? then [o] else [o] + Outcomes(fs, args[1..])
  }

  /**
   * Outcome `k` belongs to argument `k`, only the last outcome can be a
   * panic, and the outcomes fall short of the arguments only when they end
   * in one.
   */
  lemma {:induction false} OutcomesInOrder(fs: FileSystem, args: seq<string>)
    ensures |Outcomes(fs, args)| <= |args|
    ensures forall k :: 0 <= k < |Outcomes(fs, args)| ==> Outcomes(fs, args)[k] == OutcomeFor(fs, args[k])
    ensures forall k :: 0 <= k < |Outcomes(fs, args)| - 1 ==> !Outcomes(fs, args)[k].Panicked?
    ensures |Outcomes(fs, args)| < |args| ==>
      Outcomes(fs, args) != [] && Outcomes(fs, args)[|Outcomes(fs, args)| - 1].Panicked?
  {
    if |args| != 0 && !OutcomeFor(fs, args[0]).Panicked? {
      OutcomesInOrder(fs, args[1..]);
    }
  }

  /** A list of outcomes with no panic in it. */
  predicate NoPanic(os: seq<Outcome>)
  {
    forall k :: 0 <= k < |os| ==> !os[k].Panicked?
  }

  /** One more argument after a list without a panic adds its own outcome. */
  lemma {:induction false} OutcomesSnoc(fs: FileSystem, args: seq<string>, arg: string)
    requires NoPanic(Outcomes(fs, args))
    ensures Outcomes(fs, args + [arg]) == Outcomes(fs, args) + [OutcomeFor(fs, arg)]
  {
    if |args| == 0 {
      assert args + [arg] == [arg];
    } else {
      var o, os, tail := OutcomeFor(fs, args[0]), Outcomes(fs, args), Outcomes(fs, args[1..]);
      assert !o.Panicked? by { assert os[0] == o; }
      assert os == [o] + tail;
      assert NoPanic(tail) by {
        forall k | 0 <= k < |tail| ensures !tail[k].Panicked? {
          assert tail[k] == os[k + 1];
        }
      }
      assert (args + [arg])[0] == args[0];
      assert (args + [arg])[1..] == args[1..] + [arg];
      OutcomesSnoc(fs, args[1..], arg);
    }
  }

  /** Once a panic has happened, later arguments add nothing. */
  lemma {:induction false} OutcomesStop(fs: FileSystem, args: seq<string>, more: seq<string>)
    requires !NoPanic(Outcomes(fs, args))
    ensures Outcomes(fs, args + more) == Outcomes(fs, args)
  {
    assert args != [];
    assert (args + more)[0] == args[0];
    if !OutcomeFor(fs, args[0]).Panicked? {
      assert (args + more)[1..] == args[1..] + more;
      OutcomesStop(fs, args[1..], more);
    }
  }

  /**
   * `main`: with no arguments only the usage message; otherwise each
   * argument in turn is opened and scanned. A file that cannot be opened is
   * reported and skipped (`continue`); a file whose lines cannot be read
   * panics, which ends the whole run.
   */
  method Run(fs: FileSystem, args: seq<string>) returns (s: Session)
    ensures s.usage <==> args == []
    ensures args == [] ==> s.outcomes == [] && s.exit == Success
    ensures s.outcomes == Outcomes(fs, args)
    ensures s.exit == Success <==> NoPanic(s.outcomes)
  {
    if args == [] {
      return Session(true, [], Success);
    }
    var outcomes: seq<Outcome> := [];
    for i := 0 to |args|
      invariant outcomes == Outcomes(fs, args[..i])
      invariant NoPanic(outcomes)
    {
      var arg := args[i];
      assert args[..i + 1] == args[..i] + [arg];
      OutcomesSnoc(fs, args[..i], arg);
      ghost var next := Outcomes(fs, args[..i + 1]);
      assert next == outcomes + [OutcomeFor(fs, arg)];
      var file := OpenFile(fs, arg);
      if file.OpenError? {
        assert OutcomeFor(fs, arg) == CouldNotOpen(arg, file.kind);
        outcomes := outcomes + [CouldNotOpen(arg, file.kind)];
        continue;
      }
      if file.entry.Text? {
        var m := GetMetrics(file.entry.content);
        assert OutcomeFor(fs, arg) == Report(arg, m);
        outcomes := outcomes + [Report(arg, m)];
      } else {
        assert OutcomeFor(fs, arg) == Panicked(arg);
        outcomes := outcomes + [Panicked(arg)];
        assert !NoPanic(next) by { assert next[|next| - 1] == Panicked(arg); }
        assert args == args[..i + 1] + args[i + 1..];
        OutcomesStop(fs, args[..i + 1], args[i + 1..]);
        return Session(false, outcomes, Panic);
      }
    }
    assert args[..|args|] == args;
    s := Session(false, outcomes, Success);
  }

  /**
   * When no file panics, there is exactly one outcome per argument, in
   * argument order.
   */
  lemma OneOutcomePerArgument(fs: FileSystem, args: seq<string>)
    requires forall k :: 0 <= k < |args| ==> !(args[k] in fs && fs[args[k]].Undecodable?)
    ensures |Outcomes(fs, args)| == |args|
    ensures forall k :: 0 <= k < |args| ==> Outcomes(fs, args)[k].arg == args[k]
  {
    OutcomesInOrder(fs, args);
    var os := Outcomes(fs, args);
    assert forall k :: 0 <= k < |os| ==> !os[k].Panicked?;
  }

  /**
   * A file that does not exist gives an open error and no report, and the
   * arguments after it are still processed.
   */
  lemma MissingFileSkipped(fs: FileSystem, args: seq<string>, k: nat)
    requires k < |args| && args[k] !in fs
    requires k < |Outcomes(fs, args)|
    ensures Outcomes(fs, args)[k] == CouldNotOpen(args[k], NotFound)
    ensures k + 1 < |args| ==> k + 1 < |Outcomes(fs, args)|
  {
    OutcomesInOrder(fs, args);
    var os := Outcomes(fs, args);
    assert os[k] == OutcomeFor(fs, args[k]);
  }
}
