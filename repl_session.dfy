/** The interactive shell's session (src/repl.rs `run_repl`): a loop that reads a
    line, runs one command, and keeps the current directory `cwd` together with
    the completion helper's copy of it. The line editor, the store and the
    commands' printed output are outside: each input is what `readline` returned
    (with the tokens `shell_words::split` makes of the trimmed line), the store
    answers existence checks through `dirExists`, and each command's outcome is an
    `Effect` value. */
module Session {
  import opened Common
  import opened PathModel
  import ReplPaths
  import ScanArgs
  import Completion

  /** What `readline` returned. */
  datatype Input =
    | Line(text: string, parts: seq<string>)
    | Interrupted
    | Eof
    | ReadError

  /** What the loop does next: read another line, leave normally, or leave with an error. */
  datatype Flow = Continue | Quit | Fail

  /** What one command does, besides changing `cwd`. */
  datatype Effect =
    | Nothing
    | Help
    | ShowPath(text: string)
    | NoSuchDirectory(text: string)
    | ListDir(path: Path)
    | ScanDir(path: Path, limit: nat, prefix: Option<seq<byte>>, raw: bool)
    | UnknownCommand(name: string)

  /** `parts.get(0)` */
  function First(args: seq<string>): Option<string> {
    if args == [] then None else Some(args[0])
  }

  /** One command with its arguments: the flow, the effect and the new `cwd`. */
  function Command(cwd: Path, cmd: string, args: seq<string>, dirExists: Path -> Query<bool>): (Flow, Effect, Path) {
    if cmd == "help" then (Continue, Help, cwd)
    else if cmd == "quit" || cmd == "exit" then (Quit, Nothing, cwd)
    else if cmd == "pwd" then (Continue, ShowPath(DisplayPath(cwd)), cwd)
    else if cmd == "cd" then
      var target := ReplPaths.CdTarget(cwd, First(args));
      if dirExists(target) == Answer(true) then (Continue, Nothing, target)
      else (Continue, NoSuchDirectory(DisplayPath(target)), cwd)
    else if cmd == "ls" then (Continue, ListDir(ReplPaths.LsTarget(cwd, First(args))), cwd)
    else if cmd == "scan" || cmd == "dump" then
      (Continue, ScanDir(cwd, ScanArgs.LimitOf(args), ScanArgs.FirstPrefix(args), ScanArgs.RawOf(args)), cwd)
    else (Continue, UnknownCommand(cmd), cwd)
  }

  /** One turn of the loop. `^C` and blank lines are skipped, end of input leaves
      normally and a read error leaves with an error; a non-blank line that yields
      no tokens makes `parts.remove(0)` panic, which also ends the session. */
  function Respond(cwd: Path, input: Input, dirExists: Path -> Query<bool>): (Flow, Effect, Path) {
    match input
    case Interrupted => (Continue, Nothing, cwd)
    case Eof => (Quit, Nothing, cwd)
    case ReadError => (Fail, Nothing, cwd)
    case Line(text, parts) =>
      if Trim(text) == [] then (Continue, Nothing, cwd)
      else if parts == [] then (Fail, Nothing, cwd)
      else Command(cwd, parts[0], parts[1..], dirExists)
  }

  /** A whole session over the inputs, from `cwd`: the turns run until one of them
      leaves; running out of inputs leaves the loop waiting for more (`Continue`). */
  function Run(cwd: Path, inputs: seq<Input>, dirExists: Path -> Query<bool>): (Flow, seq<Effect>, Path)
    decreases |inputs|
  {
    if inputs == [] then (Continue, [], cwd)
    else
      var (flow, effect, next) := Respond(cwd, inputs[0], dirExists);
      if flow != Continue then (flow, [effect], next)
      else
        var (f, es, c) := Run(next, inputs[1..], dirExists);
        (f, [effect] + es, c)
  }

  /** The effects already produced, in front of what the rest of a session does. */
  function Then(done: seq<Effect>, rest: (Flow, seq<Effect>, Path)): (Flow, seq<Effect>, Path) {
    (rest.0, done + rest.1, rest.2)
  }

  // ---------------------------------------------------------------------------
  // The loop
  // ---------------------------------------------------------------------------

  /** The shell's state: its current directory and the completion helper that holds
      a copy of it (shared through a mutex in `src/repl.rs`). */
  class Repl {
    var cwd: Path
    const helper: Completion.ReplHelper

    ghost predicate Valid()
      reads this, helper
    {
      helper.cwd == cwd && WellFormed(cwd)
    }

    constructor ()
      ensures Valid() && cwd == [] && fresh(helper)
    {
      cwd := [];
      helper := new Completion.ReplHelper();
    }

    /** One turn of `run_repl`'s loop; `cwd` and the helper's copy change together,
        after a `cd` whose target the store reports to exist, and at no other time. */
    method Step(input: Input, dirExists: Path -> Query<bool>) returns (flow: Flow, effect: Effect)
      requires Valid()
      modifies this, helper
      ensures Valid()
      ensures (flow, effect, cwd) == Respond(old(cwd), input, dirExists)
    {
      match input {
        case Interrupted => return Continue, Nothing;
        case Eof => return Quit, Nothing;
        case ReadError => return Fail, Nothing;
        case Line(text, parts) =>
          var line := Trim(text);
          if line == [] {
            return Continue, Nothing;
          }
          if parts == [] {
            return Fail, Nothing;
          }
          var cmd := parts[0];
          var args := parts[1..];
          if cmd == "help" {
            return Continue, Help;
          } else if cmd == "quit" || cmd == "exit" {
            return Quit, Nothing;
          } else if cmd == "pwd" {
            return Continue, ShowPath(DisplayPath(cwd));
          } else if cmd == "cd" {
            var target := if |args| > 0 then Some(args[0]) else None;
            var newPath := ReplPaths.CdTarget(cwd, target);
            var ok := match dirExists(newPath) case Answer(v) => v case QueryError => false;
            if ok {
              cwd := newPath;
              helper.cwd := cwd;
              return Continue, Nothing;
            }
            return Continue, NoSuchDirectory(DisplayPath(newPath));
          } else if cmd == "ls" {
            var target := if |args| > 0 then Some(args[0]) else None;
            return Continue, ListDir(ReplPaths.LsTarget(cwd, target));
          } else if cmd == "scan" || cmd == "dump" {
            var limit, prefix, raw := ScanArgs.ParseScanArgs(args);
            return Continue, ScanDir(cwd, limit, prefix, raw);
          } else {
            return Continue, UnknownCommand(cmd);
          }
      }
    }
  }

  /** `run_repl`: starts at the root and runs turns until one leaves the loop. */
  method RunRepl(inputs: seq<Input>, dirExists: Path -> Query<bool>) returns (flow: Flow, effects: seq<Effect>, cwd: Path)
    ensures (flow, effects, cwd) == Run([], inputs, dirExists)
  {
    var repl := new Repl();
    effects := [];
    var i := 0;
    assert inputs[0..] == inputs;
    assert [] + Run([], inputs, dirExists).1 == Run([], inputs, dirExists).1;
    while i < |inputs|
      invariant 0 <= i <= |inputs| && repl.Valid()
      invariant Run([], inputs, dirExists) == Then(effects, Run(repl.cwd, inputs[i..], dirExists))
    {
      ghost var before := repl.cwd;
      var f, e := repl.Step(inputs[i], dirExists);
      assert inputs[i..][0] == inputs[i] && inputs[i..][1..] == inputs[i + 1..];
      RunStep(before, inputs[i..], effects, dirExists);
      effects := effects + [e];
      if f != Continue {
        return f, effects, repl.cwd;
      }
      i := i + 1;
    }
    assert effects + [] == effects;
    return Continue, effects, repl.cwd;
  }

  /** One turn taken off the front of a session. */
  lemma RunStep(cwd: Path, inputs: seq<Input>, done: seq<Effect>, dirExists: Path -> Query<bool>)
    requires inputs != []
    ensures var (flow, effect, next) := Respond(cwd, inputs[0], dirExists);
      Then(done, Run(cwd, inputs, dirExists))
        == if flow != Continue then (flow, done + [effect], next)
           else Then(done + [effect], Run(next, inputs[1..], dirExists))
  {
    var (flow, effect, next) := Respond(cwd, inputs[0], dirExists);
    if flow == Continue {
      var rest := Run(next, inputs[1..], dirExists);
      assert done + ([effect] + rest.1) == done + [effect] + rest.1;
    }
  }

  // ---------------------------------------------------------------------------
  // What a session keeps
  // ---------------------------------------------------------------------------

  /** A directory the shell may stand in: the root, or one the store says exists. */
  predicate Reached(cwd: Path, dirExists: Path -> Query<bool>) {
    cwd == [] || dirExists(cwd) == Answer(true)
  }

  /** `cwd` changes only on a `cd` whose target the store reports to exist, and then
      becomes that target. */
  lemma OnlyCdMoves(cwd: Path, input: Input, dirExists: Path -> Query<bool>)
    ensures var next := Respond(cwd, input, dirExists).2;
      next != cwd ==>
        input.Line? && input.parts != [] && input.parts[0] == "cd"
        && next == ReplPaths.CdTarget(cwd, First(input.parts[1..])) && dirExists(next) == Answer(true)
  {
    if input.Line? && Trim(input.text) != [] && input.parts != [] {
      CommandMoves(cwd, input.parts[0], input.parts[1..], dirExists);
    }
  }

  lemma CommandMoves(cwd: Path, cmd: string, args: seq<string>, dirExists: Path -> Query<bool>)
    ensures var next := Command(cwd, cmd, args, dirExists).2;
      next == cwd || (cmd == "cd" && next == ReplPaths.CdTarget(cwd, First(args)) && dirExists(next) == Answer(true))
  {
    if cmd != "cd" {
      assert Command(cwd, cmd, args, dirExists).2 == cwd;
    }
  }

  /** A `cd` moves to its target when the store reports that the target exists; when
      the check answers false or fails, `cwd` stays and the missing directory is
      reported. */
  lemma CdOutcome(cwd: Path, text: string, args: seq<string>, dirExists: Path -> Query<bool>)
    requires Trim(text) != []
    ensures var target := ReplPaths.CdTarget(cwd, First(args));
      var (flow, effect, next) := Respond(cwd, Line(text, ["cd"] + args), dirExists);
      flow == Continue
      && (dirExists(target) == Answer(true) ==> next == target && effect == Nothing)
      && (dirExists(target) != Answer(true) ==> next == cwd && effect == NoSuchDirectory(DisplayPath(target)))
  {
    assert (["cd"] + args)[0] == "cd" && (["cd"] + args)[1..] == args;
  }

  /** One turn keeps `cwd` well formed and at a directory the shell may stand in. */
  lemma RespondKeeps(cwd: Path, input: Input, dirExists: Path -> Query<bool>)
    requires WellFormed(cwd) && Reached(cwd, dirExists)
    ensures var next := Respond(cwd, input, dirExists).2;
      WellFormed(next) && Reached(next, dirExists)
  {
    OnlyCdMoves(cwd, input, dirExists);
  }

  /** So does a whole session, however many turns it runs. */
  lemma {:induction false} RunKeeps(cwd: Path, inputs: seq<Input>, dirExists: Path -> Query<bool>)
    requires WellFormed(cwd) && Reached(cwd, dirExists)
    ensures var last := Run(cwd, inputs, dirExists).2;
      WellFormed(last) && Reached(last, dirExists)
    decreases |inputs|
  {
    if inputs != [] {
      RespondKeeps(cwd, inputs[0], dirExists);
      var (flow, effect, next) := Respond(cwd, inputs[0], dirExists);
      if flow == Continue {
        RunKeeps(next, inputs[1..], dirExists);
      }
    }
  }

  /** A session produces one effect per turn it runs, and the turn that leaves the
      loop is the last one. */
  lemma {:induction false} RunLength(cwd: Path, inputs: seq<Input>, dirExists: Path -> Query<bool>)
    ensures var (flow, effects, last) := Run(cwd, inputs, dirExists);
      |effects| <= |inputs| && (flow == Continue ==> |effects| == |inputs|)
    decreases |inputs|
  {
    if inputs != [] {
      var (flow, effect, next) := Respond(cwd, inputs[0], dirExists);
      if flow == Continue {
        RunLength(next, inputs[1..], dirExists);
      }
    }
  }

  /** `quit`, `exit` and end of input leave normally; a read error leaves with an error. */
  lemma Leaving(cwd: Path, text: string, dirExists: Path -> Query<bool>)
    requires Trim(text) != []
    ensures Respond(cwd, Line(text, ["quit"]), dirExists).0 == Quit
    ensures Respond(cwd, Line(text, ["exit"]), dirExists).0 == Quit
    ensures Respond(cwd, Eof, dirExists).0 == Quit && Respond(cwd, ReadError, dirExists).0 == Fail
  {
  }
}
