/** Tab completion in the interactive shell (src/repl.rs `ReplHelper::complete`).
    The line editor hands over the line; the tokens `shell_words::split` makes of it
    (`parts`) and the directory listing of the store (`list`) are inputs here. The
    result is the byte offset where the replacement starts and the candidates. */
module Completion {
  import opened Common
  import Utf8
  import opened PathModel
  import ReplPaths

  /** The command words offered while the first word is typed. */
  const Commands: seq<string> := ["help", "exit", "quit", "pwd", "cd", "ls", "scan"]

  /** The commands whose argument is completed as a directory path. */
  const PathCommands: seq<string> := ["cd", "ls", "scan"]

  /** A candidate: what the editor lists, and what it puts in place of the token. */
  datatype Pair = Pair(display: string, replacement: string)

  datatype Completion = Completion(start: nat, pairs: seq<Pair>)

  // ---------------------------------------------------------------------------
  // The pieces of a completion
  // ---------------------------------------------------------------------------

  predicate IsBlank(c: char) {
    c == ' ' || c == '\t'
  }

  /** `str::rfind` of a space or tab, as a character index. */
  function LastBlank(line: string): (r: Option<nat>)
    ensures r.Some? ==> r.value < |line| && IsBlank(line[r.value])
                        && forall k :: r.value < k < |line| ==> !IsBlank(line[k])
    ensures r.None? ==> forall k :: 0 <= k < |line| ==> !IsBlank(line[k])
  {
    if line == [] then None
    else if IsBlank(line[|line| - 1]) then Some(|line| - 1)
    else LastBlank(line[..|line| - 1])
  }

  /** Where the replacement starts: the byte offset just past the last space or tab
      (`rfind` answers in bytes, and a blank is one byte), or 0 when there is none. */
  function ReplaceStart(line: string): nat {
    match LastBlank(line)
    case None => 0
    case Some(k) => |Utf8.Encode(line[..k])| + 1
  }

  /** Commands are completed when nothing is typed yet, or while the only word is
      not yet followed by a space. */
  predicate CommandPhase(line: string, parts: seq<string>) {
    |parts| == 0 || (!EndsWith(line, " ") && |parts| == 1)
  }

  /** The commands, in their fixed order, that start with `prefix`. */
  function CommandPairs(cmds: seq<string>, prefix: string): seq<Pair> {
    if cmds == [] then []
    else
      var c := cmds[|cmds| - 1];
      CommandPairs(cmds[..|cmds| - 1], prefix) + if StartsWith(c, prefix) then [Pair(c, c)] else []
  }

  /** The token being completed: nothing after a trailing space, the last word otherwise. */
  function Token(line: string, parts: seq<string>): string
    requires |parts| > 0
  {
    if EndsWith(line, " ") then "" else parts[|parts| - 1]
  }

  /** The path the token denotes: absolute when it starts with `/`, under `cwd` otherwise. */
  function BasePath(cwd: Path, token: string): Path {
    if StartsWith(token, "/") then ParsePath(token) else cwd + ParsePath(token)
  }

  /** The directory to list and the needle its entries must start with: the whole
      base path and no needle after a trailing `/`, otherwise the base path without
      its last segment, which becomes the needle. */
  function ListedDir(cwd: Path, token: string): (Path, string) {
    SplitBase(BasePath(cwd, token), EndsWith(token, "/"))
  }

  /** The whole base path and no needle when `whole`; otherwise the base path
      without its last segment, and that segment (nothing for the root). */
  function SplitBase(base: Path, whole: bool): (Path, string) {
    if whole then (base, "")
    else if base == [] then ([], "")
    else (base[..|base| - 1], base[|base| - 1])
  }

  /** `needle.is_empty() || name.starts_with(&needle)` */
  predicate Admits(needle: string, name: string) {
    needle == [] || StartsWith(name, needle)
  }

  /** The text written before a candidate's name: for an absolute token the listed
      directory rendered with `/` before and after it (just `/` for the root); for
      a relative token nothing. */
  function DirText(token: string, parent: Path): string {
    if StartsWith(token, "/") then
      if parent == [] then "/" else "/" + Join(parent, "/") + "/"
    else ""
  }

  /** The candidates for the listed names that the needle admits, in listing order:
      shown as `name/`, replaced by `dirText + name`, with a `/` after it when `slash`. */
  function PathPairs(items: seq<string>, needle: string, dirText: string, slash: bool): seq<Pair> {
    if items == [] then []
    else
      var name := items[|items| - 1];
      PathPairs(items[..|items| - 1], needle, dirText, slash)
      + if Admits(needle, name) then [Pair(name + "/", dirText + name + if slash then "/" else "")] else []
  }

  /** A failed listing gives no names (`Err(_) => vec![]`). */
  function Items(q: Query<seq<string>>): seq<string> {
    match q
    case Answer(v) => v
    case QueryError => []
  }

  /** What `complete` returns, as written. */
  function CompletionFor(cwd: Path, line: string, parts: seq<string>, list: Path -> Query<seq<string>>): Completion {
    if CommandPhase(line, parts) then Completion(0, CommandPairs(Commands, TrimStart(line)))
    else if parts[0] in PathCommands then
      var token := Token(line, parts);
      var (parent, needle) := ListedDir(cwd, token);
      Completion(ReplaceStart(line), PathPairs(Items(list(parent)), needle, DirText(token, parent), EndsWith(token, "/")))
    else Completion(0, [])
  }

  // ---------------------------------------------------------------------------
  // The helper object
  // ---------------------------------------------------------------------------

  /** The command loop of `complete`: pushes every command that starts with `prefix`. */
  method MatchCommands(prefix: string) returns (pairs: seq<Pair>)
    ensures pairs == CommandPairs(Commands, prefix)
  {
    pairs := [];
    for i := 0 to |Commands|
      invariant pairs == CommandPairs(Commands[..i], prefix)
    {
      var cmd := Commands[i];
      assert Commands[..i + 1][..i] == Commands[..i];
      if StartsWith(cmd, prefix) {
        pairs := pairs + [Pair(cmd, cmd)];
      }
    }
    assert Commands[..|Commands|] == Commands;
  }

  /** The name loop of `complete`: pushes a candidate for every listed name the
      needle admits, shown as `name/` and replaced by the directory text, the name
      and a `/` when `slash`. */
  method MatchNames(items: seq<string>, needle: string, dirText: string, slash: bool)
    returns (pairs: seq<Pair>)
    ensures pairs == PathPairs(items, needle, dirText, slash)
  {
    pairs := [];
    for i := 0 to |items|
      invariant pairs == PathPairs(items[..i], needle, dirText, slash)
    {
      var name := items[i];
      assert items[..i + 1][..i] == items[..i];
      if needle == [] || StartsWith(name, needle) {
        var rep := dirText + name + if slash then "/" else "";
        pairs := pairs + [Pair(name + "/", rep)];
      }
    }
    assert items[..|items|] == items;
  }

  /** The directory `complete` lists for a token, the needle its entries must start
      with, and the text written before each candidate's name (corrected: an empty
      token lists `cwd`, and a relative token keeps the segments it typed). */
  method ChooseDir(cwd: Path, token: string) returns (parent: Path, needle: string, dirText: string)
    ensures (parent, needle) == ListedDirIntended(cwd, token)
    ensures dirText == DirTextIntended(token, parent)
  {
    var typed := ParsePath(token);
    var absolute := StartsWith(token, "/");
    var basePath := if absolute then typed else cwd + typed;
    var slash := EndsWith(token, "/");
    if slash || typed == [] {
      parent, needle := basePath, "";
    } else {
      parent, needle := basePath[..|basePath| - 1], basePath[|basePath| - 1];
    }
    if absolute {
      dirText := if parent == [] then "/" else "/" + Join(parent, "/") + "/";
    } else {
      var rel := if slash || typed == [] then typed else typed[..|typed| - 1];
      dirText := if rel == [] then "" else Join(rel, "/") + "/";
    }
  }

  /** The completion helper: it holds its own copy of the shell's current directory,
      which the shell overwrites after every successful `cd`. */
  class ReplHelper {
    var cwd: Path

    constructor ()
      ensures cwd == []
    {
      cwd := [];
    }

    /** `complete`: matching commands while the first word is typed; for the
        argument of `cd`, `ls` and `scan`, the matching names of the directory
        the token points into. It follows the corrected definitions
        (`CompletionIntended`): an empty token lists the current directory, and a
        relative replacement keeps the directory segments the token typed. */
    method Complete(line: string, parts: seq<string>, list: Path -> Query<seq<string>>)
      returns (start: nat, pairs: seq<Pair>)
      ensures Completion(start, pairs) == CompletionIntended(cwd, line, parts, list)
    {
      var isSpaceTerm := EndsWith(line, " ");
      if |parts| == 0 || (!isSpaceTerm && |parts| == 1) {
        pairs := MatchCommands(TrimStart(line));
        return 0, pairs;
      }
      var cmd := parts[0];
      if cmd in PathCommands {
        var token := if isSpaceTerm then "" else parts[|parts| - 1];
        var parent, needle, dirText := ChooseDir(cwd, token);
        var slash := EndsWith(token, "/");
        var items := match list(parent) case Answer(v) => v case QueryError => [];
        pairs := MatchNames(items, needle, dirText, slash);
        start := ReplaceStart(line);
        return start, pairs;
      }
      return 0, [];
    }
  }

  // ---------------------------------------------------------------------------
  // What the candidates are
  // ---------------------------------------------------------------------------

  /** The start is 0 exactly when the line has no space or tab; otherwise it is the
      length in bytes of the line up to and including the last one. */
  lemma ReplaceStartAfterLastBlank(line: string)
    ensures (ReplaceStart(line) == 0) == (forall k :: 0 <= k < |line| ==> !IsBlank(line[k]))
    ensures LastBlank(line).Some? ==> ReplaceStart(line) == |Utf8.Encode(line[..LastBlank(line).value + 1])|
  {
    if LastBlank(line).Some? {
      var k := LastBlank(line).value;
      assert line[..k + 1] == line[..k] + [line[k]];
      Utf8.EncodeConcat(line[..k], [line[k]]);
      assert Utf8.Encode([line[k]]) == Utf8.EncodeChar(line[k]) + Utf8.Encode([]);
    }
  }

  /** The command candidates are exactly the commands that start with the prefix,
      each replaced by itself. */
  lemma {:induction false} CommandPairsMembers(cmds: seq<string>, prefix: string)
    ensures forall p :: p in CommandPairs(cmds, prefix) <==>
      p.display in cmds && StartsWith(p.display, prefix) && p.replacement == p.display
  {
    if cmds != [] {
      var init := cmds[..|cmds| - 1];
      CommandPairsMembers(init, prefix);
      assert cmds == init + [cmds[|cmds| - 1]];
    }
  }

  /** The path candidates are exactly the listed names the needle admits, each shown
      with a `/` after it and replaced by the directory text, the name and the
      optional `/`; an empty listing gives none. */
  lemma {:induction false} PathPairsMembers(items: seq<string>, needle: string, dirText: string, slash: bool)
    ensures forall p :: p in PathPairs(items, needle, dirText, slash) <==>
      exists name :: name in items && StartsWith(name, needle)
                     && p == Pair(name + "/", dirText + name + if slash then "/" else "")
    ensures |PathPairs(items, needle, dirText, slash)| <= |items|
  {
    if items != [] {
      var init, last := items[..|items| - 1], items[|items| - 1];
      PathPairsMembers(init, needle, dirText, slash);
      assert items == init + [last];
      assert Admits(needle, last) == StartsWith(last, needle);
      forall p | p in PathPairs(items, needle, dirText, slash)
        ensures exists name :: name in items && StartsWith(name, needle)
                               && p == Pair(name + "/", dirText + name + if slash then "/" else "")
      {
        if p !in PathPairs(init, needle, dirText, slash) {
          assert last in items;
        } else {
          var name :| name in init && StartsWith(name, needle)
                      && p == Pair(name + "/", dirText + name + if slash then "/" else "");
          assert name in items;
        }
      }
      forall p | exists name :: name in items && StartsWith(name, needle)
                                && p == Pair(name + "/", dirText + name + if slash then "/" else "")
        ensures p in PathPairs(items, needle, dirText, slash)
      {
        var name :| name in items && StartsWith(name, needle)
                    && p == Pair(name + "/", dirText + name + if slash then "/" else "");
        if name != last {
          assert name in init;
        }
      }
    }
  }

  /** While the first word is typed, the start is 0 and the candidates are the
      commands that start with the line with its leading white space removed. */
  lemma CompleteCommand(cwd: Path, line: string, parts: seq<string>, list: Path -> Query<seq<string>>)
    requires CommandPhase(line, parts)
    ensures var c := CompletionFor(cwd, line, parts, list);
      c.start == 0
      && forall p :: p in c.pairs <==>
           p.display in Commands && StartsWith(p.display, TrimStart(line)) && p.replacement == p.display
  {
    CommandPairsMembers(Commands, TrimStart(line));
  }

  /** For the argument of `cd`, `ls` or `scan`, the candidates come from listing the
      directory `ListedDir` picks, filtered by its needle, and replacement starts
      after the last blank; if that listing fails there are none. For any other
      command with an argument there is nothing to complete. */
  lemma CompletePathArgument(cwd: Path, line: string, parts: seq<string>, list: Path -> Query<seq<string>>)
    requires !CommandPhase(line, parts)
    ensures var c := CompletionFor(cwd, line, parts, list);
      var token := Token(line, parts);
      var (parent, needle) := ListedDir(cwd, token);
      (parts[0] in PathCommands ==>
         c.start == ReplaceStart(line)
         && (list(parent).QueryError? ==> c.pairs == [])
         && forall p :: p in c.pairs <==>
              exists name :: name in Items(list(parent)) && StartsWith(name, needle)
                  && p == Pair(name + "/", DirText(token, parent) + name + if EndsWith(token, "/") then "/" else ""))
      && (parts[0] !in PathCommands ==> c == Completion(0, []))
  {
    var token := Token(line, parts);
    var (parent, needle) := ListedDir(cwd, token);
    PathPairsMembers(Items(list(parent)), needle, DirText(token, parent), EndsWith(token, "/"));
  }

  /** The parent/needle split: after a trailing `/` the whole base path is listed and
      every name matches; otherwise the listed directory and the needle put back
      together give the base path. */
  lemma ListedDirSplit(cwd: Path, token: string)
    ensures var (parent, needle) := ListedDir(cwd, token);
      var base := BasePath(cwd, token);
      (EndsWith(token, "/") ==> parent == base && needle == "")
      && (!EndsWith(token, "/") && base != [] ==> parent + [needle] == base)
      && (!EndsWith(token, "/") && base == [] ==> parent == [] && needle == "")
  {
    SplitBaseParts(BasePath(cwd, token), EndsWith(token, "/"));
  }

  lemma SplitBaseParts(base: Path, whole: bool)
    ensures var (parent, needle) := SplitBase(base, whole);
      (whole ==> parent == base && needle == "")
      && (!whole && base != [] ==> parent + [needle] == base)
      && (!whole && base == [] ==> parent == [] && needle == "")
  {
    if base != [] {
      assert base[..|base| - 1] + [base[|base| - 1]] == base;
    }
  }

  /** An empty token after a space lists the parent of `cwd` and filters it by the
      last segment of `cwd`. */
  lemma EmptyTokenListsParent(cwd: Path)
    requires cwd != []
    ensures ListedDir(cwd, "") == (ReplPaths.Parent(cwd), cwd[|cwd| - 1])
  {
    EmptyTokenBase(cwd);
  }

  /** The empty token denotes `cwd` and has no trailing `/`. */
  lemma EmptyTokenBase(cwd: Path)
    ensures BasePath(cwd, "") == cwd && !EndsWith("", "/") && ParsePath("") == []
  {
    ParseEmpty();
    assert cwd + [] == cwd;
  }

  // ---------------------------------------------------------------------------
  // Where a candidate leads
  // ---------------------------------------------------------------------------

  /** A directory name the store can hand back and the shell can read back: one
      well-formed segment without white space. */
  predicate PlainName(name: string) {
    WellFormed([name]) && Blankless([name])
  }

  lemma {:induction false} JoinSnoc(p: Path, name: string)
    requires p != []
    ensures Join(p + [name], "/") == Join(p, "/") + "/" + name
  {
    if |p| == 1 {
      assert p + [name] == [p[0], name];
      assert [p[0], name][1..] == [name];
    } else {
      JoinSnoc(p[1..], name);
      assert (p + [name])[1..] == p[1..] + [name];
    }
  }

  /** The segments before the last one of a parsed path keep its invariants. */
  lemma SegmentsOfPrefix(q: Path, n: nat, name: string)
    requires WellFormed(q) && Blankless(q) && n <= |q| && PlainName(name)
    ensures WellFormed(q[..n] + [name]) && Blankless(q[..n] + [name])
  {
    var r := q[..n] + [name];
    assert forall k :: 0 <= k < n ==> r[k] == q[k];
    assert r[n] == [name][0];
  }

  /** A `/` followed by joined segments is an absolute target other than `/`. */
  lemma SlashJoined(p: Path, post: string)
    requires WellFormed(p) && p != []
    ensures var t := "/" + Join(p, "/") + post; StartsWith(t, "/") && t != "/"
  {
    var j := Join(p, "/");
    JoinHead(p);
    var t := "/" + j + post;
    assert |j| >= 1;
    assert t[..1] == "/";
  }

  /** The directory text and the name are the `/`-rendering of the extended path. */
  lemma DirJoin(parent: Path, name: string, post: string)
    ensures var dir := if parent == [] then "/" else "/" + Join(parent, "/") + "/";
      dir + name + post == "/" + Join(parent + [name], "/") + post
  {
    if parent == [] {
      assert parent + [name] == [name];
    } else {
      var j := Join(parent, "/");
      JoinSnoc(parent, name);
      calc {
        "/" + j + "/" + name + post;
        "/" + (j + "/" + name) + post;
        "/" + Join(parent + [name], "/") + post;
      }
    }
  }

  /** An absolute replacement text leads to the listed directory and the name. */
  lemma AbsoluteReplacement(cwd: Path, parent: Path, name: string, slash: bool)
    requires WellFormed(parent + [name]) && Blankless(parent + [name])
    ensures var dir := if parent == [] then "/" else "/" + Join(parent, "/") + "/";
      ReplPaths.CdTarget(cwd, Some(dir + name + if slash then "/" else "")) == parent + [name]
  {
    var post := if slash then "/" else "";
    var dir := if parent == [] then "/" else "/" + Join(parent, "/") + "/";
    var p := parent + [name];
    var rep := dir + name + post;
    DirJoin(parent, name, post);
    assert ParsePath(rep) == p by {
      ParseJoined(p, true, slash);
    }
    SlashJoined(p, post);
    ReplPaths.AbsoluteText(cwd, rep);
  }

  /** For an absolute token, each candidate's replacement is where `cd` then goes:
      the listed directory and the name. */
  lemma AbsoluteCandidateResolves(cwd: Path, token: string, name: string)
    requires StartsWith(token, "/") && Blankless(ParsePath(token)) && PlainName(name)
    ensures var (parent, needle) := ListedDir(cwd, token);
      ReplPaths.CdTarget(cwd, Some(DirText(token, parent) + name + if EndsWith(token, "/") then "/" else ""))
        == parent + [name]
  {
    var q := ParsePath(token);
    var (parent, needle) := ListedDir(cwd, token);
    var n := if EndsWith(token, "/") || q == [] then |q| else |q| - 1;
    assert parent == q[..n];
    SegmentsOfPrefix(q, n, name);
    AbsoluteReplacement(cwd, parent, name, EndsWith(token, "/"));
  }

  /** For a relative token, as written, each candidate's replacement is the bare
      name (and `/`), which `cd` resolves under `cwd`, not under the listed
      directory. */
  lemma RelativeCandidateAsWritten(cwd: Path, token: string, name: string)
    requires !StartsWith(token, "/") && PlainName(name) && name != ".."
    ensures var (parent, needle) := ListedDir(cwd, token);
      ReplPaths.CdTarget(cwd, Some(DirText(token, parent) + name + if EndsWith(token, "/") then "/" else ""))
        == cwd + [name]
  {
    var slash := EndsWith(token, "/");
    ReplPaths.CdRelative(cwd, [name], slash);
    assert Join([name], "/") == name;
    assert "" + name == name;
  }

  /** A listing in which the root holds `app` and `/app` holds `foo`. */
  function SampleListing(p: Path): Query<seq<string>> {
    if p == [] then Answer(["app"]) else if p == ["app"] then Answer(["foo"]) else Answer([])
  }

  lemma PlainSample(name: string)
    requires name == "app"
    ensures PlainName(name)
  {
    assert forall j :: 0 <= j < |name| ==> !IsWhitespace(name[j]);
  }

  /** The path branch of `CompletionFor`, spelled out. */
  lemma PathBranch(cwd: Path, line: string, parts: seq<string>, list: Path -> Query<seq<string>>,
                   token: string, parent: Path, needle: string)
    requires !CommandPhase(line, parts) && parts[0] in PathCommands
    requires token == Token(line, parts) && (parent, needle) == ListedDir(cwd, token)
    ensures CompletionFor(cwd, line, parts, list)
      == Completion(ReplaceStart(line), PathPairs(Items(list(parent)), needle, DirText(token, parent), EndsWith(token, "/")))
  {
  }

  /** `cd` followed by one more character: the replacement starts at byte 3. */
  lemma StartAfterCd(line: string)
    requires |line| >= 3 && line[..3] == "cd " && forall k :: 3 <= k < |line| ==> !IsBlank(line[k])
    ensures ReplaceStart(line) == 3
  {
    assert IsBlank(line[2]);
    assert LastBlank(line) == Some(2);
    assert line[..2] == "cd";
    assert Utf8.Encode("cd") == Utf8.EncodeChar('c') + Utf8.EncodeChar('d') + Utf8.Encode([]);
  }

  /** One listed name that the needle admits, for a relative token without `/`. */
  lemma OnePair(name: string, needle: string)
    requires StartsWith(name, needle)
    ensures PathPairs([name], needle, "", false) == [Pair(name + "/", name)]
  {
    assert [name][..0] == [];
    assert "" + name + "" == name;
  }

  /** A relative token `dir/stem` lists `cwd/dir` with the needle `stem`. */
  lemma TwoSegmentToken(cwd: Path, dir: string, stem: string)
    requires PlainName(dir) && PlainName(stem)
    ensures ListedDir(cwd, dir + "/" + stem) == (cwd + [dir], stem)
  {
    var p := [dir, stem];
    var token := dir + "/" + stem;
    TwoSegmentFacts(dir, stem);
    assert BasePath(cwd, token) == cwd + p;
    assert (cwd + p)[..|cwd + p| - 1] == cwd + [dir];
  }

  lemma TwoSegmentFacts(dir: string, stem: string)
    requires PlainName(dir) && PlainName(stem)
    ensures var token := dir + "/" + stem;
      ParsePath(token) == [dir, stem] && !StartsWith(token, "/") && !EndsWith(token, "/")
  {
    var p := [dir, stem];
    JoinPair(dir, stem);
    PlainPair(dir, stem);
    ReplPaths.RelativeText(p, false);
    EndsWithStem(dir, stem);
  }

  lemma JoinPair(dir: string, stem: string)
    ensures Join([dir, stem], "/") + "" == dir + "/" + stem
  {
    assert [dir, stem][1..] == [stem];
  }

  /** `dir/stem` ends with the last character of `stem`, which is not `/`. */
  lemma EndsWithStem(dir: string, stem: string)
    requires PlainName(stem)
    ensures !EndsWith(dir + "/" + stem, "/")
  {
    var token := dir + "/" + stem;
    assert [stem][0] == stem;
    assert token[|token| - 1] == stem[|stem| - 1];
    assert token[|token| - 1..] == [stem[|stem| - 1]];
  }

  lemma PlainPair(dir: string, stem: string)
    requires PlainName(dir) && PlainName(stem)
    ensures WellFormed([dir, stem]) && Blankless([dir, stem])
  {
    var p := [dir, stem];
    assert [dir][0] == dir && [stem][0] == stem;
    assert dir != [] && '/' !in dir && stem != [] && '/' !in stem;
    assert forall j :: 0 <= j < |dir| ==> !IsWhitespace(dir[j]);
    assert forall j :: 0 <= j < |stem| ==> !IsWhitespace(stem[j]);
    assert forall k :: 0 <= k < |p| ==> p[k] == dir || p[k] == stem;
  }

  /** The line `cd dir/stem` is past its command word, and its token is `dir/stem`. */
  lemma CdLine(token: string, stem: string)
    requires PlainName(stem) && EndsWith(token, stem)
    ensures !CommandPhase("cd " + token, ["cd", token]) && Token("cd " + token, ["cd", token]) == token
  {
    var line := "cd " + token;
    assert [stem][0] == stem;
    assert line[|line| - 1] == stem[|stem| - 1];
    assert !IsWhitespace(stem[|stem| - 1]);
    assert line[|line| - 1..] == [stem[|stem| - 1]];
  }

  /** As written, completing `cd dir/stem` lists `cwd/dir` and offers its entry
      `name`, but replaces the token by `name` alone, so the completed line goes to
      `cwd/name` instead of `cwd/dir/name`. */
  lemma DirectoryPartLost(cwd: Path, dir: string, stem: string, name: string, list: Path -> Query<seq<string>>)
    requires PlainName(dir) && PlainName(stem) && PlainName(name) && name != ".."
    requires StartsWith(name, stem) && list(cwd + [dir]) == Answer([name])
    ensures var token := dir + "/" + stem;
      CompletionFor(cwd, "cd " + token, ["cd", token], list).pairs == [Pair(name + "/", name)]
      && ReplPaths.CdTarget(cwd, Some(name)) == cwd + [name] != cwd + [dir, name]
  {
    var token := dir + "/" + stem;
    var line := "cd " + token;
    assert EndsWith(token, stem) by {
      assert token[|token| - |stem|..] == stem;
    }
    CdLine(token, stem);
    TwoSegmentToken(cwd, dir, stem);
    TwoSegmentFacts(dir, stem);
    PathBranch(cwd, line, ["cd", token], list, token, cwd + [dir], stem);
    OnePair(name, stem);
    RelativeCandidateAsWritten(cwd, token, name);
    assert DirText(token, cwd + [dir]) + name + "" == name;
    assert |cwd + [name]| != |cwd + [dir, name]|;
  }

  /** As written, completing `cd ` inside `/app` lists the root filtered by `app` and
      offers `app` itself, which `cd` resolves to `/app/app`; the entries of `/app`
      are not offered. */
  lemma EmptyTokenOffersCwd()
    ensures CompletionFor(["app"], "cd ", ["cd"], SampleListing) == Completion(3, [Pair("app/", "app")])
    ensures ReplPaths.CdTarget(["app"], Some("app")) == ["app", "app"]
  {
    EmptyTokenSample();
    AppTwice();
  }

  lemma EmptyTokenSample()
    ensures CompletionFor(["app"], "cd ", ["cd"], SampleListing) == Completion(3, [Pair("app/", "app")])
  {
    var line := "cd ";
    assert Token(line, ["cd"]) == "" by {
      assert EndsWith(line, " ");
    }
    EmptyTokenListsParent(["app"]);
    PathBranch(["app"], line, ["cd"], SampleListing, "", [], "app");
    StartAfterCd(line);
    assert StartsWith("app", "app");
    OnePair("app", "app");
    assert "app" + "/" == "app/";
  }

  /** `cd app` inside `/app` goes to `/app/app`. */
  lemma AppTwice()
    ensures ReplPaths.CdTarget(["app"], Some("app")) == ["app", "app"]
  {
    PlainSample("app");
    ReplPaths.CdRelative(["app"], ["app"], false);
    assert Join(["app"], "/") + "" == "app";
  }

  // ---------------------------------------------------------------------------
  // Completion as evidently intended
  // ---------------------------------------------------------------------------

  /** The directory segments a relative token has typed before the name being
      completed: all of them after a trailing `/` or when none are typed. */
  function RelDir(token: string): Path {
    var q := ParsePath(token);
    if EndsWith(token, "/") || q == [] then q else q[..|q| - 1]
  }

  /** Intended split: a token that names no segment at all (the empty token after a
      space) lists the base path itself, like a token ending in `/`. */
  function ListedDirIntended(cwd: Path, token: string): (Path, string) {
    SplitBase(BasePath(cwd, token), EndsWith(token, "/") || ParsePath(token) == [])
  }

  /** Intended directory text: a relative token keeps the segments it typed. */
  function DirTextIntended(token: string, parent: Path): string {
    if StartsWith(token, "/") then DirText(token, parent)
    else
      var rel := RelDir(token);
      if rel == [] then "" else Join(rel, "/") + "/"
  }

  /** `complete` with both corrections. */
  function CompletionIntended(cwd: Path, line: string, parts: seq<string>, list: Path -> Query<seq<string>>): Completion {
    if CommandPhase(line, parts) then Completion(0, CommandPairs(Commands, TrimStart(line)))
    else if parts[0] in PathCommands then
      var token := Token(line, parts);
      var (parent, needle) := ListedDirIntended(cwd, token);
      Completion(ReplaceStart(line),
                 PathPairs(Items(list(parent)), needle, DirTextIntended(token, parent), EndsWith(token, "/")))
    else Completion(0, [])
  }

  /** With the corrections, every candidate's replacement is where `cd` goes to the
      listed directory's entry of that name, for absolute and relative tokens alike. */
  lemma IntendedCandidateResolves(cwd: Path, token: string, name: string)
    requires Blankless(ParsePath(token)) && PlainName(name) && name != ".."
    ensures var (parent, needle) := ListedDirIntended(cwd, token);
      ReplPaths.CdTarget(cwd, Some(DirTextIntended(token, parent) + name + if EndsWith(token, "/") then "/" else ""))
        == parent + [name]
  {
    var slash := EndsWith(token, "/");
    var rel := RelDir(token);
    var parent := ListedDirIntended(cwd, token).0;
    IntendedParent(cwd, token);
    RelDirPlain(token, name);
    if StartsWith(token, "/") {
      AbsoluteReplacement(cwd, parent, name, slash);
    } else {
      RelativeReplacement(cwd, rel, name, slash);
    }
  }

  /** The intended listed directory is the typed directory segments, under `cwd`
      for a relative token. */
  lemma IntendedParent(cwd: Path, token: string)
    ensures var parent := ListedDirIntended(cwd, token).0;
      parent == (if StartsWith(token, "/") then RelDir(token) else cwd + RelDir(token))
  {
    var q := ParsePath(token);
    var base := BasePath(cwd, token);
    var keep := EndsWith(token, "/") || q == [];
    if keep {
      assert RelDir(token) == q;
      assert ListedDirIntended(cwd, token).0 == base;
    } else {
      assert RelDir(token) == q[..|q| - 1];
      assert ListedDirIntended(cwd, token).0 == base[..|base| - 1];
      if !StartsWith(token, "/") {
        CwdPlusInit(cwd, q);
      }
    }
  }

  /** The typed directory segments and the completed name make a plain path. */
  lemma RelDirPlain(token: string, name: string)
    requires Blankless(ParsePath(token)) && PlainName(name)
    ensures WellFormed(RelDir(token) + [name]) && Blankless(RelDir(token) + [name])
  {
    var q := ParsePath(token);
    RelDirPrefix(token);
    SegmentsOfPrefix(q, if EndsWith(token, "/") || q == [] then |q| else |q| - 1, name);
  }

  lemma RelDirPrefix(token: string)
    ensures var q := ParsePath(token);
      RelDir(token) == q[..if EndsWith(token, "/") || q == [] then |q| else |q| - 1]
  {
    var q := ParsePath(token);
    assert q[..|q|] == q;
  }

  lemma CwdPlusInit(cwd: Path, q: Path)
    requires q != []
    ensures (cwd + q)[..|cwd + q| - 1] == cwd + q[..|q| - 1]
  {
  }

  /** A relative replacement that keeps the typed segments leads below them. */
  lemma RelativeReplacement(cwd: Path, rel: Path, name: string, slash: bool)
    requires WellFormed(rel + [name]) && Blankless(rel + [name]) && (rel != [] || name != "..")
    ensures var dir := if rel == [] then "" else Join(rel, "/") + "/";
      ReplPaths.CdTarget(cwd, Some(dir + name + if slash then "/" else "")) == cwd + rel + [name]
  {
    var post := if slash then "/" else "";
    var dir := if rel == [] then "" else Join(rel, "/") + "/";
    assert dir + name + post == Join(rel + [name], "/") + post by {
      if rel == [] {
        assert rel + [name] == [name];
        assert "" + name == name;
      } else {
        var j := Join(rel, "/");
        JoinSnoc(rel, name);
        assert j + "/" + name + post == (j + "/" + name) + post;
      }
    }
    assert rel + [name] != [".."] by {
      if rel != [] {
        assert |rel + [name]| > 1;
      }
    }
    ReplPaths.CdRelative(cwd, rel + [name], slash);
    assert cwd + (rel + [name]) == cwd + rel + [name];
  }

  /** With the corrections, an empty token after a space lists `cwd` itself. */
  lemma IntendedEmptyTokenListsCwd(cwd: Path)
    ensures ListedDirIntended(cwd, "") == (cwd, "")
  {
    EmptyTokenBase(cwd);
  }


  /** The corrections change nothing for absolute tokens, nor for a relative token
      that names a single segment without a trailing `/`. */
  lemma IntendedAgrees(cwd: Path, line: string, parts: seq<string>, list: Path -> Query<seq<string>>)
    requires !CommandPhase(line, parts)
    requires var token := Token(line, parts);
      StartsWith(token, "/") || (!EndsWith(token, "/") && |ParsePath(token)| == 1)
    ensures CompletionIntended(cwd, line, parts, list) == CompletionFor(cwd, line, parts, list)
  {
    var token := Token(line, parts);
    if !StartsWith(token, "/") {
      assert RelDir(token) == [];
    }
    if StartsWith(token, "/") && ParsePath(token) == [] && !EndsWith(token, "/") {
      assert BasePath(cwd, token) == [];
    }
  }
}
