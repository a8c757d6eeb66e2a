/** Where the `cd` and `ls` commands of the interactive shell go (src/repl.rs): the
    target text is resolved against the current directory `cwd` by plain case
    analysis on copies of it. */
module ReplPaths {
  import opened Common
  import opened PathModel

  /** `cwd` without its last segment; the root stays the root (`Vec::pop` on an
      empty vector does nothing). */
  function Parent(cwd: Path): (r: Path)
    ensures |r| == if cwd == [] then 0 else |cwd| - 1
    ensures StartsWith(cwd, r)
  {
    if cwd == [] then [] else cwd[..|cwd| - 1]
  }

  /** The target of `cd`: no argument means `/`; `/` is the root, `..` the parent,
      a target starting with `/` is parsed as an absolute path, anything else
      (including `.`) is parsed and appended to `cwd`. */
  function CdTarget(cwd: Path, target: Option<string>): (r: Path)
    ensures WellFormed(cwd) ==> WellFormed(r)
  {
    var t := if target.Some? then target.value else "/";
    if t == "/" then []
    else if t == ".." then Parent(cwd)
    else if StartsWith(t, "/") then ParsePath(t)
    else cwd + ParsePath(t)
  }

  /** The target of `ls`: no argument and `.` both mean `cwd`; otherwise as for `cd`. */
  function LsTarget(cwd: Path, target: Option<string>): (r: Path)
    ensures WellFormed(cwd) ==> WellFormed(r)
  {
    match target
    case None => cwd
    case Some(t) =>
      if t == "." then cwd
      else if t == ".." then Parent(cwd)
      else if StartsWith(t, "/") then ParsePath(t)
      else cwd + ParsePath(t)
  }

  lemma ParseSlash()
    ensures ParsePath("/") == []
  {
    assert !IsWhitespace('/');
    TrimIdentity("/");
  }

  /** `cd` alone and `cd /` go to the root; `cd ..` drops the last segment and stays
      at the root when already there. */
  lemma CdFixedTargets(cwd: Path)
    ensures CdTarget(cwd, None) == [] && CdTarget(cwd, Some("/")) == []
    ensures CdTarget(cwd, Some("..")) == Parent(cwd)
    ensures cwd != [] ==> CdTarget(cwd, Some("..")) + [cwd[|cwd| - 1]] == cwd
    ensures cwd == [] ==> CdTarget(cwd, Some("..")) == []
  {
  }

  /** `cd .` is not special: it appends a segment named `.`. */
  lemma CdDot(cwd: Path)
    ensures CdTarget(cwd, Some(".")) == cwd + ["."]
  {
    ParseJoined(["."], false, false);
  }

  /** `cd` to the rendering of a path reaches that path, from anywhere. */
  lemma CdAbsolute(cwd: Path, p: Path)
    requires WellFormed(p) && Blankless(p)
    ensures CdTarget(cwd, Some(DisplayPath(p))) == p
  {
    var d := DisplayPath(p);
    if p == [] {
      ParseSlash();
    } else {
      var last := p[|p| - 1];
      assert !IsWhitespace(last[|last| - 1]);
      ParseDisplay(p);
      DisplayPathShape(p);
      assert d != "/" && d != ".." && StartsWith(d, "/");
      assert CdTarget(cwd, Some(d)) == ParsePath(d);
    }
  }

  /** `cd a/b/c` (with or without a trailing `/`) descends from `cwd` by those
      segments, unless the whole target is `..`. */
  lemma CdRelative(cwd: Path, p: Path, trail: bool)
    requires WellFormed(p) && Blankless(p) && p != []
    requires p != [".."] || trail
    ensures CdTarget(cwd, Some(Join(p, "/") + (if trail then "/" else ""))) == cwd + p
  {
    var t := Join(p, "/") + (if trail then "/" else "");
    RelativeText(p, trail);
    RelativeStaysBelow(cwd, t);
  }

  /** Joined segments, optionally followed by `/`, read as relative text that
      parses back to the segments. */
  lemma RelativeText(p: Path, trail: bool)
    requires WellFormed(p) && Blankless(p) && p != []
    requires p != [".."] || trail
    ensures var t := Join(p, "/") + (if trail then "/" else "");
      ParsePath(t) == p && !StartsWith(t, "/") && t != ".."
  {
    var post := if trail then "/" else "";
    var t := Join(p, "/") + post;
    ParseJoined(p, false, trail);
    assert "" + Join(p, "/") + post == t;
    NotAbsolute(p, post);
    NotUp(p, trail);
  }

  /** Joined segments do not start with the separator, whatever follows them. */
  lemma NotAbsolute(p: Path, post: string)
    requires WellFormed(p) && p != []
    ensures !StartsWith(Join(p, "/") + post, "/")
  {
    var j := Join(p, "/");
    JoinHead(p);
    assert j[0] == j[..|p[0]|][0] == p[0][0];
    assert (j + post)[..1] == [p[0][0]];
  }

  /** The only target of one segment and no separator that `cd` reads as going up is `..`. */
  lemma NotUp(p: Path, trail: bool)
    requires WellFormed(p) && p != [] && (p != [".."] || trail)
    ensures Join(p, "/") + (if trail then "/" else "") != ".."
  {
    if |p| > 1 || trail {
      JoinHasSlash(p, trail);
      assert '/' !in "..";
    } else {
      assert p == [p[0]];
      assert Join(p, "/") + "" == p[0];
    }
  }

  /** A target made of several segments, or followed by a separator, holds `/`. */
  lemma JoinHasSlash(p: Path, trail: bool)
    requires p != [] && (|p| > 1 || trail)
    ensures '/' in Join(p, "/") + (if trail then "/" else "")
  {
    var t := Join(p, "/") + (if trail then "/" else "");
    if trail {
      assert t[|t| - 1] == '/';
    } else {
      assert Join(p, "/") == p[0] + "/" + Join(p[1..], "/");
      assert t[|p[0]|] == '/';
    }
  }

  /** `ls` with an argument other than `.` goes where `cd` would; `ls` alone and
      `ls .` list `cwd`. */
  lemma LsAgreesWithCd(cwd: Path, target: Option<string>)
    ensures target.Some? && target.value != "." ==> LsTarget(cwd, target) == CdTarget(cwd, target)
    ensures target.None? || target == Some(".") ==> LsTarget(cwd, target) == cwd
  {
    if target == Some("/") {
      ParseSlash();
    }
  }

  /** A target that starts with `/` and is not just `/` is parsed on its own. */
  lemma AbsoluteText(cwd: Path, t: string)
    requires StartsWith(t, "/") && t != "/"
    ensures CdTarget(cwd, Some(t)) == ParsePath(t)
  {
    assert t[0] == '/';
    assert t != "..";
  }

  /** A relative target other than `..` extends `cwd` by the parsed segments. */
  lemma RelativeStaysBelow(cwd: Path, t: string)
    requires !StartsWith(t, "/") && t != ".."
    ensures CdTarget(cwd, Some(t)) == cwd + ParsePath(t)
    ensures t != "." ==> LsTarget(cwd, Some(t)) == CdTarget(cwd, Some(t))
  {
    assert t != "/";
  }
}
