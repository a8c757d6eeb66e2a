/** Namespace paths (src/util.rs `parse_path`, `display_path`): a path is the list
    of directory names from the root; the empty list is the root itself. */
module PathModel {
  import opened Common

  type Path = seq<string>

  /** The invariant of every path the explorer builds: no segment is empty and no
      segment contains the separator. */
  predicate WellFormed(p: Path) {
    forall k :: 0 <= k < |p| ==> p[k] != [] && '/' !in p[k]
  }

  /** `str::split('/')`: the pieces between separators, empty ones included. */
  function Split(s: string): (r: seq<string>)
    ensures |r| >= 1
    ensures forall k :: 0 <= k < |r| ==> '/' !in r[k]
  {
    if s == [] then [""]
    else if s[0] == '/' then [""] + Split(s[1..])
    else
      var t := Split(s[1..]);
      [[s[0]] + t[0]] + t[1..]
  }

  /** `str::trim_start_matches('/')` */
  function StripLeadingSlashes(s: string): (r: string)
    ensures |r| <= |s| && s[|s| - |r|..] == r
    ensures r == [] || r[0] != '/'
    ensures forall k :: 0 <= k < |s| - |r| ==> s[k] == '/'
  {
    if s != [] && s[0] == '/' then StripLeadingSlashes(s[1..]) else s
  }

  /** `.filter(|p| !p.is_empty())` */
  function NonEmpty(pieces: seq<string>): (r: seq<string>)
    ensures forall k :: 0 <= k < |r| ==> r[k] != [] && r[k] in pieces
  {
    if pieces == [] then []
    else if pieces[0] == [] then NonEmpty(pieces[1..])
    else [pieces[0]] + NonEmpty(pieces[1..])
  }

  /** `parse_path`: trims the text, maps `""` and `"/"` to the root, otherwise drops
      leading separators, splits on `/` and keeps the non-empty pieces. */
  function ParsePath(s: string): (r: Path)
    ensures WellFormed(r)
  {
    var trimmed := Trim(s);
    if trimmed == "/" || trimmed == [] then []
    else NonEmpty(Split(StripLeadingSlashes(trimmed)))
  }

  /** `display_path`: the root is `/`, any other path is `/` followed by its
      segments joined with `/`. */
  function DisplayPath(p: Path): string {
    if p == [] then "/" else "/" + Join(p, "/")
  }

  /** The rendering starts with the separator, and is exactly `/` only for the root
      (given that the path is well formed). */
  lemma DisplayPathShape(p: Path)
    requires WellFormed(p)
    ensures |DisplayPath(p)| >= 1 && DisplayPath(p)[0] == '/'
    ensures (DisplayPath(p) == "/") == (p == [])
  {
    if p != [] {
      assert |Join(p, "/")| >= |p[0]| > 0 by { JoinHead(p); }
    }
  }

  /** The joined text begins with the first segment and ends with the last one. */
  lemma {:induction false} JoinHead(p: Path)
    requires |p| >= 1
    ensures |Join(p, "/")| >= |p[0]| && Join(p, "/")[..|p[0]|] == p[0]
    ensures |Join(p, "/")| >= |p[|p| - 1]|
    ensures Join(p, "/")[|Join(p, "/")| - |p[|p| - 1]|..] == p[|p| - 1]
  {
    if |p| > 1 {
      JoinHead(p[1..]);
      assert p[1..][|p[1..]| - 1] == p[|p| - 1];
    }
  }

  /** Splitting text whose first part has no separator keeps that part in front. */
  lemma {:induction false} SplitPrefix(a: string, rest: string)
    requires '/' !in a
    ensures Split(a + rest) == [a + Split(rest)[0]] + Split(rest)[1..]
  {
    if a != [] {
      assert (a + rest)[0] == a[0] && (a + rest)[1..] == a[1..] + rest;
      SplitPrefix(a[1..], rest);
      assert [a[0]] + (a[1..] + Split(rest)[0]) == a + Split(rest)[0];
    } else {
      assert a + rest == rest;
      assert a + Split(rest)[0] == Split(rest)[0];
      assert [Split(rest)[0]] + Split(rest)[1..] == Split(rest);
    }
  }

  /** Splitting the joined segments gives the segments back. */
  lemma {:induction false} SplitJoin(p: Path)
    requires |p| >= 1
    requires forall k :: 0 <= k < |p| ==> '/' !in p[k]
    ensures Split(Join(p, "/")) == p
  {
    if |p| == 1 {
      SplitPrefix(p[0], "");
      assert p[0] + "" == p[0];
    } else {
      var tail := Join(p[1..], "/");
      SplitJoin(p[1..]);
      assert p[0] + "/" + tail == p[0] + ("/" + tail);
      SplitPrefix(p[0], "/" + tail);
      assert ("/" + tail)[0] == '/' && ("/" + tail)[1..] == tail;
      assert Split("/" + tail) == [""] + p[1..];
      assert p[0] + "" == p[0];
      assert [p[0]] + p[1..] == p;
    }
  }

  /** Keeping the non-empty pieces of a list without empty pieces keeps them all. */
  lemma {:induction false} NonEmptyKeepsAll(p: seq<string>)
    requires forall k :: 0 <= k < |p| ==> p[k] != []
    ensures NonEmpty(p) == p
  {
    if p != [] {
      NonEmptyKeepsAll(p[1..]);
      assert [p[0]] + p[1..] == p;
    }
  }

  /** `parse_path(display_path(p)) == p` for every well-formed path whose rendering
      does not end in white space (which `trim` would remove); in particular for
      every path whose segments contain no white space at all. */
  lemma ParseDisplay(p: Path)
    requires WellFormed(p)
    requires p != [] ==> !IsWhitespace(p[|p| - 1][|p[|p| - 1]| - 1])
    ensures ParsePath(DisplayPath(p)) == p
  {
    if p != [] {
      var j := Join(p, "/");
      var d := "/" + j;
      DisplayTrimmed(p);
      StripDisplay(p);
      assert d != "/" && d != [] by { JoinHead(p); }
      assert ParsePath(d) == NonEmpty(Split(j));
      SplitJoin(p);
      NonEmptyKeepsAll(p);
    }
  }

  /** Dropping the leading separators of a non-root rendering leaves the joined segments. */
  lemma StripDisplay(p: Path)
    requires WellFormed(p) && p != []
    ensures StripLeadingSlashes("/" + Join(p, "/")) == Join(p, "/")
  {
    var j := Join(p, "/");
    var d := "/" + j;
    JoinHead(p);
    assert j[0] == p[0][0];
    assert d[0] == '/' && d[1..] == j;
  }

  /** The rendering of a non-root path has no white space at its ends. */
  lemma DisplayTrimmed(p: Path)
    requires WellFormed(p) && p != []
    requires !IsWhitespace(p[|p| - 1][|p[|p| - 1]| - 1])
    ensures Trim("/" + Join(p, "/")) == "/" + Join(p, "/")
  {
    var j := Join(p, "/");
    var d := "/" + j;
    JoinHead(p);
    var last := p[|p| - 1];
    assert j[|j| - 1] == last[|last| - 1] by {
      assert j[|j| - |last|..][|last| - 1] == last[|last| - 1];
    }
    assert d[|d| - 1] == j[|j| - 1];
    TrimIdentity(d);
  }

  /** The empty text is the root. */
  lemma ParseEmpty()
    ensures ParsePath("") == []
  {
    assert Trim("") == "";
  }

  /** `parse_path` yields the root exactly when the trimmed text is nothing but
      separators (which covers `""` and `"/"`). */
  lemma ParsePathRoot(s: string)
    ensures (ParsePath(s) == []) == (forall k :: 0 <= k < |Trim(s)| ==> Trim(s)[k] == '/')
  {
    var t := Trim(s);
    if t != "/" && t != [] {
      var u := StripLeadingSlashes(t);
      SplitNonEmpty(u);
      if u == [] {
        assert forall k :: 0 <= k < |t| ==> t[k] == '/';
      } else {
        assert t[|t| - |u|] == u[0] != '/';
      }
    }
  }

  /** Splitting text that has a character other than the separator yields a
      non-empty piece; text of separators alone yields only empty pieces. */
  lemma {:induction false} SplitNonEmpty(s: string)
    ensures (NonEmpty(Split(s)) == []) == (forall k :: 0 <= k < |s| ==> s[k] == '/')
  {
    if s != [] {
      SplitNonEmpty(s[1..]);
      var t := Split(s[1..]);
      if s[0] == '/' {
        assert NonEmpty(Split(s)) == NonEmpty(t);
        assert (forall k :: 0 <= k < |s| ==> s[k] == '/') == (forall k :: 0 <= k < |s[1..]| ==> s[1..][k] == '/');
      } else {
        assert Split(s)[0] != [];
        assert NonEmpty(Split(s)) != [];
      }
    }
  }

  /** No segment contains white space. */
  predicate Blankless(p: Path) {
    forall k, j :: 0 <= k < |p| && 0 <= j < |p[k]| ==> !IsWhitespace(p[k][j])
  }

  lemma SplitSlash(x: string)
    ensures Split("/" + x) == [""] + Split(x)
  {
    assert ("/" + x)[0] == '/' && ("/" + x)[1..] == x;
  }

  /** Splitting joined segments followed by more text: the last segment runs into
      the first piece of that text. */
  lemma {:induction false} SplitJoinThen(p: Path, rest: string)
    requires |p| >= 1
    requires forall k :: 0 <= k < |p| ==> '/' !in p[k]
    ensures Split(Join(p, "/") + rest)
      == p[..|p| - 1] + [p[|p| - 1] + Split(rest)[0]] + Split(rest)[1..]
  {
    if |p| == 1 {
      SplitPrefix(p[0], rest);
    } else {
      var q := p[1..];
      var sr := Split(rest);
      SplitJoinCons(p, rest);
      SplitJoinThen(q, rest);
      ConsRegroup(p, sr[0], sr[1..]);
    }
  }

  /** Splitting joined segments peels off the first segment as a piece of its own. */
  lemma SplitJoinCons(p: Path, rest: string)
    requires |p| >= 2
    requires forall k :: 0 <= k < |p| ==> '/' !in p[k]
    ensures Split(Join(p, "/") + rest) == [p[0]] + Split(Join(p[1..], "/") + rest)
  {
    var x := Join(p[1..], "/") + rest;
    assert Join(p, "/") + rest == p[0] + ("/" + x);
    SplitPrefix(p[0], "/" + x);
    SplitSlash(x);
    assert p[0] + "" == p[0];
  }

  lemma ConsRegroup(p: Path, first: string, more: seq<string>)
    requires |p| >= 2
    ensures var q := p[1..];
      [p[0]] + (q[..|q| - 1] + [q[|q| - 1] + first] + more)
        == p[..|p| - 1] + [p[|p| - 1] + first] + more
  {
    var q := p[1..];
    assert [p[0]] + q[..|q| - 1] == p[..|p| - 1];
  }

  lemma {:induction false} NonEmptyAppend(p: seq<string>, q: seq<string>)
    ensures NonEmpty(p + q) == NonEmpty(p) + NonEmpty(q)
  {
    if p == [] {
      assert p + q == q;
    } else {
      assert (p + q)[0] == p[0] && (p + q)[1..] == p[1..] + q;
      NonEmptyAppend(p[1..], q);
    }
  }

  /** The pieces of the joined segments, with or without a separator after them,
      are the segments once the empty ones are dropped. */
  lemma SplitJoined(p: Path, trail: bool)
    requires WellFormed(p) && p != []
    ensures NonEmpty(Split(Join(p, "/") + (if trail then "/" else ""))) == p
  {
    NonEmptyKeepsAll(p);
    if trail {
      SplitJoinSlash(p);
      NonEmptyAppend(p, [""]);
      assert NonEmpty([""]) == [];
      assert p + [] == p;
    } else {
      SplitJoin(p);
      assert Join(p, "/") + "" == Join(p, "/");
    }
  }

  /** Joined segments followed by `/` split into the segments and one empty piece. */
  lemma SplitJoinSlash(p: Path)
    requires WellFormed(p) && p != []
    ensures Split(Join(p, "/") + "/") == p + [""]
  {
    var last := p[|p| - 1];
    SplitJoinThen(p, "/");
    SplitSlash("");
    assert "/" + "" == "/";
    assert last + "" == last;
    assert p[..|p| - 1] + [last] == p;
  }

  /** `parse_path` reads back a non-empty path written with or without a leading
      `/` and with or without a trailing `/`, when no segment holds white space. */
  lemma ParseJoined(p: Path, lead: bool, trail: bool)
    requires WellFormed(p) && Blankless(p) && p != []
    ensures ParsePath((if lead then "/" else "") + Join(p, "/") + (if trail then "/" else "")) == p
  {
    var j := Join(p, "/");
    var post := if trail then "/" else "";
    var t := (if lead then "/" else "") + j + post;
    JoinedTrimmed(p, lead, trail);
    StripJoined(p, lead, trail);
    assert t != "/" && t != [] by { JoinHead(p); }
    assert ParsePath(t) == NonEmpty(Split(j + post));
    SplitJoined(p, trail);
  }

  /** Dropping the leading separators of such a rendering leaves the joined segments
      and the trailing separator. */
  lemma StripJoined(p: Path, lead: bool, trail: bool)
    requires WellFormed(p) && p != []
    ensures var post := if trail then "/" else "";
      StripLeadingSlashes((if lead then "/" else "") + Join(p, "/") + post) == Join(p, "/") + post
  {
    var j := Join(p, "/");
    var post := if trail then "/" else "";
    var t := (if lead then "/" else "") + j + post;
    JoinHead(p);
    assert (j + post)[0] == j[0] == p[0][0];
    if lead {
      assert t[0] == '/' && t[1..] == j + post;
    } else {
      assert t == j + post;
    }
  }

  /** Such a rendering has no white space at its ends. */
  lemma JoinedTrimmed(p: Path, lead: bool, trail: bool)
    requires WellFormed(p) && Blankless(p) && p != []
    ensures var t := (if lead then "/" else "") + Join(p, "/") + (if trail then "/" else "");
      Trim(t) == t && |t| > (if lead || trail then 1 else 0)
  {
    var j := Join(p, "/");
    var t := (if lead then "/" else "") + j + (if trail then "/" else "");
    JoinHead(p);
    var first, last := p[0], p[|p| - 1];
    assert j[0] == first[0];
    assert j[|j| - 1] == last[|last| - 1] by {
      assert j[|j| - |last|..][|last| - 1] == last[|last| - 1];
    }
    assert !IsWhitespace(t[0]) by {
      if !lead { assert t[0] == j[0]; }
    }
    assert !IsWhitespace(t[|t| - 1]) by {
      if !trail { assert t[|t| - 1] == j[|j| - 1]; }
    }
    TrimIdentity(t);
  }
}
