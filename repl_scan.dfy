/** The arguments of the shell's `scan` and `dump` commands (src/repl.rs): the tokens
    may come in any order; each is a raw-mode flag, a limit, or a candidate key
    prefix written as a byte literal. */
module ScanArgs {
  import opened Common
  import Utf8
  import ByteLiteral

  /** `let mut limit: usize = 50` */
  const DefaultLimit: nat := 50

  /** `--raw`, `-r` and `raw` switch to raw keys. */
  predicate IsRawFlag(tok: string) {
    tok == "--raw" || tok == "-r" || tok == "raw"
  }

  /** The prefix a token denotes, if it is neither a flag nor a number and its
      byte literal decodes. */
  function PrefixOf(tok: string): Option<seq<byte>> {
    if IsRawFlag(tok) || ParseUsize(tok).Some? then None
    else match ByteLiteral.DecodeLiteral(Utf8.Encode(tok))
      case Ok(b) => Some(b)
      case Err(_) => None
  }

  /** The limit: the value of the last token that reads as a `usize`, or the default. */
  function LimitOf(tokens: seq<string>): nat {
    if tokens == [] then DefaultLimit
    else match ParseUsize(tokens[|tokens| - 1])
      case Some(n) => n
      case None => LimitOf(tokens[..|tokens| - 1])
  }

  /** The prefix: the first token that denotes one. */
  function FirstPrefix(tokens: seq<string>): Option<seq<byte>> {
    if tokens == [] then None
    else if PrefixOf(tokens[0]).Some? then PrefixOf(tokens[0])
    else FirstPrefix(tokens[1..])
  }

  /** Raw mode: some token is a flag. */
  predicate RawOf(tokens: seq<string>) {
    exists k :: 0 <= k < |tokens| && IsRawFlag(tokens[k])
  }

  /** The loop over the tokens after the command word: a flag sets `raw`, a number
      replaces `limit`, and the first other token whose literal decodes becomes the
      prefix; tokens that fit none of these are skipped. */
  method ParseScanArgs(tokens: seq<string>) returns (limit: nat, prefix: Option<seq<byte>>, raw: bool)
    ensures limit == LimitOf(tokens)
    ensures prefix == FirstPrefix(tokens)
    ensures raw == RawOf(tokens)
  {
    limit, prefix, raw := DefaultLimit, None, false;
    for i := 0 to |tokens|
      invariant limit == LimitOf(tokens[..i])
      invariant prefix == FirstPrefix(tokens[..i])
      invariant raw == RawOf(tokens[..i])
    {
      var tok := tokens[i];
      assert tokens[..i + 1][..i] == tokens[..i];
      FirstPrefixSnoc(tokens[..i], tok);
      assert tokens[..i + 1] == tokens[..i] + [tok];
      if IsRawFlag(tok) {
        raw := true;
        assert tokens[..i + 1][i] == tok;
        continue;
      }
      assert RawOf(tokens[..i + 1]) == RawOf(tokens[..i]) by {
        assert forall k :: 0 <= k < i ==> tokens[..i + 1][k] == tokens[..i][k];
      }
      var n := ParseUsize(tok);
      if n.Some? {
        limit := n.value;
        continue;
      }
      if prefix.None? {
        var b := ByteLiteral.ParseBytesLiteral(tok);
        if b.Ok? {
          prefix := Some(b.value);
        }
      }
    }
    assert tokens[..|tokens|] == tokens;
  }

  /** Appending a token changes the prefix only when there was none yet. */
  lemma {:induction false} FirstPrefixSnoc(tokens: seq<string>, tok: string)
    ensures FirstPrefix(tokens + [tok])
      == if FirstPrefix(tokens).Some? then FirstPrefix(tokens) else PrefixOf(tok)
  {
    if tokens == [] {
      assert tokens + [tok] == [tok];
    } else {
      assert (tokens + [tok])[0] == tokens[0];
      assert (tokens + [tok])[1..] == tokens[1..] + [tok];
      FirstPrefixSnoc(tokens[1..], tok);
    }
  }

  /** The limit is the default exactly when no token reads as a number, and is
      otherwise the value of the last one that does. */
  lemma {:induction false} LimitIsLastNumber(tokens: seq<string>)
    ensures (forall k :: 0 <= k < |tokens| ==> ParseUsize(tokens[k]).None?) ==> LimitOf(tokens) == DefaultLimit
    ensures forall k :: (0 <= k < |tokens| && ParseUsize(tokens[k]).Some?
                         && (forall j :: k < j < |tokens| ==> ParseUsize(tokens[j]).None?))
                        ==> LimitOf(tokens) == ParseUsize(tokens[k]).value
  {
    if forall k :: 0 <= k < |tokens| ==> ParseUsize(tokens[k]).None? {
      NoNumberDefault(tokens);
    }
    forall k | 0 <= k < |tokens| && ParseUsize(tokens[k]).Some?
               && (forall j :: k < j < |tokens| ==> ParseUsize(tokens[j]).None?)
      ensures LimitOf(tokens) == ParseUsize(tokens[k]).value
    {
      LastNumberWins(tokens, k);
    }
  }

  lemma {:induction false} NoNumberDefault(tokens: seq<string>)
    requires forall k :: 0 <= k < |tokens| ==> ParseUsize(tokens[k]).None?
    ensures LimitOf(tokens) == DefaultLimit
  {
    if tokens != [] {
      var init := tokens[..|tokens| - 1];
      assert forall k :: 0 <= k < |init| ==> init[k] == tokens[k];
      NoNumberDefault(init);
    }
  }

  lemma {:induction false} LastNumberWins(tokens: seq<string>, k: nat)
    requires k < |tokens| && ParseUsize(tokens[k]).Some?
    requires forall j :: k < j < |tokens| ==> ParseUsize(tokens[j]).None?
    ensures LimitOf(tokens) == ParseUsize(tokens[k]).value
    decreases |tokens|
  {
    if k < |tokens| - 1 {
      var init := tokens[..|tokens| - 1];
      assert forall j :: 0 <= j < |init| ==> init[j] == tokens[j];
      LastNumberWins(init, k);
    }
  }

  /** The prefix, when there is one, is the decoding of a token that is neither a
      flag nor a number, and no earlier token denotes a prefix. */
  lemma {:induction false} PrefixIsFirstLiteral(tokens: seq<string>)
    ensures FirstPrefix(tokens).None? <==> forall k :: 0 <= k < |tokens| ==> PrefixOf(tokens[k]).None?
    ensures FirstPrefix(tokens).Some? ==>
      exists k :: (0 <= k < |tokens| && !IsRawFlag(tokens[k]) && ParseUsize(tokens[k]).None?
                   && ByteLiteral.DecodeLiteral(Utf8.Encode(tokens[k])) == Ok(FirstPrefix(tokens).value)
                   && forall j :: 0 <= j < k ==> PrefixOf(tokens[j]).None?)
  {
    NoPrefix(tokens);
    if FirstPrefix(tokens).Some? {
      var k := FirstPrefixWitness(tokens);
      var v := FirstPrefix(tokens).value;
      assert !IsRawFlag(tokens[k]) && ParseUsize(tokens[k]).None?
        && ByteLiteral.DecodeLiteral(Utf8.Encode(tokens[k])) == Ok(v);
    }
  }

  lemma {:induction false} NoPrefix(tokens: seq<string>)
    ensures FirstPrefix(tokens).None? <==> forall k :: 0 <= k < |tokens| ==> PrefixOf(tokens[k]).None?
  {
    if tokens != [] {
      NoPrefix(tokens[1..]);
      assert forall k :: 1 <= k < |tokens| ==> tokens[1..][k - 1] == tokens[k];
    }
  }

  /** The token the prefix comes from: the first one that denotes a prefix. */
  lemma {:induction false} FirstPrefixWitness(tokens: seq<string>) returns (k: nat)
    requires FirstPrefix(tokens).Some?
    ensures k < |tokens| && PrefixOf(tokens[k]) == FirstPrefix(tokens)
    ensures forall j :: 0 <= j < k ==> PrefixOf(tokens[j]).None?
  {
    if PrefixOf(tokens[0]).Some? {
      k := 0;
    } else {
      var i := FirstPrefixWitness(tokens[1..]);
      k := i + 1;
      assert forall j :: 1 <= j < k ==> tokens[j] == tokens[1..][j - 1];
    }
  }

  /** A number is never taken for a prefix, even when it would decode as one. */
  lemma NumbersAreNotPrefixes(tok: string)
    requires ParseUsize(tok).Some?
    ensures PrefixOf(tok).None?
    ensures FirstPrefix([tok]) == None && LimitOf([tok]) == ParseUsize(tok).value
  {
  }

  /** Order independence: swapping two neighbouring tokens of different kinds,
      a number and a non-number, changes nothing. */
  lemma SwapNumber(pre: seq<string>, a: string, b: string, post: seq<string>)
    requires ParseUsize(a).Some? && ParseUsize(b).None?
    ensures var s, t := pre + [a, b] + post, pre + [b, a] + post;
      LimitOf(s) == LimitOf(t) && FirstPrefix(s) == FirstPrefix(t) && RawOf(s) == RawOf(t)
  {
    SwapLimit(pre, a, b, post);
    SwapPrefix(pre, a, b, post);
    SwapRaw(pre, a, b, post);
  }

  /** Raw mode does not depend on the order of the tokens. */
  lemma SwapRaw(pre: seq<string>, a: string, b: string, post: seq<string>)
    ensures RawOf(pre + [a, b] + post) == RawOf(pre + [b, a] + post)
  {
    var s, t := pre + [a, b] + post, pre + [b, a] + post;
    var n := |pre|;
    assert forall k :: 0 <= k < |s| && k != n && k != n + 1 ==> s[k] == t[k];
    assert s[n] == t[n + 1] && s[n + 1] == t[n];
    if RawOf(s) {
      var k :| 0 <= k < |s| && IsRawFlag(s[k]);
      var k' := if k == n then n + 1 else if k == n + 1 then n else k;
      assert IsRawFlag(t[k']);
    }
    if RawOf(t) {
      var k :| 0 <= k < |t| && IsRawFlag(t[k]);
      var k' := if k == n then n + 1 else if k == n + 1 then n else k;
      assert IsRawFlag(s[k']);
    }
  }

  /** The limit after a token: the token's number, or the limit before it. */
  lemma LimitSnoc(s: seq<string>, tok: string)
    ensures LimitOf(s + [tok]) == if ParseUsize(tok).Some? then ParseUsize(tok).value else LimitOf(s)
  {
    assert (s + [tok])[..|s|] == s;
    assert (s + [tok])[|s|] == tok;
  }

  lemma {:induction false} SwapLimit(pre: seq<string>, a: string, b: string, post: seq<string>)
    requires ParseUsize(a).Some? && ParseUsize(b).None?
    ensures LimitOf(pre + [a, b] + post) == LimitOf(pre + [b, a] + post)
    decreases |post|
  {
    if post == [] {
      PairSnoc(pre, a, b);
      PairSnoc(pre, b, a);
      LimitSnoc(pre, a);
      LimitSnoc(pre + [a], b);
      LimitSnoc(pre, b);
      LimitSnoc(pre + [b], a);
    } else {
      var init, last := post[..|post| - 1], post[|post| - 1];
      SwapLimit(pre, a, b, init);
      LastSplit(pre + [a, b], post);
      LastSplit(pre + [b, a], post);
      LimitSnoc(pre + [a, b] + init, last);
      LimitSnoc(pre + [b, a] + init, last);
    }
  }

  lemma PairSnoc(pre: seq<string>, a: string, b: string)
    ensures pre + [a, b] + [] == (pre + [a]) + [b]
  {
  }

  /** A non-empty tail splits into its front part and its last token. */
  lemma LastSplit(x: seq<string>, post: seq<string>)
    requires post != []
    ensures x + post == (x + post[..|post| - 1]) + [post[|post| - 1]]
  {
    assert post == post[..|post| - 1] + [post[|post| - 1]];
  }

  /** The prefix of a list that starts with a given token. */
  lemma FirstPrefixCons(tok: string, s: seq<string>)
    ensures FirstPrefix([tok] + s) == if PrefixOf(tok).Some? then PrefixOf(tok) else FirstPrefix(s)
  {
    assert ([tok] + s)[0] == tok && ([tok] + s)[1..] == s;
  }

  lemma {:induction false} SwapPrefix(pre: seq<string>, a: string, b: string, post: seq<string>)
    requires ParseUsize(a).Some? && ParseUsize(b).None?
    ensures FirstPrefix(pre + [a, b] + post) == FirstPrefix(pre + [b, a] + post)
  {
    if pre == [] {
      assert pre + [a, b] + post == [a] + ([b] + post);
      assert pre + [b, a] + post == [b] + ([a] + post);
      FirstPrefixCons(a, [b] + post);
      FirstPrefixCons(b, [a] + post);
      FirstPrefixCons(a, post);
      FirstPrefixCons(b, post);
    } else {
      SwapPrefix(pre[1..], a, b, post);
      assert pre + [a, b] + post == [pre[0]] + (pre[1..] + [a, b] + post);
      assert pre + [b, a] + post == [pre[0]] + (pre[1..] + [b, a] + post);
      FirstPrefixCons(pre[0], pre[1..] + [a, b] + post);
      FirstPrefixCons(pre[0], pre[1..] + [b, a] + post);
    }
  }
}
