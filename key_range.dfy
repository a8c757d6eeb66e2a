/** Key ranges (src/util.rs `strinc` and the bounds `scan_path` builds): the store
    keeps keys in lexicographic byte order, and the end bound of a prefix scan is
    the prefix's successor: the least key that is above every key with the prefix. */
module KeyRange {
  import opened Common

  /** Lexicographic order of byte strings: a proper prefix comes first, otherwise
      the first differing byte decides. */
  predicate Less(a: seq<byte>, b: seq<byte>)
    decreases |a|
  {
    if a == [] then b != []
    else b != [] && (a[0] < b[0] || (a[0] == b[0] && Less(a[1..], b[1..])))
  }

  predicate LessEq(a: seq<byte>, b: seq<byte>) {
    a == b || Less(a, b)
  }

  lemma {:induction false} LessIrreflexive(a: seq<byte>)
    ensures !Less(a, a)
  {
    if a != [] {
      LessIrreflexive(a[1..]);
    }
  }

  /** Equal up to offset `k` and smaller at `k` means smaller. */
  lemma {:induction false} LessAt(a: seq<byte>, b: seq<byte>, k: nat)
    requires k < |a| && k < |b| && a[..k] == b[..k] && a[k] < b[k]
    ensures Less(a, b)
  {
    if k > 0 {
      assert a[0] == a[..k][0] == b[..k][0] == b[0];
      assert a[1..][..k - 1] == a[1..k] == b[1..k] == b[1..][..k - 1];
      LessAt(a[1..], b[1..], k - 1);
    }
  }

  /** A proper prefix comes first. */
  lemma {:induction false} LessPrefix(a: seq<byte>, b: seq<byte>)
    requires |a| < |b| && b[..|a|] == a
    ensures Less(a, b)
  {
    if a != [] {
      assert b[0] == a[0];
      assert b[1..][..|a| - 1] == a[1..];
      LessPrefix(a[1..], b[1..]);
    }
  }

  /** Why `a` is below `b`: some offset `k` where they agree before, and either `a`
      ends at `k` or is smaller at `k`. */
  lemma {:induction false} LessWitness(a: seq<byte>, b: seq<byte>) returns (k: nat)
    requires Less(a, b)
    ensures k <= |a| && k < |b| && a[..k] == b[..k]
    ensures k == |a| || a[k] < b[k]
  {
    if a == [] || a[0] < b[0] {
      k := 0;
    } else {
      var j := LessWitness(a[1..], b[1..]);
      k := j + 1;
      assert a[..k] == [a[0]] + a[1..][..j];
      assert b[..k] == [b[0]] + b[1..][..j];
    }
  }

  // ---------------------------------------------------------------------------
  // strinc
  // ---------------------------------------------------------------------------

  predicate AllFF(key: seq<byte>) {
    forall k :: 0 <= k < |key| ==> key[k] == 0xFF
  }

  /** The offset of the last byte that is not 0xFF. */
  function LastNonFF(key: seq<byte>): (i: nat)
    requires !AllFF(key)
    ensures i < |key| && key[i] != 0xFF
    ensures forall k :: i < k < |key| ==> key[k] == 0xFF
  {
    if key[|key| - 1] != 0xFF then |key| - 1 else LastNonFF(key[..|key| - 1])
  }

  /** The successor of a prefix: keep everything before its last non-0xFF byte and
      increment that byte; no bytes at all when there is no such byte. */
  function Successor(key: seq<byte>): seq<byte> {
    if AllFF(key) then []
    else
      var i := LastNonFF(key);
      key[..i] + [key[i] + 1]
  }

  /** `strinc`: walks the key backwards, increments the first byte that is not
      0xFF, truncates after it and returns it; an empty or all-0xFF key gives an
      empty vector. The `Vec` is taken by value, so updating it is local. */
  method Strinc(key0: seq<byte>) returns (r: seq<byte>)
    ensures r == Successor(key0)
  {
    var key := key0;
    for i := |key| downto 0
      invariant key == key0
      invariant forall k :: i <= k < |key| ==> key[k] == 0xFF
    {
      if key[i] != 0xFF {
        key := key[i := key[i] + 1];
        key := key[..i + 1];
        assert LastNonFF(key0) == i;
        return key;
      }
    }
    return [];
  }

  /** The successor is never longer than the key, and it is empty exactly for the
      empty key and the keys made of 0xFF bytes only. */
  lemma SuccessorLength(key: seq<byte>)
    ensures |Successor(key)| <= |key|
    ensures (Successor(key) == []) == AllFF(key)
  {
  }

  /** Every key that has `key` as a prefix (`key` itself included) is below the
      successor. */
  lemma SuccessorAbove(key: seq<byte>, s: seq<byte>)
    requires !AllFF(key) && StartsWith(s, key)
    ensures Less(s, Successor(key))
  {
    var i := LastNonFF(key);
    var r := Successor(key);
    assert s[..i] == key[..i] == r[..i];
    LessAt(s, r, i);
  }

  /** Every key above `key` that does not have `key` as a prefix is at or above the
      successor. */
  lemma SuccessorLeast(key: seq<byte>, t: seq<byte>)
    requires !AllFF(key) && Less(key, t) && !StartsWith(t, key)
    ensures LessEq(Successor(key), t)
  {
    var i := LastNonFF(key);
    var r := Successor(key);
    var k := LessWitness(key, t);
    if k == |key| {
      assert false;
    }
    assert key[k] < t[k];
    if k < i {
      assert r[..k] == key[..k];
      LessAt(r, t, k);
    } else if k == i {
      assert r[..i] == t[..i];
      if t[i] > r[i] {
        LessAt(r, t, i);
      } else {
        assert t[..i + 1] == r;
        if |t| > i + 1 {
          LessPrefix(r, t);
        }
      }
    } else {
      assert false;
    }
  }

  /** The successor is the least key above every key that has `key` as a prefix. */
  lemma SuccessorIsLeastBound(key: seq<byte>, t: seq<byte>)
    requires !AllFF(key)
    requires forall s :: StartsWith(s, key) ==> Less(s, t)
    ensures LessEq(Successor(key), t)
  {
    assert StartsWith(key, key);
    if StartsWith(t, key) {
      LessIrreflexive(t);
      assert false;
    }
    SuccessorLeast(key, t);
  }

  // ---------------------------------------------------------------------------
  // The bounds of a scan
  // ---------------------------------------------------------------------------

  /** A half-open key range `[begin, end)`. */
  datatype Range = Range(begin: seq<byte>, end: seq<byte>)

  predicate InRange(key: seq<byte>, r: Range) {
    LessEq(r.begin, key) && Less(key, r.end)
  }

  /** The bounds of `scan_path` (src/util.rs:123-130). With a sub-prefix the scan
      starts at the directory's bytes followed by the sub-prefix and ends at the
      successor of that; without one it is the directory's own range. Reading the
      directory's bytes or range is the external directory layer's: `dirBytes` and
      `dirRange` are what those calls return, None for their errors. */
  method ScanBounds(dirBytes: Option<seq<byte>>, dirRange: Option<Range>, prefix: Option<seq<byte>>)
    returns (r: Option<Range>)
    ensures prefix.None? ==> r == dirRange
    ensures prefix.Some? && dirBytes.None? ==> r.None?
    ensures prefix.Some? && dirBytes.Some? ==>
      r.Some? && r.value.begin == dirBytes.value + prefix.value
      && r.value.end == Successor(r.value.begin)
  {
    if prefix.Some? {
      if dirBytes.None? {
        return None;
      }
      var start := dirBytes.value;
      start := start + prefix.value;
      var end := Strinc(start);
      r := Some(Range(start, end));
    } else {
      r := dirRange;
    }
  }

  /** A prefix scan returns exactly the keys that start with its begin key (the
      directory's bytes followed by the scan prefix), as long as the begin key
      has a byte other than 0xFF. */
  lemma PrefixRangeExact(begin: seq<byte>, key: seq<byte>)
    requires !AllFF(begin)
    ensures InRange(key, Range(begin, Successor(begin))) == StartsWith(key, begin)
  {
    if StartsWith(key, begin) {
      SuccessorAbove(begin, key);
      if |key| > |begin| {
        LessPrefix(begin, key);
      }
    } else if InRange(key, Range(begin, Successor(begin))) {
      SuccessorLeast(begin, key);
      if key == Successor(begin) {
        LessIrreflexive(key);
      } else {
        LessAsymmetric(key, Successor(begin));
      }
    }
  }

  lemma {:induction false} LessAsymmetric(a: seq<byte>, b: seq<byte>)
    requires Less(a, b)
    ensures !Less(b, a)
  {
    if a != [] && a[0] == b[0] {
      LessAsymmetric(a[1..], b[1..]);
    }
  }

  /** The end bound depends on the whole begin key: when the directory's bytes
      hold a byte other than 0xFF, the end bound is not empty, for every scan
      prefix (the empty one and all-0xFF ones included). */
  lemma DirectoryKeepsEnd(dirBytes: seq<byte>, prefix: seq<byte>)
    requires !AllFF(dirBytes)
    ensures Successor(dirBytes + prefix) != []
  {
    var k :| 0 <= k < |dirBytes| && dirBytes[k] != 0xFF;
    assert (dirBytes + prefix)[k] == dirBytes[k];
    SuccessorLength(dirBytes + prefix);
  }

  /** With a begin key that is empty or all 0xFF, the end bound is empty and the
      half-open range holds no key at all. */
  lemma PrefixRangeEmpty(begin: seq<byte>, key: seq<byte>)
    requires AllFF(begin)
    ensures !InRange(key, Range(begin, Successor(begin)))
  {
  }
}
