/**
  The path check the finder's tests apply to every reported file: a scan of
  the path, written as one string, for a separator followed by `_`, or an
  `_` at its very start. The scan reads the character after each separator
  without a bounds check, so a path that ends with a separator (or is
  empty) can end in a string index exception instead of an answer.
 */
module InternalDirectoryScan {
  import opened FileTree
  import opened SourceDocumentFinder

  /** How one run of the scan ends: an answer, or an out-of-range character read. */
  datatype Outcome = Returned(value: bool) | IndexOutOfBounds

  /**
    The index of the first `c` in `s` at or after `from`, or -1 when there is
    none; a negative `from` searches from the start.
   */
  function IndexOf(s: string, c: char, from: int): (k: int)
    ensures -1 <= k < |s|
    ensures k >= 0 ==> from <= k && s[k] == c
    ensures k >= 0 ==> forall j :: from <= j < k && 0 <= j ==> s[j] != c
    ensures k == -1 ==> forall j :: from <= j < |s| && 0 <= j ==> s[j] != c
    decreases |s| - from
  {
    if from < 0 then IndexOf(s, c, 0)
    else if from >= |s| then -1
    else if s[from] == c then from
    else IndexOf(s, c, from + 1)
  }

  /** Some separator after the first character is directly followed by `_`. */
  predicate SeparatorThenUnderscore(s: string) {
    exists i :: 1 <= i && i + 1 < |s| && s[i] == Separator && s[i + 1] == '_'
  }

  /**
    The scan. It fails with an index exception exactly when the path is
    empty, or when it ends with a separator after its first character and
    no earlier separator is followed by `_`. Otherwise it answers whether
    the path starts with `_` or has a separator followed by `_`.
   */
  method IsContainedInInternalDirectory(path: string) returns (r: Outcome)
    ensures r == IndexOutOfBounds <==>
      || |path| == 0
      || (!SeparatorThenUnderscore(path) && |path| >= 2 && path[|path| - 1] == Separator)
    ensures r.Returned? ==> (r.value <==> path[0] == '_' || SeparatorThenUnderscore(path))
  {
    var cursor := 0;
    while true
      invariant 0 <= cursor
      invariant cursor > 0 ==> cursor + 1 < |path| && path[cursor] == Separator
      invariant forall i :: 1 <= i <= cursor && i < |path| && path[i] == Separator ==>
        i + 1 < |path| && path[i + 1] != '_'
      decreases |path| - cursor
    {
      var next := IndexOf(path, Separator, cursor + 1);
      if next + 1 >= |path| {
        return IndexOutOfBounds;
      }
      if path[next + 1] == '_' {
        return Returned(true);
      }
      if next == -1 {
        break;
      }
      cursor := next;
    }
    return Returned(false);
  }

  /** A path written as one string, its segments joined by the separator. */
  function Join(p: Path): (s: string)
    requires |p| > 0
    decreases |p|
  {
    if |p| == 1 then p[0] else p[0] + [Separator] + Join(p[1..])
  }

  /**
    For a path of valid names, the joined string starts with the first
    segment's first character, does not end with a separator, and has a
    separator followed by `_` exactly when some segment after the first is
    hidden.
   */
  lemma {:induction false} JoinedPathScan(p: Path)
    requires |p| > 0
    requires forall k :: 0 <= k < |p| ==> ValidName(p[k])
    ensures |Join(p)| > 0 && |p[0]| > 0 && Join(p)[0] == p[0][0]
    ensures Join(p)[|Join(p)| - 1] != Separator
    ensures SeparatorThenUnderscore(Join(p)) <==> exists k :: 1 <= k < |p| && IsHidden(p[k])
    decreases |p|
  {
    var s := Join(p);
    assert ValidName(p[0]);
    if |p| == 1 {
      assert s == p[0];
      forall i | 0 <= i < |s|
        ensures s[i] != Separator
      {
        assert s[i] in p[0];
      }
    } else {
      var head := p[0];
      var tail := p[1..];
      var rest := Join(tail);
      JoinedPathScan(tail);
      var a := |head|;
      assert s == head + [Separator] + rest;
      assert s[|s| - 1] == rest[|rest| - 1];
      assert s[a + 1] == rest[0] == p[1][0];
      assert ValidName(p[1]);
      assert rest[0] in tail[0];
      forall i | 0 <= i < a
        ensures s[i] != Separator
      {
        assert s[i] == head[i];
        assert head[i] in head;
      }
      if SeparatorThenUnderscore(s) {
        var i :| 1 <= i && i + 1 < |s| && s[i] == Separator && s[i + 1] == '_';
        assert i >= a;
        if i == a {
          assert IsHidden(p[1]);
        } else {
          var j := i - a - 1;
          assert rest[j] == s[i] && rest[j + 1] == s[i + 1];
          assert SeparatorThenUnderscore(rest);
          var h :| 1 <= h < |tail| && IsHidden(tail[h]);
          assert p[h + 1] == tail[h];
        }
      }
      forall k | 1 <= k < |p| && IsHidden(p[k])
        ensures SeparatorThenUnderscore(s)
      {
        if k == 1 {
          assert s[a] == Separator && s[a + 1] == '_';
        } else {
          assert tail[k - 1] == p[k];
          assert SeparatorThenUnderscore(rest);
          var j :| 1 <= j && j + 1 < |rest| && rest[j] == Separator && rest[j + 1] == '_';
          assert s[a + 1 + j] == rest[j] && s[a + 2 + j] == rest[j + 1];
        }
      }
    }
  }

  /** Every segment of a file path inside a well-formed tree is a valid name. */
  lemma {:induction false} HasFileAtValidNames(cs: seq<Node>, rel: Path)
    requires forall i :: 0 <= i < |cs| ==> WellFormed(cs[i])
    requires HasFileAt(cs, rel)
    ensures forall k :: 0 <= k < |rel| ==> ValidName(rel[k])
    decreases |rel|
  {
    var i :| 0 <= i < |cs| && cs[i].name == rel[0] &&
      (if |rel| == 1 then cs[i].File?
       else cs[i].Dir? && HasFileAt(cs[i].children, rel[1..]));
    if |rel| > 1 {
      HasFileAtValidNames(cs[i].children, rel[1..]);
      forall k | 1 <= k < |rel|
        ensures ValidName(rel[k])
      {
        assert rel[k] == rel[1..][k - 1];
      }
    }
  }

  /**
    Every file the finder reports, under an enclosing path of valid names
    with no hidden segment and a root whose own name is not hidden, passes
    the scan: it runs to an answer, and the answer is false.
   */
  lemma FindPassesInternalDirectoryCheck(enclosing: Path, root: Option<Node>, exts: seq<string>, p: Path)
    requires forall k :: 0 <= k < |enclosing| ==> ValidName(enclosing[k]) && !IsHidden(enclosing[k])
    requires root.Some? ==> WellFormed(root.value) && !IsHidden(root.value.name)
    requires p in Find(enclosing, root, exts)
    ensures |Join(p)| > 0
    ensures Join(p)[|Join(p)| - 1] != Separator
    ensures Join(p)[0] != '_' && !SeparatorThenUnderscore(Join(p))
  {
    FindCharacterization(enclosing, root, exts, p);
    var base := enclosing + [root.value.name];
    var rel := p[|base|..];
    HasFileAtValidNames(root.value.children, rel);
    forall k | 0 <= k < |p|
      ensures ValidName(p[k]) && !IsHidden(p[k])
    {
      if k < |enclosing| {
        assert p[k] == base[k] == enclosing[k];
      } else if k == |enclosing| {
        assert p[k] == base[k] == root.value.name;
      } else {
        assert p[k] == rel[k - |base|];
      }
    }
    JoinedPathScan(p);
  }

  /**
    The converse for enclosing paths: when a segment of the path above the
    root is hidden, the scan flags every reported file, although the finder
    still reports it.
   */
  lemma EnclosingHiddenSegmentTripsCheck(enclosing: Path, root: Option<Node>, exts: seq<string>, p: Path)
    requires forall k :: 0 <= k < |enclosing| ==> ValidName(enclosing[k])
    requires exists k :: 0 <= k < |enclosing| && IsHidden(enclosing[k])
    requires root.Some? ==> WellFormed(root.value)
    requires p in Find(enclosing, root, exts)
    ensures |Join(p)| > 0
    ensures Join(p)[|Join(p)| - 1] != Separator
    ensures Join(p)[0] == '_' || SeparatorThenUnderscore(Join(p))
  {
    FindCharacterization(enclosing, root, exts, p);
    var base := enclosing + [root.value.name];
    var rel := p[|base|..];
    HasFileAtValidNames(root.value.children, rel);
    forall k | 0 <= k < |p|
      ensures ValidName(p[k])
    {
      if k < |enclosing| {
        assert p[k] == base[k] == enclosing[k];
      } else if k == |enclosing| {
        assert p[k] == base[k] == root.value.name;
      } else {
        assert p[k] == rel[k - |base|];
      }
    }
    JoinedPathScan(p);
    var h :| 0 <= h < |enclosing| && IsHidden(enclosing[h]);
    assert p[h] == enclosing[h];
  }
}
