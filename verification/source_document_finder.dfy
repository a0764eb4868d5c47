/**
  The source document finder: walks the directory tree under a root and
  returns the regular files whose names carry one of the accepted extensions,
  skipping every file and pruning every directory whose name starts with `_`.
  Only the segments below the root are examined for the `_` prefix, so a root
  that itself lies inside an `_` directory is searched normally.
 */
module SourceDocumentFinder {
  import opened FileTree

  /** The extensions used when the caller names none. */
  const DefaultExtensions: seq<string> := ["ad", "adoc", "asc", "asciidoc"]

  predicate EndsWith(s: string, suffix: string) {
    |suffix| <= |s| && s[|s| - |suffix|..] == suffix
  }

  /** A hidden entry: its name starts with an underscore. */
  predicate IsHidden(name: Name) {
    |name| > 0 && name[0] == '_'
  }

  /** The name carries the extension `ext`: it ends with a dot and `ext`. */
  predicate HasExtension(name: Name, ext: string) {
    EndsWith(name, "." + ext)
  }

  /** The name carries one of the accepted extensions. */
  predicate Accepted(name: Name, exts: seq<string>) {
    exists e :: e in exts && HasExtension(name, e)
  }

  /**
    A relative path the finder may report: no segment of it is hidden and
    its last segment, the file name, carries an accepted extension.
   */
  predicate Selected(rel: Path, exts: seq<string>) {
    && |rel| > 0
    && (forall k :: 0 <= k < |rel| ==> !IsHidden(rel[k]))
    && Accepted(rel[|rel| - 1], exts)
  }

  /** The declarative answer: a regular file at `rel` that the finder selects. */
  ghost predicate Eligible(cs: seq<Node>, rel: Path, exts: seq<string>) {
    HasFileAt(cs, rel) && Selected(rel, exts)
  }

  /**
    Every path of `ps`, placed under `base`: each result splits back into
    `base` and the path it came from.
   */
  function Prepend(base: Path, ps: seq<Path>): (r: seq<Path>)
    ensures |r| == |ps|
    ensures forall i :: 0 <= i < |ps| ==>
      |r[i]| == |base| + |ps[i]| && r[i][..|base|] == base && r[i][|base|..] == ps[i]
  {
    seq(|ps|, i requires 0 <= i < |ps| => base + ps[i])
  }

  lemma SelectedUnder(name: Name, ps: seq<Path>, exts: seq<string>)
    requires !IsHidden(name)
    requires forall p :: p in ps ==> Selected(p, exts)
    ensures forall p :: p in Prepend([name], ps) ==> Selected(p, exts) && p[0] == name
  {
    var r := Prepend([name], ps);
    forall p | p in r
      ensures Selected(p, exts) && p[0] == name
    {
      var i :| 0 <= i < |r| && r[i] == p;
      var q := ps[i];
      assert q in ps;
      assert p == [name] + q;
      forall k | 0 <= k < |p|
        ensures !IsHidden(p[k])
      {
        if k > 0 {
          assert p[k] == q[k - 1];
        }
      }
      assert p[|p| - 1] == q[|q| - 1];
    }
  }

  /**
    The files found at entry `n`, as paths relative to the directory that
    holds `n`. A hidden entry yields nothing, and a hidden directory is not
    entered at all.
   */
  function Visit(n: Node, exts: seq<string>): (r: seq<Path>)
    ensures forall p :: p in r ==> Selected(p, exts) && p[0] == n.name
    ensures |exts| == 0 ==> r == []
    decreases n, 1
  {
    if IsHidden(n.name) then []
    else match n
      case File(name) => if Accepted(name, exts) then [[name]] else []
      case Dir(name, kids) =>
        var found := Collect(kids, exts);
        SelectedUnder(name, found, exts);
        Prepend([name], found)
  }

  /** The files found among the entries `cs` of one directory, entry by entry. */
  function Collect(cs: seq<Node>, exts: seq<string>): (r: seq<Path>)
    ensures forall p :: p in r ==>
      Selected(p, exts) && exists i :: 0 <= i < |cs| && p[0] == cs[i].name
    ensures |exts| == 0 ==> r == []
    decreases cs, 0
  {
    if |cs| == 0 then []
    else
      var here := Visit(cs[0], exts);
      var rest := Collect(cs[1..], exts);
      assert forall p :: p in rest ==> exists i :: 0 <= i < |cs| && p[0] == cs[i].name by {
        forall p | p in rest
          ensures exists i :: 0 <= i < |cs| && p[0] == cs[i].name
        {
          var j :| 0 <= j < |cs[1..]| && p[0] == cs[1..][j].name;
          assert p[0] == cs[j + 1].name;
        }
      }
      here + rest
  }

  /**
    The finder's entry point with an explicit extension list. `enclosing` is
    the path of the directory that holds the root, and `root` is the root
    entry itself, or None when nothing exists there. A missing root, or a
    root that is not a directory, yields no files rather than an error.
   */
  function Find(enclosing: Path, root: Option<Node>, exts: seq<string>): (r: seq<Path>)
    ensures root.None? ==> r == []
    ensures |exts| == 0 ==> r == []
  {
    match root
    case None => []
    case Some(File(_)) => []
    case Some(Dir(name, kids)) => Prepend(enclosing + [name], Collect(kids, exts))
  }

  /**
    Every path found lies strictly under the root, which must be an existing
    directory, and its part below the root is a selected path: no hidden
    segment and an accepted file name.
   */
  lemma FindSound(enclosing: Path, root: Option<Node>, exts: seq<string>, p: Path)
    requires p in Find(enclosing, root, exts)
    ensures root.Some? && root.value.Dir?
    ensures |p| > |enclosing| + 1
    ensures p[..|enclosing| + 1] == enclosing + [root.value.name]
    ensures Selected(p[|enclosing| + 1..], exts)
  {
    FindCharacterization(enclosing, root, exts, p);
  }

  lemma DotExtensionEndsWith(name: Name, ext: string)
    requires HasExtension(name, ext)
    ensures EndsWith(name, ext)
  {
  }

  /** A name with a default extension ends with the suffix the tests check for. */
  lemma DefaultAcceptedEndsWith(name: Name)
    requires Accepted(name, DefaultExtensions)
    ensures EndsWith(name, "ad") || EndsWith(name, "adoc") ||
            EndsWith(name, "asc") || EndsWith(name, "asciidoc")
  {
  }

  /**
    The finder's entry point without an extension list: it searches with
    exactly the four default extensions.
   */
  function FindDefault(enclosing: Path, root: Option<Node>): (r: seq<Path>)
    ensures r == Find(enclosing, root, ["ad", "adoc", "asc", "asciidoc"])
  {
    Find(enclosing, root, DefaultExtensions)
  }

  /**
    Every file found without an extension list carries one of `ad`, `adoc`,
    `asc` and `asciidoc` after a dot, and so ends with one of them.
   */
  lemma FindDefaultSound(enclosing: Path, root: Option<Node>, p: Path)
    requires p in FindDefault(enclosing, root)
    ensures |p| > 0 && Accepted(p[|p| - 1], ["ad", "adoc", "asc", "asciidoc"])
    ensures EndsWith(p[|p| - 1], "ad") || EndsWith(p[|p| - 1], "adoc") ||
            EndsWith(p[|p| - 1], "asc") || EndsWith(p[|p| - 1], "asciidoc")
  {
    FindSound(enclosing, root, DefaultExtensions, p);
    var rel := p[|enclosing| + 1..];
    assert p[|p| - 1] == rel[|rel| - 1];
    DefaultAcceptedEndsWith(p[|p| - 1]);
  }

  /**
    Every file found with an explicit extension list has a name ending with
    one of the listed extensions, whether the list holds one extension or
    several.
   */
  lemma FindNamesEndWithExtension(enclosing: Path, root: Option<Node>, exts: seq<string>, p: Path)
    requires p in Find(enclosing, root, exts)
    ensures |p| > 0 && exists e :: e in exts && EndsWith(p[|p| - 1], e)
  {
    FindSound(enclosing, root, exts, p);
    var rel := p[|enclosing| + 1..];
    assert Selected(rel, exts);
    assert |rel| == |p| - |enclosing| - 1;
    var name := rel[|rel| - 1];
    assert p[|p| - 1] == name;
    var e :| e in exts && HasExtension(name, e);
    DotExtensionEndsWith(name, e);
    assert e in exts && EndsWith(p[|p| - 1], e);
  }

  /**
    No file found has a name starting with `_`, and none lies under a
    directory below the root whose name starts with `_`. Segments of the
    enclosing path and the root's own name are not examined.
   */
  lemma FindExcludesHidden(enclosing: Path, root: Option<Node>, exts: seq<string>, p: Path)
    requires p in Find(enclosing, root, exts)
    ensures |p| > |enclosing| + 1
    ensures !IsHidden(p[|p| - 1])
    ensures forall k :: |enclosing| < k < |p| ==> !IsHidden(p[k])
  {
    FindSound(enclosing, root, exts, p);
    var rel := p[|enclosing| + 1..];
    forall k | |enclosing| < k < |p|
      ensures !IsHidden(p[k])
    {
      assert p[k] == rel[k - |enclosing| - 1];
    }
  }

  // Soundness and completeness of the traversal against Eligible.

  lemma {:induction false} VisitSound(n: Node, exts: seq<string>, p: Path)
    requires p in Visit(n, exts)
    ensures Eligible([n], p, exts)
    decreases n, 1
  {
    match n
    case File(name) =>
      assert p == [name];
      assert [n][0] == n;
      assert 0 <= 0 < |[n]| && [n][0].name == p[0] && [n][0].File?;
    case Dir(name, kids) =>
      var found := Collect(kids, exts);
      var r := Prepend([name], found);
      var i :| 0 <= i < |r| && r[i] == p;
      assert found[i] in found;
      CollectSound(kids, exts, found[i]);
      assert p == [name] + found[i];
      assert p[1..] == found[i];
      assert [n][0] == n;
      assert 0 <= 0 < |[n]| && [n][0].name == p[0] && [n][0].Dir? && HasFileAt([n][0].children, p[1..]);
  }

  lemma {:induction false} CollectSound(cs: seq<Node>, exts: seq<string>, p: Path)
    requires p in Collect(cs, exts)
    ensures Eligible(cs, p, exts)
    decreases cs, 0
  {
    if p in Visit(cs[0], exts) {
      VisitSound(cs[0], exts, p);
      var i :| 0 <= i < 1 && [cs[0]][i].name == p[0] &&
        (if |p| == 1 then [cs[0]][i].File?
         else [cs[0]][i].Dir? && HasFileAt([cs[0]][i].children, p[1..]));
      assert cs[0] == [cs[0]][i];
    } else {
      CollectSound(cs[1..], exts, p);
      var j :| 0 <= j < |cs[1..]| && cs[1..][j].name == p[0] &&
        (if |p| == 1 then cs[1..][j].File?
         else cs[1..][j].Dir? && HasFileAt(cs[1..][j].children, p[1..]));
      assert cs[j + 1] == cs[1..][j];
    }
  }

  lemma {:induction false} VisitComplete(n: Node, exts: seq<string>, rel: Path)
    requires Selected(rel, exts) && n.name == rel[0]
    requires if |rel| == 1 then n.File? else n.Dir? && HasFileAt(n.children, rel[1..])
    ensures rel in Visit(n, exts)
    decreases n, 1
  {
    assert !IsHidden(rel[0]);
    if |rel| == 1 {
      assert rel == [n.name];
    } else {
      var tail := rel[1..];
      assert Selected(tail, exts) by {
        forall k | 0 <= k < |tail|
          ensures !IsHidden(tail[k])
        {
          assert tail[k] == rel[k + 1];
        }
        assert tail[|tail| - 1] == rel[|rel| - 1];
      }
      CollectComplete(n.children, exts, tail);
      var found := Collect(n.children, exts);
      var i :| 0 <= i < |found| && found[i] == tail;
      assert rel == [n.name] + tail;
      assert Prepend([n.name], found)[i] == rel;
    }
  }

  lemma {:induction false} CollectComplete(cs: seq<Node>, exts: seq<string>, rel: Path)
    requires Eligible(cs, rel, exts)
    ensures rel in Collect(cs, exts)
    decreases cs, 0
  {
    var i :| 0 <= i < |cs| && cs[i].name == rel[0] &&
      (if |rel| == 1 then cs[i].File?
       else cs[i].Dir? && HasFileAt(cs[i].children, rel[1..]));
    if i == 0 {
      VisitComplete(cs[0], exts, rel);
    } else {
      assert cs[1..][i - 1] == cs[i];
      CollectComplete(cs[1..], exts, rel);
    }
  }

  /**
    What the finder returns, stated without the traversal: a path is in the
    result exactly when the root is an existing directory, the path is the
    root's path followed by a relative path, and that relative path leads to
    a regular file that is eligible (no hidden segment below the root, an
    accepted extension).
   */
  lemma FindCharacterization(enclosing: Path, root: Option<Node>, exts: seq<string>, p: Path)
    ensures p in Find(enclosing, root, exts) <==>
      && root.Some? && root.value.Dir?
      && var base := enclosing + [root.value.name];
      && |p| > |base| && p[..|base|] == base
      && Eligible(root.value.children, p[|base|..], exts)
  {
    if root.Some? && root.value.Dir? {
      var base := enclosing + [root.value.name];
      var kids := root.value.children;
      var found := Collect(kids, exts);
      if p in Find(enclosing, root, exts) {
        var i :| 0 <= i < |found| && Prepend(base, found)[i] == p;
        assert found[i] in found;
        CollectSound(kids, exts, found[i]);
      }
      if |p| > |base| && p[..|base|] == base && Eligible(kids, p[|base|..], exts) {
        CollectComplete(kids, exts, p[|base|..]);
        var i :| 0 <= i < |found| && found[i] == p[|base|..];
        assert Prepend(base, found)[i] == p;
      }
    }
  }

  // No file is reported twice.

  predicate NoDuplicates(ps: seq<Path>) {
    forall i, j :: 0 <= i < j < |ps| ==> ps[i] != ps[j]
  }

  lemma PrependNoDuplicates(base: Path, ps: seq<Path>)
    requires NoDuplicates(ps)
    ensures NoDuplicates(Prepend(base, ps))
  {
  }

  lemma {:induction false} VisitNoDuplicates(n: Node, exts: seq<string>)
    requires WellFormed(n)
    ensures NoDuplicates(Visit(n, exts))
    decreases n, 1
  {
    if !IsHidden(n.name) && n.Dir? {
      CollectNoDuplicates(n.children, exts);
      PrependNoDuplicates([n.name], Collect(n.children, exts));
    }
  }

  lemma {:induction false} CollectNoDuplicates(cs: seq<Node>, exts: seq<string>)
    requires DistinctNames(cs)
    requires forall i :: 0 <= i < |cs| ==> WellFormed(cs[i])
    ensures NoDuplicates(Collect(cs, exts))
    decreases cs, 0
  {
    if |cs| > 0 {
      var here := Visit(cs[0], exts);
      var rest := Collect(cs[1..], exts);
      VisitNoDuplicates(cs[0], exts);
      CollectNoDuplicates(cs[1..], exts);
      var r := here + rest;
      forall i, j | 0 <= i < j < |r|
        ensures r[i] != r[j]
      {
        if i < |here| && j >= |here| {
          assert here[i] in here;
          assert rest[j - |here|] in rest;
          var k :| 0 <= k < |cs[1..]| && rest[j - |here|][0] == cs[1..][k].name;
          assert cs[1..][k] == cs[k + 1];
        } else if j >= |here| {
          assert r[i] == rest[i - |here|];
        }
      }
    }
  }

  /** In a well-formed tree the finder reports every file at most once. */
  lemma FindNoDuplicates(enclosing: Path, root: Option<Node>, exts: seq<string>)
    requires root.Some? ==> WellFormed(root.value)
    ensures NoDuplicates(Find(enclosing, root, exts))
  {
    if root.Some? && root.value.Dir? {
      CollectNoDuplicates(root.value.children, exts);
      PrependNoDuplicates(enclosing + [root.value.name], Collect(root.value.children, exts));
    }
  }

  // Pruning hidden directories gives the same answer as walking the whole
  // tree and filtering afterwards.

  /** Every regular file at or under entry `n`, with nothing pruned. */
  function Walk(n: Node): (r: seq<Path>)
    ensures forall p :: p in r ==> |p| > 0 && p[0] == n.name
    decreases n, 1
  {
    match n
    case File(name) => [[name]]
    case Dir(name, kids) =>
      var all := WalkAll(kids);
      var r := Prepend([name], all);
      assert forall p :: p in r ==> |p| > 0 && p[0] == name by {
        forall p | p in r
          ensures |p| > 0 && p[0] == name
        {
          var i :| 0 <= i < |r| && r[i] == p;
        }
      }
      r
  }

  /** Every regular file at or under the entries `cs`, with nothing pruned. */
  function WalkAll(cs: seq<Node>): (r: seq<Path>)
    ensures forall p :: p in r ==> |p| > 0
    decreases cs, 0
  {
    if |cs| == 0 then [] else Walk(cs[0]) + WalkAll(cs[1..])
  }

  /** The paths of `ps` that the finder selects, in their original order. */
  function Keep(ps: seq<Path>, exts: seq<string>): (r: seq<Path>)
    ensures forall p :: p in r <==> p in ps && Selected(p, exts)
  {
    if |ps| == 0 then []
    else (if Selected(ps[0], exts) then [ps[0]] else []) + Keep(ps[1..], exts)
  }

  lemma {:induction false} KeepConcat(a: seq<Path>, b: seq<Path>, exts: seq<string>)
    ensures Keep(a + b, exts) == Keep(a, exts) + Keep(b, exts)
  {
    if |a| > 0 {
      assert (a + b)[1..] == a[1..] + b;
      KeepConcat(a[1..], b, exts);
    } else {
      assert a + b == b;
    }
  }

  lemma SelectedCons(name: Name, p: Path, exts: seq<string>)
    requires |p| > 0
    ensures Selected([name] + p, exts) <==> !IsHidden(name) && Selected(p, exts)
  {
    var q := [name] + p;
    assert q[|q| - 1] == p[|p| - 1];
    assert forall k :: 0 <= k < |p| ==> q[k + 1] == p[k];
    if Selected(q, exts) {
      assert q[0] == name;
      forall k | 0 <= k < |p|
        ensures !IsHidden(p[k])
      {
        assert q[k + 1] == p[k];
      }
    }
  }

  lemma PrependConcat(base: Path, a: seq<Path>, b: seq<Path>)
    ensures Prepend(base, a + b) == Prepend(base, a) + Prepend(base, b)
  {
  }

  lemma {:induction false} KeepUnder(name: Name, ps: seq<Path>, exts: seq<string>)
    requires forall p :: p in ps ==> |p| > 0
    ensures Keep(Prepend([name], ps), exts) ==
      if IsHidden(name) then [] else Prepend([name], Keep(ps, exts))
  {
    if |ps| > 0 {
      var r := Prepend([name], ps);
      var first := r[0];
      assert first == [name] + ps[0];
      assert r[1..] == Prepend([name], ps[1..]);
      assert ps[0] in ps;
      SelectedCons(name, ps[0], exts);
      KeepUnder(name, ps[1..], exts);
      var keptRest := Keep(r[1..], exts);
      assert Keep(r, exts) == (if Selected(first, exts) then [first] else []) + keptRest;
      if !IsHidden(name) {
        var head := if Selected(ps[0], exts) then [ps[0]] else [];
        assert Keep(ps, exts) == head + Keep(ps[1..], exts);
        PrependConcat([name], head, Keep(ps[1..], exts));
        assert Prepend([name], head) == (if Selected(first, exts) then [first] else []);
      }
    }
  }

  lemma {:induction false} VisitIsFilteredWalk(n: Node, exts: seq<string>)
    ensures Visit(n, exts) == Keep(Walk(n), exts)
    decreases n, 1
  {
    match n
    case File(name) =>
      assert Keep([[name]], exts) == (if Selected([name], exts) then [[name]] else []) + Keep([], exts);
    case Dir(name, kids) =>
      CollectIsFilteredWalk(kids, exts);
      KeepUnder(name, WalkAll(kids), exts);
  }

  /**
    Pruning: the files the finder collects by skipping hidden entries and
    never entering hidden directories are exactly, and in the same order,
    the files a full walk of the tree lists, filtered afterwards.
   */
  lemma {:induction false} CollectIsFilteredWalk(cs: seq<Node>, exts: seq<string>)
    ensures Collect(cs, exts) == Keep(WalkAll(cs), exts)
    decreases cs, 0
  {
    if |cs| > 0 {
      VisitIsFilteredWalk(cs[0], exts);
      CollectIsFilteredWalk(cs[1..], exts);
      KeepConcat(Walk(cs[0]), WalkAll(cs[1..]), exts);
    }
  }

  /**
    The enclosing path never changes what is found: the result for a root
    inside any enclosing path, including one with hidden segments, is the
    result for the bare root with that path placed in front of each entry.
   */
  lemma EnclosingPathIrrelevant(enclosing: Path, root: Option<Node>, exts: seq<string>)
    ensures Find(enclosing, root, exts) == Prepend(enclosing, Find([], root, exts))
  {
    if root.Some? && root.value.Dir? {
      var found := Collect(root.value.children, exts);
      var name := root.value.name;
      forall i | 0 <= i < |found|
        ensures enclosing + [name] + found[i] == enclosing + ([] + [name] + found[i])
      {
        assert [] + [name] + found[i] == [name] + found[i];
      }
    }
  }
}
