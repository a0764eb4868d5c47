/**
  Concrete cases in the shape of the finder's test fixtures. The fixture
  directories themselves are not part of this model, so the names below
  are illustrative.
 */
module FinderScenarios {
  import opened FileTree
  import opened SourceDocumentFinder

  /** The path that holds the test fixtures, relative to the project. */
  const SourceRoot: Path := ["src", "test", "resources", "src", "asciidoctor"]

  /**
    A file named `sample.my-adoc` ends with `adoc` but does not carry the
    `adoc` extension: matching stops at the dot, which is what lets the
    default extensions pass over a `my-adoc` file in the extensions fixture.
   */
  lemma DotBoundaryMatters()
    ensures EndsWith("sample.my-adoc", "adoc")
    ensures !HasExtension("sample.my-adoc", "adoc")
    ensures HasExtension("sample.my-adoc", "my-adoc")
    ensures !Accepted("sample.my-adoc", DefaultExtensions)
  {
    assert "sample.my-adoc"[10..] == "adoc";
    assert "sample.my-adoc"[6..] == ".my-adoc";
    assert "sample.my-adoc"[9] != '.';
    assert "sample.my-adoc"[11] != '.';
    assert "sample.my-adoc"[12] != '.';
    assert "sample.my-adoc"[5] != '.';
  }

  /** A root directory that holds one visible file with an accepted extension yields exactly that file. */
  lemma FindSingleFile(enclosing: Path, dir: Name, file: Name, exts: seq<string>)
    requires !IsHidden(file) && Accepted(file, exts)
    ensures Find(enclosing, Some(Dir(dir, [File(file)])), exts) == [enclosing + [dir, file]]
  {
    var f := File(file);
    assert Visit(f, exts) == [[file]];
    assert [f][1..] == [];
    assert Collect([f], exts) == [[file]];
    var base := enclosing + [dir];
    var r := Prepend(base, [[file]]);
    assert |r| == 1 && r[0] == base + [file];
    assert base + [file] == enclosing + [dir, file];
  }

  lemma SimpleAdocIsAdoc()
    ensures !IsHidden("simple.adoc") && Accepted("simple.adoc", ["adoc"])
  {
    assert "simple.adoc"[6..] == ".adoc";
    assert HasExtension("simple.adoc", "adoc");
  }

  /**
    The root `src` lies inside `_enclosing`, a directory whose name starts
    with an underscore; its one document is still found.
   */
  lemma EnclosingScenario()
    ensures Find(SourceRoot + ["source-finder", "_enclosing"], Some(Dir("src", [File("simple.adoc")])), ["adoc"]) ==
      [SourceRoot + ["source-finder", "_enclosing", "src", "simple.adoc"]]
  {
    SimpleAdocIsAdoc();
    var enclosing := SourceRoot + ["source-finder", "_enclosing"];
    FindSingleFile(enclosing, "src", "simple.adoc", ["adoc"]);
    assert enclosing + ["src", "simple.adoc"] == SourceRoot + ["source-finder", "_enclosing", "src", "simple.adoc"];
  }
}
