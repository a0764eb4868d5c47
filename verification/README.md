# Source document finder of the Asciidoctor Maven plugin, in Dafny

The Asciidoctor Maven plugin looks for AsciiDoc source documents under a
source directory before it renders them. `SourceDocumentFinder.find(root)`
and `SourceDocumentFinder.find(root, extensions)` walk the directory tree
under `root`. They return the regular files whose names carry one of the
accepted extensions. The defaults are `ad`, `adoc`, `asc` and `asciidoc`.

Entries whose name starts with `_` are internal. A file named that way is
skipped. A directory named that way is pruned with everything under it. Only
the segments below the root are examined, so a root that itself lies inside an
`_` directory is searched normally. A root that does not exist yields an
empty list, and so does an empty extension list.

`SourceDocumentFinder.java` itself is not part of this model. Its behaviour
is taken from `SourceDocumentFinderTest.java`, which pins down most of it; the choices the tests leave open are listed under Modelling decisions. The test's
own path helper, `isContainedInInternalDirectory`, is modelled as well.

Layout:

- `file_tree.dfy` (module `FileTree`): the immutable tree `Node = File(name) | Dir(name, children)`, paths as segment sequences, well-formedness (valid names, distinct siblings), and `HasFileAt`, the declarative "a regular file lives at this relative path".
- `source_document_finder.dfy` (module `SourceDocumentFinder`): extension matching, the pruning traversal (`Visit`/`Collect`), `Find`, `FindDefault`, and the lemmas relating them to a declarative eligibility predicate and to an unpruned walk followed by a filter.
- `internal_directory_scan.dfy` (module `InternalDirectoryScan`): the test helper as a loop over a model of `String.indexOf`, and its relation to the segments of a found path.
- `finder_scenarios.dfy` (module `FinderScenarios`): concrete cases shaped like the test fixtures.

Modelling decisions:

- The root is an `Option<Node>`, where `None` means nothing exists there, together with `enclosing`, the path of the directory that holds it. Every result is `enclosing + [root name] + relative path`.
- A root that exists but is a regular file yields an empty list, the same as a missing root.
- An extension `e` matches a name that ends with `"." + e`. The tests' `endsWith(e)` checks are proved as consequences (`FindDefaultSound`, `FindNamesEndWithExtension`). A plain suffix test would also accept `sample.my-adoc` for `adoc` (`FinderScenarios.DotBoundaryMatters`). The fixture directory is not part of this model, and the tests' counts do not force either reading. The dot boundary is a choice. It fits the counts: the directory holds a `my-adoc` file, and four files are found with the defaults, one with `my-adoc` alone and two with `my-adoc` and `adoc`.
- The root's own name counts as part of the enclosing path, so it is not examined for `_`. Only the relative path from the root is examined.
- Results are a sequence in traversal order, with children visited in order. In a well-formed tree it has no duplicates (`FindNoDuplicates`).
- `isContainedInInternalDirectory` reads `charAt(cursor + 1)` without a bounds check. Its `StringIndexOutOfBoundsException` is modelled as the outcome `IndexOutOfBounds`, not excluded by a precondition.

## Model

| member | source | states |
|---|---|---|
| `SourceDocumentFinder.FindDefault` | src/test/java/org/asciidoctor/maven/process/SourceDocumentFinderTest.java:31 | Searching without an extension list is the same as searching with exactly the list `ad`, `adoc`, `asc`, `asciidoc` |
| `SourceDocumentFinder.FindDefaultSound` | src/test/java/org/asciidoctor/maven/process/SourceDocumentFinderTest.java:31-37 | With no extension list, every file found carries `ad`, `adoc`, `asc` or `asciidoc` after a dot, and so ends with one of the four suffixes the test checks |
| `SourceDocumentFinder.FindNamesEndWithExtension` | src/test/java/org/asciidoctor/maven/process/SourceDocumentFinderTest.java:46-51 | With an explicit list, one extension or several, every file found has a name ending with one of the listed extensions |
| `SourceDocumentFinder.FindCharacterization` | src/test/java/org/asciidoctor/maven/process/SourceDocumentFinderTest.java:58-67 | A path is found if and only if the root is an existing directory and the path is the root's path followed by a relative path. That relative path must lead to a regular file, contain no hidden segment, and end in a name with an accepted extension (soundness and completeness) |
| `SourceDocumentFinder.FindNoDuplicates` | src/test/java/org/asciidoctor/maven/process/SourceDocumentFinderTest.java:61-65 | In a tree with distinct sibling names, no file is reported twice. Together with `FindCharacterization`, this makes the size of the result the number of eligible files |
| `SourceDocumentFinder.Find` | src/test/java/org/asciidoctor/maven/process/SourceDocumentFinderTest.java:76-93 | A missing root gives an empty result and no error, and an empty extension list gives an empty result for every tree |
| `SourceDocumentFinder.FindSound` | src/test/java/org/asciidoctor/maven/process/SourceDocumentFinderTest.java:64-67 | Every path found lies strictly under the root, which must be an existing directory. Its part below the root has no hidden segment and ends in a name with an accepted extension. This is the forward half of `FindCharacterization`, in the form the other lemmas use |
| `SourceDocumentFinder.FindExcludesHidden` | src/test/java/org/asciidoctor/maven/process/SourceDocumentFinderTest.java:103-108 | No file found has a name starting with `_`, and no segment between the root and the file starts with `_` |
| `SourceDocumentFinder.Collect` | src/test/java/org/asciidoctor/maven/process/SourceDocumentFinderTest.java:128-139 | Every relative path collected from a directory's entries starts with one of those entries' names, has no hidden segment and ends in an accepted name. An empty extension list collects nothing. That hidden directories are not entered is stated by `CollectIsFilteredWalk` |
| `SourceDocumentFinder.CollectIsFilteredWalk` | src/test/java/org/asciidoctor/maven/process/SourceDocumentFinderTest.java:134-139 | Pruning hidden directories during the walk gives exactly the same files, in the same order, as walking the whole tree and filtering out hidden paths afterwards |
| `SourceDocumentFinder.Keep` | src/test/java/org/asciidoctor/maven/process/SourceDocumentFinderTest.java:137-139 | The after-the-walk filter keeps a path exactly when the path has no hidden segment and an accepted file name |
| `SourceDocumentFinder.EnclosingPathIrrelevant` | src/test/java/org/asciidoctor/maven/process/SourceDocumentFinderTest.java:111-125 | For any enclosing path, including one with `_` segments, the result is the result for the bare root with the enclosing path placed in front of every entry |
| `FinderScenarios.EnclosingScenario` | src/test/java/org/asciidoctor/maven/process/SourceDocumentFinderTest.java:114-124 | A root `src` inside `.../source-finder/_enclosing` that holds `simple.adoc` yields exactly that one file |
| `FinderScenarios.DotBoundaryMatters` | src/test/java/org/asciidoctor/maven/process/SourceDocumentFinderTest.java:31-51 | `sample.my-adoc` ends with `adoc` but does not carry the `adoc` extension, nor any default extension. It does carry `my-adoc` |
| `InternalDirectoryScan.IndexOf` | src/test/java/org/asciidoctor/maven/process/SourceDocumentFinderTest.java:146 | The first occurrence of the separator at or after the start index, or -1 when there is none |
| `InternalDirectoryScan.IsContainedInInternalDirectory` | src/test/java/org/asciidoctor/maven/process/SourceDocumentFinderTest.java:142-151 | The scan fails with an index error exactly when the path is empty, or is at least two characters long, ends with a separator and has no separator after index 0 followed by `_`. Otherwise it answers, and the answer is true exactly when the path starts with `_` or some separator after index 0 is followed by `_` |
| `InternalDirectoryScan.JoinedPathScan` | src/test/java/org/asciidoctor/maven/process/SourceDocumentFinderTest.java:143-149 | For a path of valid names joined by the separator, the string is non-empty and does not end with a separator. It has a separator followed by `_` exactly when some segment after the first starts with `_` |
| `InternalDirectoryScan.FindPassesInternalDirectoryCheck` | src/test/java/org/asciidoctor/maven/process/SourceDocumentFinderTest.java:137-139 | Suppose the enclosing path and the root's name have no `_` segment. Then every file found, written as a path string, passes the helper without an index error, and the helper answers false |
| `InternalDirectoryScan.EnclosingHiddenSegmentTripsCheck` | src/test/java/org/asciidoctor/maven/process/SourceDocumentFinderTest.java:118-124 | When a segment above the root starts with `_`, the helper flags every file the finder still returns. So that test could not have used the helper as its check |

## Left out

- File system access (`Paths.get`, directory listing, `java.io.File`, permissions): replaced by the immutable `Node` tree. A directory that cannot be read is not modelled.
- Result counts (4, 1, 2, 6, 1): they depend on fixture directories under `src/test/resources` that are not part of this model. Soundness, completeness and no-duplicates lemmas take their place.
- Result order: the tests check membership and size only. The model fixes child order, but nothing depends on it.
- Platform separators: one separator, `/`, is fixed for the places where a path becomes a string.
- Names starting with `.`: the production class is not part of this model, and the tests say nothing about such names. They are treated like any other name.
- Absolute roots in the helper lemmas: `Join` renders relative paths only, so a path string with a leading separator, such as `/_x/a.adoc`, is outside `FindPassesInternalDirectoryCheck` and `EnclosingHiddenSegmentTripsCheck`. The contract of `IsContainedInInternalDirectory` covers such strings; the tests use relative roots.
- The constructor test (lines 18-23) and the JUnit/AssertJ machinery.
