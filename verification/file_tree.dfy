/**
  An immutable model of the directory tree that the source document finder
  walks. A path is the sequence of its segments, outermost first; the model
  fixes one separator character for the places where a path is rendered as a
  single string.
 */
module FileTree {

  /** One path segment: the name of a file or a directory. */
  type Name = string

  /** A path as the sequence of its segments, outermost first. */
  type Path = seq<Name>

  /** The one separator this model uses when a path is written as a string. */
  const Separator: char := '/'

  /** A value that may be absent, used for a root directory that may not exist. */
  datatype Option<+T> = None | Some(value: T)

  /** A directory entry: a regular file, or a directory with its entries. */
  datatype Node = File(name: Name) | Dir(name: Name, children: seq<Node>)

  /** A name a file system can hold: not empty and free of the separator. */
  predicate ValidName(n: Name) {
    |n| > 0 && Separator !in n
  }

  /** No two entries of one directory share a name. */
  predicate DistinctNames(cs: seq<Node>) {
    forall i, j :: 0 <= i < j < |cs| ==> cs[i].name != cs[j].name
  }

  /** A tree a real file system could hold: valid names, distinct siblings. */
  predicate WellFormed(n: Node) {
    && ValidName(n.name)
    && (n.Dir? ==>
          && DistinctNames(n.children)
          && forall i :: 0 <= i < |n.children| ==> WellFormed(n.children[i]))
  }

  /**
    Among the entries `cs` of one directory there is a regular file at the
    relative path `rel`: the first segment names an entry, and either it is
    the last segment and that entry is a file, or that entry is a directory
    holding the rest of the path.
   */
  ghost predicate HasFileAt(cs: seq<Node>, rel: Path)
    decreases |rel|
  {
    && |rel| > 0
    && exists i :: 0 <= i < |cs| && cs[i].name == rel[0] &&
         (if |rel| == 1 then cs[i].File?
          else cs[i].Dir? && HasFileAt(cs[i].children, rel[1..]))
  }
}
