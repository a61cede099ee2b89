/**
 * `get_folder_size_bytes` (main.py:35-41): the total of `os.path.getsize`
 * over every file `os.walk` reports under a path. The filesystem is replaced
 * by an abstract tree of file sizes.
 */
module SizeProbe {

  /**
   * A path as `os.walk` sees it. `Dir` lists the sizes `os.path.getsize`
   * reports for the files directly inside it and its sub-directories.
   * `Unlistable` is a path `os.walk` cannot list (missing, a plain file or
   * unreadable): `os.walk` reports its errors to no one and yields nothing for it.
   */
  datatype Tree = Dir(fileSizes: seq<nat>, subdirs: seq<Tree>) | Unlistable

  /** Sum of a sequence, accumulated left to right. */
  function Sum(xs: seq<nat>): nat {
    if xs == [] then 0 else Sum(xs[..|xs| - 1]) + xs[|xs| - 1]
  }

  /** Reference definition: the bytes of every file in every listable directory of the tree. */
  function TreeSize(t: Tree): nat
    decreases t
  {
    match t
    case Unlistable => 0
    case Dir(files, subdirs) => Sum(files) + ForestSize(subdirs)
  }

  function ForestSize(ts: seq<Tree>): nat
    decreases ts
  {
    if ts == [] then 0 else TreeSize(ts[0]) + ForestSize(ts[1..])
  }

  /** The `filenames` of each directory, in the top-down order `os.walk` yields them. */
  function Walk(t: Tree): seq<seq<nat>>
    decreases t
  {
    match t
    case Unlistable => []
    case Dir(files, subdirs) => [files] + WalkForest(subdirs)
  }

  function WalkForest(ts: seq<Tree>): seq<seq<nat>>
    decreases ts
  {
    if ts == [] then [] else Walk(ts[0]) + WalkForest(ts[1..])
  }

  /** Sum over all directories of the walk, accumulated in walk order. */
  function SumAll(dirs: seq<seq<nat>>): nat {
    if dirs == [] then 0 else SumAll(dirs[..|dirs| - 1]) + Sum(dirs[|dirs| - 1])
  }

  lemma {:induction false} SumAllAppend(a: seq<seq<nat>>, b: seq<seq<nat>>)
    ensures SumAll(a + b) == SumAll(a) + SumAll(b)
    decreases |b|
  {
    if b != [] {
      assert (a + b)[..|a + b| - 1] == a + b[..|b| - 1];
      SumAllAppend(a, b[..|b| - 1]);
    } else {
      assert a + b == a;
    }
  }

  /** Walking a tree and summing what the walk yields gives the tree's size. */
  lemma {:induction false} WalkSumsToTreeSize(t: Tree)
    ensures SumAll(Walk(t)) == TreeSize(t)
    decreases t
  {
    match t
    case Unlistable =>
    case Dir(files, subdirs) =>
      SumAllAppend([files], WalkForest(subdirs));
      assert [files][..0] == [];
      WalkForestSumsToForestSize(subdirs);
  }

  lemma {:induction false} WalkForestSumsToForestSize(ts: seq<Tree>)
    ensures SumAll(WalkForest(ts)) == ForestSize(ts)
    decreases ts
  {
    if ts != [] {
      SumAllAppend(Walk(ts[0]), WalkForest(ts[1..]));
      WalkSumsToTreeSize(ts[0]);
      WalkForestSumsToForestSize(ts[1..]);
    }
  }

  /**
   * `get_folder_size_bytes(path)`: two nested loops over the walk add up
   * every file size; the total is the size of the tree.
   */
  method FolderSizeBytes(root: Tree) returns (total: nat)
    ensures total == TreeSize(root)
  {
    var walk := Walk(root);
    total := 0;
    var i := 0;
    while i < |walk|
      invariant 0 <= i <= |walk|
      invariant total == SumAll(walk[..i])
    {
      var filenames := walk[i];
      var j := 0;
      while j < |filenames|
        invariant 0 <= j <= |filenames|
        invariant total == SumAll(walk[..i]) + Sum(filenames[..j])
      {
        assert filenames[..j + 1][..j] == filenames[..j];
        total := total + filenames[j];
        j := j + 1;
      }
      assert filenames[..j] == filenames;
      assert walk[..i + 1][..i] == walk[..i];
      i := i + 1;
    }
    assert walk[..i] == walk;
    WalkSumsToTreeSize(root);
  }
}
