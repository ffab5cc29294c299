/** The path rules of the pair sorters (`pair3d.v3.py`, `pair3d-web.0-1-1.py`):
    where the sorting phase moves each image, the two sibling folders of the
    moving phase (`_x2_<base>` and `<base>_singles`), where the contents of each
    `_pairs` and `_singles` folder go, and `delete_if_empty`.

    A path is the sequence of its components; `os.path.join` appends,
    `os.path.dirname` drops the last component and `os.path.basename` is the
    last one. A folder met by `os.walk(src_root)` is `src_root + rel`. */
module Paths {
  import opened Common

  type Path = seq<string>

  /** A file path always has a last component, its name. */
  type FilePath = p: Path | |p| >= 1 witness [""]

  function Dirname(p: Path): Path {
    if p == [] then [] else p[..|p| - 1]
  }

  function Basename(p: Path): string {
    if p == [] then "" else p[|p| - 1]
  }

  /** Dirname and basename split a non-empty path and join back to it. */
  lemma DirnameBasename(p: FilePath)
    ensures Dirname(p) + [Basename(p)] == p
  {
  }

  // ---------------------------------------------------------------------------
  // The sorting phase's moves.

  const PairsDir := "_pairs"
  const SinglesDir := "_singles"

  datatype Move = Move(src: FilePath, dst: FilePath)

  /** `os.path.join(os.path.dirname(file), sub, os.path.basename(file))`. */
  function Into(f: FilePath, sub: string): FilePath {
    Dirname(f) + [sub, Basename(f)]
  }

  /** `for pair in pairs: for file in pair:` each member into `_pairs` beside it. */
  function PairMoves(pairs: seq<(FilePath, FilePath)>): seq<Move> {
    if pairs == [] then []
    else
      var last := pairs[|pairs| - 1];
      PairMoves(pairs[..|pairs| - 1]) + [Move(last.0, Into(last.0, PairsDir)), Move(last.1, Into(last.1, PairsDir))]
  }

  /** `for file in image_files: if file not in used`... into `_singles` beside
      it, unless it already sits in a `_singles` folder. */
  function SingleMoves(files: seq<FilePath>, used: set<FilePath>): seq<Move> {
    if files == [] then []
    else
      var f := files[|files| - 1];
      SingleMoves(files[..|files| - 1], used)
      + (if f !in used && Basename(Dirname(f)) != SinglesDir then [Move(f, Into(f, SinglesDir))] else [])
  }

  /** The two move loops of the sorting phase; the file system is left out, so
      the loops record the moves they would make. */
  method PlanMoves(files: seq<FilePath>, pairs: seq<(FilePath, FilePath)>, used: set<FilePath>) returns (moves: seq<Move>)
    ensures moves == PairMoves(pairs) + SingleMoves(files, used)
  {
    moves := [];
    var k := 0;
    while k < |pairs|
      invariant 0 <= k <= |pairs|
      invariant moves == PairMoves(pairs[..k])
    {
      assert pairs[..k + 1][..k] == pairs[..k];
      var (a, b) := pairs[k];
      moves := moves + [Move(a, Into(a, PairsDir)), Move(b, Into(b, PairsDir))];
      k := k + 1;
    }
    assert pairs[..k] == pairs;
    ghost var pairMoves := moves;
    k := 0;
    while k < |files|
      invariant 0 <= k <= |files|
      invariant moves == pairMoves + SingleMoves(files[..k], used)
    {
      var f := files[k];
      SingleMovesStep(files, used, k);
      if f !in used && Basename(Dirname(f)) != SinglesDir {
        SeqAssoc(pairMoves, SingleMoves(files[..k], used), [Move(f, Into(f, SinglesDir))]);
        moves := moves + [Move(f, Into(f, SinglesDir))];
      }
      k := k + 1;
    }
    assert files[..k] == files;
  }

  lemma SingleMovesStep(files: seq<FilePath>, used: set<FilePath>, k: nat)
    requires k < |files|
    ensures files[k] !in used && Basename(Dirname(files[k])) != SinglesDir ==>
      SingleMoves(files[..k + 1], used) == SingleMoves(files[..k], used) + [Move(files[k], Into(files[k], SinglesDir))]
    ensures !(files[k] !in used && Basename(Dirname(files[k])) != SinglesDir) ==>
      SingleMoves(files[..k + 1], used) == SingleMoves(files[..k], used)
  {
    assert files[..k + 1][..k] == files[..k];
    assert SingleMoves(files[..k], used) + [] == SingleMoves(files[..k], used);
  }

  /** `n` pairs make `2n` moves. */
  lemma {:induction false} PairMovesLength(pairs: seq<(FilePath, FilePath)>)
    ensures |PairMoves(pairs)| == 2 * |pairs|
  {
    if pairs != [] {
      PairMovesLength(pairs[..|pairs| - 1]);
    }
  }

  /** Every pair member moves, in order, keeping its name and going one level
      down into the `_pairs` folder of its own directory: pair `i` makes moves
      `2i` (its first file) and `2i + 1` (its second). */
  lemma {:induction false} PairMovesShape(pairs: seq<(FilePath, FilePath)>, i: nat)
    requires i < |pairs|
    ensures |PairMoves(pairs)| == 2 * |pairs|
    ensures PairMoves(pairs)[2 * i] == Move(pairs[i].0, Into(pairs[i].0, PairsDir))
    ensures PairMoves(pairs)[2 * i + 1] == Move(pairs[i].1, Into(pairs[i].1, PairsDir))
  {
    var n := |pairs| - 1;
    PairMovesLength(pairs);
    if i < n {
      var init := pairs[..n];
      PairMovesLength(init);
      PairMovesShape(init, i);
      assert pairs[i] == init[i];
      var before := PairMoves(init);
      var last := pairs[n];
      assert PairMoves(pairs) == before + [Move(last.0, Into(last.0, PairsDir)), Move(last.1, Into(last.1, PairsDir))];
      assert 2 * i + 1 < |before|;
      assert PairMoves(pairs)[2 * i] == before[2 * i] && PairMoves(pairs)[2 * i + 1] == before[2 * i + 1];
    } else {
      PairMovesLast(pairs);
    }
  }

  /** The last pair's two moves end the list. */
  lemma PairMovesLast(pairs: seq<(FilePath, FilePath)>)
    requires pairs != []
    ensures var n := |pairs| - 1;
      && PairMoves(pairs)[|PairMoves(pairs)| - 2] == Move(pairs[n].0, Into(pairs[n].0, PairsDir))
      && PairMoves(pairs)[|PairMoves(pairs)| - 1] == Move(pairs[n].1, Into(pairs[n].1, PairsDir))
  {
  }

  /** A file goes to `_singles` exactly when it is unused and not already in a
      `_singles` folder, and it keeps its name. */
  lemma {:induction false} SingleMovesMember(files: seq<FilePath>, used: set<FilePath>, m: Move)
    ensures m in SingleMoves(files, used) <==>
      m.src in files && m.src !in used && Basename(Dirname(m.src)) != SinglesDir && m.dst == Into(m.src, SinglesDir)
  {
    if files != [] {
      var init := files[..|files| - 1];
      SingleMovesMember(init, used, m);
      assert files == init + [files[|files| - 1]];
    }
  }

  /** `Into` really puts the file in the named folder of its directory. */
  lemma IntoShape(f: FilePath, sub: string)
    ensures Basename(Into(f, sub)) == Basename(f)
    ensures Dirname(Into(f, sub)) == Dirname(f) + [sub]
    ensures Basename(Dirname(Into(f, sub))) == sub
  {
  }

  // ---------------------------------------------------------------------------
  // The moving phase.

  /** `dst_root = <parent>/_x2_<base>` and `singles_root = <parent>/<base>_singles`. */
  function DstRoot(srcRoot: FilePath): FilePath {
    Dirname(srcRoot) + ["_x2_" + Basename(srcRoot)]
  }

  function SinglesRoot(srcRoot: FilePath): FilePath {
    Dirname(srcRoot) + [Basename(srcRoot) + "_singles"]
  }

  /** Both are siblings of the source folder and differ from it and from each other. */
  lemma MoveRootsSiblings(srcRoot: FilePath)
    ensures Dirname(DstRoot(srcRoot)) == Dirname(srcRoot) && Dirname(SinglesRoot(srcRoot)) == Dirname(srcRoot)
    ensures DstRoot(srcRoot) != srcRoot && SinglesRoot(srcRoot) != srcRoot && DstRoot(srcRoot) != SinglesRoot(srcRoot)
  {
    assert |Basename(DstRoot(srcRoot))| == |Basename(srcRoot)| + 4;
    assert |Basename(SinglesRoot(srcRoot))| == |Basename(srcRoot)| + 8;
  }

  /** `os.path.relpath(p, src_root)`: `.` for the root itself, `..` for the
      root's parent, else the components below the root. */
  datatype Rel = Dot | Up | Down(parts: seq<string>)

  /** `parent_rel` for the folder `src_root + rel`. */
  function ParentRel(rel: seq<string>): Rel {
    if rel == [] then Up
    else if |rel| == 1 then Dot
    else Down(rel[..|rel| - 1])
  }

  /** `os.path.join(dst_root, parent_rel, name)`. */
  function JoinRel(dst: Path, r: Rel, name: string): FilePath {
    match r
    case Dot => dst + [".", name]
    case Up => dst + ["..", name]
    case Down(parts) => dst + parts + [name]
  }

  /** The `_pairs` rule of `pair3d.v3.py` for the folder `src_root + rel`:
      `<dst_root>/<parent_rel>/<parent_name>_pairs`, or `<dst_root>/<base>_pairs`
      when `parent_rel` is `.`. */
  function PairsDest(srcRoot: FilePath, rel: seq<string>): FilePath {
    var parentRel := ParentRel(rel);
    var parentPath := Dirname(srcRoot + rel);
    if parentRel != Dot then JoinRel(DstRoot(srcRoot), parentRel, Basename(parentPath) + "_pairs")
    else DstRoot(srcRoot) + [Basename(srcRoot) + "_pairs"]
  }

  /** A `_pairs` folder directly under the root goes to `<dst_root>/<base>_pairs`. */
  lemma PairsDestRootLevel(srcRoot: FilePath, rel: seq<string>)
    requires |rel| == 1
    ensures PairsDest(srcRoot, rel) == DstRoot(srcRoot) + [Basename(srcRoot) + "_pairs"]
  {
  }

  /** A nested one goes to the copy of its parent, renamed `<parent_name>_pairs`. */
  lemma PairsDestNested(srcRoot: FilePath, rel: seq<string>)
    requires |rel| >= 2
    ensures PairsDest(srcRoot, rel) == DstRoot(srcRoot) + rel[..|rel| - 1] + [rel[|rel| - 2] + "_pairs"]
  {
    assert Dirname(srcRoot + rel) == srcRoot + rel[..|rel| - 1];
  }

  /** The `.` case of the conditional is redundant: at the root level the
      general branch would join the same name, since the parent is the root. */
  lemma PairsDestRootBranchAgrees(srcRoot: FilePath, rel: seq<string>)
    requires |rel| == 1
    ensures Basename(Dirname(srcRoot + rel)) == Basename(srcRoot)
  {
    assert Dirname(srcRoot + rel) == srcRoot;
  }

  /** The `_pairs` rule of `pair3d-web.0-1-1.py`: with `move_destination ==
      'root'` every `_pairs` folder goes to `<dst_root>/<base>_pairs`; otherwise
      the rule of `pair3d.v3.py`. */
  function WebPairsDest(srcRoot: FilePath, rel: seq<string>, moveDestination: string): FilePath {
    if moveDestination == "root" then DstRoot(srcRoot) + [Basename(srcRoot) + "_pairs"]
    else if ParentRel(rel) != Dot then JoinRel(DstRoot(srcRoot), ParentRel(rel), Basename(Dirname(srcRoot + rel)) + "_pairs")
    else DstRoot(srcRoot) + [Basename(srcRoot) + "_pairs"]
  }

  lemma WebPairsDestModes(srcRoot: FilePath, rel: seq<string>, moveDestination: string)
    ensures moveDestination == "root" ==> WebPairsDest(srcRoot, rel, moveDestination) == DstRoot(srcRoot) + [Basename(srcRoot) + "_pairs"]
    ensures moveDestination != "root" ==> WebPairsDest(srcRoot, rel, moveDestination) == PairsDest(srcRoot, rel)
  {
  }

  /** The `_singles` rule of both tools: `src_root if parent_rel == '.' else
      parent_path`. */
  function SinglesDest(srcRoot: FilePath, rel: seq<string>): Path {
    if ParentRel(rel) == Dot then srcRoot else Dirname(srcRoot + rel)
  }

  /** A `_singles` folder's contents go up one level: to the root from directly
      under it, else to the folder's parent. */
  lemma SinglesDestIsParent(srcRoot: FilePath, rel: seq<string>)
    requires rel != []
    ensures SinglesDest(srcRoot, rel) == srcRoot + rel[..|rel| - 1]
    ensures |rel| == 1 ==> SinglesDest(srcRoot, rel) == srcRoot
  {
    assert Dirname(srcRoot + rel) == srcRoot + rel[..|rel| - 1];
    if |rel| == 1 {
      assert rel[..0] == [];
    }
  }

  // ---------------------------------------------------------------------------
  // delete_if_empty.

  const PicasaIni := ".picasa.ini"

  /** What `delete_if_empty` does to a path. */
  datatype Cleanup = Keep | RemoveDir | RemoveIniAndDir

  /** `if os.path.isdir(path)`: an empty listing removes the folder, a listing of
      exactly `['.picasa.ini']` removes that file and then the folder. */
  function DeleteIfEmpty(isDir: bool, contents: seq<string>): Cleanup {
    if !isDir then Keep
    else if contents == [] then RemoveDir
    else if contents == [PicasaIni] then RemoveIniAndDir
    else Keep
  }

  /** A listing has distinct names; the folder is removed exactly when it holds
      nothing but possibly `.picasa.ini`. */
  lemma DeleteIfEmptyRemoves(isDir: bool, contents: seq<string>)
    requires Distinct(contents)
    ensures DeleteIfEmpty(isDir, contents) != Keep <==> isDir && forall k :: 0 <= k < |contents| ==> contents[k] == PicasaIni
  {
    if forall k :: 0 <= k < |contents| ==> contents[k] == PicasaIni {
      DistinctMultiplicity(contents, PicasaIni);
      AllSameMultiplicity(contents, PicasaIni);
      assert contents == [] || contents == [PicasaIni];
    }
  }
}
