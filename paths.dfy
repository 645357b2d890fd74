/** The list of frame images the encoder thread cycles through:
    `target/images/1.jpeg` up to `target/images/4989.jpeg`, in order. */
module Paths {
  import opened Decimal

  /** The number of frames on disk. */
  const FRAME_COUNT: nat := 4989

  const DIRECTORY: string := "target/images/"
  const EXTENSION: string := ".jpeg"

  /** `format!("target/images/{}.jpeg", i)`: the directory, the frame
      number in decimal, the extension, so the number can be read back
      from between the two. */
  function PathOf(i: nat): (p: string)
    ensures |p| == |DIRECTORY| + |Show(i)| + |EXTENSION|
    ensures p[..|DIRECTORY|] == DIRECTORY
    ensures p[|DIRECTORY|..|p| - |EXTENSION|] == Show(i)
    ensures p[|p| - |EXTENSION|..] == EXTENSION
  {
    var p := DIRECTORY + Show(i) + EXTENSION;
    assert p[|DIRECTORY|..|p| - |EXTENSION|] == Show(i);
    p
  }

  /** Different frame numbers give different paths, so no image is listed
      twice. */
  lemma PathInjective(i: nat, j: nat)
    ensures PathOf(i) == PathOf(j) <==> i == j
  {
    if PathOf(i) == PathOf(j) {
      ShowInjective(i, j);
    }
  }

  /** `get_path`: pushes the path of every frame number from 1 to 4989. */
  method GetPath() returns (paths: seq<string>)
    ensures |paths| == FRAME_COUNT
    ensures forall k :: 0 <= k < |paths| ==> paths[k] == PathOf(k + 1)
  {
    paths := [];
    var i := 1;
    while i <= FRAME_COUNT
      invariant 1 <= i <= FRAME_COUNT + 1 && |paths| == i - 1
      invariant forall k :: 0 <= k < |paths| ==> paths[k] == PathOf(k + 1)
    {
      paths := paths + [PathOf(i)];
      i := i + 1;
    }
  }

  /** The listed paths are pairwise distinct. */
  lemma PathsDistinct(paths: seq<string>)
    requires forall k :: 0 <= k < |paths| ==> paths[k] == PathOf(k + 1)
    ensures forall k, l :: 0 <= k < l < |paths| ==> paths[k] != paths[l]
  {
    forall k, l | 0 <= k < l < |paths|
      ensures paths[k] != paths[l]
    {
      PathInjective(k + 1, l + 1);
    }
  }
}
