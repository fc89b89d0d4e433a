/**
 * File names the manager derives (Core/SaveStateManager.cpp,
 * `GetStateFilepath` and `SaveRecentGame`).  The folders and the base name
 * of the ROM come from FolderUtilities, which is not part of this model:
 * they are parameters, and joining a folder and a file name puts one
 * separator between them.
 */
module Paths {
  import opened Bytes

  const Separator: Byte := 0x2F                    // '/'
  const Underscore: Byte := 0x5F                   // '_'
  const MstExtension: Bytes := [0x2E, 0x6D, 0x73, 0x74]  // ".mst"
  const RgdExtension: Bytes := [0x2E, 0x72, 0x67, 0x64]  // ".rgd"

  function CombinePath(folder: Bytes, file: Bytes): Bytes
  {
    folder + [Separator] + file
  }

  /** `<folder>/<romBase>_<stateIndex>.mst` */
  function StateFilePath(folder: Bytes, romBase: Bytes, stateIndex: int): Bytes
  {
    CombinePath(folder, romBase + [Underscore] + IntToString(stateIndex) + MstExtension)
  }

  /** `<folder>/<romBase>.rgd` */
  function RecentGamePath(folder: Bytes, romBase: Bytes): Bytes
  {
    CombinePath(folder, romBase + RgdExtension)
  }

  lemma NoUnderscoreInNumber(i: int)
    ensures Underscore !in IntToString(i)
  {
    var r := IntToString(i);
    if i >= 0 {
      assert forall k | 0 <= k < |r| :: r[k] != Underscore;
    } else {
      assert forall k | 1 <= k < |r| :: r[k] == Digits(-i)[k - 1];
    }
  }

  /** The bytes after the last underscore: where the slot number sits. */
  function AfterLastUnderscore(s: Bytes): Bytes
  {
    if s == [] || s[|s| - 1] == Underscore then []
    else AfterLastUnderscore(s[..|s| - 1]) + [s[|s| - 1]]
  }

  lemma {:induction false} AfterLastUnderscoreOfNumber(base: Bytes, d: Bytes)
    requires Underscore !in d
    ensures AfterLastUnderscore(base + [Underscore] + d) == d
  {
    var s := base + [Underscore] + d;
    if d != [] {
      var d' := d[..|d| - 1];
      assert s[..|s| - 1] == base + [Underscore] + d';
      AfterLastUnderscoreOfNumber(base, d');
    }
  }

  lemma AfterLastUnderscoreOf(base: Bytes, i: int)
    ensures AfterLastUnderscore(base + [Underscore] + IntToString(i)) == IntToString(i)
  {
    NoUnderscoreInNumber(i);
    AfterLastUnderscoreOfNumber(base, IntToString(i));
  }

  /**
   * In one folder, a slot file name determines both the ROM base name and
   * the slot number: the number is what follows the last underscore.  So
   * no two slots, of the same game or of different games, share a file.
   */
  lemma StateFilePathInjective(folder: Bytes, base1: Bytes, i: int, base2: Bytes, j: int)
    requires StateFilePath(folder, base1, i) == StateFilePath(folder, base2, j)
    ensures base1 == base2 && i == j
  {
    var p1 := StateFilePath(folder, base1, i);
    var d1, d2 := IntToString(i), IntToString(j);
    var a := base1 + [Underscore] + d1;
    var b := base2 + [Underscore] + d2;
    var pre := folder + [Separator];
    assert p1 == pre + a + MstExtension;
    assert StateFilePath(folder, base2, j) == pre + b + MstExtension;
    assert |a| == |b|;
    assert a == p1[|pre|..|p1| - 4] == b;
    AfterLastUnderscoreOf(base1, i);
    AfterLastUnderscoreOf(base2, j);
    assert d1 == d2;
    assert base1 == a[..|base1|] == b[..|base2|] == base2;
    IntToStringInjective(i, j);
  }

  /** A slot file and a recent-game archive never share a name. */
  lemma StateAndRecentPathsDiffer(folder1: Bytes, base1: Bytes, i: int, folder2: Bytes, base2: Bytes)
    ensures StateFilePath(folder1, base1, i) != RecentGamePath(folder2, base2)
  {
    var p := StateFilePath(folder1, base1, i);
    var q := RecentGamePath(folder2, base2);
    assert p[|p| - 3] == 0x6D && q[|q| - 3] == 0x72;
  }
}
