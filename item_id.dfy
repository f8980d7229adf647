/**
 * The item shortname derived from the item image's path: the file name
 * after the last '/', with the first ".png" in it taken out.
 */
module ItemIds {

  /** `s.lastIndexOf(c)`: the last position of `c` in `s`, or -1. */
  function LastIndexOf(s: string, c: char): (r: int)
    ensures -1 <= r < |s|
    ensures r >= 0 ==> s[r] == c
    ensures forall k | r < k < |s| :: s[k] != c
  {
    if |s| == 0 then -1
    else if s[|s| - 1] == c then |s| - 1
    else LastIndexOf(s[..|s| - 1], c)
  }

  predicate OccursAt(s: string, pat: string, k: int)
  {
    0 <= k && k + |pat| <= |s| && s[k..k + |pat|] == pat
  }

  /** The first occurrence of `pat` in `s` at or after position `from`, or -1. */
  function IndexFrom(s: string, pat: string, from: nat): (r: int)
    ensures r == -1 || (from <= r && OccursAt(s, pat, r))
    ensures forall k | from <= k && (r == -1 || k < r) :: !OccursAt(s, pat, k)
    decreases |s| - from
  {
    if from + |pat| > |s| then -1
    else if s[from..from + |pat|] == pat then from
    else IndexFrom(s, pat, from + 1)
  }

  /** `s.indexOf(pat)`: the first position where `pat` occurs in `s`, or -1. */
  function IndexOf(s: string, pat: string): (r: int)
    ensures r == -1 || OccursAt(s, pat, r)
    ensures forall k | 0 <= k && (r == -1 || k < r) :: !OccursAt(s, pat, k)
  {
    IndexFrom(s, pat, 0)
  }

  /** `s.replace(pat, '')` with a string pattern: only the first occurrence goes. */
  function RemoveFirst(s: string, pat: string): (r: string)
    ensures IndexOf(s, pat) == -1 ==> r == s
    ensures IndexOf(s, pat) >= 0 ==>
      var i := IndexOf(s, pat);
      |r| == |s| - |pat| && s == r[..i] + pat + r[i..]
  {
    var i := IndexOf(s, pat);
    if i < 0 then s else s[..i] + s[i + |pat|..]
  }

  const ImageExtension := ".png"

  /**
   * The file name of `src`: the part after its last '/', all of it when
   * there is none. It is the longest suffix of `src` without a '/'.
   */
  function FileName(src: string): (name: string)
    ensures |name| <= |src|
    ensures src[|src| - |name|..] == name
    ensures |name| < |src| ==> src[|src| - |name| - 1] == '/'
    ensures '/' !in name
  {
    AfterLastHasNone(src, '/');
    src[LastIndexOf(src, '/') + 1..]
  }

  /** The part of `s` after its last `c` holds no `c`. */
  lemma AfterLastHasNone(s: string, c: char)
    ensures c !in s[LastIndexOf(s, c) + 1..]
  {
    var j := LastIndexOf(s, c) + 1;
    var tail := s[j..];
    forall k | 0 <= k < |tail| ensures tail[k] != c {
      assert tail[k] == s[j + k];
    }
  }

  /**
   * The item shortname for the image at `src` (index.js:63): never longer
   * than `src`, and never holding a '/'.
   */
  function Stem(src: string): (r: string)
    ensures |r| <= |src|
    ensures '/' !in r
  {
    var name := FileName(src);
    RemoveFirstAddsNothing(name, ImageExtension, '/');
    RemoveFirst(name, ImageExtension)
  }

  /** The last '/' of `dir + "/" + name`, when `name` has none, is the one before `name`. */
  lemma LastSlashBefore(dir: string, name: string)
    requires '/' !in name
    ensures LastIndexOf(dir + "/" + name, '/') == |dir|
  {
    var s := dir + "/" + name;
    var r := LastIndexOf(s, '/');
    assert s[|dir|] == '/';
  }

  /**
   * The shortname is the part after the last '/' (the whole string when
   * there is none) with its first ".png" removed.
   */
  lemma {:induction false} StemOfPath(dir: string, name: string)
    requires '/' !in name
    ensures Stem(dir + "/" + name) == RemoveFirst(name, ImageExtension)
    ensures Stem(name) == RemoveFirst(name, ImageExtension)
  {
    LastSlashBefore(dir, name);
    assert (dir + "/" + name)[|dir| + 1..] == name;
  }

  /** Removing a piece of a string brings in no new character. */
  lemma RemoveFirstAddsNothing(s: string, pat: string, c: char)
    requires c !in s
    ensures c !in RemoveFirst(s, pat)
  {
    var i := IndexOf(s, pat);
    if i >= 0 {
      var r := RemoveFirst(s, pat);
      assert r == r[..i] + r[i..];
      assert c !in r[..i] && c !in r[i..] by {
        assert s == r[..i] + pat + r[i..];
      }
    }
  }

  /** An image file name `name + ".png"` has its first ".png" at the end. */
  lemma ExtensionAtEnd(name: string)
    requires forall k :: !OccursAt(name, ImageExtension, k)
    ensures IndexOf(name + ImageExtension, ImageExtension) == |name|
  {
    var file := name + ImageExtension;
    var i := IndexOf(file, ImageExtension);
    assert OccursAt(file, ImageExtension, |name|) by {
      assert file[|name|..|name| + 4] == ImageExtension;
    }
    forall k | 0 <= k < |name| ensures !OccursAt(file, ImageExtension, k) {
      if k + 4 <= |name| {
        // an earlier occurrence would lie inside `name`
        assert file[k..k + 4] == name[k..k + 4];
        assert !OccursAt(name, ImageExtension, k);
      } else {
        // one that straddles the end of `name` would need the '.' at
        // position |name| to be a letter of "png"
        assert file[k..k + 4][|name| - k] == file[|name|] == '.';
        assert ImageExtension[|name| - k] != '.';
        assert file[k..k + 4] != ImageExtension;
      }
    }
  }

  /**
   * The round trip the shortname is meant for: the image of item `name`,
   * stored as `<dir>/<name>.png`, gives back `name`, provided `name` has no
   * '/' and no ".png" of its own.
   */
  lemma StemOfImagePath(dir: string, name: string)
    requires '/' !in name
    requires forall k :: !OccursAt(name, ImageExtension, k)
    ensures Stem(dir + "/" + name + ImageExtension) == name
  {
    var file := name + ImageExtension;
    assert '/' !in file;
    assert dir + "/" + name + ImageExtension == dir + "/" + file;
    StemOfPath(dir, file);
    ExtensionAtEnd(name);
    assert file[..|name|] == name;
  }
}
