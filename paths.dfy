/**
 * The part of Python's pathlib that validate_image and save_upload rely on:
 * `Path(p).name`, `Path(p).suffix` and `str.lower()`, for POSIX paths.
 */
module Paths {

  /** The index just after the last '/' of `p`, or 0 when `p` has none. */
  function AfterLastSlash(p: string): (k: nat)
    ensures k <= |p|
    ensures 0 < k ==> p[k - 1] == '/'
    ensures forall i :: k <= i < |p| ==> p[i] != '/'
  {
    if p == [] then 0
    else if p[|p| - 1] == '/' then |p|
    else AfterLastSlash(p[..|p| - 1])
  }

  /**
   * `PurePosixPath(p).name`: the final component of `p`. Trailing slashes and
   * "." components are not components, so "a/b/", "a/b/." and "a/b" all name "b",
   * and "", "." and "/" name "".
   */
  function Name(p: string): (n: string)
    ensures '/' !in n
    ensures n != "."
    ensures '/' !in p && p != "." ==> n == p
    decreases |p|
  {
    if p == [] then []
    else if p[|p| - 1] == '/' then Name(p[..|p| - 1])
    else
      var k := AfterLastSlash(p);
      if p[k..] == "." then Name(p[..k]) else p[k..]
  }

  /** `str.rfind('.')`: the index of the last '.', or -1. */
  function LastDot(n: string): (i: int)
    ensures -1 <= i < |n|
    ensures 0 <= i ==> n[i] == '.'
    ensures forall j :: i < j < |n| ==> n[j] != '.'
  {
    if n == [] then -1
    else if n[|n| - 1] == '.' then |n| - 1
    else LastDot(n[..|n| - 1])
  }

  /**
   * `PurePath(p).suffix`: from the last '.' of the final component to its end,
   * provided that dot is neither the component's first nor its last character;
   * otherwise the empty string. The suffix keeps its original letter case.
   */
  function Suffix(p: string): (s: string)
    ensures s == [] || (s[0] == '.' && 2 <= |s| && '.' !in s[1..] && '/' !in s)
    ensures s != [] ==> |s| < |Name(p)| && Name(p)[|Name(p)| - |s|..] == s
  {
    var n := Name(p);
    var i := LastDot(n);
    if 0 < i < |n| - 1 then n[i..] else []
  }

  /** ASCII case folding of one character; every other character is kept. */
  function LowerChar(c: char): char
  {
    if 'A' <= c <= 'Z' then (c as int - 'A' as int + 'a' as int) as char else c
  }

  /** `str.lower()` restricted to ASCII letters. */
  function Lower(s: string): (r: string)
    ensures |r| == |s|
    ensures forall i :: 0 <= i < |s| ==> r[i] == LowerChar(s[i])
  {
    if s == [] then [] else [LowerChar(s[0])] + Lower(s[1..])
  }

  /** A name made of a non-empty stem and "." + an extension has exactly that extension as suffix. */
  lemma {:induction false} SuffixOfStemAndExtension(stem: string, ext: string)
    requires stem != [] && '/' !in stem
    requires ext != [] && '.' !in ext && '/' !in ext
    ensures Suffix(stem + "." + ext) == "." + ext
  {
    var n := stem + "." + ext;
    assert '/' !in n;
    assert forall j :: |stem| < j < |n| ==> n[j] == ext[j - |stem| - 1] && n[j] != '.';
    assert n[|stem|] == '.';
    assert LastDot(n) == |stem|;
    assert n[|stem|..] == "." + ext;
  }

  /** A name whose only dot is its first character (".png", a hidden file) has no suffix. */
  lemma {:induction false} HiddenNameHasNoSuffix(ext: string)
    requires '.' !in ext && '/' !in ext
    ensures Suffix("." + ext) == []
  {
    var n := "." + ext;
    if ext != [] {
      assert '/' !in n;
      assert forall j :: 0 < j < |n| ==> n[j] == ext[j - 1] && n[j] != '.';
      assert n[0] == '.';
      assert LastDot(n) == 0;
    }
  }

  /** Only the final component counts: a directory prefix does not change the suffix. */
  lemma {:induction false} SuffixIgnoresDirectory(dir: string, name: string)
    requires '/' !in name && name != "" && name != "."
    ensures Suffix(dir + "/" + name) == Suffix(name)
  {
    var p := dir + "/" + name;
    assert forall j :: |dir| < j < |p| ==> p[j] == name[j - |dir| - 1];
    assert p[|p| - 1] != '/';
    assert p[|dir|] == '/';
    assert AfterLastSlash(p) == |dir| + 1;
    assert p[|dir| + 1..] == name;
  }
}
