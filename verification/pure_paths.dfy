/**
  The part of Python's `pathlib.PurePath` that the renamer relies on: a path
  is a parent directory plus a final name, and the name splits into a stem
  and a suffix at its last dot.
 */
module PurePaths {

  /** A path: the directory it lives in and its final component (`path.name`). */
  datatype Path = Path(parent: string, name: string)

  /** Python's `s.rfind(c)`: the index of the last `c` in `s`, or -1. */
  function RFind(s: string, c: char): (r: int)
    ensures -1 <= r < |s|
    ensures r == -1 <==> c !in s
    ensures 0 <= r ==> s[r] == c && forall j :: r < j < |s| ==> s[j] != c
  {
    if |s| == 0 then -1
    else if s[|s| - 1] == c then |s| - 1
    else
      assert s == s[..|s| - 1] + [s[|s| - 1]];
      RFind(s[..|s| - 1], c)
  }

  /** The last occurrence is the only index with `c` and no `c` after it. */
  lemma RFindAt(s: string, c: char, k: int)
    requires 0 <= k < |s| && s[k] == c
    requires forall j :: k < j < |s| ==> s[j] != c
    ensures RFind(s, c) == k
  {
  }

  /** True when the name has a suffix: its last dot neither opens nor ends the name. */
  predicate HasSuffix(name: string) {
    var i := RFind(name, '.');
    0 < i < |name| - 1
  }

  /** `PurePath.suffix`: from the last dot to the end, or "" when there is none. */
  function Suffix(name: string): (r: string)
    ensures r == "" <==> !HasSuffix(name)
    ensures r != "" ==> 2 <= |r| && r[0] == '.' && '.' !in r[1..]
    ensures |r| <= |name| && r == name[|name| - |r|..]
  {
    if HasSuffix(name) then
      var i := RFind(name, '.');
      name[i..]
    else ""
  }

  /** `PurePath.stem`: the name without its suffix. */
  function Stem(name: string): (r: string)
    ensures r + Suffix(name) == name
    ensures |name| > 0 ==> |r| > 0
  {
    if HasSuffix(name) then
      var i := RFind(name, '.');
      assert name[i..] == Suffix(name);
      assert name[..i] + name[i..] == name;
      name[..i]
    else name
  }

  /** `PurePath.with_name`: the same directory, another final name. */
  function WithName(p: Path, name: string): Path
  {
    p.(name := name)
  }

  /** Python's `s.endswith(t)`. */
  predicate EndsWith(s: string, t: string) {
    |t| <= |s| && s[|s| - |t|..] == t
  }

  /** The middle part of a three-part concatenation sits right after the first. */
  lemma Middle(x: string, y: string, z: string)
    ensures (x + y + z)[|x|..|x| + |y|] == y
  {
  }

  /** Every string ends with what was appended to it. */
  lemma EndsWithAppended(a: string, b: string)
    ensures EndsWith(a + b, b)
  {
  }

  /** A character absent from both halves is absent from their concatenation. */
  lemma NotInConcat(a: string, b: string, c: char)
    requires c !in a && c !in b
    ensures c !in a + b
  {
  }

  /**
    Inserting a tag between the stem and a non-empty suffix keeps the suffix
    and makes the tagged stem the new stem, whatever the tag holds.
   */
  lemma TagBeforeSuffix(name: string, tag: string)
    requires HasSuffix(name)
    ensures Stem(Stem(name) + tag + Suffix(name)) == Stem(name) + tag
    ensures Suffix(Stem(name) + tag + Suffix(name)) == Suffix(name)
  {
    var stem, suffix := Stem(name), Suffix(name);
    var tagged := stem + tag + suffix;
    var k := |stem| + |tag|;
    assert tagged[k] == suffix[0] == '.';
    forall j | k < j < |tagged|
      ensures tagged[j] != '.'
    {
      assert tagged[j] == suffix[1..][j - k - 1];
    }
    RFindAt(tagged, '.', k);
    assert tagged[..k] == stem + tag;
    assert tagged[k..] == suffix;
  }

  /**
    Appending a dot-free tag to a name without a suffix leaves a name without
    a suffix, provided the name does not end with a dot.
   */
  lemma TagWithoutSuffix(name: string, tag: string)
    requires !HasSuffix(name)
    requires '.' !in tag
    requires |name| == 0 || name[|name| - 1] != '.'
    ensures !HasSuffix(name + tag)
    ensures Stem(name + tag) == name + tag
  {
  }

  /**
    A name that ends with a dot has no suffix, but appending a non-empty tag
    gives it one: the tag becomes part of the suffix.
   */
  lemma TrailingDotAbsorbsTag(name: string, tag: string)
    requires 2 <= |name| && name[|name| - 1] == '.'
    requires |tag| > 0 && '.' !in tag
    ensures !HasSuffix(name)
    ensures HasSuffix(name + tag) && Suffix(name + tag) == "." + tag
    ensures Stem(name + tag) == name[..|name| - 1]
  {
    var tagged := name + tag;
    var k := |name| - 1;
    RFindAt(name, '.', k);
    forall j | k < j < |tagged|
      ensures tagged[j] != '.'
    {
      assert tagged[j] == tag[j - |name|];
    }
    RFindAt(tagged, '.', k);
    assert HasSuffix(tagged);
    assert tagged[k..] == "." + tag;
    assert tagged[..k] == name[..k];
  }

  /**
    Tagging a name yields a name whose stem is the old stem followed by the
    tag, when the name has a suffix, or when the tag is dot-free and the name
    does not end with a dot.
   */
  lemma TaggedStem(name: string, tag: string)
    requires HasSuffix(name) || ('.' !in tag && (|name| == 0 || name[|name| - 1] != '.'))
    ensures Stem(Stem(name) + tag + Suffix(name)) == Stem(name) + tag
    ensures EndsWith(Stem(Stem(name) + tag + Suffix(name)), tag)
  {
    EndsWithAppended(Stem(name), tag);
    if HasSuffix(name) {
      TagBeforeSuffix(name, tag);
    } else {
      assert Stem(name) + tag + Suffix(name) == name + tag;
      TagWithoutSuffix(name, tag);
    }
  }
}
