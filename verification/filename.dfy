/** append_to_filename: the name of a further output file, formed by putting
    a space and a suffix in front of the extension. */
module FileNames {

  /** str.rfind: the index of the last occurrence of `c` in `s`, or -1. */
  function RFind(s: string, c: char): (r: int)
    ensures -1 <= r < |s|
    ensures r == -1 <==> c !in s
    ensures r >= 0 ==> s[r] == c && c !in s[r + 1..]
  {
    if s == [] then -1
    else if s[|s| - 1] == c then |s| - 1
    else
      var r := RFind(s[..|s| - 1], c);
      assert s[r + 1..] == s[..|s| - 1][r + 1..] + [s[|s| - 1]];
      r
  }

  /** The extension of a file name: everything from its last dot on, or
      nothing when it has no dot. */
  function Extension(name: string): (e: string)
    ensures '.' in name ==> |e| > 0 && e[0] == '.'
    ensures '.' !in name ==> e == []
  {
    var pos := RFind(name, '.');
    if pos == -1 then [] else name[pos..]
  }

  /** The name without its extension. */
  function Stem(name: string): (s: string)
    ensures s + Extension(name) == name
  {
    var pos := RFind(name, '.');
    if pos == -1 then name else name[..pos]
  }

  /** The suffix follows a space after the stem, and the extension keeps its
      place at the end. */
  function AppendToFilename(name: string, suffix: string): (r: string)
    ensures |r| == |name| + 1 + |suffix|
    ensures r == Stem(name) + " " + suffix + Extension(name)
  {
    var pos := RFind(name, '.');
    if pos == -1 then name + " " + suffix
    else name[..pos] + " " + suffix + name[pos..]
  }

  /** When the suffix has no dot the new name has the same extension, and the
      original name is recovered by taking the space and the suffix out. */
  lemma {:induction false} AppendKeepsExtension(name: string, suffix: string)
    requires '.' !in suffix
    ensures Extension(AppendToFilename(name, suffix)) == Extension(name)
    ensures Stem(AppendToFilename(name, suffix)) == Stem(name) + " " + suffix
  {
    var r := AppendToFilename(name, suffix);
    var stem, ext := Stem(name), Extension(name);
    var pos := RFind(name, '.');
    var rp := RFind(r, '.');
    if pos == -1 {
      assert r == name + " " + suffix;
      assert '.' !in r by {
        forall i | 0 <= i < |r|
          ensures r[i] != '.'
        {
          if i < |name| {
            assert r[i] == name[i];
          } else if i > |name| {
            assert r[i] == suffix[i - |name| - 1];
          }
        }
      }
    } else {
      var at := |stem| + 1 + |suffix|;
      assert r[at] == '.';
      assert r[at + 1..] == name[pos + 1..];
      assert rp == at by {
        assert rp >= at;
      }
      assert r[..at] == stem + " " + suffix;
    }
  }
}
