/**
 The output-path builder `get_rl_path`: the working directory joined with the
 input name minus its last extension, plus ".txt". `os.path.splitext` and
 `os.path.join` are modelled after their POSIX versions, and the working
 directory is a parameter instead of a call to `os.getcwd()`.
 */
module Paths {

  const Sep: char := '/'
  const ExtSep: char := '.'
  const TxtSuffix: string := ".txt"

  /** `str.rfind` for one character: the last index holding `c`, or -1. */
  function RFind(s: string, c: char): (r: int)
    ensures -1 <= r < |s|
    ensures r >= 0 ==> s[r] == c
    ensures forall k :: r < k < |s| ==> s[k] != c
  {
    if s == [] then -1
    else if s[|s| - 1] == c then |s| - 1
    else RFind(s[..|s| - 1], c)
  }

  /** The contract of `RFind` pins its result down: an index holding `c` with
      no `c` after it is the answer. */
  lemma RFindIsLast(s: string, c: char, i: int)
    requires -1 <= i < |s|
    requires i >= 0 ==> s[i] == c
    requires forall k :: i < k < |s| ==> s[k] != c
    ensures RFind(s, c) == i
  {
  }

  predicate AllDots(s: string) {
    forall k :: 0 <= k < |s| ==> s[k] == ExtSep
  }

  predicate NoSep(s: string) {
    forall k :: 0 <= k < |s| ==> s[k] != Sep
  }

  /** `os.path.splitext`: splits at the last dot of the last path component,
      unless everything in that component before the dot is a dot too (so a
      name such as ".bashrc" has no extension). The extension keeps its dot. */
  function SplitExt(p: string): (r: (string, string))
    ensures r.0 + r.1 == p
    ensures r.1 == [] || r.1[0] == ExtSep
    ensures forall k :: 0 < k < |r.1| ==> r.1[k] != ExtSep && r.1[k] != Sep
  {
    var sepIndex := RFind(p, Sep);
    var dotIndex := RFind(p, ExtSep);
    if dotIndex > sepIndex && !AllDots(p[sepIndex + 1..dotIndex]) then
      assert p[..dotIndex] + p[dotIndex..] == p;
      (p[..dotIndex], p[dotIndex..])
    else
      assert p + [] == p;
      (p, [])
  }

  /** `os.path.splitext(p)[0]`: a prefix of the name, and non-empty and
      starting where the name does whenever the name is non-empty (so it is
      absolute exactly when the name is). */
  function Stem(p: string): (r: string)
    ensures |r| <= |p| && p[..|r|] == r
    ensures p != [] ==> r != [] && r[0] == p[0]
  {
    StemKeepsFirst(p);
    SplitExt(p).0
  }

  lemma StemKeepsFirst(p: string)
    ensures p != [] ==> SplitExt(p).0 != [] && SplitExt(p).0[0] == p[0]
  {
    var sepIndex := RFind(p, Sep);
    var dotIndex := RFind(p, ExtSep);
    if dotIndex > sepIndex && !AllDots(p[sepIndex + 1..dotIndex]) {
      assert sepIndex + 1 < dotIndex;
      assert SplitExt(p).0 == p[..dotIndex];
    }
  }

  /** An independent reading of "has an extension": some dot in the last path
      component has a character other than a dot before it, in that component. */
  ghost predicate HasExtension(p: string) {
    exists j, i :: 0 <= j < i < |p| && p[j] != ExtSep && p[i] == ExtSep && NoSep(p[j..])
  }

  /** `SplitExt` finds an extension exactly when the name has one. */
  lemma SplitExtIff(p: string)
    ensures SplitExt(p).1 != [] <==> HasExtension(p)
  {
    if SplitExt(p).1 != [] {
      SplitExtHasExtension(p);
    }
    if HasExtension(p) {
      var j, i :| 0 <= j < i < |p| && p[j] != ExtSep && p[i] == ExtSep && NoSep(p[j..]);
      HasExtensionSplits(p, j, i);
    }
  }

  lemma SplitExtHasExtension(p: string)
    requires SplitExt(p).1 != []
    ensures HasExtension(p)
  {
    var sepIndex := RFind(p, Sep);
    var dotIndex := RFind(p, ExtSep);
    assert dotIndex > sepIndex && !AllDots(p[sepIndex + 1..dotIndex]);
    NotAllDotsHasExtension(p, sepIndex, dotIndex);
  }

  lemma NotAllDotsHasExtension(p: string, sepIndex: int, dotIndex: int)
    requires -1 <= sepIndex < dotIndex < |p| && p[dotIndex] == ExtSep
    requires forall k :: sepIndex < k < |p| ==> p[k] != Sep
    requires !AllDots(p[sepIndex + 1..dotIndex])
    ensures HasExtension(p)
  {
    var body := p[sepIndex + 1..dotIndex];
    var k :| 0 <= k < |body| && body[k] != ExtSep;
    var j := sepIndex + 1 + k;
    assert p[j] == body[k];
    assert NoSep(p[j..]) by {
      forall m | 0 <= m < |p| - j ensures p[j..][m] != Sep {
        assert p[j..][m] == p[j + m];
      }
    }
    assert 0 <= j < dotIndex < |p| && p[j] != ExtSep && p[dotIndex] == ExtSep;
  }

  lemma HasExtensionSplits(p: string, j: int, i: int)
    requires 0 <= j < i < |p| && p[j] != ExtSep && p[i] == ExtSep && NoSep(p[j..])
    ensures SplitExt(p).1 != []
  {
    var sepIndex := RFind(p, Sep);
    var dotIndex := RFind(p, ExtSep);
    WitnessInsideBody(p, j, i, sepIndex, dotIndex);
  }

  lemma WitnessInsideBody(p: string, j: int, i: int, sepIndex: int, dotIndex: int)
    requires 0 <= j < i < |p| && p[j] != ExtSep && p[i] == ExtSep && NoSep(p[j..])
    requires -1 <= sepIndex < |p| && (sepIndex >= 0 ==> p[sepIndex] == Sep)
    requires -1 <= dotIndex < |p| && forall k :: dotIndex < k < |p| ==> p[k] != ExtSep
    ensures sepIndex < j < dotIndex
    ensures !AllDots(p[sepIndex + 1..dotIndex])
  {
    assert sepIndex < j;
    assert i <= dotIndex;
    NonDotInside(p, sepIndex + 1, dotIndex, j);
  }

  lemma NonDotInside(p: string, lo: int, hi: int, j: int)
    requires 0 <= lo <= j < hi <= |p| && p[j] != ExtSep
    ensures !AllDots(p[lo..hi])
  {
    assert p[lo..hi][j - lo] == p[j];
  }

  /** Only the last path component decides the extension: the directory part
      is carried through unchanged. */
  lemma SplitExtLastComponent(dir: string, name: string)
    requires NoSep(name)
    ensures SplitExt(dir + [Sep] + name) == (dir + [Sep] + SplitExt(name).0, SplitExt(name).1)
  {
    var p := dir + [Sep] + name;
    var off := |dir| + 1;
    var d := RFind(name, ExtSep);
    RFindsInJoined(dir, name);
    if d >= 0 {
      JoinedSlices(dir, name, d);
      assert p[RFind(p, Sep) + 1..RFind(p, ExtSep)] == name[RFind(name, Sep) + 1..d];
    } else {
      assert SplitExt(name) == (name, []);
    }
  }

  lemma RFindsInJoined(dir: string, name: string)
    requires NoSep(name)
    ensures RFind(dir + [Sep] + name, Sep) == |dir|
    ensures RFind(name, Sep) == -1
    ensures RFind(name, ExtSep) >= 0 ==> RFind(dir + [Sep] + name, ExtSep) == |dir| + 1 + RFind(name, ExtSep)
    ensures RFind(name, ExtSep) < 0 ==> RFind(dir + [Sep] + name, ExtSep) < |dir|
  {
    RFindSepInJoined(dir, name);
    RFindIsLast(name, Sep, -1);
    RFindDotInJoined(dir, name);
  }

  lemma RFindSepInJoined(dir: string, name: string)
    requires NoSep(name)
    ensures RFind(dir + [Sep] + name, Sep) == |dir|
  {
    var p := dir + [Sep] + name;
    assert p[|dir| + 1..] == name;
    NoSepAfter(p, |dir|);
    RFindIsLast(p, Sep, |dir|);
  }

  lemma NoSepAfter(p: string, i: nat)
    requires i < |p| && NoSep(p[i + 1..])
    ensures forall k :: i < k < |p| ==> p[k] != Sep
  {
    forall k | i < k < |p| ensures p[k] != Sep {
      assert p[k] == p[i + 1..][k - i - 1];
    }
  }

  lemma RFindDotInJoined(dir: string, name: string)
    ensures RFind(name, ExtSep) >= 0 ==> RFind(dir + [Sep] + name, ExtSep) == |dir| + 1 + RFind(name, ExtSep)
    ensures RFind(name, ExtSep) < 0 ==> RFind(dir + [Sep] + name, ExtSep) < |dir|
  {
    var p := dir + [Sep] + name;
    var off := |dir| + 1;
    var d := RFind(name, ExtSep);
    assert forall k :: off <= k < |p| ==> p[k] == name[k - off];
    if d >= 0 {
      RFindIsLast(p, ExtSep, off + d);
    }
  }

  lemma JoinedSlices(dir: string, name: string, d: nat)
    requires d <= |name|
    ensures (dir + [Sep] + name)[..|dir| + 1 + d] == dir + [Sep] + name[..d]
    ensures (dir + [Sep] + name)[|dir| + 1 + d..] == name[d..]
    ensures (dir + [Sep] + name)[|dir| + 1..|dir| + 1 + d] == name[..d]
  {
  }

  /** `os.path.join(a, b)` for POSIX: an absolute `b` replaces `a`; otherwise
      `b` is appended, with a separator unless `a` is empty or already ends
      in one. */
  function PathJoin(a: string, b: string): (r: string)
    ensures |r| >= |b| && r[|r| - |b|..] == b
    ensures b != [] && b[0] == Sep ==> r == b
    ensures !(b != [] && b[0] == Sep) ==> |r| >= |a| && r[..|a|] == a
    ensures !(b != [] && b[0] == Sep) ==>
      (|r| == |a| + |b| + 1 <==> a != [] && a[|a| - 1] != Sep) && |a| + |b| <= |r| <= |a| + |b| + 1
    ensures !(b != [] && b[0] == Sep) && a != [] ==> r[|r| - |b| - 1] == Sep
  {
    if b != [] && b[0] == Sep then b
    else if a == [] || a[|a| - 1] == Sep then a + b
    else a + [Sep] + b
  }

  /** `get_rl_path(filename)` with the working directory given as `cwd`. */
  function GetRlPath(cwd: string, filename: string): (r: string)
    ensures |r| >= |TxtSuffix| && r[|r| - |TxtSuffix|..] == TxtSuffix
    ensures filename == [] || filename[0] != Sep ==> |r| >= |cwd| && r[..|cwd|] == cwd
    ensures filename != [] && filename[0] == Sep ==> r == Stem(filename) + TxtSuffix
  {
    var stem := Stem(filename);
    var out := stem + TxtSuffix;
    OutputNameLeads(filename);
    var r := PathJoin(cwd, out);
    SuffixOfSuffix(r, stem, TxtSuffix);
    r
  }

  /** The output name is absolute exactly when the input name is. */
  lemma OutputNameLeads(filename: string)
    ensures Stem(filename) + TxtSuffix != []
    ensures (Stem(filename) + TxtSuffix)[0] == Sep <==> filename != [] && filename[0] == Sep
  {
    var out := Stem(filename) + TxtSuffix;
    if filename == [] {
      assert out == TxtSuffix;
    } else {
      assert out[0] == Stem(filename)[0];
    }
  }

  lemma SuffixOfSuffix(r: string, a: string, b: string)
    requires |r| >= |a + b| && r[|r| - |a + b|..] == a + b
    ensures |r| >= |b| && r[|r| - |b|..] == b
  {
    assert r[|r| - |b|..] == r[|r| - |a + b|..][|a|..];
  }

  /** For a relative name and a working directory that does not end in a
      separator, the result is exactly cwd, a separator, the name without its
      last extension, and ".txt": the name's own directory part is kept. */
  lemma GetRlPathRelative(cwd: string, filename: string)
    requires cwd != [] && cwd[|cwd| - 1] != Sep
    requires filename == [] || filename[0] != Sep
    ensures GetRlPath(cwd, filename) == cwd + [Sep] + Stem(filename) + TxtSuffix
  {
  }

  /** A directory prefix in the input survives into the output path, and
      only the last component loses its extension. */
  lemma GetRlPathKeepsDirectory(cwd: string, dir: string, name: string)
    requires NoSep(name)
    ensures GetRlPath(cwd, dir + [Sep] + name) == PathJoin(cwd, dir + [Sep] + Stem(name) + TxtSuffix)
  {
    SplitExtLastComponent(dir, name);
  }

  /** The directory driver hands `os.path.join(directory, filename)` to the
      path builder, for every `filename` that `os.listdir` returns (non-empty,
      no separator). The output is the working directory joined with the
      directory joined with the stem plus ".txt": it keeps the directory,
      whether or not it ends in a separator, is empty or is absolute. */
  lemma DirectoryOutputPath(cwd: string, directory: string, filename: string)
    requires filename != [] && NoSep(filename)
    ensures GetRlPath(cwd, PathJoin(directory, filename))
         == PathJoin(cwd, PathJoin(directory, Stem(filename) + TxtSuffix))
  {
    if directory == [] {
      DirectoryEmpty(cwd, filename);
    } else if directory[|directory| - 1] == Sep {
      DirectoryEndingInSep(cwd, directory, filename);
    } else {
      DirectoryPlain(cwd, directory, filename);
    }
  }

  lemma DirectoryEmpty(cwd: string, filename: string)
    requires filename != [] && NoSep(filename)
    ensures GetRlPath(cwd, PathJoin([], filename))
         == PathJoin(cwd, PathJoin([], Stem(filename) + TxtSuffix))
  {
    var out := Stem(filename) + TxtSuffix;
    assert out[0] == filename[0];
    assert PathJoin([], filename) == filename;
    assert PathJoin([], out) == out;
  }

  lemma DirectoryPlain(cwd: string, directory: string, filename: string)
    requires filename != [] && NoSep(filename)
    requires directory != [] && directory[|directory| - 1] != Sep
    ensures GetRlPath(cwd, PathJoin(directory, filename))
         == PathJoin(cwd, PathJoin(directory, Stem(filename) + TxtSuffix))
  {
    var stem := Stem(filename);
    var out := stem + TxtSuffix;
    assert out[0] == filename[0];
    assert PathJoin(directory, filename) == directory + [Sep] + filename;
    assert PathJoin(directory, out) == directory + [Sep] + out;
    AppendAssoc(directory + [Sep], stem, TxtSuffix);
    GetRlPathKeepsDirectory(cwd, directory, filename);
  }

  lemma DirectoryEndingInSep(cwd: string, directory: string, filename: string)
    requires filename != [] && NoSep(filename)
    requires directory != [] && directory[|directory| - 1] == Sep
    ensures GetRlPath(cwd, PathJoin(directory, filename))
         == PathJoin(cwd, PathJoin(directory, Stem(filename) + TxtSuffix))
  {
    var d := directory[..|directory| - 1];
    var stem := Stem(filename);
    assert directory == d + [Sep];
    assert PathJoin(directory, filename) == d + [Sep] + filename;
    var out := stem + TxtSuffix;
    assert out[0] == filename[0];
    assert PathJoin(directory, out) == directory + out;
    AppendAssoc(directory, stem, TxtSuffix);
    GetRlPathKeepsDirectory(cwd, d, filename);
  }

  lemma AppendAssoc(x: string, y: string, z: string)
    ensures x + (y + z) == x + y + z
  {
  }

  /** So the directory driver's outputs land under the working directory
      joined with the directory: that path is a prefix of every output. */
  lemma DirectoryOutputUnderDirectory(cwd: string, directory: string, filename: string)
    requires filename != [] && NoSep(filename)
    ensures var under := PathJoin(cwd, directory);
      var r := GetRlPath(cwd, PathJoin(directory, filename));
      |under| <= |r| && r[..|under|] == under
  {
    DirectoryOutputPath(cwd, directory, filename);
    var out := Stem(filename) + TxtSuffix;
    assert out[0] == filename[0];
    JoinKeepsJoinPrefix(cwd, directory, out);
  }

  /** Joining `a` with `d` joined with a relative, non-empty `x` starts with
      `a` joined with `d`. */
  lemma JoinKeepsJoinPrefix(a: string, d: string, x: string)
    requires x != [] && x[0] != Sep
    ensures var p := PathJoin(a, d);
      var r := PathJoin(a, PathJoin(d, x));
      |p| <= |r| && r[..|p|] == p
  {
    var p := PathJoin(a, d);
    var j := PathJoin(d, x);
    if d != [] && d[0] == Sep {
      assert p == d && j[0] == Sep;
    } else {
      var lead := if a == [] || a[|a| - 1] == Sep then a else a + [Sep];
      assert p == lead + d;
      assert j != [] && j[0] != Sep by {
        if d == [] {
          assert j == x;
        } else {
          assert j[0] == d[0];
        }
      }
      assert PathJoin(a, j) == lead + j;
      PrefixConcat(lead, d, j);
    }
  }

  lemma PrefixConcat(q: string, y: string, z: string)
    requires |y| <= |z| && z[..|y|] == y
    ensures |q + y| <= |q + z| && (q + z)[..|q + y|] == q + y
  {
  }

  /** A name in the last component that is a run of dots followed by no
      further dot, such as ".bashrc" or "..profile", has no extension. */
  lemma LeadingDotsNoExtension(dots: string, rest: string)
    requires AllDots(dots)
    requires forall k :: 0 <= k < |rest| ==> rest[k] != ExtSep && rest[k] != Sep
    ensures SplitExt(dots + rest) == (dots + rest, [])
  {
    SplitExtIff(dots + rest);
  }

  /** A plain name "base.ext" with no other dot and no separator splits into
      "base" and ".ext". */
  lemma SimpleNameSplits(base: string, ext: string)
    requires base != [] && base[0] != ExtSep
    requires forall k :: 0 <= k < |base| ==> base[k] != ExtSep && base[k] != Sep
    requires forall k :: 0 <= k < |ext| ==> ext[k] != ExtSep && ext[k] != Sep
    ensures SplitExt(base + [ExtSep] + ext) == (base, [ExtSep] + ext)
  {
    var p := base + [ExtSep] + ext;
    assert forall k :: |base| < k < |p| ==> p[k] == ext[k - |base| - 1];
    RFindIsLast(p, Sep, -1);
    RFindIsLast(p, ExtSep, |base|);
    assert p[0..|base|] == base;
    assert p[|base|..] == [ExtSep] + ext;
  }

  /** The worked examples below hold in every working directory that is not
      empty and does not end in a separator, which is what `os.getcwd()`
      returns anywhere but at the root. */
  lemma RelativeExample(cwd: string, filename: string, stem: string)
    requires cwd != [] && cwd[|cwd| - 1] != Sep
    requires filename != [] && filename[0] != Sep && Stem(filename) == stem
    ensures GetRlPath(cwd, filename) == cwd + ([Sep] + stem + TxtSuffix)
  {
    GetRlPathRelative(cwd, filename);
    assert cwd + [Sep] + stem + TxtSuffix == cwd + ([Sep] + stem + TxtSuffix);
  }

  lemma ExampleSong(cwd: string)
    requires cwd != [] && cwd[|cwd| - 1] != Sep
    ensures GetRlPath(cwd, "song.mp3") == cwd + "/song.txt"
  {
    SongStem();
    RelativeExample(cwd, "song.mp3", "song");
    assert [Sep] + "song" + TxtSuffix == "/song.txt";
  }

  lemma SongStem()
    ensures Stem("song.mp3") == "song"
  {
    assert "song" + [ExtSep] + "mp3" == "song.mp3";
    SimpleNameSplits("song", "mp3");
  }

  lemma ExampleDotFile(cwd: string)
    requires cwd != [] && cwd[|cwd| - 1] != Sep
    ensures GetRlPath(cwd, ".bashrc") == cwd + "/.bashrc.txt"
  {
    BashrcStem();
    RelativeExample(cwd, ".bashrc", ".bashrc");
    assert [Sep] + ".bashrc" + TxtSuffix == "/.bashrc.txt";
  }

  lemma BashrcStem()
    ensures Stem(".bashrc") == ".bashrc"
  {
    assert "." + "bashrc" == ".bashrc";
    LeadingDotsNoExtension(".", "bashrc");
  }

  lemma ExampleDoubleExtension(cwd: string)
    requires cwd != [] && cwd[|cwd| - 1] != Sep
    ensures GetRlPath(cwd, "a.tar.gz") == cwd + "/a.tar.txt"
  {
    TarGzStem();
    RelativeExample(cwd, "a.tar.gz", "a.tar");
    assert [Sep] + "a.tar" + TxtSuffix == "/a.tar.txt";
  }

  lemma TarGzStem()
    ensures Stem("a.tar.gz") == "a.tar"
  {
    var p := "a.tar.gz";
    RFindIsLast(p, Sep, -1);
    RFindIsLast(p, ExtSep, 5);
    assert p[0..5] == "a.tar" && "a.tar"[0] != ExtSep;
  }

  /** An absolute name keeps its own directory: the working directory plays
      no part. */
  lemma ExampleAbsolute(cwd: string, dir: string)
    requires dir != [] && dir[0] == Sep
    ensures GetRlPath(cwd, dir + "/song.mp3") == dir + "/song.txt"
  {
    SongStem();
    assert NoSep("song.mp3");
    StemUnderDirectory(dir, "song.mp3", "song");
    SongSpelling();
    AppendAssoc(dir, [Sep], "song.mp3");
    AppendAssoc(dir + [Sep], "song", TxtSuffix);
    AppendAssoc(dir, [Sep] + "song", TxtSuffix);
    AppendAssoc(dir, [Sep], "song");
  }

  lemma SongSpelling()
    ensures [Sep] + "song.mp3" == "/song.mp3"
    ensures [Sep] + "song" + TxtSuffix == "/song.txt"
  {
  }

  /** The stem of `dir/name` is `dir/` followed by the stem of `name`. */
  lemma StemUnderDirectory(dir: string, name: string, stem: string)
    requires NoSep(name) && Stem(name) == stem
    ensures Stem(dir + [Sep] + name) == dir + [Sep] + stem
  {
    SplitExtLastComponent(dir, name);
  }
}
