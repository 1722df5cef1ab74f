/**
 * The `os.path` functions the bot applies to file names: `basename`,
 * `join` and the stem half of `splitext`, for POSIX paths.
 */
module Paths {
  import opened Wrappers
  import opened Text

  /** The directory that holds the stored PDFs (`PDF_STORAGE_DIR`). */
  const StorageDir: string := "stored_pdfs"

  /** The directory that holds oversized outputs served by link (`WEB_SERVE_DIR`). */
  const WebServeDir: string := "web_serve"

  /**
   * `os.path.basename(p)`: the text after the last `/`. Sanitising a
   * client-supplied name with it leaves no directory component.
   */
  function Basename(p: string): (r: string)
    ensures '/' !in r
    ensures EndsWith(p, r)
    ensures |r| < |p| ==> p[|p| - |r| - 1] == '/'
  {
    if |p| == 0 || p[|p| - 1] == '/' then ""
    else
      var init := Basename(p[..|p| - 1]);
      BasenameStep(p, init);
      init + [p[|p| - 1]]
  }

  /** One more character that is not `/` extends the basename of the prefix. */
  lemma BasenameStep(p: string, init: string)
    requires |p| > 0 && p[|p| - 1] != '/'
    requires '/' !in init && EndsWith(p[..|p| - 1], init)
    requires |init| < |p| - 1 ==> p[..|p| - 1][|p| - 1 - |init| - 1] == '/'
    ensures var r := init + [p[|p| - 1]];
      && '/' !in r
      && EndsWith(p, r)
      && (|r| < |p| ==> p[|p| - |r| - 1] == '/')
  {
    var q := p[..|p| - 1];
    var r := init + [p[|p| - 1]];
    assert q[|q| - |init|..] == init;
    assert p[|p| - |r|..] == q[|q| - |init|..] + [p[|p| - 1]];
  }

  /** A name without `/` is its own basename. */
  lemma {:induction false} BasenameOfName(n: string)
    requires '/' !in n
    ensures Basename(n) == n
  {
    if |n| > 0 {
      BasenameOfName(n[..|n| - 1]);
      assert n[..|n| - 1] + [n[|n| - 1]] == n;
    }
  }

  /**
   * A basename that names an entry inside a directory: not empty, and not
   * `.` or `..`, which name the directory itself or its parent, so opening
   * them for writing fails.
   */
  predicate EntryName(n: string) {
    n != "" && n != "." && n != ".."
  }

  /** `os.path.join(dir, name)` for a directory without a trailing `/`. */
  function Join(dir: string, name: string): (r: string)
    requires |dir| > 0 && dir[|dir| - 1] != '/'
    ensures StartsWith(name, "/") ==> r == name
  {
    if StartsWith(name, "/") then name else dir + "/" + name
  }

  /** Joining a name that holds no `/` puts it under the directory. */
  lemma JoinPlain(dir: string, name: string)
    requires |dir| > 0 && dir[|dir| - 1] != '/'
    requires '/' !in name
    ensures Join(dir, name) == dir + "/" + name
  {
    assert |name| > 0 ==> name[..1][0] == name[0] != '/';
  }

  /** The path under which a stored PDF called `name` lives. */
  function StoredPath(name: string): string {
    Join(StorageDir, name)
  }

  /** The basename of a joined path is the name joined, when it has no `/`. */
  lemma {:induction false} BasenameOfJoin(dir: string, name: string)
    requires |dir| > 0 && dir[|dir| - 1] != '/'
    requires '/' !in name
    ensures Basename(Join(dir, name)) == name
  {
    JoinPlain(dir, name);
    BasenameSuffix(dir + "/", name);
  }

  /** Appending a slash-free name after a slash leaves that name as the basename. */
  lemma {:induction false} BasenameSuffix(d: string, name: string)
    requires |d| > 0 && d[|d| - 1] == '/'
    requires '/' !in name
    ensures Basename(d + name) == name
  {
    if |name| == 0 {
      assert d + name == d;
    } else {
      var init := name[..|name| - 1];
      BasenameSuffix(d, init);
      assert (d + name)[..|d + name| - 1] == d + init;
      assert init + [name[|name| - 1]] == name;
    }
  }

  /** The index of the last occurrence of `c` in `s` (`s.rfind(c)`). */
  function LastIndex(s: string, c: char): (r: Option<nat>)
    ensures r.Some? ==> r.value < |s| && s[r.value] == c && c !in s[r.value + 1..]
    ensures r.None? ==> c !in s
  {
    if |s| == 0 then None
    else if s[|s| - 1] == c then Some(|s| - 1)
    else
      var r := LastIndex(s[..|s| - 1], c);
      assert r.Some? ==> s[r.value + 1..] == s[..|s| - 1][r.value + 1..] + [s[|s| - 1]];
      assert r.None? ==> s == s[..|s| - 1] + [s[|s| - 1]];
      r
  }

  /**
   * The first half of `os.path.splitext(name)` for a name without `/`: the
   * text before the last `.`, provided some character before that dot is
   * not itself a dot (so ".pdf" and "..pdf" have no extension).
   */
  function Stem(name: string): (r: string)
    ensures StartsWith(name, r)
    ensures r == name || (name[|r|] == '.' && '.' !in name[|r| + 1..])
    ensures '.' !in name ==> r == name
  {
    match LastIndex(name, '.')
    case None => name
    case Some(d) =>
      if exists j :: 0 <= j < d && name[j] != '.' then name[..d] else name
  }

  /**
   * A name whose first character is not a dot loses the extension after its
   * last `.`: `splitext("report.v2.pdf")[0] == "report.v2"`.
   */
  lemma {:induction false} StemDropsExtension(s: string, ext: string)
    requires |s| > 0 && s[0] != '.' && '.' !in ext
    ensures Stem(s + "." + ext) == s
  {
    var name := s + "." + ext;
    assert name[|s|] == '.';
    var d := LastIndex(name, '.').value;
    assert forall k :: d < k < |name| ==> name[k] != '.' by {
      forall k | d < k < |name| ensures name[k] != '.' {
        assert name[k] == name[d + 1..][k - d - 1];
      }
    }
    assert forall k :: |s| < k < |name| ==> name[k] != '.' by {
      forall k | |s| < k < |name| ensures name[k] != '.' {
        assert name[k] == ext[k - |s| - 1];
      }
    }
    assert d == |s|;
    assert name[0] == s[0];
    assert name[..d] == s;
  }
}
