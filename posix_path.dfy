/**
 * The `os.path` functions the crawler and the document loader call, as the
 * POSIX flavour (`posixpath`) defines them for `/`-separated paths.
 */
module PosixPath {
  import opened Text

  /**
   * `os.path.splitext`: split off the extension, which runs from the last
   * `.` of the last path component to the end. A component whose dots are
   * all leading (`.txt`, `..`) has no extension.
   */
  function SplitExt(p: string): (r: (string, string))
    ensures r.0 + r.1 == p
    ensures r.1 != [] ==> r.1[0] == '.' && NoneIn(r.1[1..], {'.', '/'})
    ensures r.1 != [] ==> exists k :: LastIndexOf(r.0, '/') < k < |r.0| && r.0[k] != '.'
    ensures r.1 == [] ==> forall i, j :: LastIndexOf(p, '/') < i < j < |p| && p[i] != '.' ==> p[j] != '.'
  {
    var sepIndex := LastIndexOf(p, '/');
    var dotIndex := LastIndexOf(p, '.');
    if dotIndex > sepIndex && exists k | sepIndex + 1 <= k < dotIndex :: p[k] != '.' then
      ExtensionFound(p, sepIndex, dotIndex);
      (p[..dotIndex], p[dotIndex..])
    else
      NoExtensionFound(p, sepIndex, dotIndex);
      (p, "")
  }

  /** Cutting at the last `.` of a name that has a non-`.` character before it gives a stem and an extension. */
  lemma ExtensionFound(p: string, sepIndex: int, dotIndex: int)
    requires sepIndex == LastIndexOf(p, '/') && dotIndex == LastIndexOf(p, '.') && dotIndex > sepIndex
    requires exists k :: sepIndex + 1 <= k < dotIndex && p[k] != '.'
    ensures p[..dotIndex] + p[dotIndex..] == p
    ensures p[dotIndex..] != [] && p[dotIndex..][0] == '.' && NoneIn(p[dotIndex..][1..], {'.', '/'})
    ensures exists k :: LastIndexOf(p[..dotIndex], '/') < k < |p[..dotIndex]| && p[..dotIndex][k] != '.'
  {
    LastIndexOfUnique(p[..dotIndex], '/', sepIndex);
    var k :| sepIndex + 1 <= k < dotIndex && p[k] != '.';
    assert p[..dotIndex][k] == p[k];
    var ext := p[dotIndex..];
    forall i | 0 <= i < |ext[1..]| ensures ext[1..][i] !in {'.', '/'} {
      assert ext[1..][i] == p[dotIndex + 1 + i];
    }
  }

  /** When the test for an extension fails, no `.` of the last component follows a non-`.` character. */
  lemma NoExtensionFound(p: string, sepIndex: int, dotIndex: int)
    requires sepIndex == LastIndexOf(p, '/') && dotIndex == LastIndexOf(p, '.')
    requires !(dotIndex > sepIndex && exists k :: sepIndex + 1 <= k < dotIndex && p[k] != '.')
    ensures forall i, j :: sepIndex < i < j < |p| && p[i] != '.' ==> p[j] != '.'
  {
    forall i, j | sepIndex < i < j < |p| && p[i] != '.' ensures p[j] != '.' {
      if j <= dotIndex {
        assert false;
      }
    }
  }

  /** `os.path.join(a, b)`: an absolute `b` replaces `a`; otherwise a `/` is put between them if needed. */
  function PathJoin(a: string, b: string): (r: string)
    ensures EndsWith(r, b)
    ensures StartsWith(b, "/") ==> r == b
    ensures !StartsWith(b, "/") ==> r == a + (if a == [] || EndsWith(a, "/") then "" else "/") + b
  {
    if StartsWith(b, "/") then b
    else if a == [] || EndsWith(a, "/") then a + b
    else a + "/" + b
  }

  /** `os.path.basename`: everything after the last `/`. */
  function Basename(p: string): (r: string)
    ensures NoneIn(r, {'/'})
    ensures EndsWith(p, r) && (|r| < |p| ==> p[|p| - |r| - 1] == '/')
  {
    var start := LastIndexOf(p, '/') + 1;
    assert forall k :: 0 <= k < |p| - start ==> p[start..][k] == p[start + k];
    p[start..]
  }

  /** `os.path.dirname`: everything up to the last `/`, without trailing slashes unless it is all slashes. */
  function Dirname(p: string): string
  {
    var head := p[..LastIndexOf(p, '/') + 1];
    if head != [] && !AllSlashes(head) then RStripSlashes(head) else head
  }

  predicate AllSlashes(s: string)
  {
    forall i :: 0 <= i < |s| ==> s[i] == '/'
  }

  /** `s.rstrip("/")`. */
  function RStripSlashes(s: string): (r: string)
    ensures r <= s
    ensures r == [] || r[|r| - 1] != '/'
    ensures forall i :: |r| <= i < |s| ==> s[i] == '/'
  {
    if s != [] && s[|s| - 1] == '/' then RStripSlashes(s[..|s| - 1]) else s
  }

  lemma RStripSlashesEmpty(s: string)
    ensures RStripSlashes(s) == [] <==> AllSlashes(s)
  {
    var r := RStripSlashes(s);
    if r != [] {
      assert s[|r| - 1] == r[|r| - 1];
    }
  }

  /** Appending a slash does not change what stripping trailing slashes leaves. */
  lemma {:induction false} RStripSlashesAppend(s: string)
    ensures RStripSlashes(s + "/") == RStripSlashes(s)
  {
    assert (s + "/")[..|s|] == s;
  }

  /** The directory part that `PathJoin(root, name)` puts before a relative `name`. */
  function DirPrefix(root: string): (d: string)
    ensures d == [] || EndsWith(d, "/")
  {
    if root == [] || EndsWith(root, "/") then root else root + "/"
  }

  lemma {:induction false} LastSlashBeforeName(dir: string, name: string)
    requires dir == [] || dir[|dir| - 1] == '/'
    requires NoneIn(name, {'/'})
    ensures LastIndexOf(dir + name, '/') == |dir| - 1
  {
    var p := dir + name;
    forall k | |dir| - 1 < k < |p| ensures p[k] != '/' {
      assert p[k] == name[k - |dir|];
    }
    LastIndexOfUnique(p, '/', |dir| - 1);
  }

  lemma DirnameOfChild(dir: string, name: string)
    requires dir == [] || dir[|dir| - 1] == '/'
    requires NoneIn(name, {'/'})
    ensures Dirname(dir + name) == if dir != [] && !AllSlashes(dir) then RStripSlashes(dir) else dir
  {
    LastSlashBeforeName(dir, name);
    assert (dir + name)[..|dir|] == dir;
  }

  /** Joining a relative name onto `root` puts it after `DirPrefix(root)`. */
  lemma PathJoinRelative(root: string, name: string)
    requires name != [] && NoneIn(name, {'/'})
    ensures PathJoin(root, name) == DirPrefix(root) + name
  {
    assert name[0] != '/';
    assert !StartsWith(name, "/");
  }

  /** A root made only of slashes has an empty last component. */
  lemma AllSlashesRoot(root: string)
    requires root != [] && AllSlashes(root)
    ensures DirPrefix(root) == root
    ensures Basename(root) == [] && RStripSlashes(root) == []
  {
    assert root[|root| - 1] == '/';
    assert EndsWith(root, "/");
    LastIndexOfUnique(root, '/', |root| - 1);
    RStripSlashesEmpty(root);
  }

  /** A root with some other character keeps it once the separator is appended and trailing slashes stripped. */
  lemma NamedRoot(root: string)
    requires root != [] && !AllSlashes(root)
    ensures !AllSlashes(DirPrefix(root))
    ensures RStripSlashes(DirPrefix(root)) == RStripSlashes(root)
  {
    RStripSlashesEmpty(root);
    RStripSlashesEmpty(DirPrefix(root));
    if !EndsWith(root, "/") {
      RStripSlashesAppend(root);
    }
  }

  /**
   * The name of the directory that immediately contains the file `name` in
   * directory `root`: `basename(dirname(join(root, name)))` is the last
   * component of `root`, whatever trailing slashes `root` carries.
   */
  lemma ContainingDirectoryName(root: string, name: string)
    requires name != [] && NoneIn(name, {'/'})
    ensures Basename(Dirname(PathJoin(root, name))) == Basename(RStripSlashes(root))
  {
    var dir := DirPrefix(root);
    PathJoinRelative(root, name);
    DirnameOfChild(dir, name);
    if root == [] {
    } else if AllSlashes(root) {
      AllSlashesRoot(root);
    } else {
      NamedRoot(root);
    }
  }

  /** A path with a `/` in it has a non-empty directory part. */
  lemma DirnameNonEmpty(p: string, i: nat)
    requires i < |p| && p[i] == '/'
    ensures Dirname(p) != []
  {
    var head := p[..LastIndexOf(p, '/') + 1];
    RStripSlashesEmpty(head);
  }
}
