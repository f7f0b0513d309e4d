/** The POSIX path helpers the script relies on (`os.path.basename`,
    `os.path.join` with two arguments, `os.path.splitext`) and the two name
    expressions of `main`: the `.pdf` filter and the output file name. */
module Paths {
  import opened Strings

  /** `s.rfind(c)`: the index of the last `c` in `s`, or -1 when there is none. */
  function LastIndex(s: string, c: char): (r: int)
    ensures -1 <= r < |s|
    ensures r >= 0 ==> s[r] == c
    ensures forall k :: r < k < |s| ==> s[k] != c
  {
    if s == [] then -1
    else if s[|s| - 1] == c then |s| - 1
    else LastIndex(s[..|s| - 1], c)
  }

  /** `os.path.basename(p)`: what follows the last `/`. */
  function Basename(p: string): string {
    p[LastIndex(p, '/') + 1..]
  }

  /** `os.path.join(a, b)`: an absolute `b` replaces `a`; otherwise a `/` is
      inserted unless `a` is empty or already ends with one. */
  function Join(a: string, b: string): string {
    if |b| > 0 && b[0] == '/' then b
    else if a == [] || a[|a| - 1] == '/' then a + b
    else a + "/" + b
  }

  /** A directory entry name (which never holds a `/`) joined to a folder is
      given back by `basename`: the `source` and `document` fields of a
      result carry the entry's own name. */
  lemma BasenameOfJoin(folder: string, name: string)
    requires '/' !in name
    ensures Basename(Join(folder, name)) == name
  {
    var p := Join(folder, name);
    var n := |p| - |name|;
    assert p[n..] == name;
    assert forall k :: n <= k < |p| ==> p[k] == name[k - n];
    assert n > 0 ==> p[n - 1] == '/';
    assert LastIndex(p, '/') == n - 1;
  }

  /** The first index in `i..hi` whose character is not `.`, or `hi`: the
      loop of `splitext` that skips the leading dots of the last component. */
  function SkipDots(p: string, i: nat, hi: nat): (n: nat)
    requires i <= hi <= |p|
    ensures i <= n <= hi
    ensures forall k :: i <= k < n ==> p[k] == '.'
    ensures n < hi ==> p[n] != '.'
    decreases hi - i
  {
    if i < hi && p[i] == '.' then SkipDots(p, i + 1, hi) else i
  }

  /** `os.path.splitext(p)`: the extension starts at the last `.` of the last
      path component, provided something other than `.` precedes that dot
      within the component (so `.pdf` and `..pdf` have no extension). */
  function Splitext(p: string): (r: (string, string))
    ensures r.0 + r.1 == p
    ensures r.1 == [] || (r.1[0] == '.' && '/' !in r.1 && '.' !in r.1[1..])
  {
    var sep := LastIndex(p, '/');
    var dot := LastIndex(p, '.');
    if sep < dot && SkipDots(p, sep + 1, dot) < dot then
      assert forall k :: 0 <= k < |p| - dot ==> p[dot..][k] == p[dot + k];
      (p[..dot], p[dot..])
    else
      (p, "")
  }

  /** A character is absent from a suffix exactly when no index from the
      suffix's start on holds it. */
  lemma NotInSuffix(p: string, k: nat, c: char)
    requires k <= |p|
    ensures c !in p[k..] <==> forall m :: k <= m < |p| ==> p[m] != c
  {
    assert forall m :: k <= m < |p| ==> p[m] == p[k..][m - k];
  }

  /** `splitext` splits off an extension exactly when the name has a last
      `.` with no `.` after it, and some character other than `.` precedes
      that dot within the last path component: the leading dots of a
      component stay in the root. */
  lemma SplitextIff(p: string)
    ensures Splitext(p).1 != [] <==>
      exists d, k :: 0 <= k < d < |p| && p[d] == '.' && p[k] != '.'
                     && '/' !in p[k..] && '.' !in p[d + 1..]
  {
    var sep := LastIndex(p, '/');
    var dot := LastIndex(p, '.');
    if Splitext(p).1 != [] {
      var k := SkipDots(p, sep + 1, dot);
      NotInSuffix(p, k, '/');
      NotInSuffix(p, dot + 1, '.');
      assert 0 <= k < dot < |p| && p[dot] == '.' && p[k] != '.'
             && '/' !in p[k..] && '.' !in p[dot + 1..];
    }
    forall d, k | 0 <= k < d < |p| && p[d] == '.' && p[k] != '.' && '/' !in p[k..] && '.' !in p[d + 1..]
      ensures Splitext(p).1 != []
    {
      NotInSuffix(p, k, '/');
      NotInSuffix(p, d + 1, '.');
      assert dot == d;
      assert sep < k;
      assert SkipDots(p, sep + 1, dot) <= k;
    }
  }

  /** The entry filter of `main`: `file.lower().endswith(".pdf")`. */
  predicate IsPdfName(name: string) {
    EndsWith(Lower(name), ".pdf")
  }

  /** The filter accepts exactly the names whose last four characters are a
      dot followed by `p`, `d`, `f` in either case. */
  lemma PdfNameIff(name: string)
    ensures IsPdfName(name) <==>
      |name| >= 4 && name[|name| - 4] == '.'
      && name[|name| - 3] in "pP" && name[|name| - 2] in "dD" && name[|name| - 1] in "fF"
  {
    if |name| >= 4 {
      var tail := Lower(name)[|name| - 4..];
      assert tail == [tail[0], tail[1], tail[2], tail[3]];
      assert ".pdf" == ['.', 'p', 'd', 'f'];
    }
  }

  /** The name `main` writes a document's result under: the entry name
      without its extension, followed by `_output.json`. */
  function OutputName(name: string): string {
    Splitext(name).0 + "_output.json"
  }

  /** For an entry that passes the filter, the output name drops the final
      four characters, except when only dots precede them (`.pdf`, `..PDF`),
      where `splitext` finds no extension and the whole name is kept. */
  lemma PdfOutputName(name: string)
    requires IsPdfName(name) && '/' !in name
    ensures OutputName(name) ==
      (if exists k :: 0 <= k < |name| - 4 && name[k] != '.' then name[..|name| - 4] else name)
      + "_output.json"
  {
    PdfNameIff(name);
    var dot := LastIndex(name, '.');
    assert dot == |name| - 4;
    assert LastIndex(name, '/') == -1;
    var n := SkipDots(name, 0, dot);
    assert n < dot <==> exists k :: 0 <= k < dot && name[k] != '.';
  }
}
