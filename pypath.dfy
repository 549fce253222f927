/** The `os.path` functions (POSIX flavour) the loader uses to name files:
    `join`, `basename`, `dirname` and `relpath`. */
module PyPath {
  import opened Values

  /** `p.rfind('/')`: the index of the last slash, or -1 when there is none. */
  function LastSlash(p: string): (r: int)
    ensures -1 <= r < |p|
    ensures r >= 0 ==> p[r] == '/'
    ensures forall j :: r < j < |p| ==> p[j] != '/'
    decreases |p|
  {
    if p == [] then -1
    else if p[|p| - 1] == '/' then |p| - 1
    else LastSlash(p[..|p| - 1])
  }

  /** `os.path.join(a, b)`: an absolute `b` replaces `a`; otherwise a slash is
      inserted unless `a` is empty or already ends with one. */
  function Join(a: string, b: string): string
  {
    if b != [] && b[0] == '/' then b
    else if a == [] || a[|a| - 1] == '/' then a + b
    else a + "/" + b
  }

  /** `os.path.join(*cs)` for a non-empty list of parts. */
  function JoinAll(cs: seq<string>): string
    requires cs != []
    decreases |cs|
  {
    if |cs| == 1 then cs[0] else Join(JoinAll(cs[..|cs| - 1]), cs[|cs| - 1])
  }

  /** `os.path.basename(p)`: everything after the last slash. */
  function Basename(p: string): (r: string)
    ensures '/' !in r
    ensures |r| <= |p| && r == p[|p| - |r|..]
    ensures |r| == |p| || p[|p| - |r| - 1] == '/'
  {
    p[LastSlash(p) + 1..]
  }

  predicate AllSlashes(s: string)
  {
    forall i :: 0 <= i < |s| ==> s[i] == '/'
  }

  /** `s.rstrip('/')`. */
  function TrimSlashes(s: string): (r: string)
    ensures r <= s
    ensures r == [] || r[|r| - 1] != '/'
    decreases |s|
  {
    if s != [] && s[|s| - 1] == '/' then TrimSlashes(s[..|s| - 1]) else s
  }

  /** `os.path.dirname(p)`: everything up to the last slash, with trailing
      slashes removed unless the head consists of slashes only. */
  function Dirname(p: string): string
  {
    var head := p[..LastSlash(p) + 1];
    if head != [] && !AllSlashes(head) then TrimSlashes(head) else head
  }

  /** `[x for x in p.split('/') if x]`: the non-empty slash-separated parts. */
  function Components(p: string): seq<string>
    decreases |p|
  {
    if p == [] then []
    else if p[|p| - 1] == '/' then Components(p[..|p| - 1])
    else
      var k := LastSlash(p);
      Components(p[..k + 1]) + [p[k + 1..]]
  }

  /** The normalisation `os.path.normpath` applies to the parts of an absolute
      path: "." is dropped and ".." removes the part before it (at the root it
      is dropped). */
  function NormalizeOnto(acc: seq<string>, cs: seq<string>): seq<string>
    decreases |cs|
  {
    if cs == [] then acc
    else if cs[0] == "." then NormalizeOnto(acc, cs[1..])
    else if cs[0] == ".." then NormalizeOnto(if acc == [] then [] else acc[..|acc| - 1], cs[1..])
    else NormalizeOnto(acc + [cs[0]], cs[1..])
  }

  /** The parts of `os.path.abspath(p)`; a relative `p` is taken relative to the
      working directory `cwd`, itself an absolute path. */
  function AbsComponents(p: string, cwd: string): seq<string>
  {
    if p != [] && p[0] == '/' then NormalizeOnto([], Components(p))
    else NormalizeOnto([], Components(cwd) + Components(p))
  }

  /** The number of leading parts `a` and `b` share (`os.path.commonprefix`). */
  function CommonPrefixLength(a: seq<string>, b: seq<string>): (n: nat)
    ensures n <= |a| && n <= |b| && a[..n] == b[..n]
    ensures n < |a| && n < |b| ==> a[n] != b[n]
    decreases |a|
  {
    if a == [] || b == [] || a[0] != b[0] then 0
    else
      var m := CommonPrefixLength(a[1..], b[1..]);
      assert a[..m + 1] == [a[0]] + a[1..][..m];
      assert b[..m + 1] == [b[0]] + b[1..][..m];
      1 + m
  }

  function Repeat(s: string, n: nat): (r: seq<string>)
    ensures |r| == n && forall i :: 0 <= i < n ==> r[i] == s
  {
    seq(n, _ => s)
  }

  /** `os.path.relpath(path, start)`; `None` where Python raises `ValueError`
      (an empty `path`). */
  function RelPath(path: string, start: string, cwd: string): Option<string>
  {
    if path == [] then None
    else
      var startParts := AbsComponents(start, cwd);
      var pathParts := AbsComponents(path, cwd);
      var i := CommonPrefixLength(startParts, pathParts);
      var rel := Repeat("..", |startParts| - i) + pathParts[i..];
      if rel == [] then Some(".") else Some(JoinAll(rel))
  }

  /** `relpath` fails only for an empty `path`. */
  lemma RelPathDefined(path: string, start: string, cwd: string)
    ensures RelPath(path, start, cwd).Some? <==> path != []
  {
  }

  // ---------------------------------------------------------------------------
  // Paths made of plain parts

  /** A path part as `os.walk` produces it: non-empty, slash-free, neither "." nor "..". */
  predicate PlainPart(c: string)
  {
    c != [] && '/' !in c && c != "." && c != ".."
  }

  predicate PlainParts(cs: seq<string>)
  {
    forall i :: 0 <= i < |cs| ==> PlainPart(cs[i])
  }

  /** Joining plain parts inserts exactly one slash between neighbours. */
  lemma {:induction false} JoinAllShape(cs: seq<string>)
    requires cs != [] && PlainParts(cs)
    ensures JoinAll(cs) != [] && JoinAll(cs)[0] != '/' && JoinAll(cs)[|JoinAll(cs)| - 1] != '/'
    ensures |cs| > 1 ==> JoinAll(cs) == JoinAll(cs[..|cs| - 1]) + "/" + cs[|cs| - 1]
    decreases |cs|
  {
    var last := cs[|cs| - 1];
    assert PlainPart(last);
    assert last[0] in last && last[|last| - 1] in last;
    if |cs| > 1 {
      var init := cs[..|cs| - 1];
      assert PlainParts(init) by {
        forall i | 0 <= i < |init| ensures PlainPart(init[i]) {
          assert init[i] == cs[i];
        }
      }
      JoinAllShape(init);
    }
  }

  /** The last slash of `x + "/" + c`, for a slash-free `c`, is the inserted one. */
  lemma {:induction false} LastSlashBeforePart(x: string, c: string)
    requires '/' !in c
    ensures LastSlash(x + "/" + c) == |x|
    ensures (x + "/" + c)[..|x| + 1] == x + "/" && (x + "/" + c)[|x| + 1..] == c
    decreases |c|
  {
    var p := x + "/" + c;
    if c == [] {
      assert p == x + "/";
    } else {
      var c' := c[..|c| - 1];
      assert c[|c| - 1] in c;
      assert '/' !in c' by {
        forall j | 0 <= j < |c'| ensures c'[j] != '/' {
          assert c'[j] == c[j];
          assert c[j] in c;
        }
      }
      assert p[..|p| - 1] == x + "/" + c';
      LastSlashBeforePart(x, c');
    }
  }

  lemma BasenameAfterSlash(x: string, c: string)
    requires '/' !in c
    ensures Basename(x + "/" + c) == c
  {
    LastSlashBeforePart(x, c);
  }

  lemma {:induction false} ComponentsAfterSlash(x: string, c: string)
    requires PlainPart(c)
    ensures Components(x + "/" + c) == Components(x) + [c]
  {
    LastSlashBeforePart(x, c);
    var p := x + "/" + c;
    assert c[|c| - 1] in c;
    assert p[|p| - 1] == c[|c| - 1];
    assert Components(x + "/") == Components(x) by {
      assert (x + "/")[..|x|] == x;
    }
  }

  /** Splitting `x + "/" + join(cs)` at slashes yields the parts of `x`, then `cs`. */
  lemma {:induction false} ComponentsOfJoin(x: string, cs: seq<string>)
    requires cs != [] && PlainParts(cs)
    ensures Components(x + "/" + JoinAll(cs)) == Components(x) + cs
    decreases |cs|
  {
    var last := cs[|cs| - 1];
    assert PlainPart(last);
    if |cs| == 1 {
      assert JoinAll(cs) == last;
      ComponentsAfterSlash(x, last);
      assert cs == [last];
    } else {
      var init := cs[..|cs| - 1];
      var j := JoinAll(init);
      PlainPartsPrefix(cs);
      assert x + "/" + JoinAll(cs) == (x + "/" + j) + "/" + last by {
        JoinAllShape(cs);
        Regroup(x, j, last);
      }
      ComponentsAfterSlash(x + "/" + j, last);
      ComponentsOfJoin(x, init);
      SplitLast(cs);
      AppendAssoc(Components(x), init, [last]);
    }
  }

  lemma SplitLast<T>(s: seq<T>)
    requires s != []
    ensures s == s[..|s| - 1] + [s[|s| - 1]]
  {
  }

  lemma AppendAssoc<T>(a: seq<T>, b: seq<T>, c: seq<T>)
    ensures a + (b + c) == (a + b) + c
  {
  }

  lemma Regroup(x: string, j: string, c: string)
    ensures x + "/" + (j + "/" + c) == (x + "/" + j) + "/" + c
  {
  }

  lemma {:induction false} NormalizePlain(acc: seq<string>, cs: seq<string>)
    requires PlainParts(cs)
    ensures NormalizeOnto(acc, cs) == acc + cs
    decreases |cs|
  {
    if cs != [] {
      assert PlainPart(cs[0]);
      assert PlainParts(cs[1..]) by {
        forall i | 0 <= i < |cs[1..]| ensures PlainPart(cs[1..][i]) {
          assert cs[1..][i] == cs[i + 1];
        }
      }
      NormalizePlain(acc + [cs[0]], cs[1..]);
      assert acc + [cs[0]] + cs[1..] == acc + cs;
    }
  }

  lemma {:induction false} CommonPrefixOfExtension(a: seq<string>, b: seq<string>)
    ensures CommonPrefixLength(a, a + b) == |a|
    decreases |a|
  {
    if a != [] {
      assert (a + b)[0] == a[0] && (a + b)[1..] == a[1..] + b;
      CommonPrefixOfExtension(a[1..], b);
    }
  }

  /** The absolute path of a root made of plain parts `rs`. */
  function RootPath(rs: seq<string>): string
    requires rs != []
  {
    "/" + JoinAll(rs)
  }

  lemma RootComponents(rs: seq<string>, cwd: string)
    requires rs != [] && PlainParts(rs)
    ensures AbsComponents(RootPath(rs), cwd) == rs
  {
    RootPathComponents(rs);
    assert RootPath(rs)[0] == '/';
    NormalizePlain([], rs);
    assert [] + rs == rs;
  }

  lemma RootPathComponents(rs: seq<string>)
    requires rs != [] && PlainParts(rs)
    ensures Components(RootPath(rs)) == rs
  {
    assert RootPath(rs) == "" + "/" + JoinAll(rs);
    ComponentsOfJoin("", rs);
    assert Components("") == [];
    assert [] + rs == rs;
  }


  lemma AbsComponentsBelowRoot(rs: seq<string>, cs: seq<string>, cwd: string)
    requires rs != [] && PlainParts(rs) && cs != [] && PlainParts(cs)
    ensures AbsComponents(RootPath(rs) + "/" + JoinAll(cs), cwd) == rs + cs
  {
    var path := RootPath(rs) + "/" + JoinAll(cs);
    RootComponents(rs, cwd);
    ComponentsOfJoin(RootPath(rs), cs);
    ComponentsOfJoin("", rs);
    assert "" + "/" + JoinAll(rs) == RootPath(rs);
    assert Components("") == [];
    assert Components(RootPath(rs)) == rs;
    assert PlainParts(rs + cs) by {
      forall i | 0 <= i < |rs + cs| ensures PlainPart((rs + cs)[i]) {
        if i < |rs| { assert (rs + cs)[i] == rs[i]; } else { assert (rs + cs)[i] == cs[i - |rs|]; }
      }
    }
    NormalizePlain([], rs + cs);
    assert path[0] == '/';
    assert Components(path) == rs + cs;
    assert [] + (rs + cs) == rs + cs;
  }

  /** A file `root/c1/.../cn` named relative to `root` is `c1/.../cn`: the
      working directory plays no part, and no ".." is produced. */
  lemma {:induction false} RelPathBelowRoot(rs: seq<string>, cs: seq<string>, cwd: string)
    requires rs != [] && PlainParts(rs) && cs != [] && PlainParts(cs)
    ensures RelPath(RootPath(rs) + "/" + JoinAll(cs), RootPath(rs), cwd) == Some(JoinAll(cs))
  {
    RootComponents(rs, cwd);
    AbsComponentsBelowRoot(rs, cs, cwd);
    CommonPrefixOfExtension(rs, cs);
    assert Repeat("..", 0) + (rs + cs)[|rs|..] == cs;
  }

  /** Naming a directory relative to itself gives ".". */
  lemma RelPathToItself(p: string, cwd: string)
    requires p != []
    ensures RelPath(p, p, cwd) == Some(".")
  {
    var parts := AbsComponents(p, cwd);
    CommonPrefixOfExtension(parts, []);
    assert parts + [] == parts;
  }

  /** The path of all parts but the last: "" for a single part. */
  function ParentPath(cs: seq<string>): string
    requires cs != []
  {
    if |cs| == 1 then "" else JoinAll(cs[..|cs| - 1])
  }

  /** The base name of a file below a directory is its last part, and its
      directory name is the path of the parts before it ("" for a single part). */
  lemma BasenameDirnameOfJoin(cs: seq<string>)
    requires cs != [] && PlainParts(cs)
    ensures Basename(JoinAll(cs)) == cs[|cs| - 1]
    ensures Dirname(JoinAll(cs)) == ParentPath(cs)
  {
    if |cs| == 1 {
      OnePart(cs);
    } else {
      SeveralParts(cs);
    }
  }

  lemma OnePart(cs: seq<string>)
    requires |cs| == 1 && PlainParts(cs)
    ensures Basename(JoinAll(cs)) == cs[|cs| - 1] && Dirname(JoinAll(cs)) == ParentPath(cs)
  {
    assert JoinAll(cs) == cs[0];
    assert PlainPart(cs[0]);
    SinglePart(cs[0]);
  }

  lemma SeveralParts(cs: seq<string>)
    requires |cs| > 1 && PlainParts(cs)
    ensures Basename(JoinAll(cs)) == cs[|cs| - 1]
    ensures Dirname(JoinAll(cs)) == ParentPath(cs)
  {
    var last := cs[|cs| - 1];
    var x := JoinAll(cs[..|cs| - 1]);
    assert JoinAll(cs) == x + "/" + last by {
      JoinAllShape(cs);
    }
    assert '/' !in last by {
      assert PlainPart(last);
    }
    assert x != [] && x[0] != '/' && x[|x| - 1] != '/' by {
      PlainPartsPrefix(cs);
      JoinAllShape(cs[..|cs| - 1]);
    }
    BasenameAfterSlash(x, last);
    DirnameAfterSlash(x, last);
  }

  lemma PlainPartsPrefix(cs: seq<string>)
    requires cs != [] && PlainParts(cs)
    ensures PlainParts(cs[..|cs| - 1])
  {
    var init := cs[..|cs| - 1];
    forall i | 0 <= i < |init| ensures PlainPart(init[i]) {
      assert init[i] == cs[i];
    }
  }

  /** A slash-free path is its own base name and has no directory name. */
  lemma SinglePart(c: string)
    requires '/' !in c
    ensures Basename(c) == c && Dirname(c) == ""
  {
    assert forall j :: 0 <= j < |c| ==> c[j] in c;
    assert LastSlash(c) == -1;
  }

  /** The base name of `a + c`, where `a` ends with a slash and `c` has none, is `c`. */
  lemma BasenameAfterSlashEnd(a: string, c: string)
    requires a != [] && a[|a| - 1] == '/' && '/' !in c
    ensures Basename(a + c) == c
  {
    LastSlashBeforeTail(a, c);
    assert (a + c)[|a|..] == c;
  }

  lemma {:induction false} LastSlashBeforeTail(a: string, c: string)
    requires a != [] && a[|a| - 1] == '/' && '/' !in c
    ensures LastSlash(a + c) == |a| - 1
    decreases |c|
  {
    var p := a + c;
    if c == [] {
      assert p == a;
    } else {
      var c' := c[..|c| - 1];
      assert c[|c| - 1] in c;
      assert '/' !in c' by {
        forall j | 0 <= j < |c'| ensures c'[j] != '/' {
          assert c'[j] == c[j];
          assert c[j] in c;
        }
      }
      assert p[..|p| - 1] == a + c';
      LastSlashBeforeTail(a, c');
    }
  }

  /** The directory name of `x/c` is `x` when `x` neither starts nor ends with a slash. */
  lemma DirnameAfterSlash(x: string, c: string)
    requires x != [] && x[0] != '/' && x[|x| - 1] != '/' && '/' !in c
    ensures Dirname(x + "/" + c) == x
  {
    LastSlashBeforePart(x, c);
    var head := x + "/";
    assert !AllSlashes(head) by {
      assert head[0] != '/';
    }
    assert TrimSlashes(head) == x by {
      assert head[..|head| - 1] == x;
    }
  }

  /** The last slash of `a + b`, when `b` holds one, is the last slash of `b`. */
  lemma {:induction false} LastSlashOfAppend(a: string, b: string)
    requires '/' in b
    ensures LastSlash(a + b) == |a| + LastSlash(b)
    decreases |b|
  {
    var p := a + b;
    if b[|b| - 1] == '/' {
      assert p[|p| - 1] == '/';
    } else {
      var b' := b[..|b| - 1];
      assert '/' in b' by {
        var k :| 0 <= k < |b| && b[k] == '/';
        assert b'[k] == '/';
      }
      assert p[..|p| - 1] == a + b';
      LastSlashOfAppend(a, b');
    }
  }

  /** Prefixing a path that holds a slash leaves its base name alone. */
  lemma BasenameOfAppend(a: string, b: string)
    requires '/' in b
    ensures Basename(a + b) == Basename(b)
  {
    LastSlashOfAppend(a, b);
    var k := LastSlash(b);
    assert (a + b)[|a| + k + 1..] == b[k + 1..];
  }

  /** The base name of `x/c1/.../cn` is `cn`. */
  lemma BasenameBelow(x: string, cs: seq<string>)
    requires cs != [] && PlainParts(cs)
    ensures Basename(x + "/" + JoinAll(cs)) == cs[|cs| - 1]
  {
    if |cs| == 1 {
      BasenameBelowOne(x, cs);
    } else {
      BasenameBelowSeveral(x, cs);
    }
  }

  lemma BasenameBelowOne(x: string, cs: seq<string>)
    requires |cs| == 1 && PlainParts(cs)
    ensures Basename(x + "/" + JoinAll(cs)) == cs[|cs| - 1]
  {
    assert JoinAll(cs) == cs[0];
    assert PlainPart(cs[0]);
    BasenameAfterSlash(x, cs[0]);
  }

  lemma BasenameBelowSeveral(x: string, cs: seq<string>)
    requires |cs| > 1 && PlainParts(cs)
    ensures Basename(x + "/" + JoinAll(cs)) == cs[|cs| - 1]
  {
    SlashInJoin(cs);
    BasenameOfAppend(x + "/", JoinAll(cs));
    SeveralParts(cs);
  }


  lemma SlashInJoin(cs: seq<string>)
    requires |cs| > 1 && PlainParts(cs)
    ensures '/' in JoinAll(cs)
  {
    JoinAllShape(cs);
    assert JoinAll(cs)[|JoinAll(cs[..|cs| - 1])|] == '/';
  }
}
