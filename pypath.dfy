/** The two `posixpath` operations the indexers use to build and take apart paths. */
module PyPath {
  import opened PyStr

  /** `os.path.join(a, b)`: an absolute `b` replaces `a`; otherwise one '/' separates them. */
  function Join(a: string, b: string): (r: string)
    ensures EndsWith(r, b)
    ensures !StartsWith(b, "/") ==> StartsWith(r, a)
  {
    if |b| > 0 && b[0] == '/' then b
    else if |a| == 0 || a[|a| - 1] == '/' then a + b
    else a + "/" + b
  }

  /** A suffix put after a non-empty second component stays at the end of the joined path. */
  lemma JoinAppend(a: string, b: string, c: string)
    requires |b| > 0
    ensures Join(a, b + c) == Join(a, b) + c
  {
    assert (b + c)[0] == b[0];
    if b[0] == '/' {
    } else if |a| == 0 || a[|a| - 1] == '/' {
      assert a + (b + c) == (a + b) + c;
    } else {
      assert a + "/" + (b + c) == (a + "/" + b) + c;
    }
  }

  predicate AllSlashes(s: string) {
    forall i :: 0 <= i < |s| ==> s[i] == '/'
  }

  /** `s.rstrip('/')` */
  function RStripSlashes(s: string): (r: string)
    ensures |r| <= |s| && r == s[..|r|]
    ensures r == [] || r[|r| - 1] != '/'
  {
    if |s| > 0 && s[|s| - 1] == '/' then RStripSlashes(s[..|s| - 1]) else s
  }

  /**
   * `os.path.dirname(p)`: everything up to the last '/', with the trailing slashes
   * removed unless that part consists of slashes only.
   */
  function Dirname(p: string): string {
    var head := p[..RFind(p, '/') + 1];
    if |head| > 0 && !AllSlashes(head) then RStripSlashes(head) else head
  }

  /**
   * The directory of a `video/object` name is the video: joining a name with no
   * trailing '/' to a component with no '/' and taking the dirname gives the name back.
   */
  lemma DirnameOfJoin(v: string, o: string)
    requires |v| > 0 && v[|v| - 1] != '/'
    requires '/' !in o
    ensures Dirname(Join(v, o)) == v
  {
    var p := Join(v, o);
    assert p == v + "/" + o;
    assert p[|v|] == '/';
    assert forall i :: |v| < i < |p| ==> p[i] == o[i - |v| - 1];
    assert RFind(p, '/') == |v|;
    var head := p[..|v| + 1];
    assert head == v + "/";
    assert head[|v| - 1] != '/';
    assert head[..|head| - 1] == v;
    assert RStripSlashes(head) == RStripSlashes(v);
  }

  /** A path ending in '/' followed by a name with no '/' has that name as its last component. */
  lemma BasenameOfSuffix(p: string, leaf: string)
    requires EndsWith(p, "/" + leaf) && '/' !in leaf
    ensures Basename(p) == leaf
  {
    var k := |p| - |leaf| - 1;
    assert p[k..] == "/" + leaf;
    assert p[k] == '/';
    forall i | k < i < |p| ensures p[i] != '/' {
      assert p[i] == p[k..][i - k] == leaf[i - k - 1];
    }
    assert RFind(p, '/') == k;
    assert p[k + 1..] == leaf;
  }
}
