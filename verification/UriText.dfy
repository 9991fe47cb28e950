/** The text of URIs (limestone/util.c, and the child URIs of limestone/dbms.c). */
module UriText {

  predicate NoSlash(n: string) {
    forall i :: 0 <= i < |n| ==> n[i] != '/'
  }

  /** "/a/b/c" for the names a, b, c. */
  function Render(ns: seq<string>): string {
    if ns == [] then "" else "/" + ns[0] + Render(ns[1..])
  }

  /** What the URIs below u start with. */
  function Stem(u: string): string {
    if u == "/" then "" else u
  }

  /** The URI a listed bind gets from that of its collection. */
  function ChildUri(parent: string, name: string): string {
    Stem(parent) + "/" + name
  }

  /** Where the last segment starts. */
  function LastSegment(u: string): (n: nat)
    ensures n <= |u| && NoSlash(u[n..]) && (n > 0 ==> u[n - 1] == '/')
  {
    if u == "" || u[|u| - 1] == '/' then |u| else LastSegment(u[..|u| - 1])
  }

  /** basename of the C library: what follows the last slash. */
  function BaseName(u: string): (n: string)
    ensures NoSlash(n)
  {
    u[LastSegment(u)..]
  }

  /** ap_make_dirstr_parent of the web server: up to and with the last slash. */
  function Dir(u: string): string {
    u[..LastSegment(u)]
  }

  function Chomped(u: string): (v: string)
    ensures v <= u && (v != "" ==> v[|v| - 1] != '/')
  {
    if u != "" && u[|u| - 1] == '/' then Chomped(u[..|u| - 1]) else u
  }

  function ParentUri(u: string): string {
    Chomped(Dir(u))
  }

  /** dav_repos_chomp_slash */
  method ChompSlash(u: string) returns (v: string)
    ensures v == Chomped(u)
  {
    v := u;
    while v != "" && v[|v| - 1] == '/'
      invariant Chomped(v) == Chomped(u)
      decreases |v|
    {
      v := v[..|v| - 1];
    }
  }

  /** get_parent_uri */
  method GetParentUri(u: string) returns (parent: string)
    ensures parent == ParentUri(u)
  {
    parent := ChompSlash(Dir(u));
  }

  lemma {:induction false} LastSegmentIs(u: string, n: nat)
    requires n <= |u| && NoSlash(u[n..]) && (n > 0 ==> u[n - 1] == '/')
    ensures LastSegment(u) == n
  {
    if n < |u| {
      assert u[..|u| - 1][n..] == u[n..][..|u| - 1 - n];
      assert u[|u| - 1] == u[n..][|u| - 1 - n];
      LastSegmentIs(u[..|u| - 1], n);
    }
  }

  /** A child URI taken apart again, when the name has no slash. */
  lemma ChildParts(t: string, n: string)
    requires NoSlash(n)
    ensures BaseName(ChildUri(t, n)) == n && Dir(ChildUri(t, n)) == Stem(t) + "/"
    ensures ParentUri(ChildUri(t, n)) == Chomped(t)
  {
    var u, k := ChildUri(t, n), |Stem(t)| + 1;
    assert u[k..] == n && u[..k] == Stem(t) + "/";
    LastSegmentIs(u, k);
    assert (Stem(t) + "/")[..k - 1] == Stem(t);
    assert Chomped("/") == Chomped("/"[..0]);
  }

  /** Only an empty name makes the URI of a child end in a slash. */
  lemma ChildEnd(t: string, n: string)
    requires NoSlash(n)
    ensures n == "" ==> Chomped(ChildUri(t, n)) == Chomped(t)
    ensures n != "" ==> Chomped(ChildUri(t, n)) == ChildUri(t, n)
  {
    var u := ChildUri(t, n);
    if n == "" {
      assert u[..|u| - 1] == Stem(t);
      assert Chomped("/") == Chomped("/"[..0]);
    } else {
      assert u[|u| - 1] == n[|n| - 1];
    }
  }
}
