/** POSIX path joining and normalisation for absolute paths, as Node's
    `path.join` and `path.normalize` perform them: the path is split at `/`,
    empty and `.` segments are dropped, `..` removes the segment before it
    (and is dropped at the root), and a trailing `/` is kept. */
module PosixPath {
  import opened Strings

  /** A segment that survives normalisation. */
  predicate Proper(seg: string) {
    seg != "" && seg != "." && seg != ".." && '/' !in seg
  }

  predicate AllProper(segs: seq<string>) {
    forall k :: 0 <= k < |segs| ==> Proper(segs[k])
  }

  /** One segment applied to the resolved segments so far. */
  function Step(stack: seq<string>, seg: string): seq<string> {
    if seg == "" || seg == "." then stack
    else if seg == ".." then (if |stack| == 0 then [] else stack[..|stack| - 1])
    else stack + [seg]
  }

  /** The segments a list of raw segments resolves to, left to right. */
  function Resolve(segs: seq<string>): (r: seq<string>)
    requires forall k :: 0 <= k < |segs| ==> '/' !in segs[k]
    ensures AllProper(r)
    decreases |segs|
  {
    if |segs| == 0 then []
    else Step(Resolve(segs[..|segs| - 1]), segs[|segs| - 1])
  }

  /** `/a/b/c` for `[a, b, c]`; empty for no segments. */
  function Slashed(segs: seq<string>): string
    decreases |segs|
  {
    if |segs| == 0 then "" else "/" + segs[0] + Slashed(segs[1..])
  }

  /** The text of an absolute path: the root for no segments, otherwise the
      segments, with a trailing `/` when asked for. */
  function Render(segs: seq<string>, trailing: bool): string {
    if |segs| == 0 then "/" else Slashed(segs) + (if trailing then "/" else "")
  }

  predicate Absolute(p: string) {
    |p| > 0 && p[0] == '/'
  }

  /** The resolved segments of an absolute path. */
  function Segments(p: string): (r: seq<string>)
    ensures AllProper(r)
  {
    Resolve(Split(p, '/'))
  }

  /** `path.normalize` of an absolute path. */
  function Normalize(p: string): string
    requires Absolute(p)
  {
    Render(Segments(p), p[|p| - 1] == '/')
  }

  /** `path.join(dir, name)` for an absolute `dir`: the two joined with `/`
      (an empty name is skipped), then normalised. */
  function JoinAbsolute(dir: string, name: string): string
    requires Absolute(dir)
  {
    Normalize(if name == "" then dir else dir + "/" + name)
  }

  /** The segments of `dir/name` for a name that is a proper segment end
      with that name. */
  lemma JoinProperLast(dir: string, name: string)
    requires Absolute(dir) && Proper(name)
    ensures var r := Segments(dir + "/" + name);
      |r| > 0 && r[|r| - 1] == name
  {
    var p := dir + "/" + name;
    var parts := Split(p, '/');
    LastOfSplit(p, '/');
    LastSegmentAfterSeparator(dir, '/', name);
    assert parts[|parts| - 1] == name;
  }

  /** If a rendered path starts with another rendered path followed by `/`,
      the segments of the second are a prefix of the first's. */
  lemma {:induction false} RenderedPrefix(r: seq<string>, b: seq<string>, tail: string)
    requires forall k :: 0 <= k < |r| ==> '/' !in r[k]
    requires forall k :: 0 <= k < |b| ==> '/' !in b[k]
    requires tail == "" || tail == "/"
    requires |b| > 0
    requires StartsWith(Slashed(r) + tail, Slashed(b) + "/")
    ensures |b| <= |r| && r[..|b|] == b
    decreases |b|
  {
    var x := Slashed(r) + tail;
    var pb := Slashed(b[1..]) + "/";
    var p := Slashed(b) + "/";
    assert p == "/" + b[0] + pb;
    assert |p| >= 2 + |b[0]|;
    if |r| > 0 {
      var xr := Slashed(r[1..]) + tail;
      assert x == "/" + r[0] + xr;
      assert xr == "" || xr[0] == '/';
      assert pb[0] == '/';
      SameSegment(r[0], xr, b[0], pb, x[..|p|]);
      assert x[..|p|] == p;
      assert xr[..|pb|] == pb by {
        assert x[1 + |r[0]|..][..|pb|] == p[1 + |b[0]|..];
      }
      if |b| > 1 {
        RenderedPrefix(r[1..], b[1..], tail);
        assert r == [r[0]] + r[1..];
      }
    }
  }

  /** Two segments, each followed by a `/` or by the end, that begin the
      same text are equal. */
  lemma SameSegment(u: string, us: string, v: string, vs: string, s: string)
    requires '/' !in u && '/' !in v
    requires us == "" || us[0] == '/'
    requires |vs| > 0 && vs[0] == '/'
    requires |v| + 1 + |vs| <= |u| + 1 + |us|
    requires ("/" + u + us)[..|v| + 1 + |vs|] == "/" + v + vs
    ensures u == v
  {
    var x := "/" + u + us;
    var y := "/" + v + vs;
    var n := if |u| < |v| then |u| else |v|;
    assert x[1 + n] == y[1 + n];
    assert forall i :: 0 <= i < |v| ==> v[i] != '/';
    assert forall i :: 0 <= i < |u| ==> u[i] != '/';
    assert x[1..1 + n] == y[1..1 + n];
  }
}
