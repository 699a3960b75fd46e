/**
 * Dotted key ids: Python's `str.split('.')` and `'.'.join(...)`, which the
 * translation commands use to move between a key id such as
 * "account.messages.added" and its path of segments.
 */
module DottedPath {

  /** `s.split('.')`: never empty; empty segments survive ("a..b" has three). */
  function Split(s: string): (r: seq<string>)
    ensures |r| >= 1
    ensures forall i :: 0 <= i < |r| ==> '.' !in r[i]
    decreases |s|
  {
    if |s| == 0 then [""]
    else
      var rest := Split(s[1..]);
      if s[0] == '.' then [""] + rest
      else [[s[0]] + rest[0]] + rest[1..]
  }

  /** `'.'.join(segs)`. */
  function Join(segs: seq<string>): string
    decreases |segs|
  {
    if |segs| == 0 then ""
    else if |segs| == 1 then segs[0]
    else segs[0] + "." + Join(segs[1..])
  }

  /** No segment holds a dot, so joining does not fuse or split segments. */
  predicate DotFree(segs: seq<string>) {
    forall i :: 0 <= i < |segs| ==> '.' !in segs[i]
  }

  /** A dot-free head segment glues onto the first segment of what follows. */
  lemma {:induction false} SplitGlue(a: string, t: string)
    requires '.' !in a
    ensures Split(a + t) == [a + Split(t)[0]] + Split(t)[1..]
    decreases |a|
  {
    if |a| == 0 {
      var r := Split(t);
      assert a + t == t && a + r[0] == r[0];
      assert r == [r[0]] + r[1..];
    } else {
      calc {
        Split(a + t);
        { assert (a + t)[1..] == a[1..] + t; assert (a + t)[0] == a[0]; }
        [[a[0]] + Split(a[1..] + t)[0]] + Split(a[1..] + t)[1..];
        { SplitGlue(a[1..], t); }
        [[a[0]] + (a[1..] + Split(t)[0])] + Split(t)[1..];
        { assert [a[0]] + (a[1..] + Split(t)[0]) == a + Split(t)[0]; }
        [a + Split(t)[0]] + Split(t)[1..];
      }
    }
  }

  /** Splitting a joined path gives the path back when no segment has a dot. */
  lemma {:induction false} SplitJoin(segs: seq<string>)
    requires |segs| >= 1 && DotFree(segs)
    ensures Split(Join(segs)) == segs
    decreases |segs|
  {
    if |segs| == 1 {
      SplitGlue(segs[0], "");
      assert segs[0] + "" == segs[0];
    } else {
      var rest := Join(segs[1..]);
      SplitJoin(segs[1..]);
      SplitGlue(segs[0], "." + rest);
      assert (segs[0] + "." + rest) == segs[0] + ("." + rest);
      assert ("." + rest)[1..] == rest;
      assert Split("." + rest) == [""] + Split(rest);
      assert segs[0] + "" == segs[0];
      assert segs == [segs[0]] + segs[1..];
    }
  }

  /** Joining the segments of a split string gives the string back. */
  lemma {:induction false} JoinSplit(s: string)
    ensures Join(Split(s)) == s
    decreases |s|
  {
    if |s| > 0 {
      var rest := Split(s[1..]);
      JoinSplit(s[1..]);
      if s[0] == '.' {
        assert Split(s) == [""] + rest;
        assert ([""] + rest)[1..] == rest;
        assert s == "" + "." + s[1..];
      } else {
        JoinHead(rest, [s[0]]);
        assert s == [s[0]] + s[1..];
      }
    }
  }

  /** Prepending characters to the first segment prepends them to the joined string. */
  lemma {:induction false} JoinHead(segs: seq<string>, c: string)
    requires |segs| >= 1
    ensures Join([c + segs[0]] + segs[1..]) == c + Join(segs)
  {
    var t := [c + segs[0]] + segs[1..];
    assert t[1..] == segs[1..];
  }

  /** Distinct key ids have distinct paths. */
  lemma SplitInjective(s: string, t: string)
    requires Split(s) == Split(t)
    ensures s == t
  {
    JoinSplit(s);
    JoinSplit(t);
  }
}
