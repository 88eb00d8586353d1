/** The whole-disk volume filter as the program tests it on strings. */
module Matching {
  import opened Common
  import opened Tree
  import opened Restore

  /** `volumeMatch`. */
  ghost predicate VolumeMatch(rel: string, volume: string) {
    || volume == ""
    || rel == volume
    || volume + "/" <= rel
    || Occurs("/" + volume + "/", rel)
    || EndsWith(rel, "/" + volume)
  }

  predicate EndsWith(s: string, t: string) {
    |t| <= |s| && s[|s| - |t|..] == t
  }

  /** Every segment followed by a slash. */
  function Trail(p: Path): string {
    if p == [] then "" else p[0] + "/" + Trail(p[1..])
  }

  lemma {:induction false} TrailIsJoin(p: Path)
    requires p != []
    ensures Trail(p) == Join(p) + "/"
  {
    if |p| > 1 {
      TrailIsJoin(p[1..]);
      assert p[0] + "/" + (Join(p[1..]) + "/") == p[0] + "/" + Join(p[1..]) + "/";
    }
  }

  lemma {:induction false} TrailPrefix(v: Path, p: Path)
    requires Segments(v) && Segments(p)
    ensures Trail(v) <= Trail(p) <==> Covers(v, p)
  {
    if v != [] && p != [] {
      var x, y := Trail(v[1..]), Trail(p[1..]);
      TrailPrefix(v[1..], p[1..]);
      if Trail(v) <= Trail(p) {
        SlashEndsSegment(v[0], x, p[0], y);
        assert v == [v[0]] + v[1..] && p == [p[0]] + p[1..];
      }
      if Covers(v, p) {
        assert v[0] == p[0] && v[1..] <= p[1..];
        assert y == x + y[|x|..];
        assert p[0] + "/" + y == (v[0] + "/" + x) + y[|x|..];
      }
    }
  }

  /** What starts with a slash does not start inside a segment. */
  lemma {:induction false} SkipSegment(x: string, a: string, y: string)
    requires x != "" && x[0] == '/' && '/' !in a
    ensures Occurs(x, a + y) <==> Occurs(x, y)
  {
    if a == "" {
      assert a + y == y;
    } else {
      assert (a + y)[1..] == a[1..] + y && (a + y)[0] == a[0];
      OccursCons(x, a + y);
      assert a[0] in a;
      SkipSegment(x, a[1..], y);
    }
  }

  lemma OccursAtCons(v: Path, p: Path)
    requires p != [] && v != []
    ensures Includes(AnyDepth(v), p) <==> Covers(v, p) || Includes(AnyDepth(v), p[1..])
  {
    if i :| 0 <= i <= |p| && OccursAt(v, p, i) {
      if i == 0 {
        assert p[..|v|] == v;
      } else {
        assert p[1..][i - 1..i - 1 + |v|] == p[i..i + |v|];
        assert OccursAt(v, p[1..], i - 1);
      }
    }
    if Covers(v, p) {
      assert p[0..|v|] == v && OccursAt(v, p, 0);
    }
    if i :| 0 <= i <= |p[1..]| && OccursAt(v, p[1..], i) {
      assert p[1..][i..i + |v|] == p[i + 1..i + 1 + |v|];
      assert OccursAt(v, p, i + 1);
    }
  }

  lemma {:induction false} SlashedOccurs(v: Path, p: Path)
    requires v != [] && Segments(v) && Segments(p)
    ensures Occurs("/" + Trail(v), "/" + Trail(p)) <==> Includes(AnyDepth(v), p)
    decreases |p|
  {
    var x, y := "/" + Trail(v), "/" + Trail(p);
    OccursCons(x, y);
    assert y[1..] == Trail(p);
    if p == [] {
      assert |x| >= 2;
    } else {
      assert Trail(p) == p[0] + ("/" + Trail(p[1..]));
      SkipSegment(x, p[0], "/" + Trail(p[1..]));
      SlashedOccurs(v, p[1..]);
      SlashFront(Trail(v), Trail(p));
      TrailPrefix(v, p);
      OccursAtCons(v, p);
    }
  }

  lemma SlashFront(x: string, y: string)
    ensures "/" + x <= "/" + y <==> x <= y
  {
    if "/" + x <= "/" + y {
      assert x == ("/" + x)[1..] && y == ("/" + y)[1..];
    }
    if x <= y {
      assert "/" + y == ("/" + x) + y[|x|..];
    }
  }

  /** The four string tests together say that the volume, between slashes, occurs in the
      path between slashes. */
  lemma FourTests(rel: string, volume: string)
    requires volume != ""
    ensures VolumeMatch(rel, volume) <==> Occurs("/" + volume + "/", "/" + rel + "/")
  {
    if VolumeMatch(rel, volume) {
      TestsOccur(rel, volume);
    }
    if Occurs("/" + volume + "/", "/" + rel + "/") {
      OccurrenceTests(rel, volume);
    }
  }

  lemma TestsOccur(rel: string, volume: string)
    requires volume != "" && VolumeMatch(rel, volume)
    ensures Occurs("/" + volume + "/", "/" + rel + "/")
  {
    var w, y := "/" + volume + "/", "/" + rel + "/";
    if rel == volume {
      assert w <= y[0..];
    } else if volume + "/" <= rel {
      assert rel == volume + "/" + rel[|volume| + 1..];
      assert y == w + (rel[|volume| + 1..] + "/");
      assert w <= y[0..];
    } else if Occurs(w, rel) {
      var i :| 0 <= i <= |rel| && w <= rel[i..];
      assert y[i + 1..] == rel[i..] + "/";
      assert w <= y[i + 1..];
    } else {
      var k := |rel| - |volume| - 1;
      assert y[k + 1..] == rel[k..] + "/";
      assert w <= y[k + 1..];
    }
  }

  lemma OccurrenceTests(rel: string, volume: string)
    requires volume != "" && Occurs("/" + volume + "/", "/" + rel + "/")
    ensures VolumeMatch(rel, volume)
  {
    var w, y := "/" + volume + "/", "/" + rel + "/";
    var i :| 0 <= i <= |y| && w <= y[i..];
    assert w == y[i..][..|w|] == y[i..i + |w|];
    if i == 0 {
      AtFront(rel, volume, w, y);
    } else if i + |w| == |y| {
      AtEnd(rel, volume, w, y, i);
    } else {
      Inside(rel, i, i + |w|);
      assert rel[i - 1..][..|w|] == rel[i - 1..i - 1 + |w|] == w;
      assert w <= rel[i - 1..];
    }
  }

  lemma Inside(rel: string, i: nat, j: nat)
    requires 1 <= i <= j <= |rel| + 1
    ensures ("/" + rel + "/")[i..j] == rel[i - 1..j - 1]
  {
  }

  lemma AtFront(rel: string, volume: string, w: string, y: string)
    requires w == "/" + volume + "/" && y == "/" + rel + "/" && |w| <= |y| && w == y[..|w|]
    ensures rel == volume || volume + "/" <= rel
  {
    if |w| == |y| {
      Inside(rel, 1, |rel| + 1);
      Inside(volume, 1, |volume| + 1);
      assert y[..|w|] == y;
    } else {
      Inside(rel, 1, |w|);
      assert volume + "/" == w[1..] == y[..|w|][1..] == y[1..|w|];
    }
  }

  lemma AtEnd(rel: string, volume: string, w: string, y: string, i: nat)
    requires w == "/" + volume + "/" && y == "/" + rel + "/"
    requires 0 < i && i + |w| == |y| && w == y[i..i + |w|]
    ensures EndsWith(rel, "/" + volume)
  {
    Inside(rel, i, |rel| + 1);
    assert w[..|w| - 1] == "/" + volume;
    assert y[i..i + |w|][..|w| - 1] == y[i..|y| - 1];
    assert rel[i - 1..|rel|] == rel[i - 1..];
  }

  /** The program's test on strings is the test on segments: the volume's segments occur
      next to each other somewhere in the path. */
  lemma VolumeTestOnStrings(volume: Path, p: Path)
    requires volume != [] && p != [] && Segments(volume) && Segments(p) && Join(volume) != ""
    ensures VolumeMatch(Join(p), Join(volume)) <==> Includes(AnyDepth(volume), p)
  {
    TrailIsJoin(volume);
    TrailIsJoin(p);
    assert "/" + (Join(volume) + "/") == "/" + Join(volume) + "/";
    assert "/" + (Join(p) + "/") == "/" + Join(p) + "/";
    FourTests(Join(p), Join(volume));
    SlashedOccurs(volume, p);
  }
}
