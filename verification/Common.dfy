/** Small shared vocabulary. */
module Common {

  datatype Option<+T> = None | Some(value: T)

  /** One entry of a directory listing. */
  datatype DirEntry = DirEntry(name: string, isDir: bool)

  ghost function Elements<T>(s: seq<T>): set<T> {
    set x | x in s
  }

  ghost predicate NoRepeats<T>(s: seq<T>) {
    forall i, j :: 0 <= i < j < |s| ==> s[i] != s[j]
  }

  lemma ElementsAppend<T>(s: seq<T>, t: seq<T>)
    ensures Elements(s + t) == Elements(s) + Elements(t)
  {
  }

  lemma AppendOne<T>(s: seq<T>, x: T)
    ensures Elements(s + [x]) == Elements(s) + {x}
    ensures NoRepeats(s) && x !in s ==> NoRepeats(s + [x])
  {
    ElementsAppend(s, [x]);
  }

  lemma TakeOneMore<T>(s: seq<T>, i: nat)
    requires i < |s|
    ensures s[..i + 1] == s[..i] + [s[i]]
    ensures Elements(s[..i + 1]) == Elements(s[..i]) + {s[i]}
  {
    AppendOne(s[..i], s[i]);
  }

  /** `p` occurs somewhere in `s`. */
  ghost predicate Occurs(p: string, s: string) {
    exists i :: 0 <= i <= |s| && p <= s[i..]
  }

  lemma OccursCons(p: string, s: string)
    requires s != "" && p != ""
    ensures Occurs(p, s) <==> p <= s || Occurs(p, s[1..])
  {
    if Occurs(p, s) && !(p <= s) {
      var i :| 0 <= i <= |s| && p <= s[i..];
      assert i > 0 by {
        assert s[0..] == s;
      }
      assert s[i..] == s[1..][i - 1..];
    }
    if p <= s {
      assert p <= s[0..] by {
        assert s[0..] == s;
      }
    }
    if Occurs(p, s[1..]) {
      var i :| 0 <= i <= |s[1..]| && p <= s[1..][i..];
      assert s[1..][i..] == s[i + 1..];
    }
  }

  lemma OccursInSuffix(p: string, s: string, k: nat)
    requires k <= |s| && Occurs(p, s[k..])
    ensures Occurs(p, s)
  {
    var i :| 0 <= i <= |s[k..]| && p <= s[k..][i..];
    assert s[k..][i..] == s[k + i..];
  }
}
