/**
  Relative paths as the program writes them: `str(path).replace('\\', '/')`.
 */
module Paths {
  import opened Text

  /** `p.replace('\\', '/')` */
  function ForwardSlashes(p: string): (r: string)
    ensures |r| == |p|
    ensures '\\' !in r
    ensures forall i :: 0 <= i < |p| && p[i] != '\\' ==> r[i] == p[i]
    ensures forall i :: 0 <= i < |p| && p[i] == '\\' ==> r[i] == '/'
  {
    ReplaceChar(p, '\\', '/')
  }

  /** The rewrite is idempotent: a path already in forward-slash form is left alone. */
  lemma ForwardSlashesIdempotent(p: string)
    ensures ForwardSlashes(ForwardSlashes(p)) == ForwardSlashes(p)
  {
    var q := ForwardSlashes(p);
    assert forall i :: 0 <= i < |q| ==> q[i] != '\\';
  }

  /** A path without backslashes is left as it is. */
  lemma ForwardSlashesIdentity(p: string)
    requires '\\' !in p
    ensures ForwardSlashes(p) == p
  {
  }

  lemma RootIndexUnchanged()
    ensures ForwardSlashes("index.html") == "index.html"
  {
    ForwardSlashesIdentity("index.html");
  }

  /** The rewrite keeps any ending without a backslash, such as `.html`. */
  lemma ForwardSlashesKeepsSuffix(p: string, suffix: string)
    requires EndsWith(p, suffix) && '\\' !in suffix
    ensures EndsWith(ForwardSlashes(p), suffix)
  {
    var r := ForwardSlashes(p);
    var n := |p| - |suffix|;
    forall i | 0 <= i < |suffix| ensures r[n + i] == suffix[i] {
      assert p[n + i] == p[n..][i] == suffix[i];
    }
  }

  /** `[ForwardSlashes(p) for p in ps]` */
  function SlashAll(ps: seq<string>): (r: seq<string>)
    ensures |r| == |ps|
    ensures forall i :: 0 <= i < |ps| ==> r[i] == ForwardSlashes(ps[i])
  {
    seq(|ps|, i requires 0 <= i < |ps| => ForwardSlashes(ps[i]))
  }

  lemma SlashAllCons(ps: seq<string>)
    requires ps != []
    ensures multiset(SlashAll(ps)) == multiset(SlashAll(ps[1..])) + multiset{ForwardSlashes(ps[0])}
  {
    var head, rest := ForwardSlashes(ps[0]), SlashAll(ps[1..]);
    assert SlashAll(ps) == [head] + rest by {
      forall i | 1 <= i < |ps| ensures SlashAll(ps)[i] == rest[i - 1] {
        assert ps[1..][i - 1] == ps[i];
      }
    }
    assert multiset([head] + rest) == multiset(rest) + multiset{head};
  }

}
