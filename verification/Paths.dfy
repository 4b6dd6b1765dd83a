/** Path names: cutting a path into its components. */
module Paths {
  import opened Wrappers

  const DIRSIZ: nat := 58

  /** A name as it is stored and compared: at most DIRSIZ bytes. */
  function Truncate(name: string): (r: string)
    ensures |r| <= DIRSIZ
  {
    if |name| >= DIRSIZ then name[..DIRSIZ] else name
  }

  /** The pieces of a string between its slashes. */
  function Pieces(s: string): (r: seq<string>)
    ensures |r| >= 1
  {
    if s == "" then [""]
    else
      var rest := Pieces(s[1..]);
      if s[0] == '/' then [""] + rest else [[s[0]] + rest[0]] + rest[1..]
  }

  function JoinPieces(ps: seq<string>): string {
    if ps == [] then "" else if |ps| == 1 then ps[0] else ps[0] + "/" + JoinPieces(ps[1..])
  }

  ghost predicate SlashFree(s: string) {
    forall i :: 0 <= i < |s| ==> s[i] != '/'
  }

  /** The pieces hold no slash and give back the string when joined by slashes. */
  lemma {:induction false} PiecesOfString(s: string)
    ensures JoinPieces(Pieces(s)) == s
    ensures forall i :: 0 <= i < |Pieces(s)| ==> SlashFree(Pieces(s)[i])
  {
    if s != "" {
      PiecesOfString(s[1..]);
      var rest := Pieces(s[1..]);
      assert s == [s[0]] + s[1..];
      if s[0] == '/' {
        assert Pieces(s)[1..] == rest;
      } else {
        assert Pieces(s)[1..] == rest[1..];
      }
    }
  }

  function NonEmpty(ps: seq<string>): (r: seq<string>)
    ensures forall i :: 0 <= i < |r| ==> r[i] != ""
  {
    if ps == [] then [] else if ps[0] == "" then NonEmpty(ps[1..]) else [ps[0]] + NonEmpty(ps[1..])
  }

  /** The non-empty components of a path. */
  function Components(path: string): seq<string> {
    NonEmpty(Pieces(path))
  }

  lemma SkipSlash(path: string)
    requires path != "" && path[0] == '/'
    ensures Components(path) == Components(path[1..])
  {
    assert ([""] + Pieces(path[1..]))[1..] == Pieces(path[1..]);
  }

  lemma {:induction false} PiecesElem(e: string, t: string)
    requires SlashFree(e) && (t == "" || t[0] == '/')
    ensures Pieces(e + t)[0] == e && Pieces(e + t)[1..] == if t == "" then [] else Pieces(t[1..])
  {
    if e == "" {
      assert e + t == t;
      if t != "" { assert ([""] + Pieces(t[1..]))[1..] == Pieces(t[1..]); }
    } else {
      assert (e + t)[1..] == e[1..] + t;
      PiecesElem(e[1..], t);
      assert e == [e[0]] + e[1..];
    }
  }

  lemma TakeElem(path: string, n: nat)
    requires 0 < n <= |path| && SlashFree(path[..n]) && (n < |path| ==> path[n] == '/')
    ensures Components(path) == [path[..n]] + Components(path[n..])
  {
    var e, t := path[..n], path[n..];
    assert path == e + t;
    PiecesElem(e, t);
    var ps := Pieces(path);
    assert ps == [ps[0]] + ps[1..];
    if t != "" { SkipSlash(t); }
  }

  /** A path that does not start with a slash has no component exactly when it is empty. */
  lemma FirstComponent(path: string)
    requires path != "" && path[0] != '/'
    ensures Components(path) != []
  {
    assert Pieces(path)[0] != "";
  }

  /** The leading slashes of a path are passed over. */
  method SkipSlashes(path: string) returns (rest: string)
    ensures Components(rest) == Components(path) && (rest == "" || rest[0] != '/')
    ensures rest == "" <==> Components(path) == []
  {
    rest := path;
    while rest != "" && rest[0] == '/'
      invariant Components(rest) == Components(path)
      decreases |rest|
    {
      SkipSlash(rest);
      rest := rest[1..];
    }
    if rest != "" { FirstComponent(rest); }
  }

  /** skipelem: the next component, cut to DIRSIZ bytes, and the path behind it. */
  method SkipElem(path: string) returns (r: Option<(string, string)>)
    ensures r.None? <==> Components(path) == []
    ensures r.Some? ==>
              && r.value.0 == Truncate(Components(path)[0])
              && Components(r.value.1) == Components(path)[1..]
              && (r.value.1 == "" <==> |Components(path)| == 1)
  {
    hide Components;
    var p := SkipSlashes(path);
    if p == "" {
      return None;
    }
    var n := 0;
    while n < |p| && p[n] != '/'
      invariant 0 <= n <= |p| && SlashFree(p[..n])
      invariant n == 0 ==> p[0] != '/'
    {
      n := n + 1;
    }
    TakeElem(p, n);
    var name := if n >= DIRSIZ then p[..DIRSIZ] else p[..n];
    assert name == Truncate(p[..n]);
    var rest := SkipSlashes(p[n..]);
    return Some((name, rest));
  }
}
