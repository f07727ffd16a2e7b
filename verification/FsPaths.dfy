/** Paths as text: the tokens `strtok` cuts them into, and the split into parent and last name. */
module FsPaths {
  import opened FsTree

  const FS_MAX_PATH := 1024
  const MAX_LEVEL := 10
  const DELIM := '/'

  /** The length of the leading run free of delimiters. */
  function NameLength(s: string): (k: nat)
    ensures k <= |s|
    ensures DELIM !in s[..k]
    ensures k < |s| ==> s[k] == DELIM
  {
    if s == "" || s[0] == DELIM then 0 else NameLength(s[1..]) + 1
  }

  /** The tokens of successive `strtok(.., "/")` calls: maximal runs free of delimiters. */
  function Tokens(s: string): (ts: seq<string>)
    decreases |s|
  {
    if s == "" then []
    else if s[0] == DELIM then Tokens(s[1..])
    else [s[..NameLength(s)]] + Tokens(s[NameLength(s)..])
  }

  /** Each component behind a delimiter. */
  function Join(ts: seq<string>): string {
    if ts == [] then "" else [DELIM] + ts[0] + Join(ts[1..])
  }

  /** The normal form of an absolute path. */
  function PathOf(ts: seq<string>): string {
    if ts == [] then [DELIM] else Join(ts)
  }

  predicate AllValid(ts: seq<string>) {
    forall k :: 0 <= k < |ts| ==> ValidName(ts[k])
  }

  /** What FUSE hands over, within the buffers of `find_inode`. */
  predicate Normal(path: string) {
    path == PathOf(Tokens(path)) && AllValid(Tokens(path)) && |Tokens(path)| <= MAX_LEVEL && |path| != FS_MAX_PATH
  }

  lemma {:induction false} NameLengthOf(x: string, rest: string)
    requires DELIM !in x && (rest == "" || rest[0] == DELIM)
    ensures NameLength(x + rest) == |x|
  {
    if x == "" {
      assert x + rest == rest;
    } else {
      NameLengthOf(x[1..], rest);
      assert (x + rest)[1..] == x[1..] + rest;
    }
  }

  lemma FirstToken(x: string, rest: string)
    requires ValidName(x) && (rest == "" || rest[0] == DELIM)
    ensures Tokens([DELIM] + x + rest) == [x] + Tokens(rest)
  {
    var s := x + rest;
    assert ([DELIM] + x + rest)[1..] == s && s != "";
    NameLengthOf(x, rest);
    assert s[..|x|] == x && s[|x|..] == rest;
  }

  /** Tokenising undoes joining. */
  lemma {:induction false} TokensOfJoin(ts: seq<string>)
    requires AllValid(ts)
    ensures Tokens(Join(ts)) == ts
  {
    if ts != [] {
      TokensOfJoin(ts[1..]);
      FirstToken(ts[0], Join(ts[1..]));
    }
  }

  /** Every list of valid components has a path, and the path gives the list back. */
  lemma TokensOfPath(ts: seq<string>)
    requires AllValid(ts)
    ensures Tokens(PathOf(ts)) == ts
  {
    if ts == [] {
      assert PathOf(ts)[1..] == "";
    } else {
      TokensOfJoin(ts);
    }
  }

  lemma {:induction false} JoinSnoc(ts: seq<string>, x: string)
    ensures Join(ts + [x]) == Join(ts) + [DELIM] + x
  {
    if ts == [] {
      assert Join([x]) == [DELIM] + x + Join([]);
    } else {
      JoinSnoc(ts[1..], x);
      assert (ts + [x])[1..] == ts[1..] + [x];
    }
  }

  /** Where the last name of a path starts: behind its last delimiter. */
  lemma LastName(path: string)
    requires Normal(path) && Tokens(path) != []
    ensures var ts := Tokens(path);
      var front, last := ts[..|ts| - 1], ts[|ts| - 1];
      var cut := |Join(front)|;
      && ValidName(last) && |last| > 0 && |path| == cut + 1 + |last|
      && path[cut] == DELIM && path[..cut] == Join(front) && path[cut + 1..] == last
      && (forall k :: cut < k < |path| ==> path[k] != DELIM)
      && PathOf(front) == if cut == 0 then path[..1] else path[..cut]
  {
    var ts := Tokens(path);
    var front, last := ts[..|ts| - 1], ts[|ts| - 1];
    var cut := |Join(front)|;
    assert ts == front + [last];
    JoinSnoc(front, last);
    assert ValidName(last);
    hide Tokens, Normal;
    assert path == Join(front) + [DELIM] + last;
    forall k | cut < k < |path| ensures path[k] != DELIM {
      assert path[k] == last[k - cut - 1];
    }
  }

  /** Parent path and last name, found by walking back from the end to a delimiter. */
  method SplitPath(path: string) returns (parent: string, name: string)
    requires Normal(path) && Tokens(path) != []
    ensures var ts := Tokens(path);
      parent == PathOf(ts[..|ts| - 1]) && name == ts[|ts| - 1] && ValidName(name)
  {
    ghost var ts := Tokens(path);
    ghost var front, last := ts[..|ts| - 1], ts[|ts| - 1];
    ghost var cut := |Join(front)|;
    LastName(path);
    hide Normal, Tokens, Join, ValidName;

    var pathLen := |path|;
    if path[pathLen - 1] == DELIM {
      pathLen := pathLen - 1;
    }
    var lastDelim := pathLen - 1;
    while lastDelim > 0 && path[lastDelim] != DELIM
      invariant cut <= lastDelim < pathLen == |path|
    {
      lastDelim := lastDelim - 1;
    }
    if lastDelim == 0 {
      parent := path[..1];
    } else {
      parent := path[..lastDelim];
    }
    name := path[lastDelim + 1..pathLen];
  }
}
