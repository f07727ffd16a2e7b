/** The namespace of fisopfs: what paths resolve to, the invariant that makes it a tree, and the
    exact effect of adding and removing one name. */
module FsTree {
  import opened Wrappers
  import opened FsStorage

  const FS_FILENAME_LEN := 256

  /** A path component: the delimiter cannot occur in it and it fits its buffer. */
  predicate ValidName(n: string) {
    0 < |n| < FS_FILENAME_LEN && '/' !in n
  }

  /** The first entry with the given name, or the number of entries. */
  function IndexOf(es: seq<Dirent>, name: string): (r: nat)
    ensures r <= |es|
    ensures r < |es| ==> es[r].name == name
    ensures forall k :: 0 <= k < r ==> es[k].name != name
  {
    if es == [] || es[0].name == name then 0 else IndexOf(es[1..], name) + 1
  }

  /** What directory `d` calls `name`; nothing when `d` is not a directory. */
  function LookupIn(t: Tree, d: nat, name: string): Option<nat> {
    if d in t && t[d].Dir? && IndexOf(t[d].entries, name) < |t[d].entries| then
      Some(t[d].entries[IndexOf(t[d].entries, name)].ino)
    else None
  }

  /** A scan that stops at entry `e`, the first with the name, has found what the lookup finds. */
  lemma ScanFinds(t: Tree, d: nat, name: string, e: nat)
    requires d in t && t[d].Dir? && e <= |t[d].entries|
    requires forall k :: 0 <= k < e ==> t[d].entries[k].name != name
    requires e < |t[d].entries| ==> t[d].entries[e].name == name
    ensures LookupIn(t, d, name) == if e < |t[d].entries| then Some(t[d].entries[e].ino) else None
  {
    assert IndexOf(t[d].entries, name) == e;
  }

  /** The inode a list of components leads to from the root. */
  function Resolve(t: Tree, ts: seq<string>): Option<nat> {
    if ts == [] then Some(ROOT_INO)
    else match Resolve(t, ts[..|ts| - 1])
      case None => None
      case Some(d) => LookupIn(t, d, ts[|ts| - 1])
  }

  /** No name and no inode occurs twice. */
  ghost predicate Distinct(es: seq<Dirent>) {
    forall e, f :: 0 <= e < f < |es| ==> es[e].name != es[f].name && es[e].ino != es[f].ino
  }

  /** An entry names a node that knows its directory. */
  predicate ChildOk(t: Tree, d: nat, x: Dirent) {
    ValidName(x.name) && x.ino != ROOT_INO && x.ino in t && t[x.ino].parent == d
  }

  ghost predicate EntriesOk(t: Tree, d: nat)
    requires d in t && t[d].Dir?
  {
    var es := t[d].entries;
    && |es| <= N_DENTRY_PER_DIR
    && (forall e :: 0 <= e < |es| ==> ChildOk(t, d, es[e]))
    && Distinct(es)
  }

  ghost predicate Reachable(t: Tree, i: nat) {
    exists ts :: Resolve(t, ts) == Some(i)
  }

  /** The namespace invariant. */
  ghost predicate NsInv(t: Tree) {
    && ROOT_INO in t && t[ROOT_INO].Dir?
    && (forall d :: d in t && t[d].Dir? ==> EntriesOk(t, d))
    && (forall i :: i in t ==> Reachable(t, i))
  }

  // ---------------------------------------------------------------------------------------------
  // It is a tree

  lemma LookupFinds(t: Tree, d: nat, name: string, i: nat)
    requires NsInv(t) && LookupIn(t, d, name) == Some(i)
    ensures d in t && t[d].Dir? && i in t && i != ROOT_INO && t[i].parent == d
    ensures ValidName(name)
    ensures exists e :: 0 <= e < |t[d].entries| && t[d].entries[e] == Dirent(name, i)
  {
    assert EntriesOk(t, d);
    var e := IndexOf(t[d].entries, name);
    assert t[d].entries[e] == Dirent(name, i);
  }

  lemma DistinctInos(es: seq<Dirent>, a: nat, b: nat)
    requires Distinct(es) && a < |es| && b < |es| && es[a].ino == es[b].ino
    ensures a == b
  {}

  lemma SameNameInDirectory(t: Tree, d: nat, x: string, y: string, i: nat)
    requires NsInv(t) && LookupIn(t, d, x) == Some(i) && LookupIn(t, d, y) == Some(i)
    ensures x == y
  {
    var es := t[d].entries;
    assert Distinct(es) by { assert EntriesOk(t, d); }
    hide NsInv;
    DistinctInos(es, IndexOf(es, x), IndexOf(es, y));
  }

  /** No two paths lead to one inode. */
  lemma {:induction false} UniquePath(t: Tree, a: seq<string>, b: seq<string>)
    requires NsInv(t) && Resolve(t, a).Some? && Resolve(t, a) == Resolve(t, b)
    ensures a == b
    decreases |a|
  {
    hide NsInv, LookupIn;
    var i := Resolve(t, a).value;
    if a == [] || b == [] {
      if a != [] {
        LookupFinds(t, Resolve(t, a[..|a| - 1]).value, a[|a| - 1], i);
      }
      if b != [] {
        LookupFinds(t, Resolve(t, b[..|b| - 1]).value, b[|b| - 1], i);
      }
    } else {
      var a', b' := a[..|a| - 1], b[..|b| - 1];
      var x, y := a[|a| - 1], b[|b| - 1];
      LookupFinds(t, Resolve(t, a').value, x, i);
      LookupFinds(t, Resolve(t, b').value, y, i);
      UniquePath(t, a', b');
      SameNameInDirectory(t, t[i].parent, x, y, i);
      assert a == a' + [x] && b == b' + [y];
    }
  }

  /** Paths lead to inodes of the tree. */
  lemma ResolveIn(t: Tree, ts: seq<string>)
    requires NsInv(t) && Resolve(t, ts).Some?
    ensures Resolve(t, ts).value in t
  {
    if ts != [] {
      LookupFinds(t, Resolve(t, ts[..|ts| - 1]).value, ts[|ts| - 1], Resolve(t, ts).value);
    }
  }

  lemma ResolveStep(t: Tree, ts: seq<string>, name: string)
    ensures Resolve(t, ts + [name]) == if Resolve(t, ts).Some? then LookupIn(t, Resolve(t, ts).value, name) else None
  {
    assert (ts + [name])[..|ts + [name]| - 1] == ts;
  }

  /** Every inode of the tree has exactly one path. */
  lemma ExactlyOnePath(t: Tree, i: nat) returns (ts: seq<string>)
    requires NsInv(t) && i in t
    ensures Resolve(t, ts) == Some(i)
    ensures forall us :: Resolve(t, us) == Some(i) ==> us == ts
  {
    assert Reachable(t, i);
    ts :| Resolve(t, ts) == Some(i);
    forall us | Resolve(t, us) == Some(i) ensures us == ts {
      UniquePath(t, us, ts);
    }
  }

  /** Every inode but the root has exactly one entry, in the directory its parent field names. */
  lemma ExactlyOneEntry(t: Tree, i: nat) returns (e: nat)
    requires NsInv(t) && i in t && i != ROOT_INO
    ensures var p := t[i].parent; p in t && t[p].Dir? && e < |t[p].entries| && t[p].entries[e].ino == i
    ensures forall d, f :: d in t && t[d].Dir? && 0 <= f < |t[d].entries| && t[d].entries[f].ino == i ==> d == t[i].parent && f == e
  {
    var ts := ExactlyOnePath(t, i);
    var d := Resolve(t, ts[..|ts| - 1]).value;
    LookupFinds(t, d, ts[|ts| - 1], i);
    e :| 0 <= e < |t[d].entries| && t[d].entries[e] == Dirent(ts[|ts| - 1], i);
    forall d', f | d' in t && t[d'].Dir? && 0 <= f < |t[d'].entries| && t[d'].entries[f].ino == i ensures d' == d && f == e {
      assert EntriesOk(t, d');
    }
  }

  // ---------------------------------------------------------------------------------------------
  // Adding a name

  function Linked(t: Tree, p: nat, name: string, ino: nat, isDir: bool): Tree
    requires p in t && t[p].Dir?
  {
    t[ino := EmptyNode(isDir, p)][p := Dir(t[p].entries + [Dirent(name, ino)], t[p].parent)]
  }

  /** A name more: an empty node of the kind asked for, an entry at the end of one directory, and
      every other node as it was. */
  lemma LinkedIs(t: Tree, p: nat, name: string, ino: nat, isDir: bool)
    requires p in t && t[p].Dir? && ino !in t
    ensures var t' := Linked(t, p, name, ino, isDir);
      && t'.Keys == t.Keys + {ino} && t'[ino] == (if isDir then Dir([], p) else File([], p))
      && t'[p].Dir? && t'[p].parent == t[p].parent && |t'[p].entries| == |t[p].entries| + 1
      && t'[p].entries[|t[p].entries|] == Dirent(name, ino)
      && (forall k: nat :: k < |t[p].entries| ==> t'[p].entries[k] == t[p].entries[k])
      && (forall j :: j in t && j != p ==> t'[j] == t[j])
  {}

  lemma IndexOfAppend(es: seq<Dirent>, d: Dirent, name: string)
    ensures IndexOf(es + [d], name) == if IndexOf(es, name) < |es| then IndexOf(es, name) else if d.name == name then |es| else |es| + 1
  {
    var r, r' := IndexOf(es, name), IndexOf(es + [d], name);
    if r < |es| {
      assert (es + [d])[r].name == name;
    } else if d.name == name {
      assert (es + [d])[|es|].name == name;
    }
    if r' < |es| {
      assert es[r'].name == name;
    }
  }

  lemma LinkedLookup(t: Tree, p: nat, name: string, ino: nat, isDir: bool, d: nat, last: string)
    requires p in t && t[p].Dir? && LookupIn(t, p, name) == None && ino !in t
    ensures LookupIn(Linked(t, p, name, ino, isDir), d, last)
         == if d == ino then None
            else if d == p && last == name then Some(ino)
            else LookupIn(t, d, last)
  {
    IndexOfAppend(t[p].entries, Dirent(name, ino), last);
  }

  /** After a name is added, it resolves to the new inode and every other path as before. */
  lemma {:induction false} LinkedResolves(t: Tree, par: seq<string>, p: nat, name: string, ino: nat, isDir: bool, ts: seq<string>)
    requires NsInv(t) && Resolve(t, par) == Some(p) && p in t && t[p].Dir?
    requires LookupIn(t, p, name) == None && ino !in t
    ensures Resolve(Linked(t, p, name, ino, isDir), ts) == if ts == par + [name] then Some(ino) else Resolve(t, ts)
  {
    hide NsInv, LookupIn, Linked;
    if ts != [] {
      var q, last := ts[..|ts| - 1], ts[|ts| - 1];
      assert ts == q + [last];
      LinkedResolves(t, par, p, name, ino, isDir, q);
      ResolveStep(t, par, name);
      if Resolve(t, q).Some? {
        ResolveIn(t, q);
        LinkedLookup(t, p, name, ino, isDir, Resolve(t, q).value, last);
        if Resolve(t, q) == Some(p) {
          UniquePath(t, q, par);
        }
      }
      LinkedLookup(t, p, name, ino, isDir, ino, last);
    }
  }

  lemma DistinctAppend(es: seq<Dirent>, d: Dirent)
    requires Distinct(es) && IndexOf(es, d.name) == |es| && forall e :: 0 <= e < |es| ==> es[e].ino != d.ino
    ensures Distinct(es + [d])
  {}

  lemma LinkedEntries(t: Tree, p: nat, name: string, ino: nat, isDir: bool, d: nat)
    requires NsInv(t) && p in t && t[p].Dir? && d in t && t[d].Dir?
    requires LookupIn(t, p, name) == None && ino !in t && ValidName(name) && |t[p].entries| < N_DENTRY_PER_DIR
    ensures EntriesOk(Linked(t, p, name, ino, isDir), d)
  {
    assert EntriesOk(t, d) && EntriesOk(t, p);
    hide NsInv;
    if d == p {
      DistinctAppend(t[p].entries, Dirent(name, ino));
    }
    hide Distinct, LookupIn, ValidName;
    var t' := Linked(t, p, name, ino, isDir);
    forall e | 0 <= e < |t'[d].entries| ensures ChildOk(t', d, t'[d].entries[e]) {
      if e < |t[d].entries| {
        assert ChildOk(t, d, t[d].entries[e]);
      }
    }
  }

  lemma LinkedInv(t: Tree, par: seq<string>, p: nat, name: string, ino: nat, isDir: bool)
    requires NsInv(t) && Resolve(t, par) == Some(p) && p in t && t[p].Dir?
    requires LookupIn(t, p, name) == None && ino !in t && ValidName(name) && |t[p].entries| < N_DENTRY_PER_DIR
    ensures NsInv(Linked(t, p, name, ino, isDir))
  {
    var t' := Linked(t, p, name, ino, isDir);
    assert ROOT_INO in t' && t'[ROOT_INO].Dir?;
    forall d | d in t' && t'[d].Dir? ensures EntriesOk(t', d) {
      if d != ino {
        LinkedEntries(t, p, name, ino, isDir, d);
      }
    }
    forall i | i in t' ensures Reachable(t', i) {
      hide NsInv, EntriesOk, LookupIn;
      ResolveStep(t, par, name);
      if i == ino {
        LinkedResolves(t, par, p, name, ino, isDir, par + [name]);
      } else {
        var ts := ExactlyOnePath(t, i);
        LinkedResolves(t, par, p, name, ino, isDir, ts);
      }
    }
  }

  // ---------------------------------------------------------------------------------------------
  // Removing a name

  function RemoveAt(es: seq<Dirent>, e: nat): seq<Dirent>
    requires e < |es|
  {
    es[..e] + es[e + 1..]
  }

  function Unlinked(t: Tree, p: nat, e: nat): Tree
    requires p in t && t[p].Dir? && e < |t[p].entries|
  {
    t[p := Dir(RemoveAt(t[p].entries, e), t[p].parent)] - {t[p].entries[e].ino}
  }

  /** The node holds no names: a file, or an empty directory. */
  predicate Childless(n: Node) {
    n.File? || n.entries == []
  }

  /** A name less: its node goes, the entries behind it move up by one, and every other node is as it was. */
  lemma UnlinkedIs(t: Tree, p: nat, e: nat)
    requires p in t && t[p].Dir? && e < |t[p].entries| && t[p].entries[e].ino != p
    ensures var t', ino := Unlinked(t, p, e), t[p].entries[e].ino;
      && t'.Keys == t.Keys - {ino}
      && t'[p].Dir? && t'[p].parent == t[p].parent && |t'[p].entries| == |t[p].entries| - 1
      && (forall k: nat :: k < |t[p].entries| - 1 ==> t'[p].entries[k] == t[p].entries[if k < e then k else k + 1])
      && (forall j :: j in t && j != p && j != ino ==> t'[j] == t[j])
  {}

  lemma DistinctRemove(es: seq<Dirent>, e: nat)
    requires e < |es| && Distinct(es)
    ensures Distinct(RemoveAt(es, e))
    ensures forall f :: 0 <= f < |RemoveAt(es, e)| ==> RemoveAt(es, e)[f].ino != es[e].ino
  {
    var es' := RemoveAt(es, e);
    forall f | 0 <= f < |es'| ensures es'[f] == es[if f < e then f else f + 1] {}
  }

  lemma IndexOfRemove(es: seq<Dirent>, e: nat, name: string)
    requires e < |es|
    requires Distinct(es)
    ensures var es' := RemoveAt(es, e);
      if name == es[e].name then IndexOf(es', name) == |es'|
      else if IndexOf(es, name) < |es| then IndexOf(es', name) < |es'| && es'[IndexOf(es', name)] == es[IndexOf(es, name)]
      else IndexOf(es', name) == |es'|
  {
    var es' := RemoveAt(es, e);
    var r, r' := IndexOf(es, name), IndexOf(es', name);
    if r' < |es'| {
      assert es'[r'] == es[if r' < e then r' else r' + 1];
    }
    if r < |es| && r != e {
      assert es'[if r < e then r else r - 1] == es[r];
    }
  }

  /** The entry's own path leads to its inode. */
  lemma GoneResolves(t: Tree, par: seq<string>, p: nat, e: nat)
    requires NsInv(t) && Resolve(t, par) == Some(p) && p in t && t[p].Dir? && e < |t[p].entries|
    ensures Resolve(t, par + [t[p].entries[e].name]) == Some(t[p].entries[e].ino)
  {
    ResolveStep(t, par, t[p].entries[e].name);
    assert EntriesOk(t, p);
    assert IndexOf(t[p].entries, t[p].entries[e].name) == e;
  }

  lemma UnlinkedLookup(t: Tree, p: nat, e: nat, d: nat, last: string)
    requires NsInv(t) && p in t && t[p].Dir? && e < |t[p].entries|
    requires t[p].entries[e].ino in t && Childless(t[t[p].entries[e].ino])
    ensures LookupIn(Unlinked(t, p, e), d, last)
         == if d == t[p].entries[e].ino || (d == p && last == t[p].entries[e].name) then None else LookupIn(t, d, last)
    ensures LookupIn(t, t[p].entries[e].ino, last) == None
  {
    assert EntriesOk(t, p);
    IndexOfRemove(t[p].entries, e, last);
  }

  /** After a name is removed, it resolves to nothing and every other path as before. */
  lemma {:induction false} UnlinkedResolves(t: Tree, par: seq<string>, p: nat, e: nat, ts: seq<string>)
    requires NsInv(t) && Resolve(t, par) == Some(p) && p in t && t[p].Dir? && e < |t[p].entries|
    requires t[p].entries[e].ino in t && Childless(t[t[p].entries[e].ino])
    ensures Resolve(Unlinked(t, p, e), ts) == if ts == par + [t[p].entries[e].name] then None else Resolve(t, ts)
  {
    hide NsInv, LookupIn, Unlinked, Childless;
    if ts != [] {
      var q, last := ts[..|ts| - 1], ts[|ts| - 1];
      assert ts == q + [last];
      UnlinkedResolves(t, par, p, e, q);
      GoneResolves(t, par, p, e);
      UnlinkedLookup(t, p, e, t[p].entries[e].ino, last);
      if Resolve(t, q).Some? {
        UnlinkedLookup(t, p, e, Resolve(t, q).value, last);
        if Resolve(t, q) == Some(p) {
          UniquePath(t, q, par);
        }
      }
    }
  }

  lemma UnlinkedEntries(t: Tree, p: nat, e: nat, d: nat)
    requires NsInv(t) && p in t && t[p].Dir? && e < |t[p].entries| && t[p].entries[e].ino in t
    requires Childless(t[t[p].entries[e].ino])
    requires d in Unlinked(t, p, e) && d in t && t[d].Dir?
    ensures EntriesOk(Unlinked(t, p, e), d)
  {
    var t' := Unlinked(t, p, e);
    assert EntriesOk(t, d) && EntriesOk(t, p);
    hide NsInv;
    var es, es' := t[d].entries, t'[d].entries;
    if d == p {
      DistinctRemove(es, e);
    }
    hide Distinct, Childless, ValidName;
    forall f | 0 <= f < |es'| ensures ChildOk(t', d, es'[f]) {
      var f' := if d == p && f >= e then f + 1 else f;
      assert es'[f] == es[f'];
    }
  }

  lemma UnlinkedInv(t: Tree, par: seq<string>, p: nat, e: nat)
    requires NsInv(t) && Resolve(t, par) == Some(p) && p in t && t[p].Dir? && e < |t[p].entries|
    requires t[p].entries[e].ino in t && Childless(t[t[p].entries[e].ino])
    ensures NsInv(Unlinked(t, p, e))
  {
    var t' := Unlinked(t, p, e);
    assert EntriesOk(t, p);
    assert ROOT_INO in t' && t'[ROOT_INO].Dir?;
    forall d | d in t' && t'[d].Dir? ensures EntriesOk(t', d) {
      UnlinkedEntries(t, p, e, d);
    }
    forall i | i in t' ensures Reachable(t', i) {
      hide NsInv, EntriesOk, Childless, LookupIn;
      var ts := ExactlyOnePath(t, i);
      UnlinkedResolves(t, par, p, e, ts);
      GoneResolves(t, par, p, e);
    }
  }

  // ---------------------------------------------------------------------------------------------
  // Changing a file's content

  /** New content for a file moves no name. */
  lemma {:induction false} ContentKeepsNames(t: Tree, i: nat, c: seq<Byte>, ts: seq<string>)
    requires NsInv(t) && i in t && t[i].File?
    ensures Resolve(t[i := File(c, t[i].parent)], ts) == Resolve(t, ts)
  {
    if ts != [] {
      ContentKeepsNames(t, i, c, ts[..|ts| - 1]);
    }
  }

  lemma ContentInv(t: Tree, i: nat, c: seq<Byte>)
    requires NsInv(t) && i in t && t[i].File?
    ensures NsInv(t[i := File(c, t[i].parent)])
  {
    var t' := t[i := File(c, t[i].parent)];
    forall d | d in t' && t'[d].Dir? ensures EntriesOk(t', d) {
      assert EntriesOk(t, d);
    }
    forall j | j in t' ensures Reachable(t', j) {
      var ts := ExactlyOnePath(t, j);
      ContentKeepsNames(t, i, c, ts);
    }
  }
}
