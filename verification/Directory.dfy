/**
 A directory is a file of entries, some of them unused. Looking up, linking and
 unlinking refine a map from names to inode numbers.
 */
module Directory {
  import opened Wrappers
  import opened Paths

  datatype Dirent = Dirent(inum: nat, name: string)

  /** An entry in use under a name, as namecmp compares. */
  predicate Names(e: Dirent, name: string) {
    e.inum != 0 && Truncate(e.name) == Truncate(name)
  }

  /** dirlookup: the first entry in use that has the name. */
  function Find(es: seq<Dirent>, name: string): (r: Option<nat>)
    ensures r.Some? ==> r.value < |es| && Names(es[r.value], name) && forall j :: 0 <= j < r.value ==> !Names(es[j], name)
    ensures r.None? ==> forall j :: 0 <= j < |es| ==> !Names(es[j], name)
  {
    if es == [] then None
    else if Names(es[0], name) then Some(0)
    else
      match Find(es[1..], name)
      case None => None
      case Some(k) =>
        assert forall j :: 0 < j <= k ==> es[j] == es[1..][j - 1];
        Some(k + 1)
  }

  function LookUp(es: seq<Dirent>, name: string): (r: Option<nat>)
    ensures r.Some? ==> r.value != 0
  {
    match Find(es, name)
    case None => None
    case Some(k) => Some(es[k].inum)
  }

  lemma FindIs(es: seq<Dirent>, name: string, k: nat)
    requires k < |es| && Names(es[k], name) && forall j :: 0 <= j < k ==> !Names(es[j], name)
    ensures Find(es, name) == Some(k)
  {
  }

  /** No name is in use twice, and names are stored cut to size. */
  ghost predicate Tidy(es: seq<Dirent>) {
    && (forall i :: 0 <= i < |es| ==> |es[i].name| <= DIRSIZ)
    && (forall i, j :: 0 <= i < j < |es| && es[i].inum != 0 && es[j].inum != 0 ==> es[i].name != es[j].name)
  }

  lemma LookUpUnique(es: seq<Dirent>, name: string, i: nat)
    requires Tidy(es) && i < |es| && Names(es[i], name)
    ensures LookUp(es, name) == Some(es[i].inum)
  {
    var k := Find(es, name).value;
    assert es[k].name == Truncate(es[k].name) && es[i].name == Truncate(es[i].name);
  }

  /** Whether the name is found depends on the entries in use only. */
  lemma LookUpNone(es: seq<Dirent>, name: string)
    ensures LookUp(es, name).None? <==> forall i :: 0 <= i < |es| ==> !Names(es[i], name)
  {
  }

  /** Entry k, unused before or new, takes a name that is not in use. */
  lemma LinkAt(es: seq<Dirent>, k: nat, e: Dirent, es': seq<Dirent>, name: string)
    requires Tidy(es) && k <= |es| && (k < |es| ==> es[k].inum == 0) && e.inum != 0 && |e.name| <= DIRSIZ && LookUp(es, e.name).None?
    requires es' == if k < |es| then es[k := e] else es + [e]
    ensures LookUp(es', name) == if Truncate(name) == e.name then Some(e.inum) else LookUp(es, name)
  {
    LinkTidy(es, k, e, es');
    assert LookUp(es, name).Some? ==> Names(es'[Find(es, name).value], name);
    LookUpNone(es', name);
    LookUpNone(es, name);
    if Names(es'[k], name) {
      LookUpUnique(es', name, k);
    } else if i :| 0 <= i < |es'| && Names(es'[i], name) {
      LookUpUnique(es', name, i);
      LookUpUnique(es, name, i);
    }
  }

  lemma LinkTidy(es: seq<Dirent>, k: nat, e: Dirent, es': seq<Dirent>)
    requires Tidy(es) && k <= |es| && (k < |es| ==> es[k].inum == 0) && e.inum != 0 && |e.name| <= DIRSIZ && LookUp(es, e.name).None?
    requires es' == if k < |es| then es[k := e] else es + [e]
    ensures Tidy(es')
  {
    forall i | 0 <= i < |es| && es[i].inum != 0 ensures es[i].name != e.name {
      assert !Names(es[i], e.name);
    }
  }

  lemma UnlinkTidy(es: seq<Dirent>, k: nat)
    requires Tidy(es) && k < |es|
    ensures Tidy(es[k := Dirent(0, "")])
  {
  }

  /** Entry k is cleared: its name goes, every other name stays. */
  lemma UnlinkAt(es: seq<Dirent>, k: nat, name: string)
    requires Tidy(es) && k < |es|
    ensures LookUp(es[k := Dirent(0, "")], name) == if Names(es[k], name) then None else LookUp(es, name)
  {
    var es' := es[k := Dirent(0, "")];
    UnlinkTidy(es, k);
    LookUpNone(es', name);
    LookUpNone(es, name);
    if Names(es[k], name) {
      forall i | 0 <= i < |es'| ensures !Names(es'[i], name) {
        assert es[k].name == Truncate(name);
        assert i != k && es[i].inum != 0 ==> es[i].name == Truncate(es[i].name);
      }
    } else if LookUp(es, name).Some? {
      var i := Find(es, name).value;
      assert es'[i] == es[i];
      LookUpUnique(es', name, i);
    }
  }

  /** A name cut to size finds what the name finds. */
  lemma {:induction false} LookUpTruncated(es: seq<Dirent>, name: string)
    ensures LookUp(es, Truncate(name)) == LookUp(es, name)
  {
    assert Truncate(Truncate(name)) == Truncate(name);
    assert forall e: Dirent :: Names(e, Truncate(name)) <==> Names(e, name);
    if Find(es, name).Some? {
      var i := Find(es, name).value;
      assert Names(es[i], Truncate(name));
    }
  }
}
