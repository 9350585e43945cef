/** A directory as a map from names to inodes: what lookups return after an entry was
    added or removed. */
module DirectoryNames {
  import opened Common
  import opened Bytes
  import opened DirRecords
  import opened Directory

  /** No name occurs twice. */
  ghost predicate Unique(es: seq<Entry>) {
    forall i, j | 0 <= i < j < |es| :: es[i].name != es[j].name
  }

  /** The entry each name stands for. */
  ghost function NameMap(es: seq<Entry>): map<bytes, Entry> {
    if es == [] then map[] else NameMap(es[..|es| - 1])[es[|es| - 1].name := es[|es| - 1]]
  }

  ghost predicate Binds(m: map<bytes, Entry>, e: Entry) {
    e.name in m && m[e.name] == e
  }

  /** The map holds exactly the entries of the list. */
  lemma {:induction false} NameMapHas(es: seq<Entry>, e: Entry)
    requires Unique(es)
    ensures e in es <==> Binds(NameMap(es), e)
  {
    if es != [] {
      var n := |es| - 1;
      NameMapHas(es[..n], e);
      assert es == es[..n] + [es[n]];
      if e in es[..n] {
        var i :| 0 <= i < n && es[..n][i] == e;
        assert es[i].name != es[n].name;
      }
    }
  }

  lemma {:induction false} NameMapNames(es: seq<Entry>, name: bytes)
    ensures name in NameMap(es) <==> !NoneNamed(es, name)
    ensures name in NameMap(es) ==> NameMap(es)[name].name == name
  {
    if es != [] {
      var n := |es| - 1;
      NameMapNames(es[..n], name);
      assert forall i | 0 <= i < n :: es[..n][i] == es[i];
      if !NoneNamed(es, name) && es[n].name != name {
        var i :| 0 <= i < |es| && es[i].name == name;
        assert es[..n][i].name == name;
      }
    }
  }

  /** Two lists with the same entries, each name once, give the same map. */
  lemma SameNames(es: seq<Entry>, fs: seq<Entry>)
    requires Unique(es) && Unique(fs) && forall e :: e in es <==> e in fs
    ensures NameMap(es) == NameMap(fs)
  {
    forall name ensures name in NameMap(es) <==> name in NameMap(fs)
      ensures name in NameMap(es) && name in NameMap(fs) ==> NameMap(es)[name] == NameMap(fs)[name]
    {
      NameMapNames(es, name);
      NameMapNames(fs, name);
      if name in NameMap(es) {
        NameMapHas(es, NameMap(es)[name]);
        NameMapHas(fs, NameMap(es)[name]);
      }
      if name in NameMap(fs) {
        NameMapHas(es, NameMap(fs)[name]);
        NameMapHas(fs, NameMap(fs)[name]);
      }
    }
  }

  // ------------------------------------------------------------------- adding

  lemma {:induction false} CountsTwice(es: seq<Entry>, i: nat, j: nat)
    requires i < j < |es| && es[i] == es[j]
    ensures multiset(es)[es[i]] >= 2
  {
    var x, y := es[..j], es[j..];
    assert es == x + y && x[i] == es[i] && y[0] == es[i];
    assert es[i] in multiset(x) && es[i] in multiset(y);
  }

  lemma {:induction false} CountsOnce(es: seq<Entry>, e: Entry)
    requires Unique(es)
    ensures multiset(es)[e] <= 1
  {
    if es != [] {
      var n := |es| - 1;
      CountsOnce(es[..n], e);
      assert es == es[..n] + [es[n]];
      assert e == es[n] ==> e !in es[..n];
    }
  }

  /** Adding an entry under a new name binds that name and nothing else, wherever the
      entry ended up. */
  lemma AddedName(es: seq<Entry>, fs: seq<Entry>, e: Entry)
    requires Unique(es) && NoneNamed(es, e.name) && multiset(fs) == multiset(es) + multiset{e}
    ensures Unique(fs) && NameMap(fs) == NameMap(es)[e.name := e]
  {
    var all := es + [e];
    assert multiset(all) == multiset(es) + multiset{e};
    assert Unique(all);
    assert forall x :: x in fs <==> x in multiset(fs);
    assert forall x :: x in all <==> x in multiset(all);
    forall i, j | 0 <= i < j < |fs| ensures fs[i].name != fs[j].name {
      if fs[i] == fs[j] {
        CountsTwice(fs, i, j);
        CountsOnce(all, fs[i]);
      } else {
        assert fs[i] in all && fs[j] in all;
      }
    }
    SameNames(fs, all);
    assert all[..|all| - 1] == es;
  }

  lemma WithoutHas(es: seq<Entry>, fs: seq<Entry>, at: nat, e: Entry)
    requires Unique(es) && Without(es, fs, at)
    ensures e in fs <==> e in es && e.name != es[at].name
  {
    if e in fs {
      var i :| 0 <= i < |fs| && fs[i] == e;
      assert es[if i < at then i else i + 1] == e;
    }
    if e in es && e.name != es[at].name {
      var i :| 0 <= i < |es| && es[i] == e;
      assert fs[if i < at then i else i - 1] == e;
    }
  }

  lemma WithoutUnique(es: seq<Entry>, fs: seq<Entry>, at: nat)
    requires Unique(es) && Without(es, fs, at)
    ensures Unique(fs)
  {
    forall i, j | 0 <= i < j < |fs| ensures fs[i].name != fs[j].name {
      assert fs[i] == es[if i < at then i else i + 1] && fs[j] == es[if j < at then j else j + 1];
    }
  }

  lemma RemovedNameAt(es: seq<Entry>, fs: seq<Entry>, at: nat, name: bytes)
    requires Unique(es) && Unique(fs) && Without(es, fs, at)
    ensures name in NameMap(fs) <==> name in NameMap(es) && name != es[at].name
    ensures name in NameMap(fs) ==> name in NameMap(es) && NameMap(fs)[name] == NameMap(es)[name]
  {
    NameMapNames(es, name);
    NameMapNames(fs, name);
    if name in NameMap(fs) {
      var e := NameMap(fs)[name];
      NameMapHas(fs, e);
      WithoutHas(es, fs, at, e);
      NameMapHas(es, e);
    }
    if name in NameMap(es) && name != es[at].name {
      var e := NameMap(es)[name];
      NameMapHas(es, e);
      WithoutHas(es, fs, at, e);
      NameMapHas(fs, e);
    }
  }

  /** Taking out the entry of a name unbinds that name and nothing else. */
  lemma RemovedName(es: seq<Entry>, fs: seq<Entry>, at: nat)
    requires Unique(es) && Without(es, fs, at)
    ensures Unique(fs) && NameMap(fs) == NameMap(es) - {es[at].name}
  {
    WithoutUnique(es, fs, at);
    forall name ensures name in NameMap(fs) <==> name in NameMap(es) && name != es[at].name
      ensures name in NameMap(fs) ==> name in NameMap(es) && NameMap(fs)[name] == NameMap(es)[name]
    {
      RemovedNameAt(es, fs, at, name);
    }
  }

  /** A lookup returns what the map says. */
  method Find(d: DirFile, name: bytes) returns (ok: bool, e: Entry)
    requires d.Valid() && Unique(d.Entries())
    ensures ok <==> name in NameMap(d.Entries())
    ensures ok ==> e == NameMap(d.Entries())[name]
  {
    ok, e := d.Lookup(name);
    NameMapNames(d.Entries(), name);
    if ok {
      NameMapHas(d.Entries(), e);
    }
  }

  /** After a new name was added, every lookup sees the old map with that one name
      bound. */
  method AddThenFind(d: DirFile, e: Entry, place: int, name: bytes) returns (code: int, ok: bool, found: Entry)
    requires d.Valid() && Unique(d.Entries()) && NoneNamed(d.Entries(), e.name) && Tight(d.secs, d.visible)
    requires 0 < e.inode < TWO64 && |e.name| <= NAME_MAX && -1 <= place <= |d.secs|
    modifies d
    ensures d.Valid() && Unique(d.Entries()) && Tight(d.secs, d.visible)
    ensures NameMap(d.Entries()) == if code == 0 then NameMap(old(d.Entries()))[e.name := e] else NameMap(old(d.Entries()))
    ensures ok <==> name in NameMap(d.Entries())
    ensures ok ==> found == NameMap(d.Entries())[name]
  {
    ghost var es := d.Entries();
    code := d.Append(e, place);
    if code == 0 {
      AddedName(es, d.Entries(), e);
    }
    ok, found := Find(d, name);
  }

  /** After a name was removed, every lookup sees the old map without it. */
  method RemoveThenFind(d: DirFile, gone: bytes, name: bytes) returns (removed: bool, ok: bool, found: Entry)
    requires d.Valid() && Unique(d.Entries())
    modifies d
    ensures d.Valid() && Unique(d.Entries()) && (Tight(old(d.secs), old(d.visible)) ==> Tight(d.secs, d.visible))
    ensures removed <==> gone in NameMap(old(d.Entries()))
    ensures NameMap(d.Entries()) == NameMap(old(d.Entries())) - {gone}
    ensures ok <==> name in NameMap(d.Entries())
    ensures ok ==> found == NameMap(d.Entries())[name]
  {
    ghost var es := d.Entries();
    NameMapNames(es, gone);
    ghost var at;
    removed, at := d.Remove(gone);
    if removed {
      RemovedName(es, d.Entries(), at);
    }
    ok, found := Find(d, name);
  }
}
