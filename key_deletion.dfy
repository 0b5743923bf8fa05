/** Deleting a registry key together with everything below it, the way
    SlicerLauncher._delete_registry_key does: open the key, enumerate its
    sub-keys, delete each of them the same way, then delete the key. */
module KeyDeletion {
  import opened Names
  import opened Registry

  /** Recursive deletion of `p` keeps `q` when some protected key under `p`
      lies on the way to `q` or below it: a protected key cannot be opened for
      deletion, so it and what is below it stay, and so do its ancestors,
      whose sub-keys are then not all gone. */
  ghost predicate Kept(s: Store, denied: set<Path>, p: Path, q: Path)
  {
    exists r :: r in s && Protected(denied, r) && IsPrefix(p, r) && (IsPrefix(r, q) || IsPrefix(q, r))
  }

  /** `q` is removed by the recursive deletion of `p`. */
  ghost predicate Doomed(s: Store, denied: set<Path>, p: Path, q: Path)
  {
    IsPrefix(p, q) && !Kept(s, denied, p, q)
  }

  /** The store after `p` and everything below it has been deleted, key by key. */
  ghost function TreeDeleted(s: Store, denied: set<Path>, p: Path): Store
  {
    map q | q in s && !Doomed(s, denied, p, q) :: s[q]
  }

  /** The store after the sub-keys `cs` of `p` have each been deleted with
      everything below them. */
  ghost function ChildrenDeleted(s: Store, denied: set<Path>, p: Path, cs: seq<string>): Store
  {
    map q | q in s && (forall c | c in cs :: !Doomed(s, denied, p + [c], q)) :: s[q]
  }

  /** Two parts of a store with the same keys are the same. */
  lemma SubmapsEqual(s: Store, a: Store, b: Store)
    requires forall q | q in a :: q in s && a[q] == s[q]
    requires forall q | q in b :: q in s && b[q] == s[q]
    requires forall q | q in s :: q in a <==> q in b
    ensures a == b
  {
  }

  /** Recursive deletion only removes keys, and only keys under `p`: every
      other key, a sibling whose name merely starts like `p`'s included, keeps
      all its values. */
  lemma TreeDeletedOutside(s: Store, denied: set<Path>, p: Path)
    ensures TreeDeleted(s, denied, p).Keys <= s.Keys
    ensures forall q | q in TreeDeleted(s, denied, p) :: TreeDeleted(s, denied, p)[q] == s[q]
    ensures forall q | q in s && !IsPrefix(p, q) :: q in TreeDeleted(s, denied, p)
  {
  }

  /** With nothing protected under `p`, no key under `p` survives. */
  lemma TreeDeletedRemovesAll(s: Store, denied: set<Path>, p: Path)
    requires forall r | r in Subtree(s, p) :: !Protected(denied, r)
    ensures Subtree(TreeDeleted(s, denied, p), p) == {}
  {
    assert forall r | r in s && IsPrefix(p, r) :: !Protected(denied, r) by {
      forall r | r in s && IsPrefix(p, r) ensures !Protected(denied, r) {
        assert r in Subtree(s, p);
      }
    }
  }

  /** Deletion that cannot open `p`, because it does not exist or is
      protected, changes nothing. */
  lemma TreeDeletedUnopened(s: Store, denied: set<Path>, p: Path)
    requires PrefixClosed(s) && (p !in s || Protected(denied, p))
    ensures TreeDeleted(s, denied, p) == s
  {
    if p !in s {
      forall q | q in s && |p| <= |q| ensures q[..|p|] != p {
        assert q[..|p|] in s;
      }
    } else {
      forall q | q in s && IsPrefix(p, q) ensures Kept(s, denied, p, q) {
        assert p[..|p|] == p;
        assert IsPrefix(p, p);
      }
    }
  }

  /** Deleting one more sub-key `c`, in the store where the sub-keys `cs` are
      already gone, is the same as deleting all of them from the start: no
      key under `c` is under any other sub-key. */
  lemma ChildNext(s: Store, denied: set<Path>, p: Path, cs: seq<string>, j: nat)
    requires j < |cs| && cs[j] !in cs[..j]
    ensures TreeDeleted(ChildrenDeleted(s, denied, p, cs[..j]), denied, p + [cs[j]]) == ChildrenDeleted(s, denied, p, cs[..j + 1])
  {
    assert cs[..j + 1] == cs[..j] + [cs[j]];
    ChildStep(s, denied, p, cs[..j], cs[j]);
  }

  lemma ChildStep(s: Store, denied: set<Path>, p: Path, cs: seq<string>, c: string)
    requires c !in cs
    ensures TreeDeleted(ChildrenDeleted(s, denied, p, cs), denied, p + [c]) == ChildrenDeleted(s, denied, p, cs + [c])
  {
    var t := ChildrenDeleted(s, denied, p, cs);
    var pc := p + [c];
    forall q | IsPrefix(pc, q) && q in s ensures q in t {
      OtherChildren(p, c, cs, q);
    }
    forall q ensures Kept(t, denied, pc, q) == Kept(s, denied, pc, q) {
      if Kept(s, denied, pc, q) {
        var r :| r in s && Protected(denied, r) && IsPrefix(pc, r) && (IsPrefix(r, q) || IsPrefix(q, r));
        assert r in t;
      }
    }
    var l, r := TreeDeleted(t, denied, pc), ChildrenDeleted(s, denied, p, cs + [c]);
    forall q ensures q in l <==> q in r {
      assert q in r <==> q in s && (forall c' | c' in cs :: !Doomed(s, denied, p + [c'], q)) && !Doomed(s, denied, pc, q);
    }
  }

  /** A key under the sub-key `c` of `p` is under no other sub-key. */
  lemma OtherChild(p: Path, c: string, c': string, q: Path)
    requires IsPrefix(p + [c], q) && c' != c
    ensures !IsPrefix(p + [c'], q)
  {
    assert q[..|p| + 1] == p + [c];
    assert (p + [c])[|p|] == c && (p + [c'])[|p|] == c';
  }

  /** What is not below `p` is not below a sub-key of `p`. */
  lemma NotBelowChild(p: Path, c: string, q: Path)
    requires !IsPrefix(p, q)
    ensures !IsPrefix(p + [c], q)
  {
    if |p| + 1 <= |q| {
      assert q[..|p|] == q[..|p| + 1][..|p|];
      assert (p + [c])[..|p|] == p;
    }
  }

  lemma OtherChildren(p: Path, c: string, cs: seq<string>, q: Path)
    requires IsPrefix(p + [c], q) && c !in cs
    ensures forall c' | c' in cs :: !IsPrefix(p + [c'], q)
  {
    forall c' | c' in cs ensures !IsPrefix(p + [c'], q) {
      OtherChild(p, c, c', q);
    }
  }

  /** Each recursive call works on a strictly smaller part of the store. */
  lemma ChildSubtreeSmaller(s: Store, denied: set<Path>, p: Path, cs: seq<string>, c: string)
    requires p in s
    ensures Subtree(ChildrenDeleted(s, denied, p, cs), p + [c]) < Subtree(s, p)
  {
    assert p[..|p|] == p;
    assert p in Subtree(s, p);
    forall q | q in Subtree(ChildrenDeleted(s, denied, p, cs), p + [c]) ensures q in Subtree(s, p) {
      assert q[..|p|] == (p + [c])[..|p|];
    }
  }

  /** Below `p`, being deleted with `p` is being deleted with the sub-key on
      the way, unless `p` itself is protected. */
  lemma DoomedBelow(s: Store, denied: set<Path>, p: Path, q: Path)
    requires PrefixClosed(s) && !Protected(denied, p)
    requires q in s && IsPrefix(p, q) && q != p
    ensures q[|p|] in Children(s, p)
    ensures Doomed(s, denied, p, q) == Doomed(s, denied, p + [q[|p|]], q)
  {
    var c := q[|p|];
    assert q[..|p| + 1] == p + [c];
    assert IsPrefix(p + [c], q);
    if Kept(s, denied, p, q) {
      var r :| r in s && Protected(denied, r) && IsPrefix(p, r) && (IsPrefix(r, q) || IsPrefix(q, r));
      assert r != p;
      assert r[..|p| + 1] == q[..|p| + 1];
      assert IsPrefix(p + [c], r);
    }
    if Kept(s, denied, p + [c], q) {
      var r :| r in s && Protected(denied, r) && IsPrefix(p + [c], r) && (IsPrefix(r, q) || IsPrefix(q, r));
      assert r[..|p|] == (p + [c])[..|p|];
    }
  }

  /** A protected key below `p` keeps the sub-key on its way. */
  lemma KeptLeavesChild(s: Store, denied: set<Path>, p: Path, cs: seq<string>, r: Path)
    requires PrefixClosed(s) && !Protected(denied, p)
    requires r in s && Protected(denied, r) && IsPrefix(p, r)
    ensures r != p && r[|p|] in Children(ChildrenDeleted(s, denied, p, cs), p)
  {
    assert r[..|r|] == r;
    assert |r| > |p|;
    var c := r[|p|];
    var pc := p + [c];
    assert r[..|p| + 1] == pc;
    assert pc in s;
    assert IsPrefix(pc, r) && IsPrefix(pc, pc);
    assert Kept(s, denied, pc, pc);
    forall c' | c' in cs ensures !Doomed(s, denied, p + [c'], pc) {
      if c' != c {
        OtherChild(p, c, c', pc);
      }
    }
    assert pc in ChildrenDeleted(s, denied, p, cs);
  }

  /** A sub-key of `p` that survives the deletion of the sub-keys has a
      protected key below it. */
  lemma ChildLeftKept(s: Store, denied: set<Path>, p: Path, cs: seq<string>, c: string)
    requires c in cs && c in Children(ChildrenDeleted(s, denied, p, cs), p)
    ensures Kept(s, denied, p, p)
  {
    var pc := p + [c];
    assert pc in ChildrenDeleted(s, denied, p, cs);
    assert !Doomed(s, denied, pc, pc);
    assert pc[..|pc|] == pc;
    var r :| r in s && Protected(denied, r) && IsPrefix(pc, r) && (IsPrefix(r, pc) || IsPrefix(pc, r));
    assert r[..|p|] == pc[..|p|];
    assert p[..|p|] == p;
    assert IsPrefix(p, r) && IsPrefix(p, p);
  }

  /** After its sub-keys are deleted, `p` still has one exactly when something
      protected was below it. */
  lemma ChildrenLeft(s: Store, denied: set<Path>, p: Path, cs: seq<string>)
    requires PrefixClosed(s) && p in s && !Protected(denied, p)
    requires forall c :: c in cs <==> p + [c] in s
    ensures Children(ChildrenDeleted(s, denied, p, cs), p) != {} <==> Kept(s, denied, p, p)
  {
    var t := ChildrenDeleted(s, denied, p, cs);
    if Kept(s, denied, p, p) {
      var r :| r in s && Protected(denied, r) && IsPrefix(p, r) && (IsPrefix(r, p) || IsPrefix(p, r));
      KeptLeavesChild(s, denied, p, cs, r);
    }
    if Children(t, p) != {} {
      var c :| c in Children(t, p);
      ChildLeftKept(s, denied, p, cs, c);
    }
  }

  /** `p` itself survives the deletion of its sub-keys, and survives the
      whole deletion exactly when it still has a sub-key. */
  lemma FinalSelf(s: Store, denied: set<Path>, p: Path, cs: seq<string>)
    requires PrefixClosed(s) && p in s && !Protected(denied, p)
    requires forall c :: c in cs <==> p + [c] in s
    ensures p in ChildrenDeleted(s, denied, p, cs)
    ensures p in TreeDeleted(s, denied, p) <==> Children(ChildrenDeleted(s, denied, p, cs), p) != {}
  {
    ChildrenLeft(s, denied, p, cs);
    assert IsPrefix(p, p) by { assert p[..|p|] == p; }
    forall c | c in cs ensures !IsPrefix(p + [c], p) {
    }
  }

  /** Every other key survives the whole deletion exactly when it survives
      the deletion of the sub-keys. */
  lemma FinalOther(s: Store, denied: set<Path>, p: Path, cs: seq<string>, q: Path)
    requires PrefixClosed(s) && !Protected(denied, p)
    requires forall c :: c in cs <==> p + [c] in s
    requires q in s && q != p
    ensures q in TreeDeleted(s, denied, p) <==> q in ChildrenDeleted(s, denied, p, cs)
  {
    if IsPrefix(p, q) {
      DoomedBelow(s, denied, p, q);
      var c := q[|p|];
      assert c in cs;
      forall c' | c' in cs && c' != c ensures !IsPrefix(p + [c'], q) {
        OtherChild(p, c, c', q);
      }
    } else {
      forall c' | c' in cs ensures !IsPrefix(p + [c'], q) {
        NotBelowChild(p, c', q);
      }
    }
  }

  /** Once every sub-key of the writable key `p` has been deleted with
      everything below it, deleting `p`, which succeeds exactly when it has no
      sub-keys left, completes the deletion. */
  lemma FinalStep(s: Store, denied: set<Path>, p: Path, cs: seq<string>)
    requires PrefixClosed(s) && p in s && !Protected(denied, p)
    requires forall c :: c in cs <==> p + [c] in s
    ensures var t := ChildrenDeleted(s, denied, p, cs);
      p in t && TreeDeleted(s, denied, p) == if Children(t, p) == {} then t - {p} else t
  {
    var t := ChildrenDeleted(s, denied, p, cs);
    FinalSelf(s, denied, p, cs);
    var got := if Children(t, p) == {} then t - {p} else t;
    forall q | q in s && q != p ensures q in TreeDeleted(s, denied, p) <==> q in got {
      FinalOther(s, denied, p, cs, q);
    }
    SubmapsEqual(s, TreeDeleted(s, denied, p), got);
  }

  /** The names of the sub-keys of `p`, collected by EnumKey with index 0,
      1, ... until it raises. */
  method ListSubkeys(hive: Hive, p: Path) returns (subkeys: seq<string>)
    requires p in hive.store
    ensures subkeys == SubkeyNames(hive.store, p)
  {
    ghost var names := SubkeyNames(hive.store, p);
    subkeys := [];
    var i := 0;
    while true
      invariant i <= |names| && subkeys == names[..i]
      decreases |names| - i
    {
      var name := hive.EnumKey(p, i);
      if name.None? {
        break;
      }
      assert names[..i + 1] == names[..i] + [names[i]];
      subkeys := subkeys + [name.value];
      i := i + 1;
    }
    assert names[..i] == names;
  }

  /** _delete_registry_key: a key that cannot be opened for full access is left
      alone; otherwise its sub-keys are enumerated, each is deleted the same
      way, and the key itself is deleted, which fails, silently, while it
      still has sub-keys. */
  method DeleteRegistryKey(hive: Hive, p: Path)
    requires hive.Valid()
    modifies hive
    ensures hive.Valid()
    ensures hive.store == TreeDeleted(old(hive.store), hive.denied, p)
    decreases Subtree(hive.store, p)
  {
    var ok := hive.OpenKey(p, true);
    if !ok {
      TreeDeletedUnopened(hive.store, hive.denied, p);
      return;
    }

    // Delete all sub-keys first.
    var subkeys := ListSubkeys(hive, p);
    ghost var s0 := hive.store;

    var j := 0;
    while j < |subkeys|
      invariant 0 <= j <= |subkeys|
      invariant hive.Valid()
      invariant hive.store == ChildrenDeleted(s0, hive.denied, p, subkeys[..j])
    {
      ChildSubtreeSmaller(s0, hive.denied, p, subkeys[..j], subkeys[j]);
      DeleteRegistryKey(hive, p + [subkeys[j]]);
      assert subkeys[j] !in subkeys[..j];
      ChildNext(s0, hive.denied, p, subkeys, j);
      j := j + 1;
    }
    assert subkeys[..j] == subkeys;

    FinalStep(s0, hive.denied, p, subkeys);
    var deleted := hive.DeleteKey(p);
  }
}
