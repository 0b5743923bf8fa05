/** Removing the launcher's registrations (SlicerLauncher.unassociate_files):
    per extension, clear the default where it names the ProgID and remove the
    ProgID from both open-with lists, every registry error swallowed; then
    delete the ProgID's own key tree. */
module Unassociate {
  import opened Names
  import opened Registry
  import opened LauncherKeys
  import opened KeyDeletion
  import opened Associate

  /** The store after a step, and whether the extension goes on the removed list. */
  datatype Removal = Removal(store: Store, removed: bool)

  /** The default of the extension's key is deleted only when the key can be
      opened for writing and its default is the ProgID text. */
  function ClearDefault(s: Store, denied: set<Path>, ext: string): (r: Removal)
    ensures r.store.Keys == s.Keys
    ensures r.removed <==> !Protected(denied, ExtKey(ext)) && Lookup(s, ExtKey(ext), "") == Some(Sz(ProgId))
    ensures Lookup(r.store, ExtKey(ext), "") == if r.removed then None else Lookup(s, ExtKey(ext), "")
    ensures forall k, n :: (k != ExtKey(ext) || n != "") ==> Lookup(r.store, k, n) == Lookup(s, k, n)
  {
    var k := ExtKey(ext);
    if k in s && !Protected(denied, k) && Lookup(s, k, "") == Some(Sz(ProgId)) then Removal(Cleared(s, k, ""), true)
    else Removal(s, false)
  }

  /** The ProgID's value of an open-with key is deleted when the key can be
      opened for writing and the value exists. */
  function DropProgId(s: Store, denied: set<Path>, k: Path): (r: Store)
    ensures r.Keys == s.Keys
    ensures Lookup(r, k, ProgId) == if Protected(denied, k) then Lookup(s, k, ProgId) else None
    ensures forall q, n :: (q != k || n != ProgId) ==> Lookup(r, q, n) == Lookup(s, q, n)
  {
    if k in s && !Protected(denied, k) && ProgId in s[k] then Cleared(s, k, ProgId) else s
  }

  /** The body of the per-extension try block for a normalized extension. */
  function UnassociateExt(s: Store, denied: set<Path>, ext: string): Removal
  {
    var r := ClearDefault(s, denied, ext);
    Removal(DropProgId(DropProgId(r.store, denied, OpenWithKey(ext)), denied, UserChoiceKey(ext)), r.removed)
  }

  datatype Outcome = Outcome(store: Store, removed: seq<string>)

  /** The per-extension loop over `exts`, in order. */
  function UnassociateAll(s: Store, denied: set<Path>, exts: seq<string>): Outcome
    decreases |exts|
  {
    if exts == [] then Outcome(s, [])
    else
      var r := UnassociateAll(s, denied, exts[..|exts| - 1]);
      var ext := Normalize(exts[|exts| - 1]);
      var u := UnassociateExt(r.store, denied, ext);
      Outcome(u.store, r.removed + if u.removed then [ext] else [])
  }

  // ---------------------------------------------------------------------------
  // What the loop may touch.

  /** `t` is `s` with some values deleted: the same keys, and every value
      either as it was or gone. */
  ghost predicate OnlyRemoved(s: Store, t: Store)
  {
    t.Keys == s.Keys && forall k, n :: Lookup(t, k, n) == Lookup(s, k, n) || Lookup(t, k, n) == None
  }

  lemma OnlyRemovedTransitive(s: Store, t: Store, u: Store)
    requires OnlyRemoved(s, t) && OnlyRemoved(t, u)
    ensures OnlyRemoved(s, u)
  {
    forall k, n ensures Lookup(u, k, n) == Lookup(s, k, n) || Lookup(u, k, n) == None {
      assert Lookup(t, k, n) == Lookup(s, k, n) || Lookup(t, k, n) == None;
      assert Lookup(u, k, n) == Lookup(t, k, n) || Lookup(u, k, n) == None;
    }
  }

  /** The values unassociating `ext` may delete: the default of its key and
      the ProgID's open-with values, each only on a key open to writing. */
  predicate TargetOf(denied: set<Path>, ext: string, k: Path, n: string)
  {
    !Protected(denied, k)
    && ((k == ExtKey(ext) && n == "") || (n == ProgId && (k == OpenWithKey(ext) || k == UserChoiceKey(ext))))
  }

  predicate IsTarget(denied: set<Path>, exts: seq<string>, k: Path, n: string)
    decreases |exts|
  {
    exts != [] && (TargetOf(denied, Normalize(exts[|exts| - 1]), k, n) || IsTarget(denied, exts[..|exts| - 1], k, n))
  }

  lemma {:induction false} IsTargetIff(denied: set<Path>, exts: seq<string>, k: Path, n: string)
    ensures IsTarget(denied, exts, k, n) <==> exists i :: 0 <= i < |exts| && TargetOf(denied, Normalize(exts[i]), k, n)
    decreases |exts|
  {
    if exts != [] {
      var init := exts[..|exts| - 1];
      IsTargetIff(denied, init, k, n);
      if IsTarget(denied, init, k, n) {
        var i :| 0 <= i < |init| && TargetOf(denied, Normalize(init[i]), k, n);
        assert exts[i] == init[i];
      }
      forall i | 0 <= i < |exts| - 1 && TargetOf(denied, Normalize(exts[i]), k, n)
        ensures IsTarget(denied, init, k, n)
      {
        assert init[i] == exts[i];
      }
    }
  }

  lemma UnassociateExtFrame(s: Store, denied: set<Path>, ext: string)
    ensures OnlyRemoved(s, UnassociateExt(s, denied, ext).store)
    ensures forall k, n :: !TargetOf(denied, ext, k, n) ==> Lookup(UnassociateExt(s, denied, ext).store, k, n) == Lookup(s, k, n)
  {
    var r := ClearDefault(s, denied, ext);
    var t := DropProgId(r.store, denied, OpenWithKey(ext));
    var u := DropProgId(t, denied, UserChoiceKey(ext));
    assert OnlyRemoved(s, r.store);
    assert OnlyRemoved(r.store, t);
    assert OnlyRemoved(t, u);
    OnlyRemovedTransitive(s, r.store, t);
    OnlyRemovedTransitive(s, t, u);
  }

  /** Unassociating removes values and nothing else: no key disappears, no
      value is rewritten, and the only values deleted are the defaults and
      open-with ProgID values of the configured extensions, on keys the user
      may write. In particular a default that names another program is never
      touched. */
  lemma {:induction false} UnassociateAllFrame(s: Store, denied: set<Path>, exts: seq<string>)
    ensures OnlyRemoved(s, UnassociateAll(s, denied, exts).store)
    ensures forall k, n :: !IsTarget(denied, exts, k, n) ==> Lookup(UnassociateAll(s, denied, exts).store, k, n) == Lookup(s, k, n)
    ensures forall k :: Lookup(s, k, "") != Some(Sz(ProgId)) ==> Lookup(UnassociateAll(s, denied, exts).store, k, "") == Lookup(s, k, "")
    decreases |exts|
  {
    if exts == [] {
    } else {
      var init := exts[..|exts| - 1];
      var r := UnassociateAll(s, denied, init);
      var ext := Normalize(exts[|exts| - 1]);
      UnassociateAllFrame(s, denied, init);
      UnassociateExtFrame(r.store, denied, ext);
      OnlyRemovedTransitive(s, r.store, UnassociateExt(r.store, denied, ext).store);
      var u := UnassociateExt(r.store, denied, ext);
      forall k ensures Lookup(s, k, "") != Some(Sz(ProgId)) ==> Lookup(u.store, k, "") == Lookup(s, k, "") {
        if Lookup(s, k, "") != Some(Sz(ProgId)) && k == ExtKey(ext) {
          assert ClearDefault(r.store, denied, ext).removed == false;
        }
      }
    }
  }

  // ---------------------------------------------------------------------------
  // What the loop removes.

  /** No trace of the launcher is left for `ext` on the keys the user may write. */
  ghost predicate NoTrace(t: Store, denied: set<Path>, ext: string)
  {
    (!Protected(denied, ExtKey(ext)) ==> Lookup(t, ExtKey(ext), "") != Some(Sz(ProgId)))
    && (!Protected(denied, OpenWithKey(ext)) ==> Lookup(t, OpenWithKey(ext), ProgId) == None)
    && (!Protected(denied, UserChoiceKey(ext)) ==> Lookup(t, UserChoiceKey(ext), ProgId) == None)
  }

  lemma NoTraceStays(s: Store, t: Store, denied: set<Path>, ext: string)
    requires NoTrace(s, denied, ext) && OnlyRemoved(s, t)
    ensures NoTrace(t, denied, ext)
  {
    assert Lookup(t, ExtKey(ext), "") == Lookup(s, ExtKey(ext), "") || Lookup(t, ExtKey(ext), "") == None;
    assert Lookup(t, OpenWithKey(ext), ProgId) == Lookup(s, OpenWithKey(ext), ProgId) || Lookup(t, OpenWithKey(ext), ProgId) == None;
    assert Lookup(t, UserChoiceKey(ext), ProgId) == Lookup(s, UserChoiceKey(ext), ProgId) || Lookup(t, UserChoiceKey(ext), ProgId) == None;
  }

  lemma UnassociateExtClears(s: Store, denied: set<Path>, ext: string)
    requires IsNormalized(ext)
    ensures NoTrace(UnassociateExt(s, denied, ext).store, denied, ext)
  {
    KeyShapes(ext);
    var r := ClearDefault(s, denied, ext);
    var t := DropProgId(r.store, denied, OpenWithKey(ext));
    assert OpenWithKey(ext) != ExtKey(ext) && UserChoiceKey(ext) != ExtKey(ext);
    assert UserChoiceKey(ext) != OpenWithKey(ext) by {
      assert OpenWithKey(ext)[1] == "Classes";
    }
    assert ProgId != "";
  }

  /** After the loop, every configured extension whose keys the user may
      write is free of the launcher: its default no longer names the ProgID
      and neither open-with list holds it. */
  lemma {:induction false} UnassociateAllClears(s: Store, denied: set<Path>, exts: seq<string>)
    ensures forall i | 0 <= i < |exts| :: NoTrace(UnassociateAll(s, denied, exts).store, denied, Normalize(exts[i]))
    decreases |exts|
  {
    if exts != [] {
      var init := exts[..|exts| - 1];
      var r := UnassociateAll(s, denied, init);
      var ext := Normalize(exts[|exts| - 1]);
      var u := UnassociateExt(r.store, denied, ext);
      UnassociateAllClears(s, denied, init);
      UnassociateExtFrame(r.store, denied, ext);
      UnassociateExtClears(r.store, denied, ext);
      forall i | 0 <= i < |exts| ensures NoTrace(u.store, denied, Normalize(exts[i])) {
        if i < |exts| - 1 {
          assert exts[i] == init[i];
          NoTraceStays(r.store, u.store, denied, Normalize(exts[i]));
        }
      }
    }
  }

  /** `e` is one of the configured extensions, normalized. */
  ghost predicate Listed(exts: seq<string>, e: string)
  {
    exists i :: 0 <= i < |exts| && e == Normalize(exts[i])
  }

  /** The extension's key may be written and its default names the ProgID. */
  ghost predicate Removable(s: Store, denied: set<Path>, e: string)
  {
    !Protected(denied, ExtKey(e)) && Lookup(s, ExtKey(e), "") == Some(Sz(ProgId))
  }

  predicate Distinct(xs: seq<string>)
  {
    forall i, j :: 0 <= i < j < |xs| ==> xs[i] != xs[j]
  }

  lemma ListedLast(exts: seq<string>, e: string)
    requires exts != []
    ensures Listed(exts, e) <==> Listed(exts[..|exts| - 1], e) || e == Normalize(exts[|exts| - 1])
  {
    var init := exts[..|exts| - 1];
    if Listed(exts, e) {
      var i :| 0 <= i < |exts| && e == Normalize(exts[i]);
      if i < |init| {
        assert init[i] == exts[i];
      }
    }
    if Listed(init, e) {
      var i :| 0 <= i < |init| && e == Normalize(init[i]);
      assert exts[i] == init[i];
    }
  }

  lemma DistinctAppend(xs: seq<string>, x: string)
    requires Distinct(xs) && x !in xs
    ensures Distinct(xs + [x])
  {
  }

  /** The removed list holds exactly the configured extensions, normalized,
      whose key the user may write and whose default named the ProgID before
      the loop; each of them once. */
  lemma {:induction false} RemovedExactly(s: Store, denied: set<Path>, exts: seq<string>)
    ensures forall e :: e in UnassociateAll(s, denied, exts).removed <==> Listed(exts, e) && Removable(s, denied, e)
    ensures Distinct(UnassociateAll(s, denied, exts).removed)
    decreases |exts|
  {
    if exts != [] {
      var init := exts[..|exts| - 1];
      var r := UnassociateAll(s, denied, init);
      var ext := Normalize(exts[|exts| - 1]);
      var u := UnassociateExt(r.store, denied, ext);
      RemovedExactly(s, denied, init);
      DefaultAtTurn(s, denied, init, ext);
      assert u.removed <==> !Listed(init, ext) && Removable(s, denied, ext);
      forall e ensures Listed(exts, e) <==> Listed(init, e) || e == ext {
        ListedLast(exts, e);
      }
      if u.removed {
        DistinctAppend(r.removed, ext);
      }
    }
  }

  /** The "no associations were found" message appears exactly when no
      configured extension's writable key had the ProgID as its default. */
  lemma NothingFound(s: Store, denied: set<Path>, exts: seq<string>)
    ensures UnassociateAll(s, denied, exts).removed == [] <==> forall e :: Listed(exts, e) ==> !Removable(s, denied, e)
  {
    var removed := UnassociateAll(s, denied, exts).removed;
    RemovedExactly(s, denied, exts);
    if removed != [] {
      assert removed[0] in removed;
    }
  }

  /** The default of an extension's key as the loop reaches it: still naming
      the ProgID exactly when it did before the loop and no earlier entry of
      the list was the same extension. */
  lemma DefaultAtTurn(s: Store, denied: set<Path>, init: seq<string>, ext: string)
    ensures Removable(UnassociateAll(s, denied, init).store, denied, ext) <==> !Listed(init, ext) && Removable(s, denied, ext)
  {
    var r := UnassociateAll(s, denied, init);
    if Listed(init, ext) {
      var i :| 0 <= i < |init| && ext == Normalize(init[i]);
      UnassociateAllClears(s, denied, init);
      assert NoTrace(r.store, denied, Normalize(init[i]));
    } else {
      UnassociateAllFrame(s, denied, init);
      IsTargetIff(denied, init, ExtKey(ext), "");
      forall i | 0 <= i < |init| ensures !TargetOf(denied, Normalize(init[i]), ExtKey(ext), "") {
        if ExtKey(ext) == ExtKey(Normalize(init[i])) {
          ExtKeyInjective(ext, Normalize(init[i]));
        }
      }
      assert Lookup(r.store, ExtKey(ext), "") == Lookup(s, ExtKey(ext), "");
    }
  }

  // ---------------------------------------------------------------------------
  // Associating, then unassociating.

  lemma {:induction false} AcceptedFrom(denied: set<Path>, exts: seq<string>, e: string)
    requires e in Accepted(denied, exts)
    ensures exists i :: 0 <= i < |exts| && e == Normalize(exts[i])
    ensures FirstProtected(denied, RequiredKeys(e)).None?
    decreases |exts|
  {
    if e != Normalize(exts[0]) || FirstProtected(denied, RequiredKeys(Normalize(exts[0]))).Some? {
      AcceptedFrom(denied, exts[1..], e);
      var i :| 0 <= i < |exts[1..]| && e == Normalize(exts[1..][i]);
      assert exts[i + 1] == exts[1..][i];
    } else {
      assert e == Normalize(exts[0]);
    }
  }

  /** Unassociating after associating undoes the registration: every
      extension that was associated is on the removed list, its default no
      longer names the ProgID and its OpenWithProgids list no longer holds it. */
  lemma AssociateThenUnassociate(s: Store, denied: set<Path>, exts: seq<string>, app: string)
    ensures var a := AssociateAll(s, denied, exts, app);
      var u := UnassociateAll(a.store, denied, exts);
      forall e | e in a.associated ::
        e in u.removed && Lookup(u.store, ExtKey(e), "") == None && Lookup(u.store, OpenWithKey(e), ProgId) == None
  {
    var a := AssociateAll(s, denied, exts, app);
    var u := UnassociateAll(a.store, denied, exts);
    AssociateAllAccounts(s, denied, exts, app);
    AssociateAllRecords(s, denied, exts, app);
    RemovedExactly(a.store, denied, exts);
    UnassociateAllClears(a.store, denied, exts);
    UnassociateAllFrame(a.store, denied, exts);
    forall e | e in a.associated
      ensures e in u.removed && Lookup(u.store, ExtKey(e), "") == None && Lookup(u.store, OpenWithKey(e), ProgId) == None
    {
      AcceptedFrom(denied, exts, e);
      var i :| 0 <= i < |exts| && e == Normalize(exts[i]);
      assert Listed(exts, e);
      RegistrationUndone(a.store, u.store, denied, e, app);
    }
  }

  /** One extension's record, deleted value by value: its default and its
      OpenWithProgids entry are gone, and its default was removable. */
  lemma RegistrationUndone(t: Store, u: Store, denied: set<Path>, e: string, app: string)
    requires HasRecord(t, e, app) && FirstProtected(denied, RequiredKeys(e)).None?
    requires NoTrace(u, denied, e) && OnlyRemoved(t, u)
    ensures Removable(t, denied, e)
    ensures Lookup(u, ExtKey(e), "") == None && Lookup(u, OpenWithKey(e), ProgId) == None
  {
    RecordEntries(t, e, app);
    var ks := RequiredKeys(e);
    assert !Protected(denied, ks[0]) && !Protected(denied, ks[1]);
    assert Lookup(u, ExtKey(e), "") == Lookup(t, ExtKey(e), "") || Lookup(u, ExtKey(e), "") == None;
  }

  // ---------------------------------------------------------------------------
  // The ProgID's key tree.

  /** As written, the loop and the failed attempt to delete the ProgID leave
      the ProgID's key and everything below it, values included, exactly as
      they were. */
  lemma AsWrittenKeepsProgId(s: Store, denied: set<Path>, exts: seq<string>)
    ensures forall k | k in s && IsPrefix(ProgKey, k) :: k in UnassociateAll(s, denied, exts).store
    ensures forall k, n | IsPrefix(ProgKey, k) :: Lookup(UnassociateAll(s, denied, exts).store, k, n) == Lookup(s, k, n)
  {
    UnassociateAllFrame(s, denied, exts);
    forall k, n | IsPrefix(ProgKey, k) ensures !IsTarget(denied, exts, k, n) {
      IsTargetIff(denied, exts, k, n);
      forall i | 0 <= i < |exts| ensures !TargetOf(denied, Normalize(exts[i]), k, n) {
        KeyShapes(Normalize(exts[i]));
      }
    }
  }

  /** Corrected, the ProgID's key tree is gone once nothing in it is
      protected, and nothing outside it is affected by its deletion. */
  lemma CorrectedRemovesProgId(s: Store, denied: set<Path>, exts: seq<string>)
    requires forall k | k in s && IsPrefix(ProgKey, k) :: !Protected(denied, k)
    ensures var t := UnassociateAll(s, denied, exts).store;
      Subtree(TreeDeleted(t, denied, ProgKey), ProgKey) == {}
      && forall k | k in t && !IsPrefix(ProgKey, k) :: k in TreeDeleted(t, denied, ProgKey) && TreeDeleted(t, denied, ProgKey)[k] == t[k]
  {
    var t := UnassociateAll(s, denied, exts).store;
    UnassociateAllFrame(s, denied, exts);
    assert t.Keys == s.Keys;
    TreeDeletedRemovesAll(t, denied, ProgKey);
    TreeDeletedOutside(t, denied, ProgKey);
  }

  // ---------------------------------------------------------------------------
  // The registry calls themselves.

  /** OpenKey for writing, then DeleteValue of the ProgID's value. */
  method RemoveProgIdValue(hive: Hive, k: Path)
    requires hive.Valid()
    modifies hive
    ensures hive.Valid()
    ensures hive.store == DropProgId(old(hive.store), hive.denied, k)
  {
    var ok := hive.OpenKey(k, true);
    if ok {
      ok := hive.DeleteValue(k, ProgId);
    }
  }

  /** The per-extension try block: every step's WindowsError is swallowed. */
  method UnassociateOne(hive: Hive, ext: string) returns (removed: bool)
    requires hive.Valid()
    modifies hive
    ensures hive.Valid()
    ensures UnassociateExt(old(hive.store), hive.denied, ext) == Removal(hive.store, removed)
  {
    removed := false;
    var extKey := ExtKey(ext);
    var ok := hive.OpenKey(extKey, true);
    if ok {
      var current := hive.QueryValue(extKey, "");
      if current == Some(Sz(ProgId)) {
        ok := hive.DeleteValue(extKey, "");
        removed := true;
      }
    }
    RemoveProgIdValue(hive, OpenWithKey(ext));
    RemoveProgIdValue(hive, UserChoiceKey(ext));
  }

  /** The per-extension loop. For extensions `winreg` accepts as key names,
      every registry error inside it is a WindowsError and is swallowed, so
      nothing is ever reported failed. */
  method UnassociateEach(hive: Hive, exts: seq<string>) returns (removed: seq<string>, failed: seq<string>)
    requires hive.Valid()
    modifies hive
    ensures hive.Valid()
    ensures UnassociateAll(old(hive.store), hive.denied, exts) == Outcome(hive.store, removed)
    ensures failed == []
  {
    removed, failed := [], [];
    var i := 0;
    while i < |exts|
      invariant 0 <= i <= |exts|
      invariant hive.Valid()
      invariant UnassociateAll(old(hive.store), hive.denied, exts[..i]) == Outcome(hive.store, removed)
    {
      UnassociateAllNext(old(hive.store), hive.denied, exts, i);
      var ext := Normalize(exts[i]);
      var r := UnassociateOne(hive, ext);
      if r {
        removed := removed + [ext];
      }
      i := i + 1;
    }
    assert exts[..i] == exts;
  }

  lemma UnassociateAllNext(s: Store, denied: set<Path>, exts: seq<string>, i: nat)
    requires i < |exts|
    ensures UnassociateAll(s, denied, exts[..i + 1])
         == var r := UnassociateAll(s, denied, exts[..i]);
            var u := UnassociateExt(r.store, denied, Normalize(exts[i]));
            Outcome(u.store, r.removed + if u.removed then [Normalize(exts[i])] else [])
  {
    assert exts[..i + 1][..i] == exts[..i];
  }

  /** unassociate_files as written: _delete_registry_key names winreg, which
      only the two association methods import, so its first statement raises
      NameError; its own `except WindowsError` does not catch that, the bare
      `except` around the call does, and no registry call is made. */
  method UnassociateFilesAsWritten(hive: Hive, exts: seq<string>) returns (removed: seq<string>, failed: seq<string>)
    requires hive.Valid()
    modifies hive
    ensures hive.Valid()
    ensures UnassociateAll(old(hive.store), hive.denied, exts) == Outcome(hive.store, removed)
    ensures failed == []
  {
    removed, failed := UnassociateEach(hive, exts);
  }

  /** unassociate_files as intended: the loop, then the recursive deletion of
      Software\Classes\SlicerLauncher.File. */
  method UnassociateFiles(hive: Hive, exts: seq<string>) returns (removed: seq<string>, failed: seq<string>)
    requires hive.Valid()
    modifies hive
    ensures hive.Valid()
    ensures removed == UnassociateAll(old(hive.store), hive.denied, exts).removed
    ensures hive.store == TreeDeleted(UnassociateAll(old(hive.store), hive.denied, exts).store, hive.denied, ProgKey)
    ensures failed == []
  {
    removed, failed := UnassociateEach(hive, exts);
    DeleteRegistryKey(hive, ProgKey);
  }
}
