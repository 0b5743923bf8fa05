/** Registering the launcher as the handler of each configured extension
    (SlicerLauncher.associate_files). */
module Associate {
  import opened Names
  import opened Registry
  import opened LauncherKeys

  /** CreateKey of `key`, then SetValueEx of `name` := `value` on it. */
  datatype Write = Write(key: Path, name: string, value: Value)

  /** The writes every extension needs, in the order they are made; a refused
      one fails the extension. */
  function RequiredWrites(ext: string, app: string): seq<Write>
  {
    [ Write(ExtKey(ext), "", Sz(ProgId)),
      Write(OpenWithKey(ext), ProgId, NoData),
      Write(ProgKey, "", Sz(Description)),
      Write(ProgKey, "FriendlyTypeName", Sz(FriendlyName)),
      Write(IconKey, "", Sz(IconValue(app))),
      Write(CommandKey, "", Sz(CommandValue(app))) ]
  }

  /** The write to the per-user FileExts list, whose failure is ignored. */
  function BestEffortWrite(ext: string): Write
  {
    Write(UserChoiceKey(ext), ProgId, NoData)
  }

  /** The store after a successful write. */
  function Apply(s: Store, w: Write): (r: Store)
    ensures Lookup(r, w.key, w.name) == Some(w.value)
    ensures forall k, n :: (k != w.key || n != w.name) ==> Lookup(r, k, n) == Lookup(s, k, n)
    ensures r.Keys == s.Keys + Prefixes(w.key)
    ensures PrefixClosed(s) ==> PrefixClosed(r)
  {
    var c := Created(s, w.key);
    assert w.key[..|w.key|] == w.key;
    assert w.key in c;
    var r := Put(c, w.key, w.name, w.value);
    assert r.Keys == c.Keys;
    r
  }

  /** The store so far, and the key whose write raised, if one did. */
  datatype Step = Step(store: Store, refused: Option<Path>)

  /** The writes made one after the other until the first refused one. */
  function ApplyWrites(s: Store, denied: set<Path>, ws: seq<Write>): Step
    decreases |ws|
  {
    if ws == [] then Step(s, None)
    else if Protected(denied, ws[0].key) then Step(s, Some(ws[0].key))
    else ApplyWrites(Apply(s, ws[0]), denied, ws[1..])
  }

  /** The body of the per-extension try block for a normalized extension. */
  function AssociateExt(s: Store, denied: set<Path>, ext: string, app: string): Step
  {
    var r := ApplyWrites(s, denied, RequiredWrites(ext, app));
    if r.refused.Some? then r
    else Step(ApplyWrites(r.store, denied, [BestEffortWrite(ext)]).store, None)
  }

  /** An entry of the failed list: the extension and the key that refused. */
  datatype Failure = Failure(ext: string, key: Path)

  datatype Report = Report(store: Store, associated: seq<string>, failed: seq<Failure>)

  /** The per-extension loop over `exts`, in order. */
  function AssociateAll(s: Store, denied: set<Path>, exts: seq<string>, app: string): Report
    decreases |exts|
  {
    if exts == [] then Report(s, [], [])
    else
      var r := AssociateAll(s, denied, exts[..|exts| - 1], app);
      var ext := Normalize(exts[|exts| - 1]);
      var st := AssociateExt(r.store, denied, ext, app);
      if st.refused.None? then Report(st.store, r.associated + [ext], r.failed)
      else Report(st.store, r.associated, r.failed + [Failure(ext, st.refused.value)])
  }

  // ---------------------------------------------------------------------------
  // Which extensions succeed: only the access rights decide, never the store.

  /** The keys an extension's registration writes to, in order. */
  function RequiredKeys(ext: string): seq<Path>
  {
    [ExtKey(ext), OpenWithKey(ext), ProgKey, ProgKey, IconKey, CommandKey]
  }

  /** The first protected key of `keys`. */
  function FirstProtected(denied: set<Path>, keys: seq<Path>): (r: Option<Path>)
    ensures r.None? <==> forall i :: 0 <= i < |keys| ==> !Protected(denied, keys[i])
    ensures r.Some? ==> Protected(denied, r.value) && r.value in keys
    ensures r.Some? ==> exists i :: 0 <= i < |keys| && keys[i] == r.value && forall j :: 0 <= j < i ==> !Protected(denied, keys[j])
    decreases |keys|
  {
    if keys == [] then None
    else if Protected(denied, keys[0]) then Some(keys[0])
    else
      var r := FirstProtected(denied, keys[1..]);
      if r.Some? then
        var i :| 0 <= i < |keys[1..]| && keys[1..][i] == r.value && forall j :: 0 <= j < i ==> !Protected(denied, keys[1..][j]);
        assert keys[i + 1] == r.value;
        assert forall j :: 0 <= j < i + 1 ==> !Protected(denied, keys[j]) by {
          forall j | 0 <= j < i + 1 ensures !Protected(denied, keys[j]) {
            if j > 0 {
              assert keys[j] == keys[1..][j - 1];
            }
          }
        }
        r
      else r
  }

  function KeysOf(ws: seq<Write>): (r: seq<Path>)
    ensures |r| == |ws| && forall i :: 0 <= i < |ws| ==> r[i] == ws[i].key
  {
    seq(|ws|, i requires 0 <= i < |ws| => ws[i].key)
  }

  /** The writes stop at the first protected key, whatever the store holds. */
  lemma {:induction false} ApplyWritesRefusal(s: Store, denied: set<Path>, ws: seq<Write>)
    ensures ApplyWrites(s, denied, ws).refused == FirstProtected(denied, KeysOf(ws))
    decreases |ws|
  {
    if ws != [] {
      assert KeysOf(ws)[1..] == KeysOf(ws[1..]);
      if !Protected(denied, ws[0].key) {
        ApplyWritesRefusal(Apply(s, ws[0]), denied, ws[1..]);
      }
    }
  }

  lemma RequiredKeysOf(ext: string, app: string)
    ensures KeysOf(RequiredWrites(ext, app)) == RequiredKeys(ext)
  {
  }

  /** An extension fails exactly when one of its required keys is protected,
      and the key reported is the first such, whatever the store holds. */
  lemma AssociateExtOutcome(s: Store, denied: set<Path>, ext: string, app: string)
    ensures AssociateExt(s, denied, ext, app).refused == FirstProtected(denied, RequiredKeys(ext))
  {
    var ws := RequiredWrites(ext, app);
    assert AssociateExt(s, denied, ext, app).refused == ApplyWrites(s, denied, ws).refused;
    ApplyWritesRefusal(s, denied, ws);
    RequiredKeysOf(ext, app);
  }

  /** The extensions that succeed, from the first one on. */
  function Accepted(denied: set<Path>, exts: seq<string>): (r: seq<string>)
    ensures forall e :: e in r ==> IsNormalized(e)
    decreases |exts|
  {
    if exts == [] then []
    else
      var ext := Normalize(exts[0]);
      (if FirstProtected(denied, RequiredKeys(ext)).None? then [ext] else []) + Accepted(denied, exts[1..])
  }

  /** The extensions that fail, with the key that refused, from the first one on. */
  function Rejected(denied: set<Path>, exts: seq<string>): seq<Failure>
    decreases |exts|
  {
    if exts == [] then []
    else
      var ext := Normalize(exts[0]);
      var k := FirstProtected(denied, RequiredKeys(ext));
      (if k.Some? then [Failure(ext, k.value)] else []) + Rejected(denied, exts[1..])
  }

  lemma {:induction false} AcceptedAppend(denied: set<Path>, exts: seq<string>, e: string)
    ensures Accepted(denied, exts + [e])
         == Accepted(denied, exts) + (if FirstProtected(denied, RequiredKeys(Normalize(e))).None? then [Normalize(e)] else [])
    decreases |exts|
  {
    if exts != [] {
      assert (exts + [e])[1..] == exts[1..] + [e];
      AcceptedAppend(denied, exts[1..], e);
    } else {
      assert [e][1..] == [];
    }
  }

  lemma {:induction false} RejectedAppend(denied: set<Path>, exts: seq<string>, e: string)
    ensures Rejected(denied, exts + [e])
         == Rejected(denied, exts)
            + (var k := FirstProtected(denied, RequiredKeys(Normalize(e))); if k.Some? then [Failure(Normalize(e), k.value)] else [])
    decreases |exts|
  {
    if exts != [] {
      assert (exts + [e])[1..] == exts[1..] + [e];
      RejectedAppend(denied, exts[1..], e);
    } else {
      assert [e][1..] == [];
    }
  }

  /** Every extension lands in exactly one of the two lists: each list keeps
      input order, and together they hold as many entries as there were
      extensions. */
  lemma {:induction false} AcceptedRejectedCount(denied: set<Path>, exts: seq<string>)
    ensures |Accepted(denied, exts)| + |Rejected(denied, exts)| == |exts|
    decreases |exts|
  {
    if exts != [] {
      AcceptedRejectedCount(denied, exts[1..]);
    }
  }

  /** The associated list is exactly the extensions whose required keys are
      all writable, normalized and in input order; the failed list is the rest,
      each with the first key that refused. */
  lemma {:induction false} AssociateAllAccounts(s: Store, denied: set<Path>, exts: seq<string>, app: string)
    ensures AssociateAll(s, denied, exts, app).associated == Accepted(denied, exts)
    ensures AssociateAll(s, denied, exts, app).failed == Rejected(denied, exts)
    ensures |AssociateAll(s, denied, exts, app).associated| + |AssociateAll(s, denied, exts, app).failed| == |exts|
    decreases |exts|
  {
    if exts != [] {
      var init, e := exts[..|exts| - 1], exts[|exts| - 1];
      assert exts == init + [e];
      AssociateAllAccounts(s, denied, init, app);
      AcceptedAppend(denied, init, e);
      RejectedAppend(denied, init, e);
      AssociateExtOutcome(AssociateAll(s, denied, init, app).store, denied, Normalize(e), app);
    }
    AcceptedRejectedCount(denied, exts);
  }

  lemma {:induction false} AcceptedNonEmpty(denied: set<Path>, exts: seq<string>)
    ensures Accepted(denied, exts) != []
        <==> exists i :: 0 <= i < |exts| && FirstProtected(denied, RequiredKeys(Normalize(exts[i]))).None?
    decreases |exts|
  {
    if exts != [] {
      AcceptedNonEmpty(denied, exts[1..]);
      if Accepted(denied, exts[1..]) != [] {
        var i :| 0 <= i < |exts[1..]| && FirstProtected(denied, RequiredKeys(Normalize(exts[1..][i]))).None?;
        assert exts[i + 1] == exts[1..][i];
      }
      forall i | 1 <= i < |exts| && FirstProtected(denied, RequiredKeys(Normalize(exts[i]))).None?
        ensures Accepted(denied, exts[1..]) != []
      {
        assert exts[1..][i - 1] == exts[i];
      }
    }
  }

  /** The operation reports failure exactly when no extension could be
      registered, that is when every extension has a protected required key. */
  lemma OverallFailure(s: Store, denied: set<Path>, exts: seq<string>, app: string)
    ensures AssociateAll(s, denied, exts, app).associated == []
        <==> forall i :: 0 <= i < |exts| ==> FirstProtected(denied, RequiredKeys(Normalize(exts[i]))).Some?
  {
    AssociateAllAccounts(s, denied, exts, app);
    AcceptedNonEmpty(denied, exts);
  }

  lemma RequiredKeysUnderClasses(ext: string)
    ensures forall i :: 0 <= i < |RequiredKeys(ext)| ==> IsPrefix(Classes, RequiredKeys(ext)[i])
  {
    var ks := RequiredKeys(ext);
    assert ks[0][..2] == Classes && ks[1][..2] == Classes;
  }

  lemma {:induction false} FirstProtectedIgnores(denied: set<Path>, extra: set<Path>, keys: seq<Path>)
    requires forall k | k in extra :: IsPrefix(FileExts, k)
    requires forall i :: 0 <= i < |keys| ==> IsPrefix(Classes, keys[i])
    ensures FirstProtected(denied + extra, keys) == FirstProtected(denied, keys)
    decreases |keys|
  {
    if keys != [] {
      assert keys[0][..2] == Classes;
      assert keys[0][1] == "Classes";
      forall k | k in extra ensures k[1] == "Microsoft" {
        assert k[..|FileExts|] == FileExts;
      }
      FirstProtectedIgnores(denied, extra, keys[1..]);
    }
  }

  /** The FileExts writes are best effort: however many FileExts keys refuse
      writes, not one extension moves out of the associated list. */
  lemma {:induction false} BestEffortIgnored(s: Store, denied: set<Path>, extra: set<Path>, exts: seq<string>, app: string)
    requires forall k | k in extra :: IsPrefix(FileExts, k)
    ensures AssociateAll(s, denied + extra, exts, app).associated == AssociateAll(s, denied, exts, app).associated
    ensures AssociateAll(s, denied + extra, exts, app).failed == AssociateAll(s, denied, exts, app).failed
    decreases |exts|
  {
    AssociateAllAccounts(s, denied + extra, exts, app);
    AssociateAllAccounts(s, denied, exts, app);
    AcceptedIgnores(denied, extra, exts);
  }

  lemma {:induction false} AcceptedIgnores(denied: set<Path>, extra: set<Path>, exts: seq<string>)
    requires forall k | k in extra :: IsPrefix(FileExts, k)
    ensures Accepted(denied + extra, exts) == Accepted(denied, exts)
    ensures Rejected(denied + extra, exts) == Rejected(denied, exts)
    decreases |exts|
  {
    if exts != [] {
      RequiredKeysUnderClasses(Normalize(exts[0]));
      FirstProtectedIgnores(denied, extra, RequiredKeys(Normalize(exts[0])));
      AcceptedIgnores(denied, extra, exts[1..]);
    }
  }

  // ---------------------------------------------------------------------------
  // Overwrite semantics: every run lays a fixed set of entries over the store.

  lemma ApplyOverlay(s: Store, w: Write)
    ensures Apply(s, w) == Overlay(s, Apply(map[], w))
  {
    var c, v := Chain(w.key), map[w.key := map[w.name := w.value]];
    PutOverlay(Created(s, w.key), w.key, w.name, w.value);
    PutOverlay(Created(map[], w.key), w.key, w.name, w.value);
    OverlayAssociative(s, c, v);
    OverlayEmpty(c);
  }

  lemma {:induction false} ApplyWritesOverlay(s: Store, denied: set<Path>, ws: seq<Write>)
    ensures ApplyWrites(s, denied, ws).store == Overlay(s, ApplyWrites(map[], denied, ws).store)
    ensures ApplyWrites(s, denied, ws).refused == ApplyWrites(map[], denied, ws).refused
    decreases |ws|
  {
    if ws == [] || Protected(denied, ws[0].key) {
      OverlayEmpty(s);
    } else {
      var a := Apply(map[], ws[0]);
      ApplyOverlay(s, ws[0]);
      ApplyWritesOverlay(Apply(s, ws[0]), denied, ws[1..]);
      ApplyWritesOverlay(a, denied, ws[1..]);
      OverlayAssociative(s, a, ApplyWrites(map[], denied, ws[1..]).store);
    }
  }

  /** One extension's registration lays the same entries over any store: the
      ones it lays over an empty one. */
  lemma AssociateExtOverlay(s: Store, denied: set<Path>, ext: string, app: string)
    ensures AssociateExt(s, denied, ext, app).store == Overlay(s, AssociateExt(map[], denied, ext, app).store)
    ensures AssociateExt(s, denied, ext, app).refused == AssociateExt(map[], denied, ext, app).refused
  {
    var ws, us := RequiredWrites(ext, app), [BestEffortWrite(ext)];
    ApplyWritesOverlay(s, denied, ws);
    var d := ApplyWrites(map[], denied, ws).store;
    ApplyWritesOverlay(Overlay(s, d), denied, us);
    ApplyWritesOverlay(d, denied, us);
    OverlayAssociative(s, d, ApplyWrites(map[], denied, us).store);
  }

  lemma {:induction false} AssociateAllOverlay(s: Store, denied: set<Path>, exts: seq<string>, app: string)
    ensures AssociateAll(s, denied, exts, app).store == Overlay(s, AssociateAll(map[], denied, exts, app).store)
    ensures AssociateAll(s, denied, exts, app).associated == AssociateAll(map[], denied, exts, app).associated
    ensures AssociateAll(s, denied, exts, app).failed == AssociateAll(map[], denied, exts, app).failed
    decreases |exts|
  {
    if exts == [] {
      OverlayEmpty(s);
    } else {
      var init, ext := exts[..|exts| - 1], Normalize(exts[|exts| - 1]);
      AssociateAllOverlay(s, denied, init, app);
      var d := AssociateAll(map[], denied, init, app).store;
      AssociateExtOverlay(Overlay(s, d), denied, ext, app);
      AssociateExtOverlay(d, denied, ext, app);
      OverlayAssociative(s, d, AssociateExt(map[], denied, ext, app).store);
    }
  }

  /** Running the association twice with the same inputs leaves the same
      store and reports the same lists as running it once. */
  lemma AssociateIdempotent(s: Store, denied: set<Path>, exts: seq<string>, app: string)
    ensures AssociateAll(AssociateAll(s, denied, exts, app).store, denied, exts, app)
         == AssociateAll(s, denied, exts, app)
  {
    var once := AssociateAll(s, denied, exts, app);
    AssociateAllOverlay(s, denied, exts, app);
    AssociateAllOverlay(once.store, denied, exts, app);
    OverlayIdempotent(s, AssociateAll(map[], denied, exts, app).store);
  }

  // ---------------------------------------------------------------------------
  // What a registration leaves in the store.

  ghost predicate Holds(s: Store, w: Write)
  {
    Lookup(s, w.key, w.name) == Some(w.value)
  }

  /** Two writes never put different values under the same name of the same key. */
  predicate Compatible(a: Write, b: Write)
  {
    a.key == b.key && a.name == b.name ==> a.value == b.value
  }

  /** The record of an extension: every required entry is in place. */
  ghost predicate HasRecord(s: Store, ext: string, app: string)
  {
    forall w | w in RequiredWrites(ext, app) :: Holds(s, w)
  }

  /** No write of any extension's registration contradicts another
      extension's record: shared entries (the ProgID's own, and an extension's
      default when two extensions name the same key) always get the same value. */
  lemma WritesCompatible(a: string, b: string, app: string)
    requires IsNormalized(a) && IsNormalized(b)
    ensures forall x, y | x in RequiredWrites(a, app) + [BestEffortWrite(a)] && y in RequiredWrites(b, app) :: Compatible(x, y)
  {
    ApartFromProgId(a);
    ApartFromProgId(b);
    assert |ProgKey| == 3 && |IconKey| == 4 && |CommandKey| == 6;
    var xs, ys := RequiredWrites(a, app) + [BestEffortWrite(a)], RequiredWrites(b, app);
    forall i, j | 0 <= i < |xs| && 0 <= j < |ys| ensures Compatible(xs[i], ys[j]) {
    }
  }

  /** An extension's own key is none of the ProgID's keys. */
  lemma ApartFromProgId(ext: string)
    requires IsNormalized(ext)
    ensures ExtKey(ext) != ProgKey && ExtKey(ext) != IconKey && ExtKey(ext) != CommandKey
  {
    KeyShapes(ext);
    assert ProgKey[2] == ProgId && IconKey[2] == ProgId && CommandKey[2] == ProgId;
  }

  lemma {:induction false} ApplyWritesPreserves(s: Store, denied: set<Path>, ws: seq<Write>, w: Write)
    requires Holds(s, w)
    requires forall x | x in ws :: Compatible(x, w)
    ensures Holds(ApplyWrites(s, denied, ws).store, w)
    decreases |ws|
  {
    if ws != [] && !Protected(denied, ws[0].key) {
      assert Compatible(ws[0], w);
      ApplyWritesPreserves(Apply(s, ws[0]), denied, ws[1..], w);
    }
  }

  lemma {:induction false} ApplyWritesEstablishes(s: Store, denied: set<Path>, ws: seq<Write>)
    requires ApplyWrites(s, denied, ws).refused.None?
    requires forall x, y | x in ws && y in ws :: Compatible(x, y)
    ensures forall w | w in ws :: Holds(ApplyWrites(s, denied, ws).store, w)
    decreases |ws|
  {
    if ws != [] {
      ApplyWritesEstablishes(Apply(s, ws[0]), denied, ws[1..]);
      ApplyWritesPreserves(Apply(s, ws[0]), denied, ws[1..], ws[0]);
    }
  }

  /** A registration that succeeds leaves the whole record of its extension. */
  lemma AssociateExtWritesRecord(s: Store, denied: set<Path>, ext: string, app: string)
    requires IsNormalized(ext)
    requires AssociateExt(s, denied, ext, app).refused.None?
    ensures HasRecord(AssociateExt(s, denied, ext, app).store, ext, app)
  {
    var ws := RequiredWrites(ext, app);
    WritesCompatible(ext, ext, app);
    ApplyWritesEstablishes(s, denied, ws);
    var r := ApplyWrites(s, denied, ws).store;
    forall w | w in ws ensures Holds(AssociateExt(s, denied, ext, app).store, w) {
      ApplyWritesPreserves(r, denied, [BestEffortWrite(ext)], w);
    }
  }

  /** A registration, successful or not, leaves other extensions' records intact. */
  lemma AssociateExtKeepsRecord(s: Store, denied: set<Path>, ext: string, other: string, app: string)
    requires IsNormalized(ext) && IsNormalized(other)
    requires HasRecord(s, other, app)
    ensures HasRecord(AssociateExt(s, denied, ext, app).store, other, app)
  {
    WritesCompatible(ext, other, app);
    var ws := RequiredWrites(ext, app);
    forall w | w in RequiredWrites(other, app) ensures Holds(AssociateExt(s, denied, ext, app).store, w) {
      ApplyWritesPreserves(s, denied, ws, w);
      ApplyWritesPreserves(ApplyWrites(s, denied, ws).store, denied, [BestEffortWrite(ext)], w);
    }
  }

  /** After the loop, every extension in the associated list has its default
      pointing at the ProgID, the ProgID among its open-with candidates, and
      the ProgID's description, icon `<app>,0` and command `"<app>" "%1"` in
      place, even when later extensions failed. */
  lemma {:induction false} AssociateAllRecords(s: Store, denied: set<Path>, exts: seq<string>, app: string)
    ensures forall e | e in AssociateAll(s, denied, exts, app).associated :: IsNormalized(e) && HasRecord(AssociateAll(s, denied, exts, app).store, e, app)
    decreases |exts|
  {
    if exts != [] {
      var init, ext := exts[..|exts| - 1], Normalize(exts[|exts| - 1]);
      AssociateAllRecords(s, denied, init, app);
      var r := AssociateAll(s, denied, init, app);
      forall e | e in r.associated ensures HasRecord(AssociateExt(r.store, denied, ext, app).store, e, app) {
        AssociateExtKeepsRecord(r.store, denied, ext, e, app);
      }
      if AssociateExt(r.store, denied, ext, app).refused.None? {
        AssociateExtWritesRecord(r.store, denied, ext, app);
      }
    }
  }

  /** The FileExts entry of one extension agrees with every write of any
      registration: the required keys lie under Software\Classes, and the
      other FileExts writes put the same empty value. */
  lemma BestEffortCompatible(ext: string, other: string, app: string)
    requires IsNormalized(other)
    ensures forall x | x in RequiredWrites(ext, app) + [BestEffortWrite(ext)] :: Compatible(x, BestEffortWrite(other))
  {
    KeyShapes(other);
    RequiredKeysUnderClasses(ext);
    var xs := RequiredWrites(ext, app) + [BestEffortWrite(ext)];
    forall i | 0 <= i < |xs| ensures Compatible(xs[i], BestEffortWrite(other)) {
      if i < 6 {
        assert xs[i].key == RequiredKeys(ext)[i];
        assert xs[i].key[..2] == Classes;
      }
    }
  }

  /** A successful registration whose FileExts key accepts the write leaves
      the ProgID in that key's OpenWithProgids list. */
  lemma AssociateExtBestEffort(s: Store, denied: set<Path>, ext: string, app: string)
    requires AssociateExt(s, denied, ext, app).refused.None? && !Protected(denied, UserChoiceKey(ext))
    ensures Holds(AssociateExt(s, denied, ext, app).store, BestEffortWrite(ext))
  {
    var r := ApplyWrites(s, denied, RequiredWrites(ext, app)).store;
    ApplyWritesUnfold(r, denied, [BestEffortWrite(ext)]);
    assert [BestEffortWrite(ext)][1..] == [];
  }

  /** A registration, successful or not, keeps another extension's FileExts entry. */
  lemma AssociateExtKeepsBestEffort(s: Store, denied: set<Path>, ext: string, other: string, app: string)
    requires IsNormalized(other)
    requires Holds(s, BestEffortWrite(other))
    ensures Holds(AssociateExt(s, denied, ext, app).store, BestEffortWrite(other))
  {
    var ws := RequiredWrites(ext, app);
    BestEffortCompatible(ext, other, app);
    ApplyWritesPreserves(s, denied, ws, BestEffortWrite(other));
    ApplyWritesPreserves(ApplyWrites(s, denied, ws).store, denied, [BestEffortWrite(ext)], BestEffortWrite(other));
  }

  /** After the loop, every associated extension whose FileExts key accepts
      writes has the ProgID in that key's OpenWithProgids list. */
  lemma {:induction false} AssociateAllBestEffort(s: Store, denied: set<Path>, exts: seq<string>, app: string)
    ensures forall e | e in AssociateAll(s, denied, exts, app).associated :: IsNormalized(e)
    ensures forall e | e in AssociateAll(s, denied, exts, app).associated && !Protected(denied, UserChoiceKey(e))
      :: Lookup(AssociateAll(s, denied, exts, app).store, UserChoiceKey(e), ProgId) == Some(NoData)
    decreases |exts|
  {
    if exts != [] {
      var init, ext := exts[..|exts| - 1], Normalize(exts[|exts| - 1]);
      AssociateAllBestEffort(s, denied, init, app);
      BestEffortStep(AssociateAll(s, denied, init, app), denied, ext, app);
    }
  }

  /** One turn of the loop keeps the FileExts entries of the extensions
      associated so far, and adds the current one's when it succeeds. */
  lemma BestEffortStep(r: Report, denied: set<Path>, ext: string, app: string)
    requires IsNormalized(ext)
    requires forall e | e in r.associated :: IsNormalized(e)
    requires forall e | e in r.associated && !Protected(denied, UserChoiceKey(e)) :: Holds(r.store, BestEffortWrite(e))
    ensures var st := AssociateExt(r.store, denied, ext, app);
      var assoc := if st.refused.None? then r.associated + [ext] else r.associated;
      forall e | e in assoc && !Protected(denied, UserChoiceKey(e)) :: Holds(st.store, BestEffortWrite(e))
  {
    var st := AssociateExt(r.store, denied, ext, app);
    forall e | e in r.associated && !Protected(denied, UserChoiceKey(e)) ensures Holds(st.store, BestEffortWrite(e)) {
      AssociateExtKeepsBestEffort(r.store, denied, ext, e, app);
    }
    if st.refused.None? && !Protected(denied, UserChoiceKey(ext)) {
      AssociateExtBestEffort(r.store, denied, ext, app);
    }
  }

  /** The record spelled out entry by entry. */
  lemma RecordEntries(s: Store, ext: string, app: string)
    requires HasRecord(s, ext, app)
    ensures Lookup(s, ExtKey(ext), "") == Some(Sz(ProgId))
    ensures Lookup(s, OpenWithKey(ext), ProgId) == Some(NoData)
    ensures Lookup(s, ProgKey, "") == Some(Sz(Description))
    ensures Lookup(s, ProgKey, "FriendlyTypeName") == Some(Sz(FriendlyName))
    ensures Lookup(s, IconKey, "") == Some(Sz(IconValue(app)))
    ensures Lookup(s, CommandKey, "") == Some(Sz(CommandValue(app)))
  {
    var ws := RequiredWrites(ext, app);
    assert Holds(s, ws[0]) && Holds(s, ws[1]) && Holds(s, ws[2]);
    assert Holds(s, ws[3]) && Holds(s, ws[4]) && Holds(s, ws[5]);
  }

  lemma {:induction false} ApplyWritesFrame(s: Store, denied: set<Path>, ws: seq<Write>, k: Path, n: string)
    requires forall w | w in ws :: w.key != k || w.name != n
    ensures Lookup(ApplyWrites(s, denied, ws).store, k, n) == Lookup(s, k, n)
    ensures s.Keys <= ApplyWrites(s, denied, ws).store.Keys
    decreases |ws|
  {
    if ws != [] && !Protected(denied, ws[0].key) {
      ApplyWritesFrame(Apply(s, ws[0]), denied, ws[1..], k, n);
    }
  }

  /** Registering an extension changes no value other than the entries it
      writes, and removes no key. */
  lemma AssociateExtFrame(s: Store, denied: set<Path>, ext: string, app: string, k: Path, n: string)
    requires forall w | w in RequiredWrites(ext, app) + [BestEffortWrite(ext)] :: w.key != k || w.name != n
    ensures Lookup(AssociateExt(s, denied, ext, app).store, k, n) == Lookup(s, k, n)
    ensures s.Keys <= AssociateExt(s, denied, ext, app).store.Keys
  {
    var ws := RequiredWrites(ext, app);
    ApplyWritesFrame(s, denied, ws, k, n);
    assert BestEffortWrite(ext) in ws + [BestEffortWrite(ext)];
    ApplyWritesFrame(ApplyWrites(s, denied, ws).store, denied, [BestEffortWrite(ext)], k, n);
  }

  /** A failing extension is not rolled back: when its extension key is
      writable but its OpenWithProgids key is not, it is reported failed and
      yet its default already points at the ProgID. */
  lemma FailureNotRolledBack(s: Store, denied: set<Path>, ext: string, app: string)
    requires !Protected(denied, ExtKey(ext)) && Protected(denied, OpenWithKey(ext))
    ensures AssociateExt(s, denied, ext, app).refused == Some(OpenWithKey(ext))
    ensures Lookup(AssociateExt(s, denied, ext, app).store, ExtKey(ext), "") == Some(Sz(ProgId))
  {
    var ws := RequiredWrites(ext, app);
    assert ApplyWrites(s, denied, ws) == ApplyWrites(Apply(s, ws[0]), denied, ws[1..]);
    assert ws[1..][0] == ws[1];
    assert ApplyWrites(Apply(s, ws[0]), denied, ws[1..]) == Step(Apply(s, ws[0]), Some(OpenWithKey(ext)));
  }

  // ---------------------------------------------------------------------------
  // The registry calls themselves.

  /** One step of ApplyWrites. */
  lemma ApplyWritesUnfold(s: Store, denied: set<Path>, ws: seq<Write>)
    requires ws != []
    ensures ApplyWrites(s, denied, ws)
         == if Protected(denied, ws[0].key) then Step(s, Some(ws[0].key)) else ApplyWrites(Apply(s, ws[0]), denied, ws[1..])
  {
  }

  /** A CreateKey of `key` followed by a SetValueEx on it: the write `w`. */
  method WriteEntry(hive: Hive, w: Write) returns (ok: bool)
    requires hive.Valid()
    modifies hive
    ensures hive.Valid()
    ensures ok == !Protected(hive.denied, w.key)
    ensures hive.store == if ok then Apply(old(hive.store), w) else old(hive.store)
  {
    ok := hive.CreateKey(w.key);
    if ok {
      assert w.key[..|w.key|] == w.key;
      ok := hive.SetValue(w.key, w.name, w.value);
    }
  }

  /** A further SetValueEx on a key that is already open is the write. */
  lemma PutExisting(s: Store, w: Write)
    requires PrefixClosed(s) && w.key in s
    ensures Put(s, w.key, w.name, w.value) == Apply(s, w)
  {
    CreatedExisting(s, w.key);
  }

  /** ApplyWrites of the required writes, spelled out: the two writes of
      the extension's own keys, ... */
  lemma RequiredWritesExt(s0: Store, denied: set<Path>, ext: string, app: string)
    ensures ApplyWrites(s0, denied, RequiredWrites(ext, app))
         == var w0, w1 := Write(ExtKey(ext), "", Sz(ProgId)), Write(OpenWithKey(ext), ProgId, NoData);
            if Protected(denied, w0.key) then Step(s0, Some(w0.key)) else
            var s1 := Apply(s0, w0);
            if Protected(denied, w1.key) then Step(s1, Some(w1.key)) else
            ApplyWrites(Apply(s1, w1), denied, RequiredWrites(ext, app)[2..])
  {
    var ws := RequiredWrites(ext, app);
    assert ws[1..][1..] == ws[2..];
    ApplyWritesUnfold(s0, denied, ws);
    if !Protected(denied, ws[0].key) {
      ApplyWritesUnfold(Apply(s0, ws[0]), denied, ws[1..]);
    }
  }

  /** ... the two values of the ProgID's key, ... */
  lemma RequiredWritesProgId(s2: Store, denied: set<Path>, ext: string, app: string)
    ensures ApplyWrites(s2, denied, RequiredWrites(ext, app)[2..])
         == var w2, w3 := Write(ProgKey, "", Sz(Description)), Write(ProgKey, "FriendlyTypeName", Sz(FriendlyName));
            if Protected(denied, ProgKey) then Step(s2, Some(ProgKey)) else
            ApplyWrites(Apply(Apply(s2, w2), w3), denied, RequiredWrites(ext, app)[4..])
  {
    var ws := RequiredWrites(ext, app);
    var w2, w3 := Write(ProgKey, "", Sz(Description)), Write(ProgKey, "FriendlyTypeName", Sz(FriendlyName));
    assert ws[2..] == [w2] + ws[3..] && ws[3..] == [w3] + ws[4..];
    ApplyWritesUnfold(s2, denied, ws[2..]);
    if !Protected(denied, ProgKey) {
      var s3 := Apply(s2, w2);
      assert ApplyWrites(s2, denied, ws[2..]) == ApplyWrites(s3, denied, ws[3..]);
      ApplyWritesUnfold(s3, denied, ws[3..]);
    }
  }

  /** ... and the icon and the command. */
  lemma RequiredWritesShell(s4: Store, denied: set<Path>, ext: string, app: string)
    ensures ApplyWrites(s4, denied, RequiredWrites(ext, app)[4..])
         == var w4, w5 := Write(IconKey, "", Sz(IconValue(app))), Write(CommandKey, "", Sz(CommandValue(app)));
            if Protected(denied, w4.key) then Step(s4, Some(w4.key)) else
            var s5 := Apply(s4, w4);
            if Protected(denied, w5.key) then Step(s5, Some(w5.key)) else
            Step(Apply(s5, w5), None)
  {
    var ws := RequiredWrites(ext, app);
    assert ws[4..][1..] == ws[5..] && ws[5..][1..] == [];
    ApplyWritesUnfold(s4, denied, ws[4..]);
    if !Protected(denied, ws[4].key) {
      ApplyWritesUnfold(Apply(s4, ws[4]), denied, ws[5..]);
    }
  }

  /** The required writes of the per-extension try block as winreg calls;
      the first call that raises ends the block. */
  method WriteRequired(hive: Hive, ext: string, app: string) returns (refused: Option<Path>)
    requires hive.Valid()
    modifies hive
    ensures hive.Valid()
    ensures ApplyWrites(old(hive.store), hive.denied, RequiredWrites(ext, app)) == Step(hive.store, refused)
  {
    RequiredWritesExt(hive.store, hive.denied, ext, app);

    var ok := WriteEntry(hive, Write(ExtKey(ext), "", Sz(ProgId)));
    if !ok { return Some(ExtKey(ext)); }

    ok := WriteEntry(hive, Write(OpenWithKey(ext), ProgId, NoData));
    if !ok { return Some(OpenWithKey(ext)); }

    // One CreateKey of the ProgID's key, then two values on it.
    RequiredWritesProgId(hive.store, hive.denied, ext, app);
    ok := WriteEntry(hive, Write(ProgKey, "", Sz(Description)));
    if !ok { return Some(ProgKey); }
    ghost var s3 := hive.store;
    ok := hive.SetValue(ProgKey, "FriendlyTypeName", Sz(FriendlyName));
    PutExisting(s3, Write(ProgKey, "FriendlyTypeName", Sz(FriendlyName)));
    RequiredWritesShell(hive.store, hive.denied, ext, app);

    ok := WriteEntry(hive, Write(IconKey, "", Sz(IconValue(app))));
    if !ok { return Some(IconKey); }

    ok := WriteEntry(hive, Write(CommandKey, "", Sz(CommandValue(app))));
    if !ok { return Some(CommandKey); }
    refused := None;
  }

  /** The per-extension try block: the required writes, then, when they all
      went through, the FileExts write whose failure is swallowed. */
  method AssociateOne(hive: Hive, ext: string, app: string) returns (refused: Option<Path>)
    requires hive.Valid()
    modifies hive
    ensures hive.Valid()
    ensures AssociateExt(old(hive.store), hive.denied, ext, app) == Step(hive.store, refused)
  {
    refused := WriteRequired(hive, ext, app);
    if refused.Some? { return; }
    ghost var s1 := hive.store;
    var ok := WriteEntry(hive, BestEffortWrite(ext));
    ApplyWritesUnfold(s1, hive.denied, [BestEffortWrite(ext)]);
    assert [BestEffortWrite(ext)][1..] == [];
  }

  /** One more extension: AssociateAll picks up where it left off. */
  lemma AssociateAllNext(s: Store, denied: set<Path>, exts: seq<string>, i: nat, app: string)
    requires i < |exts|
    ensures AssociateAll(s, denied, exts[..i + 1], app)
         == var r := AssociateAll(s, denied, exts[..i], app);
            var st := AssociateExt(r.store, denied, Normalize(exts[i]), app);
            if st.refused.None? then Report(st.store, r.associated + [Normalize(exts[i])], r.failed)
            else Report(st.store, r.associated, r.failed + [Failure(Normalize(exts[i]), st.refused.value)])
  {
    assert exts[..i + 1][..i] == exts[..i];
  }

  /** The per-extension loop of associate_files and its overall verdict:
      `ok` is false (the failure dialog) exactly when nothing was associated. */
  method AssociateFiles(hive: Hive, exts: seq<string>, app: string)
      returns (associated: seq<string>, failed: seq<Failure>, ok: bool)
    requires hive.Valid()
    modifies hive
    ensures hive.Valid()
    ensures AssociateAll(old(hive.store), hive.denied, exts, app) == Report(hive.store, associated, failed)
    ensures ok <==> associated != []
  {
    associated, failed := [], [];
    var i := 0;
    while i < |exts|
      invariant 0 <= i <= |exts|
      invariant hive.Valid()
      invariant AssociateAll(old(hive.store), hive.denied, exts[..i], app) == Report(hive.store, associated, failed)
    {
      AssociateAllNext(old(hive.store), hive.denied, exts, i, app);
      var ext := Normalize(exts[i]);
      var refused := AssociateOne(hive, ext, app);
      if refused.None? {
        associated := associated + [ext];
      } else {
        failed := failed + [Failure(ext, refused.value)];
      }
      i := i + 1;
    }
    assert exts[..i] == exts;
    ok := associated != [];
  }

}
