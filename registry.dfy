/** An abstract per-user registry: a store mapping key paths (sequences of
    segment names, relative to the hive root) to the named values of each key,
    the winreg calls the launcher makes as operations on it, and the meaning of
    deleting a key together with everything below it. */
module Registry {
  import opened Names

  datatype Option<T> = None | Some(value: T)

  type Path = seq<string>

  /** A registry value: REG_SZ text, or REG_NONE with empty data. */
  datatype Value = Sz(text: string) | NoData

  type Values = map<string, Value>
  type Store = map<Path, Values>

  /** `p` is `q` or one of its ancestors, segment by segment. */
  predicate IsPrefix(p: Path, q: Path)
  {
    |p| <= |q| && q[..|p|] == p
  }

  /** The root and every ancestor of `p`, and `p` itself. */
  function Prefixes(p: Path): (r: set<Path>)
    ensures forall k :: 0 <= k <= |p| ==> p[..k] in r
    ensures forall q :: q in r ==> IsPrefix(q, p)
  {
    set k | 0 <= k <= |p| :: p[..k]
  }

  /** A well-formed hive: the root exists and every existing key's ancestors exist. */
  ghost predicate PrefixClosed(s: Store)
  {
    [] in s && forall q, k {:trigger q[..k] in s} | q in s && 0 <= k <= |q| :: q[..k] in s
  }

  /** Writes, opening for write and deletion fail on a protected key: the root,
      or a key the user has no write access to. */
  predicate Protected(denied: set<Path>, p: Path)
  {
    p == [] || p in denied
  }

  /** The value named `n` of key `p`, if both exist. */
  function Lookup(s: Store, p: Path, n: string): Option<Value>
  {
    if p in s && n in s[p] then Some(s[p][n]) else None
  }

  function ValuesAt(s: Store, p: Path): Values
  {
    if p in s then s[p] else map[]
  }

  /** `d` laid over `s`: the keys of both; at each key, the values of `s`
      overwritten by those `d` has. */
  function Overlay(s: Store, d: Store): (r: Store)
    ensures r.Keys == s.Keys + d.Keys
  {
    map q | q in s.Keys + d.Keys :: ValuesAt(s, q) + ValuesAt(d, q)
  }

  /** A value of the overlay is the overlaid store's, where it has one. */
  lemma OverlayLookup(s: Store, d: Store, p: Path, n: string)
    ensures Lookup(Overlay(s, d), p, n) == if Lookup(d, p, n).Some? then Lookup(d, p, n) else Lookup(s, p, n)
  {
  }

  lemma ValuesUnionAssociative(x: Values, y: Values, z: Values)
    ensures (x + y) + z == x + (y + z)
  {
  }

  /** At each key, the overlay holds the union of the two value maps. */
  lemma OverlayAt(s: Store, d: Store, q: Path)
    ensures ValuesAt(Overlay(s, d), q) == ValuesAt(s, q) + ValuesAt(d, q)
  {
    if q !in s && q !in d {
      assert ValuesAt(s, q) + ValuesAt(d, q) == map[];
    }
  }

  /** Two stores with the same keys and the same values at each key are equal. */
  lemma StoreExt(l: Store, r: Store)
    requires l.Keys == r.Keys
    requires forall q | q in l :: ValuesAt(l, q) == ValuesAt(r, q)
    ensures l == r
  {
  }

  lemma OverlayAssociative(s: Store, a: Store, b: Store)
    ensures Overlay(Overlay(s, a), b) == Overlay(s, Overlay(a, b))
  {
    var sa, ab := Overlay(s, a), Overlay(a, b);
    var l, r := Overlay(sa, b), Overlay(s, ab);
    forall q | q in l ensures ValuesAt(l, q) == ValuesAt(r, q) {
      OverlayAt(sa, b, q);
      OverlayAt(s, a, q);
      OverlayAt(s, ab, q);
      OverlayAt(a, b, q);
      ValuesUnionAssociative(ValuesAt(s, q), ValuesAt(a, q), ValuesAt(b, q));
    }
    StoreExt(l, r);
  }

  lemma OverlayEmpty(s: Store)
    ensures Overlay(s, map[]) == s && Overlay(map[], s) == s
  {
    forall q | q in s ensures ValuesAt(Overlay(s, map[]), q) == ValuesAt(s, q) {
      OverlayAt(s, map[], q);
      assert ValuesAt(s, q) + map[] == ValuesAt(s, q);
    }
    StoreExt(Overlay(s, map[]), s);
    forall q | q in s ensures ValuesAt(Overlay(map[], s), q) == ValuesAt(s, q) {
      OverlayAt(map[], s, q);
      assert map[] + ValuesAt(s, q) == ValuesAt(s, q);
    }
    StoreExt(Overlay(map[], s), s);
  }

  /** Laying a store over itself changes nothing. */
  lemma OverlaySelf(d: Store)
    ensures Overlay(d, d) == d
  {
    var r := Overlay(d, d);
    assert forall q | q in d :: r[q] == d[q];
  }

  /** Laying the same store twice is laying it once. */
  lemma OverlayIdempotent(s: Store, d: Store)
    ensures Overlay(Overlay(s, d), d) == Overlay(s, d)
  {
    OverlayAssociative(s, d, d);
    OverlaySelf(d);
  }

  function Chain(p: Path): Store
  {
    map q | q in Prefixes(p) :: map[]
  }

  /** CreateKey: `p` and every missing ancestor are added with no values;
      existing keys keep theirs. */
  function Created(s: Store, p: Path): (r: Store)
    ensures r.Keys == s.Keys + Prefixes(p)
    ensures forall q, n :: Lookup(r, q, n) == Lookup(s, q, n)
    ensures PrefixClosed(s) ==> PrefixClosed(r)
  {
    var r := Overlay(s, Chain(p));
    forall q, n ensures Lookup(r, q, n) == Lookup(s, q, n) {
      OverlayLookup(s, Chain(p), q, n);
    }
    assert PrefixClosed(s) ==> forall q, k | q in r && 0 <= k <= |q| :: q[..k] in r by {
      forall q, k | PrefixClosed(s) && q in r && 0 <= k <= |q| ensures q[..k] in r {
        if q !in s {
          var j :| 0 <= j <= |p| && q == p[..j];
          assert q[..k] == p[..k];
        }
      }
    }
    r
  }

  /** Creating a key that exists, with all its ancestors, changes nothing. */
  lemma CreatedExisting(s: Store, p: Path)
    requires Prefixes(p) <= s.Keys
    ensures Created(s, p) == s
  {
    var r := Created(s, p);
    assert forall q | q in s :: r[q] == s[q];
  }

  /** SetValueEx: value `n` of key `p` becomes `v`, nothing else changes. */
  function Put(s: Store, p: Path, n: string, v: Value): (r: Store)
    ensures r.Keys == s.Keys + {p}
    ensures Lookup(r, p, n) == Some(v)
    ensures forall q, m :: (q != p || m != n) ==> Lookup(r, q, m) == Lookup(s, q, m)
  {
    s[p := ValuesAt(s, p)[n := v]]
  }

  lemma PutOverlayAt(s: Store, p: Path, n: string, v: Value, q: Path)
    ensures ValuesAt(Put(s, p, n, v), q) == ValuesAt(Overlay(s, map[p := map[n := v]]), q)
  {
    var d := map[p := map[n := v]];
    OverlayAt(s, d, q);
    if q == p {
      assert ValuesAt(s, p)[n := v] == ValuesAt(s, p) + map[n := v];
    } else {
      assert ValuesAt(s, q) + ValuesAt(d, q) == ValuesAt(s, q);
    }
  }

  /** A SetValueEx lays a one-value store over the store. */
  lemma PutOverlay(s: Store, p: Path, n: string, v: Value)
    ensures Put(s, p, n, v) == Overlay(s, map[p := map[n := v]])
  {
    forall q | q in Put(s, p, n, v) ensures ValuesAt(Put(s, p, n, v), q) == ValuesAt(Overlay(s, map[p := map[n := v]]), q) {
      PutOverlayAt(s, p, n, v, q);
    }
    StoreExt(Put(s, p, n, v), Overlay(s, map[p := map[n := v]]));
  }

  /** DeleteValue: value `n` of the existing key `p` is gone, nothing else changes. */
  function Cleared(s: Store, p: Path, n: string): (r: Store)
    requires p in s
    ensures r.Keys == s.Keys
    ensures Lookup(r, p, n) == None
    ensures forall q, m :: (q != p || m != n) ==> Lookup(r, q, m) == Lookup(s, q, m)
  {
    s[p := s[p] - {n}]
  }

  /** The names of the direct sub-keys of `p`. */
  function Children(s: Store, p: Path): (r: set<string>)
    ensures forall c :: c in r <==> p + [c] in s
  {
    var r := set q | q in s && |q| == |p| + 1 && q[..|p|] == p :: q[|p|];
    assert forall c | p + [c] in s :: c in r by {
      forall c | p + [c] in s ensures c in r {
        var q := p + [c];
        assert q[..|p|] == p && q[|p|] == c;
      }
    }
    assert forall c | c in r :: p + [c] in s by {
      forall c | c in r ensures p + [c] in s {
        var q :| q in s && |q| == |p| + 1 && q[..|p|] == p && q[|p|] == c;
        assert q == p + [c];
      }
    }
    r
  }

  /** The direct sub-keys of `p` in enumeration order. */
  function SubkeyNames(s: Store, p: Path): (r: seq<string>)
    ensures forall c :: c in r <==> p + [c] in s
    ensures forall i, j :: 0 <= i < j < |r| ==> r[i] != r[j]
  {
    SortedNames(Children(s, p))
  }

  /** `p` and every existing key below it. */
  function Subtree(s: Store, p: Path): (r: set<Path>)
    ensures forall q :: q in r <==> q in s && IsPrefix(p, q)
  {
    set q | q in s && IsPrefix(p, q)
  }

  /** The registry, with the calls the launcher makes on it. `denied` decides
      which keys refuse writes: the model's stand-in for access rights. */
  class Hive {
    var store: Store
    const denied: set<Path>

    ghost predicate Valid()
      reads this
    {
      PrefixClosed(store)
    }

    constructor (initial: Store, denied: set<Path>)
      requires PrefixClosed(initial)
      ensures Valid() && store == initial && this.denied == denied
    {
      store := initial;
      this.denied := denied;
    }

    /** winreg.CreateKey: opens `p` for writing, creating it and its missing
        ancestors. */
    method CreateKey(p: Path) returns (ok: bool)
      requires Valid()
      modifies this
      ensures Valid()
      ensures ok == !Protected(denied, p)
      ensures store == if ok then Created(old(store), p) else old(store)
    {
      ok := !Protected(denied, p);
      if ok {
        store := Created(store, p);
      }
    }

    /** winreg.OpenKey: succeeds when `p` exists and, if opened for writing,
        is not protected. */
    method OpenKey(p: Path, write: bool) returns (ok: bool)
      ensures ok <==> p in store && (write ==> !Protected(denied, p))
    {
      ok := p in store && (write ==> !Protected(denied, p));
    }

    /** winreg.QueryValueEx: the value named `n` of `p`, None where winreg raises. */
    method QueryValue(p: Path, n: string) returns (v: Option<Value>)
      ensures v.Some? <==> p in store && n in store[p]
      ensures v.Some? ==> v.value == store[p][n]
    {
      v := Lookup(store, p, n);
    }

    /** winreg.SetValueEx on a key opened for writing. */
    method SetValue(p: Path, n: string, v: Value) returns (ok: bool)
      requires Valid()
      modifies this
      ensures Valid()
      ensures ok == (p in old(store) && !Protected(denied, p))
      ensures store == if ok then Put(old(store), p, n, v) else old(store)
    {
      ok := p in store && !Protected(denied, p);
      if ok {
        store := Put(store, p, n, v);
      }
    }

    /** winreg.DeleteValue: fails when the key or the value does not exist. */
    method DeleteValue(p: Path, n: string) returns (ok: bool)
      requires Valid()
      modifies this
      ensures Valid()
      ensures ok == (p in old(store) && !Protected(denied, p) && n in old(store)[p])
      ensures store == if ok then Cleared(old(store), p, n) else old(store)
    {
      ok := p in store && !Protected(denied, p) && n in store[p];
      if ok {
        store := Cleared(store, p, n);
      }
    }

    /** winreg.EnumKey: the name of the `i`-th sub-key of `p`, None (where
        winreg raises) once `i` is past the last one. */
    method EnumKey(p: Path, i: nat) returns (name: Option<string>)
      ensures name.Some? <==> p in store && i < |SubkeyNames(store, p)|
      ensures name.Some? ==> name.value == SubkeyNames(store, p)[i] && p + [name.value] in store
    {
      if p in store && i < |SubkeyNames(store, p)| {
        name := Some(SubkeyNames(store, p)[i]);
      } else {
        name := None;
      }
    }

    /** winreg.DeleteKey: removes an existing, unprotected key that has no
        sub-keys, with its values. */
    method DeleteKey(p: Path) returns (ok: bool)
      requires Valid()
      modifies this
      ensures Valid()
      ensures ok == (p in old(store) && !Protected(denied, p) && Children(old(store), p) == {})
      ensures store == if ok then old(store) - {p} else old(store)
    {
      ok := p in store && !Protected(denied, p) && Children(store, p) == {};
      if ok {
        ghost var s := store;
        store := store - {p};
        forall q, k | q in store && 0 <= k <= |q| ensures q[..k] in store {
          assert q[..k] in s;
          if k < |q| {
            assert q[..k + 1] in s;
            assert q[..k + 1] == q[..k] + [q[k]];
            assert q[k] !in Children(s, p);
          } else {
            assert q[..k] == q;
          }
        }
      }
    }
  }
}
