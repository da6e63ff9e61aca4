/**
 * `toSnake` and `toCamel` (src/utils/utilities.ts): copy a plain object, renaming every
 * key and dropping every property whose value is `undefined`.
 */
module Records {
  import opened KeyCase

  /** A property value: JavaScript's `undefined`, or any other value of type `V`. */
  datatype Js<V> = Undefined | Defined(value: V)

  /** An object as `Object.entries` lists it: key/value pairs in enumeration order. */
  type Object<V> = seq<(string, Js<V>)>

  /** Property names of an object are distinct. */
  predicate WellFormed<V>(o: Object<V>) {
    forall i, j :: 0 <= i < j < |o| ==> o[i].0 != o[j].0
  }

  function Keys<V>(o: Object<V>): set<string> {
    set i | 0 <= i < |o| :: o[i].0
  }

  lemma KeysCons<V>(e: (string, Js<V>), o: Object<V>)
    ensures Keys([e] + o) == {e.0} + Keys(o)
  {
    var r := [e] + o;
    assert r[0].0 == e.0;
    forall k | k in Keys(o)
      ensures k in Keys(r)
    {
      var i :| 0 <= i < |o| && o[i].0 == k;
      assert r[i + 1] == o[i];
    }
    forall k | k in Keys(r)
      ensures k in {e.0} + Keys(o)
    {
      var i :| 0 <= i < |r| && r[i].0 == k;
      if i > 0 {
        assert r[i] == o[i - 1];
      }
    }
  }

  lemma KeysAppend<V>(a: Object<V>, b: Object<V>)
    ensures Keys(a + b) == Keys(a) + Keys(b)
  {
    var r := a + b;
    forall k | k in Keys(a) + Keys(b)
      ensures k in Keys(r)
    {
      if k in Keys(a) {
        var i :| 0 <= i < |a| && a[i].0 == k;
        assert r[i] == a[i];
      } else {
        var i :| 0 <= i < |b| && b[i].0 == k;
        assert r[|a| + i] == b[i];
      }
    }
    forall k | k in Keys(r)
      ensures k in Keys(a) + Keys(b)
    {
      var i :| 0 <= i < |r| && r[i].0 == k;
      if i < |a| {
        assert r[i] == a[i];
      } else {
        assert r[i] == b[i - |a|];
      }
    }
  }

  /** The position of key `k` in `o`. */
  function IndexOf<V>(o: Object<V>, k: string): (i: nat)
    requires k in Keys(o)
    ensures i < |o| && o[i].0 == k
    ensures forall j :: 0 <= j < i ==> o[j].0 != k
  {
    assert o == [o[0]] + o[1..];
    KeysCons(o[0], o[1..]);
    if o[0].0 == k then 0 else 1 + IndexOf(o[1..], k)
  }

  /**
   * The own property `k` of `obj`: its value, and `undefined` when `obj` has no own property
   * `k` (inherited properties such as `__proto__` are not entries).
   */
  function Get<V>(o: Object<V>, k: string): (r: Js<V>)
    ensures k !in Keys(o) ==> r == Undefined
    ensures WellFormed(o) ==> forall i :: 0 <= i < |o| && o[i].0 == k ==> r == o[i].1
  {
    if k in Keys(o) then o[IndexOf(o, k)].1 else Undefined
  }

  /**
   * The key whose assignment on a plain object runs the `Object.prototype.__proto__` setter
   * instead of creating a property.
   */
  const ProtoKey: string := "__proto__"

  /** `obj[k] = v` stores an own property: `k` is already one, or is not `__proto__`. */
  predicate Stores<V>(o: Object<V>, k: string) {
    k != ProtoKey || k in Keys(o)
  }

  /**
   * `obj[k] = v` on a plain object: an existing property is overwritten where it stands, a
   * new one is appended after all others, and a new `__proto__` goes to the inherited setter,
   * leaving the own properties as they were.
   */
  function Put<V>(o: Object<V>, k: string, v: Js<V>): (r: Object<V>)
    requires WellFormed(o)
    ensures WellFormed(r)
    ensures !Stores(o, k) ==> r == o
    ensures Stores(o, k) ==> Keys(r) == Keys(o) + {k} && Get(r, k) == v
    ensures forall k' :: k' != k ==> Get(r, k') == Get(o, k')
    ensures Stores(o, k) && k !in Keys(o) ==> r == o + [(k, v)]
    ensures k in Keys(o) ==> |r| == |o| && forall i :: 0 <= i < |o| ==> r[i].0 == o[i].0
  {
    if k in Keys(o) then
      var i := IndexOf(o, k);
      PutExisting(o, i, v);
      o[i := (k, v)]
    else if k == ProtoKey then o
    else
      PutNew(o, k, v);
      o + [(k, v)]
  }

  lemma PutExisting<V>(o: Object<V>, i: int, v: Js<V>)
    requires WellFormed(o) && 0 <= i < |o|
    ensures var r := o[i := (o[i].0, v)];
      && WellFormed(r)
      && Keys(r) == Keys(o)
      && Get(r, o[i].0) == v
      && forall k' :: k' != o[i].0 ==> Get(r, k') == Get(o, k')
  {
    var k := o[i].0;
    var r := o[i := (k, v)];
    assert forall j :: 0 <= j < |o| ==> r[j].0 == o[j].0;
    assert Keys(r) == Keys(o);
    forall k' | k' != k
      ensures Get(r, k') == Get(o, k')
    {
      if k' in Keys(o) {
        var j := IndexOf(o, k');
        assert r[j] == o[j];
      }
    }
  }

  lemma PutNew<V>(o: Object<V>, k: string, v: Js<V>)
    requires WellFormed(o) && k !in Keys(o)
    ensures var r := o + [(k, v)];
      && WellFormed(r)
      && Keys(r) == Keys(o) + {k}
      && Get(r, k) == v
      && forall k' :: k' != k ==> Get(r, k') == Get(o, k')
  {
    var r := o + [(k, v)];
    KeysAppend(o, [(k, v)]);
    KeysCons((k, v), []);
    assert [(k, v)] + [] == [(k, v)];
    assert forall j :: 0 <= j < |o| ==> r[j] == o[j];
    assert r[|o|] == (k, v);
    forall k' | k' != k
      ensures Get(r, k') == Get(o, k')
    {
      if k' in Keys(o) {
        var j := IndexOf(o, k');
        assert r[j] == o[j];
      }
    }
  }

  /**
   * The loop shared by `toSnake` and `toCamel`: for each entry in order, skip it when its
   * value is `undefined`, otherwise assign it to `out[rename(key)]`.
   */
  function Rekey<V>(o: Object<V>, rename: string -> string): (r: Object<V>)
    ensures WellFormed(r)
    ensures forall i :: 0 <= i < |r| ==> r[i].1.Defined?
    ensures ProtoKey !in Keys(r)
    ensures forall i :: 0 <= i < |o| && o[i].1.Defined? && rename(o[i].0) != ProtoKey ==> rename(o[i].0) in Keys(r)
    ensures forall k :: k in Keys(r) ==> exists i :: 0 <= i < |o| && o[i].1.Defined? && rename(o[i].0) == k
    decreases |o|
  {
    if |o| == 0 then []
    else
      var prefix := o[..|o| - 1];
      var rest := Rekey(prefix, rename);
      var (k, v) := o[|o| - 1];
      assert forall i :: 0 <= i < |prefix| ==> prefix[i] == o[i];
      if v.Undefined? || rename(k) == ProtoKey then
        assert rename(k) == ProtoKey ==> Put(rest, rename(k), v) == rest;
        rest
      else
        var r := Put(rest, rename(k), v);
        assert forall i :: 0 <= i < |r| ==> r[i].1.Defined? by {
          forall i | 0 <= i < |r|
            ensures r[i].1.Defined?
          {
            assert r[i].0 in Keys(r);
            assert WellFormed(rest) && WellFormed(r);
            if r[i].0 == rename(k) {
              assert Get(r, r[i].0) == r[i].1;
            } else {
              assert r[i].0 in Keys(rest);
              var j :| 0 <= j < |rest| && rest[j].0 == r[i].0;
              assert Get(r, r[i].0) == Get(rest, r[i].0) == rest[j].1;
            }
          }
        }
        r
  }

  /** `toSnake(obj)`. */
  function ToSnake<V>(o: Object<V>): (r: Object<V>)
    ensures WellFormed(r)
    ensures forall i :: 0 <= i < |r| ==> r[i].1.Defined? && NoUpper(r[i].0)
    ensures ProtoKey !in Keys(r)
    ensures forall i :: 0 <= i < |o| && o[i].1.Defined? && SnakeKey(o[i].0) != ProtoKey ==> SnakeKey(o[i].0) in Keys(r)
  {
    var r := Rekey(o, SnakeKey);
    forall i | 0 <= i < |r|
      ensures NoUpper(r[i].0)
    {
      assert r[i].0 in Keys(r);
      var j :| 0 <= j < |o| && o[j].1.Defined? && SnakeKey(o[j].0) == r[i].0;
    }
    r
  }

  /** `toCamel(obj)`. */
  function ToCamel<V>(o: Object<V>): (r: Object<V>)
    ensures WellFormed(r)
    ensures forall i :: 0 <= i < |r| ==> r[i].1.Defined? && NoCamelMatch(r[i].0)
    ensures forall i :: 0 <= i < |o| && o[i].1.Defined? ==> CamelKey(o[i].0) in Keys(r)
  {
    forall i | 0 <= i < |o|
      ensures CamelKey(o[i].0) != ProtoKey
    {
      ProtoKeyMatches(CamelKey(o[i].0));
    }
    var r := Rekey(o, CamelKey);
    forall i | 0 <= i < |r|
      ensures NoCamelMatch(r[i].0)
    {
      assert r[i].0 in Keys(r);
      var j :| 0 <= j < |o| && o[j].1.Defined? && CamelKey(o[j].0) == r[i].0;
    }
    r
  }

  function Identity(k: string): string {
    k
  }

  /**
   * `toCamel` never produces `__proto__`: that key holds `_p`, which the camelCase rewrite
   * removes everywhere.
   */
  lemma ProtoKeyMatches(k: string)
    ensures NoCamelMatch(k) ==> k != ProtoKey
  {
    if k == ProtoKey {
      assert CamelMatchAt(k, 1);
    }
  }

  /**
   * The defined entries of `o` in order, each key renamed by `rename`; an entry renamed to
   * `__proto__` leaves no trace.
   */
  function Renamed<V>(o: Object<V>, rename: string -> string): (r: Object<V>)
    ensures forall i :: 0 <= i < |r| ==> r[i].1.Defined?
    ensures ProtoKey !in Keys(r)
    ensures forall k :: k in Keys(r) ==> exists i :: 0 <= i < |o| && o[i].1.Defined? && rename(o[i].0) == k
    decreases |o|
  {
    if |o| == 0 then []
    else
      var prefix := o[..|o| - 1];
      var rest := Renamed(prefix, rename);
      var (k, v) := o[|o| - 1];
      var last: Object<V> := if v.Defined? && rename(k) != ProtoKey then [(rename(k), v)] else [];
      assert forall i :: 0 <= i < |prefix| ==> prefix[i] == o[i];
      KeysAppend(rest, last);
      rest + last
  }

  /** The plain-object copy of `o`: its `undefined` properties and any `__proto__` entry removed. */
  function DropUndefined<V>(o: Object<V>): Object<V> {
    Renamed(o, Identity)
  }

  /** `Rekey` of `a + [e]` is `Rekey` of `a` followed by the assignment for `e`. */
  lemma RekeySnoc<V>(a: Object<V>, e: (string, Js<V>), rename: string -> string)
    ensures Rekey(a + [e], rename) == if e.1.Undefined? then Rekey(a, rename) else Put(Rekey(a, rename), rename(e.0), e.1)
  {
    assert (a + [e])[..|a|] == a;
  }

  /**
   * Later assignments win: the value of a renamed entry survives under its new name unless a
   * later defined entry is renamed to the same key; under `__proto__` nothing is stored.
   */
  lemma {:induction false} RekeyGet<V>(o: Object<V>, rename: string -> string, i: int)
    requires 0 <= i < |o| && o[i].1.Defined?
    requires forall j :: i < j < |o| && o[j].1.Defined? ==> rename(o[j].0) != rename(o[i].0)
    ensures Get(Rekey(o, rename), rename(o[i].0)) == if rename(o[i].0) == ProtoKey then Undefined else o[i].1
    decreases |o|
  {
    var prefix := o[..|o| - 1];
    var e := o[|o| - 1];
    assert o == prefix + [e];
    RekeySnoc(prefix, e, rename);
    if i < |o| - 1 {
      assert prefix[i] == o[i];
      assert forall j :: i < j < |prefix| ==> prefix[j] == o[j];
      RekeyGet(prefix, rename, i);
      if e.1.Defined? {
        assert rename(e.0) != rename(o[i].0);
      }
    }
  }

  /** `rename` sends distinct defined entries of `o` to distinct keys. */
  predicate InjectiveOn<V>(o: Object<V>, rename: string -> string) {
    forall i, j :: 0 <= i < j < |o| && o[i].1.Defined? && o[j].1.Defined? ==> rename(o[i].0) != rename(o[j].0)
  }

  /** Without collisions every assignment adds a new key, so the entries keep their order. */
  lemma {:induction false} RekeyInjective<V>(o: Object<V>, rename: string -> string)
    requires InjectiveOn(o, rename)
    ensures Rekey(o, rename) == Renamed(o, rename)
    decreases |o|
  {
    if |o| > 0 {
      var prefix := o[..|o| - 1];
      var e := o[|o| - 1];
      assert o == prefix + [e];
      assert forall i :: 0 <= i < |prefix| ==> prefix[i] == o[i];
      RekeySnoc(prefix, e, rename);
      RekeyInjective(prefix, rename);
      if e.1.Defined? {
        assert forall j :: 0 <= j < |prefix| && prefix[j].1.Defined? ==> rename(prefix[j].0) != rename(e.0);
      }
    }
  }

  /**
   * Renaming the defined entries and then renaming back with `Rekey` gives the plain-object
   * copy, provided only `__proto__` itself is renamed to `__proto__`.
   */
  lemma {:induction false} RekeyRenamed<V>(o: Object<V>, there: string -> string, back: string -> string)
    requires WellFormed(o)
    requires forall i :: 0 <= i < |o| ==> back(there(o[i].0)) == o[i].0
    requires forall i :: 0 <= i < |o| && there(o[i].0) == ProtoKey ==> o[i].0 == ProtoKey
    ensures Rekey(Renamed(o, there), back) == DropUndefined(o)
    decreases |o|
  {
    if |o| > 0 {
      var prefix := o[..|o| - 1];
      var (k, v) := o[|o| - 1];
      assert forall i :: 0 <= i < |prefix| ==> prefix[i] == o[i];
      RekeyRenamed(prefix, there, back);
      var dropped := DropUndefined(prefix);
      if v.Defined? && there(k) == ProtoKey {
        var renamed := Renamed(prefix, there);
        assert k == ProtoKey;
        assert renamed + [] == renamed && dropped + [] == dropped;
        assert Renamed(o, there) == renamed;
        assert DropUndefined(o) == dropped;
      } else if v.Defined? && k == ProtoKey {
        var renamed := Renamed(prefix, there);
        assert Renamed(o, there) == renamed + [(there(k), v)];
        assert dropped + [] == dropped;
        assert DropUndefined(o) == dropped;
        RekeySnoc(renamed, (there(k), v), back);
        assert back(there(k)) == k;
        assert Rekey(Renamed(o, there), back) == Put(dropped, k, v);
      } else if v.Defined? {
        assert Renamed(o, there) == Renamed(prefix, there) + [(there(k), v)];
        assert DropUndefined(o) == dropped + [(k, v)];
        RekeySnoc(Renamed(prefix, there), (there(k), v), back);
        assert back(there(k)) == k;
        assert Rekey(Renamed(o, there), back) == Put(dropped, k, v);
        assert forall j :: 0 <= j < |prefix| ==> Identity(prefix[j].0) != k;
        assert k !in Keys(dropped);
        assert Put(dropped, k, v) == dropped + [(k, v)];
      } else {
        var renamed := Renamed(prefix, there);
        assert renamed + [] == renamed && dropped + [] == dropped;
        assert Renamed(o, there) == renamed;
        assert DropUndefined(o) == dropped;
      }
    }
  }

  /**
   * An object whose keys never hold `_` before a small letter survives `toSnake` then
   * `toCamel`, unless a key (`_Proto__`) snake-cases to `__proto__` and is lost.
   */
  lemma SnakeThenCamel<V>(o: Object<V>)
    requires WellFormed(o)
    requires forall i :: 0 <= i < |o| ==> NoCamelMatch(o[i].0)
    requires forall i :: 0 <= i < |o| ==> SnakeKey(o[i].0) != ProtoKey
    ensures ToCamel(ToSnake(o)) == DropUndefined(o)
  {
    forall i | 0 <= i < |o|
      ensures CamelKey(SnakeKey(o[i].0)) == o[i].0
    {
      CamelOfSnake(o[i].0);
    }
    RekeyInjective(o, SnakeKey);
    RekeyRenamed(o, SnakeKey, CamelKey);
  }

  /** A row whose column names have no capital letter survives `toCamel` then `toSnake`. */
  lemma CamelThenSnake<V>(o: Object<V>)
    requires WellFormed(o)
    requires forall i :: 0 <= i < |o| ==> NoUpper(o[i].0)
    ensures ToSnake(ToCamel(o)) == DropUndefined(o)
  {
    forall i | 0 <= i < |o|
      ensures SnakeKey(CamelKey(o[i].0)) == o[i].0 && CamelKey(o[i].0) != ProtoKey
    {
      SnakeOfCamel(o[i].0);
      ProtoKeyMatches(CamelKey(o[i].0));
    }
    RekeyInjective(o, CamelKey);
    RekeyRenamed(o, CamelKey, SnakeKey);
  }

  /**
   * `toSnake` keeps every value under its converted key, a property that was `undefined`
   * is absent from the copy, and so is one whose key snake-cases to `__proto__`.
   */
  lemma ToSnakeValues<V>(o: Object<V>, i: int)
    requires WellFormed(o) && 0 <= i < |o|
    requires forall j :: 0 <= j < |o| ==> NoCamelMatch(o[j].0)
    ensures Get(ToSnake(o), SnakeKey(o[i].0)) == if SnakeKey(o[i].0) == ProtoKey then Undefined else o[i].1
  {
    forall j | 0 <= j < |o|
      ensures CamelKey(SnakeKey(o[j].0)) == o[j].0
    {
      CamelOfSnake(o[j].0);
    }
    if o[i].1.Defined? {
      RekeyGet(o, SnakeKey, i);
    } else {
      var r := ToSnake(o);
      assert forall j :: 0 <= j < |o| && o[j].1.Defined? ==> SnakeKey(o[j].0) != SnakeKey(o[i].0);
      assert SnakeKey(o[i].0) !in Keys(r);
    }
  }
}
