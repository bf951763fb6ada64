/** The Keyv storage service: one Keyv instance per namespace, all backed by
    the same SQLite database, each seeing only the entries of its own
    namespace. Values are of an abstract type V. */
module KeyvStorage {
  import opened StorageTypes

  /** Object.values(StorageNamespace) when the service is constructed. The
      file declares the enum twice; TypeScript merges the two declarations
      into one object, so all four members are present, in declaration
      order. */
  const DeclaredNamespaces: seq<Namespace> := [DEFAULT, SCENES, ROOMS, FILES]

  /** What get resolves to: the stored value; undefined, which keyv.get
      yields for a key it does not hold; or null, which the service returns
      when the namespace is not registered or the read fails. */
  datatype Reply<V> = Value(value: V) | Undefined | Null

  /** The entries a freshly constructed Keyv sees for namespace ns: what the
      database already holds under that namespace. */
  function Persisted<V>(db: Tree<V>, ns: Namespace): map<string, V>
  {
    if ns in db then db[ns] else map[]
  }

  class StorageService<V> {
    /** Each registered namespace and the entries of its Keyv instance. */
    var storagesMap: Tree<V>

    /** Registers one Keyv per value of the enum, each over the entries the
        database holds for that namespace; values is
        Object.values(StorageNamespace). */
    constructor (db: Tree<V>, values: seq<Namespace>)
      ensures storagesMap.Keys == set i | 0 <= i < |values| :: values[i]
      ensures forall ns | ns in storagesMap :: storagesMap[ns] == Persisted(db, ns)
    {
      var m: Tree<V> := map[];
      for i := 0 to |values|
        invariant m.Keys == set j | 0 <= j < i :: values[j]
        invariant forall ns | ns in m :: m[ns] == Persisted(db, ns)
      {
        m := m[values[i] := Persisted(db, values[i])];
      }
      storagesMap := m;
    }

    /** false, with nothing changed, when the namespace is not registered or
        the write fails; otherwise the key is overwritten in that namespace
        only. */
    method Set(key: string, value: V, ns: Namespace := DEFAULT, ioError: bool := false) returns (ok: bool)
      modifies this
      ensures ok == (ns in old(storagesMap) && !ioError)
      ensures storagesMap == if ok then Put(old(storagesMap), ns, key, value) else old(storagesMap)
    {
      if ns !in storagesMap {
        return false;
      }
      if ioError {
        return false;
      }
      storagesMap := Put(storagesMap, ns, key, value);
      return true;
    }

    method Get(key: string, ns: Namespace := DEFAULT, ioError: bool := false) returns (r: Reply<V>)
      ensures ns !in storagesMap || ioError ==> r == Null
      ensures ns in storagesMap && !ioError ==>
        r == match Lookup(storagesMap, ns, key)
             case Some(v) => Value(v)
             case None => Undefined
    {
      if ns !in storagesMap {
        return Null;
      }
      if ioError {
        return Null;
      }
      if key in storagesMap[ns] {
        return Value(storagesMap[ns][key]);
      }
      return Undefined;
    }

    /** Every key of the namespace exactly once, in the order the iterator
        yields them, each pushed onto the result; [] when the namespace is
        not registered. */
    method GetKeys(ns: Namespace) returns (keys: seq<string>)
      ensures NoDuplicates(keys)
      ensures forall k :: k in keys <==> k in KeysOf(storagesMap, ns)
      ensures |keys| == |KeysOf(storagesMap, ns)|
      ensures ns !in storagesMap ==> keys == []
    {
      if ns !in storagesMap {
        return [];
      }
      keys := [];
      var rest := storagesMap[ns].Keys;
      while rest != {}
        invariant rest <= storagesMap[ns].Keys
        invariant forall k :: k in keys <==> k in storagesMap[ns] && k !in rest
        invariant NoDuplicates(keys)
        invariant |keys| + |rest| == |storagesMap[ns]|
        decreases rest
      {
        var key :| key in rest;
        keys := keys + [key];
        rest := rest - {key};
      }
    }
  }

  /** With the enum's values registered, the default namespace is too, so
      set and get without a namespace argument succeed, and what set wrote
      is what get reads and getKeys lists. */
  method DefaultRoundTrip<V>(db: Tree<V>, key: string, value: V)
    returns (ok: bool, r: Reply<V>, keys: seq<string>)
    ensures ok && r == Value(value) && key in keys
  {
    var s := new StorageService(db, DeclaredNamespaces);
    assert DeclaredNamespaces[0] == DEFAULT;
    ok := s.Set(key, value);
    r := s.Get(key);
    keys := s.GetKeys(DEFAULT);
  }

  /** A set in one namespace leaves every read of every other namespace as it
      was. */
  method SetIsolated<V>(s: StorageService<V>, key: string, value: V, ns: Namespace, other: Namespace, otherKey: string)
    returns (before: Reply<V>, ok: bool, after: Reply<V>)
    requires other != ns
    modifies s
    ensures before == after
    ensures s.storagesMap.Keys == old(s.storagesMap.Keys)
  {
    before := s.Get(otherKey, other);
    ok := s.Set(key, value, ns);
    after := s.Get(otherKey, other);
  }

  /** On an unregistered namespace set fails and changes nothing, get gives
      null and getKeys gives []. */
  method Unregistered<V>(s: StorageService<V>, key: string, value: V, ns: Namespace)
    returns (ok: bool, r: Reply<V>, keys: seq<string>)
    requires ns !in s.storagesMap
    modifies s
    ensures !ok && r == Null && keys == []
    ensures s.storagesMap == old(s.storagesMap)
  {
    ok := s.Set(key, value, ns);
    r := s.Get(key, ns);
    keys := s.GetKeys(ns);
  }
}
