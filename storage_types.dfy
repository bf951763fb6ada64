/** Values shared by the two storage services: namespaces, bytes, and the
    abstract namespaced store that both the directory tree and the Keyv
    tables are modelled as. */
module StorageTypes {

  /** One octet of a Node.js Buffer. */
  newtype byte = x: int | 0 <= x < 256

  datatype Option<T> = None | Some(value: T)

  /** Every member that either StorageNamespace enum of the repository names.
      Which of them a service registers is a constructor argument. */
  datatype Namespace = DEFAULT | SCENES | ROOMS | FILES

  /** The string value of an enum member: the directory name under the base
      directory, or the Keyv namespace prefix. */
  function Name(ns: Namespace): string
  {
    match ns
    case DEFAULT => "DEFAULT"
    case SCENES => "SCENES"
    case ROOMS => "ROOMS"
    case FILES => "FILES"
  }

  /** Distinct namespaces use distinct directories and distinct Keyv prefixes,
      which is what lets the model key its store by Namespace. */
  lemma NameInjective(a: Namespace, b: Namespace)
    ensures Name(a) == Name(b) <==> a == b
  {
  }

  /** A namespaced store: for each namespace that exists in the medium, the
      entries stored under it. */
  type Tree<X> = map<Namespace, map<string, X>>

  /** The entry stored under key in namespace ns, if any. */
  function Lookup<X>(t: Tree<X>, ns: Namespace, key: string): Option<X>
  {
    if ns in t && key in t[ns] then Some(t[ns][key]) else None
  }

  /** The keys stored in namespace ns; none when the namespace is absent. */
  function KeysOf<X>(t: Tree<X>, ns: Namespace): set<string>
  {
    if ns in t then t[ns].Keys else {}
  }

  /** The store after writing value under key in an existing namespace. */
  function Put<X>(t: Tree<X>, ns: Namespace, key: string, value: X): (t': Tree<X>)
    requires ns in t
    ensures t'.Keys == t.Keys
    ensures Lookup(t', ns, key) == Some(value)
    ensures forall ns', key' | ns' != ns || key' != key :: Lookup(t', ns', key') == Lookup(t, ns', key')
  {
    t[ns := t[ns][key := value]]
  }

  /** The store after removing key from an existing namespace. */
  function Remove<X>(t: Tree<X>, ns: Namespace, key: string): (t': Tree<X>)
    requires ns in t
    ensures t'.Keys == t.Keys
    ensures Lookup(t', ns, key) == None
    ensures forall ns', key' | ns' != ns || key' != key :: Lookup(t', ns', key') == Lookup(t, ns', key')
  {
    t[ns := t[ns] - {key}]
  }

  /** Two stores are equal when they have the same namespaces and agree on
      every lookup. */
  lemma {:induction false} StoreExtensionality<X>(t: Tree<X>, u: Tree<X>)
    requires t.Keys == u.Keys
    requires forall ns, key :: Lookup(t, ns, key) == Lookup(u, ns, key)
    ensures t == u
  {
    forall ns | ns in t
      ensures t[ns] == u[ns]
    {
      forall key | key in t[ns] || key in u[ns]
        ensures key in t[ns] && key in u[ns] && t[ns][key] == u[ns][key]
      {
        assert Lookup(t, ns, key) == Lookup(u, ns, key);
      }
    }
  }

  /** A second write to the same key replaces the first. */
  lemma PutOverwrites<X>(t: Tree<X>, ns: Namespace, key: string, first: X, second: X)
    requires ns in t
    ensures Put(Put(t, ns, key, first), ns, key, second) == Put(t, ns, key, second)
  {
    StoreExtensionality(Put(Put(t, ns, key, first), ns, key, second), Put(t, ns, key, second));
  }

  /** Removing a key that is not stored changes nothing. */
  lemma RemoveAbsent<X>(t: Tree<X>, ns: Namespace, key: string)
    requires ns in t
    requires Lookup(t, ns, key) == None
    ensures Remove(t, ns, key) == t
  {
    StoreExtensionality(Remove(t, ns, key), t);
  }

  /** Removing what was just written leaves the store as removing it from
      the original would. */
  lemma RemoveAfterPut<X>(t: Tree<X>, ns: Namespace, key: string, value: X)
    requires ns in t
    ensures Remove(Put(t, ns, key, value), ns, key) == Remove(t, ns, key)
  {
    StoreExtensionality(Remove(Put(t, ns, key, value), ns, key), Remove(t, ns, key));
  }

  /** Writing a key adds exactly that key to its namespace's key set and
      leaves every other namespace's key set as it was. */
  lemma KeysAfterPut<X>(t: Tree<X>, ns: Namespace, key: string, value: X, other: Namespace)
    requires ns in t
    ensures KeysOf(Put(t, ns, key, value), other) == if other == ns then KeysOf(t, ns) + {key} else KeysOf(t, other)
  {
  }

  /** Removing a key takes exactly that key out of its namespace's key set. */
  lemma KeysAfterRemove<X>(t: Tree<X>, ns: Namespace, key: string, other: Namespace)
    requires ns in t
    ensures KeysOf(Remove(t, ns, key), other) == if other == ns then KeysOf(t, ns) - {key} else KeysOf(t, other)
  {
  }

  predicate NoDuplicates<T(==)>(s: seq<T>)
  {
    forall i, j | 0 <= i < j < |s| :: s[i] != s[j]
  }
}
