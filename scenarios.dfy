/** Fixed call sequences on the container, each with the outcome it must produce. */
module Scenarios {
  import opened Listing
  import opened SortedMaps

  /** Deleting from an empty map leaves it empty. */
  method DeleteMissing() returns (before: nat, after: nat)
    ensures before == 0 && after == 0
  {
    var sm := new SortedMap<int>();
    before := sm.Len();
    sm.Delete(1);
    after := sm.Len();
  }

  /** A key set and then deleted is gone, and the map is empty again. */
  method DeleteExisting<V>(v: V) returns (n: nat, r: Option<V>)
    ensures n == 0 && r == None
  {
    var sm := new SortedMap<V>();
    sm.Set(22, v);
    sm.Delete(22);
    n := sm.Len();
    r := sm.Get(22);
  }

  /** A value set under a key is what Get returns, and the map holds one entry. */
  method SetThenGet<V>(v: V) returns (n: nat, r: Option<V>)
    ensures n == 1 && r == Some(v)
  {
    var sm := new SortedMap<V>();
    sm.Set(1, v);
    n := sm.Len();
    r := sm.Get(1);
  }

  /** With the source's Set, the key is still absent afterwards. */
  method SetThenGetAsWritten<V>() returns (n: nat, r: Option<V>)
    ensures n == 0 && r == None
  {
    var sm := new SortedMap<V>();
    sm.SetAsWritten(1);
    n := sm.Len();
    r := sm.Get(1);
  }

  /** Setting a key twice keeps the later value. */
  method UpdateValue<V>(first: V, second: V) returns (r: Option<V>)
    ensures r == Some(second)
  {
    var sm := new SortedMap<V>();
    sm.Set(1, first);
    sm.Set(1, second);
    r := sm.Get(1);
  }
}
