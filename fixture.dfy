/**
 The scenarios of CustomTreeMapImplTest as clients of the model: the map
 built by `setUp` (keys 1, 99, 4, 2, 3 put in that order) and what each
 test expects of it.
 */
module Fixture {
  import opened Shapes
  import opened TreeMap

  /** `setUp`: five puts into an empty map. */
  method NotEmptyMap() returns (m: CustomTreeMap<string>)
    ensures fresh(m) && m.Valid()
    ensures m.Model() == map[1 := "first", 99 := "last", 4 := "fourth", 2 := "second", 3 := "third"]
  {
    m := new CustomTreeMap<string>();
    var r := m.Put(1, "first");
    r := m.Put(99, "last");
    r := m.Put(4, "fourth");
    r := m.Put(2, "second");
    r := m.Put(3, "third");
  }

  /** `size_Test`, `isEmpty_Test`: the empty map and the filled map. */
  method SizeTest() returns (emptySize: int, emptyEmpty: bool, size: int, empty: bool)
    ensures emptySize == 0 && emptyEmpty
    ensures size == 5 && !empty
  {
    var e := new CustomTreeMap<string>();
    emptySize := e.Size();
    emptyEmpty := e.IsEmpty();
    var m := NotEmptyMap();
    FixtureKeys(m.Model());
    size := m.Size();
    empty := m.IsEmpty();
  }

  /** The five puts bind five distinct keys. */
  lemma FixtureKeys(m: map<int, string>)
    requires m == map[1 := "first", 99 := "last", 4 := "fourth", 2 := "second", 3 := "third"]
    ensures |m| == 5 && m != map[]
  {
    assert m.Keys == {1, 99, 4, 2, 3};
    assert 1 in m;
  }

  /** Removing key 1 from the filled map leaves four keys. */
  lemma FixtureRemoved(m: map<int, string>)
    requires m == map[1 := "first", 99 := "last", 4 := "fourth", 2 := "second", 3 := "third"] - {1}
    ensures |m| == 4
  {
    assert m.Keys == {99, 4, 2, 3};
  }

  /** `getSuccess_Test`, `getFail_Test`: the filled map, and key 999 in the empty map too. */
  method GetTest() returns (first: Option<string>, last: Option<string>, emptyMissing: Option<string>, missing: Option<string>)
    ensures first == Some("first") && last == Some("last")
    ensures emptyMissing == None && missing == None
  {
    var e := new CustomTreeMap<string>();
    emptyMissing := e.Get(999);
    var m := NotEmptyMap();
    first := m.Get(1);
    last := m.Get(99);
    missing := m.Get(999);
  }

  /** `containsKeySuccess_Test`, `containsKeyFail_Test`, `containsValueSuccess_Test`, `containsValueFail_Test`. */
  method ContainsTest() returns (k1: bool, k99: bool, emptyK999: bool, k999: bool,
                                 vFirst: bool, vLast: bool, emptyVNone: bool, vNone: bool)
    ensures k1 && k99 && !emptyK999 && !k999
    ensures vFirst && vLast && !emptyVNone && !vNone
  {
    var e := new CustomTreeMap<string>();
    emptyK999 := e.ContainsKey(999);
    emptyVNone := e.ContainsValue("none");
    var m := NotEmptyMap();
    k1 := m.ContainsKey(1);
    k99 := m.ContainsKey(99);
    k999 := m.ContainsKey(999);
    vFirst := m.ContainsValue("first");
    assert m.Model()[1] == "first";
    vLast := m.ContainsValue("last");
    assert m.Model()[99] == "last";
    vNone := m.ContainsValue("none");
  }

  /** `keys_Test`: the keys in ascending order. */
  method KeysTest() returns (ks: seq<int>)
    ensures ks == [1, 2, 3, 4, 99]
  {
    var m := NotEmptyMap();
    var a := m.Keys();
    ks := a[..];
    SortedKeys(ks, m.Model());
  }

  /** `values_Test`: the values in the order of their keys. */
  method ValuesTest() returns (vs: seq<string>)
    ensures vs == ["first", "second", "third", "fourth", "last"]
  {
    var m := NotEmptyMap();
    var a := m.Keys();
    var b := m.Values();
    SortedKeys(a[..], m.Model());
    vs := b[..];
    SortedValues(a[..], vs, m.Model());
  }

  /** The only strictly ascending listing of the five keys of the fixture. */
  lemma SortedKeys(ks: seq<int>, m: map<int, string>)
    requires m == map[1 := "first", 99 := "last", 4 := "fourth", 2 := "second", 3 := "third"]
    requires StrictlyAscending(ks) && forall x :: x in ks <==> x in m
    ensures ks == [1, 2, 3, 4, 99]
  {
    var expected := [1, 2, 3, 4, 99];
    forall x ensures x in ks <==> x in expected {
      assert x in m <==> x in expected;
    }
    AscendingUnique(ks, expected);
  }

  lemma SortedValues(ks: seq<int>, vs: seq<string>, m: map<int, string>)
    requires m == map[1 := "first", 99 := "last", 4 := "fourth", 2 := "second", 3 := "third"]
    requires ks == [1, 2, 3, 4, 99] && |vs| == |ks|
    requires forall i :: 0 <= i < |vs| ==> ks[i] in m && m[ks[i]] == vs[i]
    ensures vs == ["first", "second", "third", "fourth", "last"]
  {
    assert vs[0] == m[1] && vs[1] == m[2] && vs[2] == m[3] && vs[3] == m[4] && vs[4] == m[99];
  }

  /** `putSuccess_Test`: overwriting key 1 keeps the size. */
  method PutTest() returns (before: int, replaced: Option<string>, after: int)
    ensures before == 5 && replaced == Some("first") && after == 5
  {
    var m := NotEmptyMap();
    FixtureKeys(m.Model());
    before := m.Size();
    assert 1 in m.Model() && m.Model()[1] == "first";
    replaced := m.Put(1, "notFirst");
    FixtureReplaced(m.Model());
    after := m.Size();
  }

  /** Rebinding key 1 of the filled map leaves five keys. */
  lemma FixtureReplaced(m: map<int, string>)
    requires m == map[1 := "first", 99 := "last", 4 := "fourth", 2 := "second", 3 := "third"][1 := "notFirst"]
    ensures |m| == 5
  {
    assert m.Keys == {1, 99, 4, 2, 3};
  }

  /** `putNull_Test`: puts of new keys into the empty map return null. */
  method PutEmptyTest() returns (before: int, fresh15: Option<string>, fresh99: Option<string>)
    ensures before == 0 && fresh15 == None && fresh99 == None
  {
    var e := new CustomTreeMap<string>();
    before := e.Size();
    fresh15 := e.Put(15, "first");
    fresh99 := e.Put(99, "null");
  }

  /** `removeSuccess_Test`. */
  method RemoveTest() returns (removed: Option<string>, after: int)
    ensures removed == Some("first") && after == 4
  {
    var m := NotEmptyMap();
    assert 1 in m.Model() && m.Model()[1] == "first";
    removed := m.Remove(1);
    FixtureRemoved(m.Model());
    after := m.Size();
  }

  /** `removeFail_Test`: key 999 in the filled map and in the empty map. */
  method RemoveMissingTest() returns (missing: Option<string>, after: int, emptyMissing: Option<string>)
    ensures missing == None && after == 5 && emptyMissing == None
  {
    var m := NotEmptyMap();
    assert 999 !in m.Model();
    missing := m.Remove(999);
    FixtureKeys(m.Model());
    after := m.Size();
    var e := new CustomTreeMap<string>();
    emptyMissing := e.Remove(999);
  }
}
