/** The part of Python's `xml.etree.ElementTree` the scripts use: an
    element with a tag (`{namespace}local` when namespaced), an attribute
    dictionary that keeps insertion order, and children. `get` and `set`
    behave as on a Python dict: `set` replaces a present key in place and
    appends a new one at the end. */
module ElementTree {

  import opened Wrappers

  datatype Element = Element(tag: string, attrib: seq<(string, string)>, children: seq<Element>)

  /** No key appears twice. */
  predicate UniqueKeys(attrib: seq<(string, string)>) {
    forall i, j :: 0 <= i < j < |attrib| ==> attrib[i].0 != attrib[j].0
  }

  function Keys(attrib: seq<(string, string)>): seq<string> {
    seq(|attrib|, i requires 0 <= i < |attrib| => attrib[i].0)
  }

  /** `element.get(key)`. */
  function Get(attrib: seq<(string, string)>, key: string): (r: Option<string>)
    ensures r.Some? <==> exists i :: 0 <= i < |attrib| && attrib[i].0 == key
    ensures r.Some? ==> exists i :: 0 <= i < |attrib| && attrib[i] == (key, r.value)
    decreases |attrib|
  {
    if |attrib| == 0 then None
    else if attrib[0].0 == key then Some(attrib[0].1)
    else
      var r := Get(attrib[1..], key);
      assert forall i :: 1 <= i < |attrib| ==> attrib[i] == attrib[1..][i - 1];
      r
  }

  /** `element.set(key, value)`. */
  function Set(attrib: seq<(string, string)>, key: string, value: string): seq<(string, string)>
    decreases |attrib|
  {
    if |attrib| == 0 then [(key, value)]
    else if attrib[0].0 == key then [(key, value)] + attrib[1..]
    else [attrib[0]] + Set(attrib[1..], key, value)
  }

  /** After a `set`, `get` of that key gives the new value and every other
      key gives what it gave before. */
  lemma {:induction false} GetSet(attrib: seq<(string, string)>, key: string, value: string, other: string)
    ensures Get(Set(attrib, key, value), key) == Some(value)
    ensures other != key ==> Get(Set(attrib, key, value), other) == Get(attrib, other)
    decreases |attrib|
  {
    if |attrib| > 0 && attrib[0].0 != key {
      GetSet(attrib[1..], key, value, other);
    }
  }

  /** A `set` keeps every present key where it was and appends the key
      only if it was absent; so it keeps the keys unique. */
  lemma {:induction false} SetKeys(attrib: seq<(string, string)>, key: string, value: string)
    ensures Get(attrib, key).Some? ==> Keys(Set(attrib, key, value)) == Keys(attrib)
    ensures Get(attrib, key).None? ==> Keys(Set(attrib, key, value)) == Keys(attrib) + [key]
    ensures UniqueKeys(attrib) ==> UniqueKeys(Set(attrib, key, value))
    decreases |attrib|
  {
    if |attrib| > 0 && attrib[0].0 != key {
      SetKeys(attrib[1..], key, value);
      assert Keys(attrib) == [attrib[0].0] + Keys(attrib[1..]);
      var s := Set(attrib, key, value);
      assert Keys(s) == [attrib[0].0] + Keys(Set(attrib[1..], key, value));
      if UniqueKeys(attrib) {
        assert UniqueKeys(attrib[1..]);
        forall j | 0 < j < |s| ensures s[0].0 != s[j].0 {
          assert Keys(s)[j] == s[j].0;
          if Get(attrib, key).Some? {
            assert Keys(s)[j] == Keys(attrib)[j] == attrib[j].0;
          } else if j < |attrib| {
            assert Keys(s)[j] == Keys(attrib)[j] == attrib[j].0;
          } else {
            assert s[j].0 == key;
          }
        }
        forall i, j | 0 < i < j < |s| ensures s[i].0 != s[j].0 {
          assert s[i] == Set(attrib[1..], key, value)[i - 1];
          assert s[j] == Set(attrib[1..], key, value)[j - 1];
        }
      }
    } else if |attrib| > 0 {
      assert Keys(Set(attrib, key, value)) == Keys(attrib);
      if UniqueKeys(attrib) {
        var s := Set(attrib, key, value);
        forall i, j | 0 <= i < j < |s| ensures s[i].0 != s[j].0 {
          assert Keys(s)[i] == s[i].0 && Keys(s)[j] == s[j].0;
          assert Keys(attrib)[i] == attrib[i].0 && Keys(attrib)[j] == attrib[j].0;
        }
      }
    }
  }

  /** Setting a key to the value it already has changes nothing. */
  lemma {:induction false} SetSame(attrib: seq<(string, string)>, key: string)
    requires Get(attrib, key).Some?
    ensures Set(attrib, key, Get(attrib, key).value) == attrib
    decreases |attrib|
  {
    if attrib[0].0 != key {
      SetSame(attrib[1..], key);
    }
  }

  /** Two `set`s of one key: the second wins. */
  lemma {:induction false} SetSet(attrib: seq<(string, string)>, key: string, v1: string, v2: string)
    ensures Set(Set(attrib, key, v1), key, v2) == Set(attrib, key, v2)
    decreases |attrib|
  {
    if |attrib| > 0 && attrib[0].0 != key {
      SetSet(attrib[1..], key, v1, v2);
    }
  }
}
