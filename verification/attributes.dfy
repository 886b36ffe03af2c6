/** Parsed XML attributes, as the `$` object xml2js attaches to an element. */
module Attributes {
  import opened Wrappers

  /** One attribute of an element: its name and its entity-decoded value. */
  datatype Attr = Attr(key: string, value: string)

  /** The attributes of one element, in document order. */
  type Attrs = seq<Attr>

  /** No attribute name occurs twice, as XML requires of a well-formed element. */
  predicate DistinctKeys(attrs: Attrs) {
    forall j, k :: 0 <= j < k < |attrs| ==> attrs[j].key != attrs[k].key
  }

  /** `element.$[key]`: the value of the first attribute named `key`, or None
      where JavaScript reads `undefined`. */
  function Lookup(attrs: Attrs, key: string): Option<string> {
    if |attrs| == 0 then None
    else if attrs[0].key == key then Some(attrs[0].value)
    else Lookup(attrs[1..], key)
  }

  /** The lookup finds nothing exactly when no attribute has the name, and
      otherwise the value of the earliest attribute with that name. */
  lemma {:induction false} LookupSpec(attrs: Attrs, key: string)
    ensures Lookup(attrs, key).None? <==> forall k :: 0 <= k < |attrs| ==> attrs[k].key != key
    ensures Lookup(attrs, key).Some? ==>
              exists k :: 0 <= k < |attrs| && attrs[k] == Attr(key, Lookup(attrs, key).value)
                          && forall j :: 0 <= j < k ==> attrs[j].key != key
    decreases |attrs|
  {
    if |attrs| > 0 && attrs[0].key != key {
      var t := attrs[1..];
      LookupSpec(t, key);
      if Lookup(t, key).Some? {
        var k :| 0 <= k < |t| && t[k] == Attr(key, Lookup(t, key).value)
                 && forall j :: 0 <= j < k ==> t[j].key != key;
        assert attrs[k + 1] == t[k];
        assert forall j :: 0 <= j < k + 1 ==> attrs[j].key != key by {
          forall j | 0 <= j < k + 1 ensures attrs[j].key != key {
            if j > 0 { assert attrs[j] == t[j - 1]; }
          }
        }
      } else {
        forall k | 0 <= k < |attrs| ensures attrs[k].key != key {
          if k > 0 { assert attrs[k] == t[k - 1]; }
        }
      }
    }
  }

  /** In a well-formed element the lookup of an attribute's name yields that
      attribute's value. */
  lemma LookupDistinct(attrs: Attrs, k: int)
    requires DistinctKeys(attrs)
    requires 0 <= k < |attrs|
    ensures Lookup(attrs, attrs[k].key) == Some(attrs[k].value)
  {
    LookupSpec(attrs, attrs[k].key);
    var r := Lookup(attrs, attrs[k].key);
    var k' :| 0 <= k' < |attrs| && attrs[k'] == Attr(attrs[k].key, r.value)
              && forall j :: 0 <= j < k' ==> attrs[j].key != attrs[k].key;
    assert k' == k;
  }

  /** Two attribute lists with the same names in the same order, agreeing on
      every attribute named `key`, give the same lookup for `key`. */
  lemma {:induction false} LookupAgrees(a: Attrs, b: Attrs, key: string)
    requires |a| == |b|
    requires forall k :: 0 <= k < |a| ==> a[k].key == b[k].key
    requires forall k :: 0 <= k < |a| && a[k].key == key ==> a[k] == b[k]
    ensures Lookup(a, key) == Lookup(b, key)
    decreases |a|
  {
    if |a| > 0 && a[0].key != key {
      LookupAgrees(a[1..], b[1..], key);
    }
  }
}
