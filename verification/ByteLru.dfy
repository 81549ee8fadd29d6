/** One shard of the in-memory cache: a list of elements, most recently used first, a map from keys into
    that list, and a running byte count, all changed in place. */
module ByteLru {
  import opened Bytes
  import opened Lru

  class Element {
    const key: string
    var value: seq<byte>

    constructor (key: string, value: seq<byte>)
      ensures this.key == key && this.value == value
    {
      this.key, this.value := key, value;
    }
  }

  type Index = map<string, Element>

  /** The map is a bijection between the keys and the elements of the list. */
  ghost predicate Linked(ll: seq<Element>, entries: Index) {
    && (forall i | 0 <= i < |ll| :: ll[i].key in entries && entries[ll[i].key] == ll[i])
    && (forall i, j | 0 <= i < j < |ll| :: ll[i].key != ll[j].key)
    && (forall key | key in entries :: entries[key] in ll && entries[key].key == key)
  }

  /** The list without the element at place `i`. */
  ghost function Cut(ll: seq<Element>, i: nat): seq<Element>
    requires i < |ll|
  {
    ll[..i] + ll[i + 1..]
  }

  ghost function Values(ll: seq<Element>): (c: Contents)
    reads ll
    ensures |c| == |ll| && forall i | 0 <= i < |ll| :: c[i] == Entry(ll[i].key, ll[i].value)
  {
    seq(|ll|, i requires 0 <= i < |ll| reads ll => Entry(ll[i].key, ll[i].value))
  }

  lemma KeysDistinct(ll: seq<Element>, entries: Index)
    requires Linked(ll, entries)
    ensures DistinctKeys(Values(ll))
  {
  }

  lemma CutAt(ll: seq<Element>, i: nat, j: nat)
    requires i < |ll| && j < |ll| - 1
    ensures |Cut(ll, i)| == |ll| - 1 && Cut(ll, i)[j] == ll[if j < i then j else j + 1]
  {
  }

  lemma LinkedCut(ll: seq<Element>, entries: Index, i: nat)
    requires Linked(ll, entries) && i < |ll|
    ensures Linked(Cut(ll, i), entries - {ll[i].key})
  {
    hide Cut;
    var cut, left := Cut(ll, i), entries - {ll[i].key};
    forall j | 0 <= j < |ll| - 1 ensures |cut| == |ll| - 1 && cut[j] == ll[if j < i then j else j + 1] {
      CutAt(ll, i, j);
    }
    CutLength(ll, i);
    forall key | key in left ensures left[key] in cut && left[key].key == key {
      var j :| 0 <= j < |ll| && ll[j] == entries[key];
      assert cut[if j < i then j else j - 1] == ll[j];
    }
  }

  lemma CutLength(ll: seq<Element>, i: nat)
    requires i < |ll|
    ensures |Cut(ll, i)| == |ll| - 1
  {
  }

  lemma LinkedPushed(ll: seq<Element>, entries: Index, e: Element)
    requires Linked(ll, entries) && e.key !in entries
    ensures Linked([e] + ll, entries[e.key := e])
  {
    var pushed := [e] + ll;
    forall key | key in entries ensures entries[key] in pushed {
      var j :| 0 <= j < |ll| && ll[j] == entries[key];
      assert pushed[j + 1] == ll[j];
    }
  }

  lemma LinkedMoved(ll: seq<Element>, entries: Index, i: nat)
    requires Linked(ll, entries) && i < |ll|
    ensures Linked([ll[i]] + Cut(ll, i), entries)
  {
    hide Cut;
    LinkedCut(ll, entries, i);
    LinkedPushed(Cut(ll, i), entries - {ll[i].key}, ll[i]);
    assert (entries - {ll[i].key})[ll[i].key := ll[i]] == entries;
  }

  lemma ValuesCut(ll: seq<Element>, entries: Index, i: nat)
    requires Linked(ll, entries) && i < |ll|
    ensures Values(Cut(ll, i)) == Without(Values(ll), ll[i].key)
    ensures Size(Values(ll)) == |ll[i].value| + Size(Values(Cut(ll, i)))
  {
    hide Linked, Without, Size, DistinctKeys;
    KeysDistinct(ll, entries);
    WithoutAt(Values(ll), i);
    assert Values(Cut(ll, i)) == Values(ll)[..i] + Values(ll)[i + 1..];
  }

  /** The place of a key's element; a key that is not in the map is not in the list. */
  lemma Place(ll: seq<Element>, entries: Index, key: string) returns (i: nat)
    requires Linked(ll, entries)
    ensures Find(Values(ll), key).Some? <==> key in entries
    ensures key in entries ==> i < |ll| && ll[i] == entries[key] && Find(Values(ll), key) == Some(ll[i].value)
    ensures key !in entries ==> Without(Values(ll), key) == Values(ll)
  {
    i := 0;
    KeysDistinct(ll, entries);
    FindExactly(Values(ll), key);
    if key in entries {
      i :| i < |ll| && ll[i] == entries[key];
      assert Values(ll)[i].key == key;
    } else {
      assert forall j | 0 <= j < |ll| :: Values(ll)[j].key in entries;
      WithoutAbsent(Values(ll), key);
    }
  }

  lemma ValuesFront(e: Element, rest: seq<Element>)
    ensures Values([e] + rest) == [Entry(e.key, e.value)] + Values(rest)
    ensures Size(Values([e] + rest)) == |e.value| + Size(Values(rest))
  {
    assert Values([e] + rest) == [Entry(e.key, e.value)] + Values(rest);
    assert Values([e] + rest)[1..] == Values(rest);
  }

  lemma PlaceUnique(ll: seq<Element>, entries: Index, i: nat, k: nat)
    requires Linked(ll, entries) && i < |ll| && k < |ll| && ll[i] == ll[k]
    ensures i == k
  {
  }

  class Shard {
    const maxBytes: int
    var size: int
    var ll: seq<Element>
    var entries: Index

    ghost function Contents(): Contents
      reads this, ll
    {
      Values(ll)
    }

    ghost predicate Valid()
      reads this, ll
    {
      Linked(ll, entries) && size == Size(Contents())
    }

    constructor (maxBytes: int)
      ensures Valid() && Contents() == [] && this.maxBytes == maxBytes
    {
      this.maxBytes := maxBytes;
      size, ll, entries := 0, [], map[];
    }

    /** `Get`: a hit returns the stored value and becomes the most recently used. */
    method Lookup(key: string) returns (found: Option<seq<byte>>)
      requires Valid()
      modifies this`ll
      ensures Valid() && found == Find(old(Contents()), key)
      ensures Contents() == Apply(old(Contents()), Get(key), maxBytes)
      ensures forall e | e in ll :: e in old(ll)
    {
      hide Linked, Find, Without, Size, Values, Cut;
      ghost var i := Place(ll, entries, key);
      if key !in entries {
        return None;
      }
      KeyAt(ll, entries, key);
      ValuesCut(ll, entries, i);
      LinkedMoved(ll, entries, i);
      CutMembers(ll, i);
      ghost var rest := Cut(ll, i);
      MoveToFront(entries[key], i);
      ValuesFront(entries[key], rest);
      found := Some(entries[key].value);
    }

    /** The element becomes the first of the list. */
    method MoveToFront(element: Element, ghost i: nat)
      requires Linked(ll, entries) && i < |ll| && ll[i] == element
      modifies this`ll
      ensures ll == [element] + Cut(old(ll), i)
      ensures Values(Cut(old(ll), i)) == old(Values(Cut(ll, i)))
    {
      hide Linked;
      var k: nat :| k < |ll| && ll[k] == element;
      PlaceUnique(ll, entries, i, k);
      ll := [element] + (ll[..k] + ll[k + 1..]);
    }

    /** The element leaves the list. */
    method Detach(element: Element, ghost i: nat)
      requires Linked(ll, entries) && i < |ll| && ll[i] == element
      modifies this`ll
      ensures ll == Cut(old(ll), i) && Values(ll) == old(Values(Cut(ll, i)))
    {
      hide Linked;
      var k: nat :| k < |ll| && ll[k] == element;
      PlaceUnique(ll, entries, i, k);
      ll := ll[..k] + ll[k + 1..];
    }

    method Delete(key: string)
      requires Valid()
      modifies this
      ensures Valid() && Contents() == Apply(old(Contents()), Remove(key), maxBytes)
      ensures forall e | e in ll :: e in old(ll)
    {
      hide Linked, Find, Without, Size, Values, Cut;
      ghost var i := Place(ll, entries, key);
      if key in entries {
        ValuesCut(ll, entries, i);
        LinkedCut(ll, entries, i);
        CutMembers(ll, i);
        KeyAt(ll, entries, key);
        var element := entries[key];
        size := size - |element.value|;
        Detach(element, i);
        entries := entries - {key};
      }
    }

    /** `Put`: the value comes first, in place when the key is known, and what no longer fits is evicted. */
    method Store(key: string, value: seq<byte>)
      requires Valid()
      modifies this, ll
      ensures Valid() && Contents() == Apply(old(Contents()), Put(key, value), maxBytes)
      ensures forall e | e in ll :: e in old(ll) || fresh(e)
    {
      hide Linked, Find, Without, Size, Values, Cut, Fit;
      ghost var i := Place(ll, entries, key);
      if key in entries {
        KeyAt(ll, entries, key);
        Replace(entries[key], i, value);
      } else {
        Push(key, value);
      }
      Trim();
    }

    method Replace(element: Element, ghost i: nat, value: seq<byte>)
      requires Valid() && i < |ll| && ll[i] == element
      modifies this`ll, this`size, element
      ensures Valid() && Contents() == [Entry(element.key, value)] + Without(old(Contents()), element.key)
      ensures forall e | e in ll :: e in old(ll)
    {
      hide Linked, Find, Without, Size, Values, Cut;
      ValuesCut(ll, entries, i);
      CutApart(ll, entries, i);
      LinkedMoved(ll, entries, i);
      CutMembers(ll, i);
      size := size - |element.value|;
      SetValue(element, value, Cut(ll, i));
      size := size + |element.value|;
      ghost var rest := Cut(ll, i);
      MoveToFront(element, i);
      ValuesFront(element, rest);
    }

    /** Other elements keep their values. */
    method SetValue(element: Element, value: seq<byte>, ghost others: seq<Element>)
      requires element !in others
      modifies element
      ensures element.value == value && Values(others) == old(Values(others))
    {
      element.value := value;
    }

    method Push(key: string, value: seq<byte>)
      requires Valid() && key !in entries
      modifies this
      ensures Valid() && Contents() == [Entry(key, value)] + old(Contents())
      ensures forall e | e in ll :: e in old(ll) || fresh(e)
    {
      hide Linked, Find, Without, Size, Values, Cut;
      var element := new Element(key, value);
      LinkedPushed(ll, entries, element);
      ValuesFront(element, ll);
      ll := [element] + ll;
      entries := entries[key := element];
      size := size + |value|;
    }

    /** Evict from the back until the rest fits. */
    method Trim()
      requires Valid()
      modifies this
      ensures Valid() && Contents() == Fit(old(Contents()), maxBytes)
      ensures ll <= old(ll)
    {
      hide Linked, Size, Values, Cut;
      while maxBytes > 0 && size > maxBytes && |ll| > 0
        invariant Valid() && ll <= old(ll)
        invariant Fit(Contents(), maxBytes) == Fit(old(Contents()), maxBytes)
        decreases |ll|
      {
        var element := ll[|ll| - 1];
        LastCut(ll, entries);
        entries := entries - {element.key};
        size := size - |element.value|;
        ll := ll[..|ll| - 1];
      }
      EmptySize(ll);
    }
  }

  lemma EmptySize(ll: seq<Element>)
    ensures ll == [] ==> Size(Values(ll)) == 0
  {
  }

  lemma LastCut(ll: seq<Element>, entries: Index)
    requires Linked(ll, entries) && ll != []
    ensures var n := |ll| - 1;
      && Linked(ll[..n], entries - {ll[n].key})
      && |Values(ll)| == |ll| && Values(ll[..n]) == Values(ll)[..n]
      && Size(Values(ll)) == |ll[n].value| + Size(Values(ll[..n]))
  {
    var n := |ll| - 1;
    assert Cut(ll, n) == ll[..n];
    LinkedCut(ll, entries, n);
    ValuesCut(ll, entries, n);
    assert Values(ll[..n]) == Values(ll)[..n];
  }

  lemma KeyAt(ll: seq<Element>, entries: Index, key: string)
    requires Linked(ll, entries) && key in entries
    ensures entries[key].key == key && entries[key] in ll
  {
  }

  lemma CutMembers(ll: seq<Element>, i: nat)
    requires i < |ll|
    ensures forall e | e in Cut(ll, i) :: e in ll
  {
  }

  lemma CutApart(ll: seq<Element>, entries: Index, i: nat)
    requires Linked(ll, entries) && i < |ll|
    ensures ll[i] !in Cut(ll, i)
  {
    var cut := Cut(ll, i);
    forall j | 0 <= j < |cut| ensures cut[j] != ll[i] {
      assert cut[j] == if j < i then ll[j] else ll[j + 1];
    }
  }
}
