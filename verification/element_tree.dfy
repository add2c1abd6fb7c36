/**
 * The part of lxml's ElementTree API that the context.xml rewrite relies on,
 * restricted to the direct children of one root element. `find` and `findall`
 * with a bare tag look one level deep, so a document is its root's list of
 * children; an element is its tag and its attributes.
 */
module ElementTree {

  datatype Option<+T> = None | Some(value: T)

  /** One child of the root: its tag and its attribute map. */
  datatype Element = Element(tag: string, attrs: map<string, string>)

  /** `element.get(key)`: the attribute's value, or None when the element has no such attribute. */
  function Get(e: Element, key: string): Option<string>
  {
    if key in e.attrs then Some(e.attrs[key]) else None
  }

  /** `element.set(key, value)`: afterwards `get(key)` yields `value` and every other attribute reads as before. */
  function Set(e: Element, key: string, value: string): (r: Element)
    ensures r.tag == e.tag
    ensures Get(r, key) == Some(value)
    ensures forall k :: k != key ==> Get(r, k) == Get(e, k)
  {
    e.(attrs := e.attrs[key := value])
  }

  /** `parent.find(tag)`: the index of the first child whose tag is `tag`, or None when there is none. */
  function Find(children: seq<Element>, tag: string): (r: Option<nat>)
    ensures r.Some? ==> r.value < |children| && children[r.value].tag == tag
    ensures r.Some? ==> forall j :: 0 <= j < r.value ==> children[j].tag != tag
    ensures r.None? ==> forall j :: 0 <= j < |children| ==> children[j].tag != tag
  {
    if children == [] then None
    else if children[0].tag == tag then Some(0)
    else match Find(children[1..], tag)
      case None => None
      case Some(i) => Some(i + 1)
  }

  /**
   * `parent.findall(tag)`: the indices of every child whose tag is `tag`, in
   * document order. Its properties are the three lemmas below, stated one index
   * at a time.
   */
  function FindAll(children: seq<Element>, tag: string): seq<nat>
  {
    if children == [] then []
    else
      var last := |children| - 1;
      FindAll(children[..last], tag) + (if children[last].tag == tag then [last] else [])
  }

  /** Every index `findall` lists is a child with the tag. */
  lemma {:induction false} FindAllAt(children: seq<Element>, tag: string, m: nat)
    requires m < |FindAll(children, tag)|
    ensures FindAll(children, tag)[m] < |children| && children[FindAll(children, tag)[m]].tag == tag
  {
    var last := |children| - 1;
    if m < |FindAll(children[..last], tag)| {
      FindAllAt(children[..last], tag, m);
    }
  }

  /** Every child with the tag is listed by `findall`. */
  lemma {:induction false} FindAllComplete(children: seq<Element>, tag: string, k: nat)
    requires k < |children|
    ensures children[k].tag == tag ==> k in FindAll(children, tag)
  {
    var last := |children| - 1;
    if k < last {
      FindAllComplete(children[..last], tag, k);
    }
  }

  /** `findall` lists the children in document order. */
  lemma {:induction false} FindAllOrdered(children: seq<Element>, tag: string, m: nat, n: nat)
    requires m < n < |FindAll(children, tag)|
    ensures FindAll(children, tag)[m] < FindAll(children, tag)[n]
  {
    var last := |children| - 1;
    var front := FindAll(children[..last], tag);
    if n < |front| {
      FindAllOrdered(children[..last], tag, m, n);
    } else {
      FindAllAt(children[..last], tag, m);
    }
  }

  /** Comparing two listed indices compares their places in the list. */
  lemma FindAllMonotone(children: seq<Element>, tag: string, m: nat, n: nat)
    requires m < |FindAll(children, tag)| && n < |FindAll(children, tag)|
    ensures FindAll(children, tag)[m] < FindAll(children, tag)[n] <==> m < n
  {
    if m < n {
      FindAllOrdered(children, tag, m, n);
    } else if n < m {
      FindAllOrdered(children, tag, n, m);
    }
  }

  /** Find answers with the first child carrying the tag: any index so characterised is its answer. */
  lemma FindIs(children: seq<Element>, tag: string, i: nat)
    requires i < |children| && children[i].tag == tag
    requires forall j :: 0 <= j < i ==> children[j].tag != tag
    ensures Find(children, tag) == Some(i)
  {
  }

  /** Replacing a child by one with the same tag does not change what `find` answers, for any tag. */
  lemma {:induction false} FindAfterUpdate(children: seq<Element>, i: nat, x: Element, tag: string)
    requires i < |children| && x.tag == children[i].tag
    ensures Find(children[i := x], tag) == Find(children, tag)
  {
    if i > 0 && children[0].tag != tag {
      assert children[i := x][1..] == children[1..][i - 1 := x];
      FindAfterUpdate(children[1..], i - 1, x, tag);
    }
  }
}
